/** Two requests on one encrypted session: each call has its own buffer of undecrypted
    bytes, and what the first leaves in it is lost to the second. */
module HapCalls {
  import opened Common
  import opened HapSession

  // ----------------------------------------------------------- one call after another

  /** The first n bytes of the stream end where a block ends. */
  ghost predicate EndsOnBlock(parts: seq<Bytes>, n: nat) {
    exists k :: 0 <= k <= |parts| && WireLength(parts[..k]) == n
  }

  lemma LaterPrefixLonger(parts: seq<Bytes>, j: nat, k: nat)
    requires j < k <= |parts|
    ensures WireLength(parts[..j]) + 18 <= WireLength(parts[..k])
  {
    assert parts[..k] == parts[..j] + parts[j..k];
    WireLengthConcat(parts[..j], parts[j..k]);
  }

  lemma EndsOnBlockIff(parts: seq<Bytes>, n: nat)
    ensures EndsOnBlock(parts, n) <==> WireLength(parts[..WholeBlocks(parts, n)]) == n
  {
    var k := WholeBlocks(parts, n);
    WholeBlocksIsLongest(parts, n);
    hide WholeBlocks, WireLength;
    if EndsOnBlock(parts, n) {
      var j :| 0 <= j <= |parts| && WireLength(parts[..j]) == n;
      if j < k { LaterPrefixLonger(parts, j, k); }
    }
  }

  /** A call holds undecrypted bytes exactly unless the reads end where a block ends. */
  lemma EmptyBufferIff(c: Cipher, start: U64, parts: seq<Bytes>, fragments: seq<Bytes>)
    requires Ideal(c) && Framable(parts) && Flatten(fragments) <= Wire(c, start, parts)
    ensures ReceiveAll(c, Deframer([], start, [], None), fragments).buf == []
            <==> EndsOnBlock(parts, |Flatten(fragments)|)
  {
    hide *;
    ReceiveWhole(c, start, parts, fragments);
    StateAtIs(c, start, parts, |Flatten(fragments)|);
    EndsOnBlockIff(parts, |Flatten(fragments)|);
  }

  /** What two calls on one session do. The buffer of undecrypted bytes lives for one call,
      the block counter goes on. */
  function TwoCalls(c: Cipher, start: U64, first: seq<Bytes>, second: seq<Bytes>): Deframer {
    var one := ReceiveAll(c, Deframer([], start, [], None), first);
    var two := ReceiveAll(c, Deframer([], one.count, [], None), second);
    two.(fed := one.fed + two.fed)
  }

  function OneCall(c: Cipher, start: U64, first: seq<Bytes>, second: seq<Bytes>): Deframer {
    ReceiveAll(c, Deframer([], start, [], None), first + second)
  }

  /** Two calls, the first of which ends on a block, do what one call over all the reads would. */
  lemma SecondCallResumes(c: Cipher, start: U64, messages: seq<Bytes>, first: seq<Bytes>, second: seq<Bytes>)
    requires Ideal(c) && Flatten(first + second) <= SendAll(c, start, messages)
    requires EndsOnBlock(AllChunks(messages), |Flatten(first)|)
    ensures TwoCalls(c, start, first, second) == OneCall(c, start, first, second)
  {
    var parts := AllChunks(messages);
    SendAllIsOneWire(c, start, messages);
    hide *;
    var wire, n, m := Wire(c, start, parts), |Flatten(first)|, |Flatten(second)|;
    assert wire[0..] == wire;
    FlattenConcat(first, second);
    PrefixSplit(wire, 0, Flatten(first), Flatten(second));
    ReceiveWhole(c, start, parts, first);
    ReceiveWhole(c, start, parts, first + second);
    StateAtIs(c, start, parts, n);
    var k := WholeBlocks(parts, n);
    EndsOnBlockIff(parts, n);
    WireFrom(c, start, parts, k);
    ReceiveWhole(c, Later(start, k), parts[k..], second);
    StateAtIs(c, Later(start, k), parts[k..], m);
    StateAtSplits(c, start, parts, k, n + m);
    TwoCallsIs(c, start, first, second);
  }

  lemma TwoCallsIs(c: Cipher, start: U64, first: seq<Bytes>, second: seq<Bytes>)
    ensures OneCall(c, start, first, second) == ReceiveAll(c, Deframer([], start, [], None), first + second)
    ensures var one := ReceiveAll(c, Deframer([], start, [], None), first);
            var two := ReceiveAll(c, Deframer([], one.count, [], None), second);
            TwoCalls(c, start, first, second) == Deframer(two.buf, two.count, one.fed + two.fed, two.error)
  {
  }

  /** Whatever may still arrive, two calls do what one would exactly when the first ends on a block. */
  lemma SecondCallResumesIff(c: Cipher, start: U64, messages: seq<Bytes>, first: seq<Bytes>)
    requires Ideal(c) && Flatten(first) <= SendAll(c, start, messages)
    ensures (forall second :: Flatten(first + second) <= SendAll(c, start, messages)
                              ==> TwoCalls(c, start, first, second) == OneCall(c, start, first, second))
            <==> EndsOnBlock(AllChunks(messages), |Flatten(first)|)
  {
    hide *;
    if EndsOnBlock(AllChunks(messages), |Flatten(first)|) {
      forall second | Flatten(first + second) <= SendAll(c, start, messages)
        ensures TwoCalls(c, start, first, second) == OneCall(c, start, first, second)
      {
        SecondCallResumes(c, start, messages, first, second);
      }
    } else {
      SendAllIsOneWire(c, start, messages);
      EmptyBufferIff(c, start, AllChunks(messages), first);
      TwoCallsIs(c, start, first, []);
      assert first + [] == first;
      ReceiveNothing(c, ReceiveAll(c, Deframer([], start, [], None), first).count);
      assert TwoCalls(c, start, first, []) != OneCall(c, start, first, []);
    }
  }

  lemma ReceiveNothing(c: Cipher, count: U64)
    ensures ReceiveAll(c, Deframer([], count, [], None), []) == Deframer([], count, [], None)
  {
  }

  // ---------------------------------------------------------- nothing makes up for it

  /** What opens is as long as its ciphertext, as with any stream cipher. */
  ghost predicate KeepsLength(c: Cipher) {
    forall nonce, aad, text, tag ::
      var plain := c.open(nonce, aad, text, tag);
      plain.Some? ==> |plain.value| == |text|
  }

  lemma OpenedLength(c: Cipher, nonce: Bytes, aad: Bytes, text: Bytes, tag: Bytes)
    requires KeepsLength(c) && c.open(nonce, aad, text, tag).Some?
    ensures |c.open(nonce, aad, text, tag).value| == |text|
  {
  }

  /** k blocks later: every byte is in the buffer, in the text fed, or in the frame of a block. */
  ghost predicate Accounts(s: Deframer, t: Deframer, arrived: nat, k: nat) {
    t.count == Later(s.count, k) && |t.buf| + |t.fed| + 18 * k == |s.buf| + |s.fed| + arrived
  }

  /** Draining stops, fails, or goes on from t with one block less. */
  lemma DrainUnroll(c: Cipher, s: Deframer) returns (t: Deframer)
    requires KeepsLength(c) && s.error.None?
    ensures Drain(c, s) == s || Drain(c, s).error.Some?
            || (t.error.None? && |t.buf| < |s.buf| && Drain(c, s) == Drain(c, t) && Accounts(s, t, 0, 1))
  {
    t := s;
    if |s.buf| >= 2 {
      var len := FromLittleEndian16(s.buf);
      var total := 2 + len + 16;
      if |s.buf| >= total {
        var block := s.buf[..total];
        assert FromLittleEndian16(block) == len;
        var r := OpenBlock(c, s.count, block);
        if r.Ok? {
          t := Deframer(s.buf[total..], Later(s.count, 1), s.fed + r.value.0, s.error);
          var plain := c.open(Nonce(s.count), block[..2], block[2..2 + len], block[2 + len..2 + len + 16]);
          assert plain == Some(r.value.0);
          OpenedLength(c, Nonce(s.count), block[..2], block[2..2 + len], block[2 + len..2 + len + 16]);
        }
      }
    }
  }

  lemma {:induction false} DrainAccounts(c: Cipher, s: Deframer) returns (k: nat)
    requires KeepsLength(c) && s.error.None?
    ensures Drain(c, s).error.None? ==> Accounts(s, Drain(c, s), 0, k)
    decreases |s.buf|
  {
    hide Drain, KeepsLength, Later;
    k := 0;
    var t := DrainUnroll(c, s);
    if Drain(c, s) == s {
      LaterZero(s.count);
    } else if Drain(c, s).error.None? {
      var rest := DrainAccounts(c, t);
      LaterStep(s.count, rest);
      k := rest + 1;
    }
  }

  lemma {:induction false} ReceiveAccounts(c: Cipher, s: Deframer, fragments: seq<Bytes>) returns (k: nat)
    requires KeepsLength(c) && s.error.None?
    ensures ReceiveAll(c, s, fragments).error.None?
            ==> Accounts(s, ReceiveAll(c, s, fragments), |Flatten(fragments)|, k)
    decreases |fragments|
  {
    hide Drain, KeepsLength, Later;
    k := 0;
    ReceiveUnroll(c, s, fragments);
    if fragments == [] {
      LaterZero(s.count);
    } else {
      var t := s.(buf := s.buf + fragments[0]);
      var taken := DrainAccounts(c, t);
      var u := Drain(c, t);
      if u.error.None? {
        var rest := ReceiveAccounts(c, u, fragments[1..]);
        LaterSum(s.count, taken, rest);
        k := taken + rest;
      }
    }
  }

  lemma {:induction false} ChunksSmall(messages: seq<Bytes>)
    ensures forall i :: 0 <= i < |AllChunks(messages)| ==> |AllChunks(messages)[i]| <= 1024
  {
    if messages != [] {
      ChunksCorrect(messages[0]);
      ChunksSmall(messages[1..]);
      var parts := AllChunks(messages);
      forall i | 0 <= i < |parts| ensures |parts[i]| <= 1024 {
        if i < |Chunks(messages[0])| { assert parts[i] in Chunks(messages[0]); }
      }
    }
  }

  /** Less than one block is held. */
  lemma HeldIsShort(parts: seq<Bytes>, n: nat)
    requires n <= WireLength(parts) && forall i :: 0 <= i < |parts| ==> |parts[i]| <= 1024
    ensures n - WireLength(parts[..WholeBlocks(parts, n)]) < 1042
  {
    var k := WholeBlocks(parts, n);
    WholeBlocksIsLongest(parts, n);
    if k < |parts| {
      assert parts[..k + 1] == parts[..k] + [parts[k]];
      WireLengthConcat(parts[..k], [parts[k]]);
      assert WireLength([parts[k]]) == |parts[k]| + 18;
    } else {
      assert parts[..k] == parts;
    }
  }

  /** Equal counters after i and j blocks are a multiple of 2^64 blocks apart. */
  lemma SameCounter(start: U64, i: nat, j: nat)
    requires Later(start, i) == Later(start, j) && i != j
    ensures i >= j + COUNTER_LIMIT || j >= i + COUNTER_LIMIT
  {
  }

  lemma FirstHolds(c: Cipher, start: U64, messages: seq<Bytes>, first: seq<Bytes>)
    requires Ideal(c) && Flatten(first) <= SendAll(c, start, messages)
    requires !EndsOnBlock(AllChunks(messages), |Flatten(first)|)
    ensures var one := ReceiveAll(c, Deframer([], start, [], None), first);
            one.error.None? && 0 < |one.buf| < 1042
  {
    hide *;
    var parts, n := AllChunks(messages), |Flatten(first)|;
    SendAllIsOneWire(c, start, messages);
    ReceiveWhole(c, start, parts, first);
    EmptyBufferIff(c, start, parts, first);
    StateAtIs(c, start, parts, n);
    WireHasLength(c, start, parts);
    ChunksSmall(messages);
    HeldIsShort(parts, n);
  }

  lemma SumOfCalls(one: Deframer, two: Deframer, both: Deframer, start: U64, n: nat, m: nat, i: nat, j: nat, all: nat)
    requires Accounts(Deframer([], start, [], None), one, n, i) && 0 < |one.buf| < 1042
    requires Accounts(Deframer([], one.count, [], None), two, m, j)
    requires Accounts(Deframer([], start, [], None), both, n + m, all)
    ensures Deframer(two.buf, two.count, one.fed + two.fed, None) != both
  {
    LaterSum(start, i, j);
    hide Later;
    if Deframer(two.buf, two.count, one.fed + two.fed, None) == both {
      assert |one.buf| == 18 * (all - (i + j));
      SameCounter(start, i + j, all);
      assert false;
    }
  }

  /** Off a block nothing that arrives later makes up for the bytes dropped: the two calls
      never do what one would, whatever the second one reads. */
  lemma LeftoverNeverRecovered(c: Cipher, start: U64, messages: seq<Bytes>, first: seq<Bytes>, second: seq<Bytes>)
    requires Ideal(c) && KeepsLength(c) && Flatten(first + second) <= SendAll(c, start, messages)
    requires !EndsOnBlock(AllChunks(messages), |Flatten(first)|)
    ensures TwoCalls(c, start, first, second) != OneCall(c, start, first, second)
  {
    hide *;
    var parts := AllChunks(messages);
    SendAllIsOneWire(c, start, messages);
    FlattenConcat(first, second);
    var idle := Deframer([], start, [], None);
    var one := ReceiveAll(c, idle, first);
    var two := ReceiveAll(c, Deframer([], one.count, [], None), second);
    TwoCallsIs(c, start, first, second);
    FirstHolds(c, start, messages, first);
    var both := OneCall(c, start, first, second);
    ReceiveWhole(c, start, parts, first + second);
    StateAtIs(c, start, parts, |Flatten(first + second)|);
    if two.error.None? {
      var i := ReceiveAccounts(c, idle, first);
      var j := ReceiveAccounts(c, Deframer([], one.count, [], None), second);
      var all := ReceiveAccounts(c, idle, first + second);
      SumOfCalls(one, two, both, start, |Flatten(first)|, |Flatten(second)|, i, j, all);
    }
  }

  /** A cipher that hides nothing, for the example below. */
  function Transparent(): (c: Cipher)
    ensures Ideal(c) && Authentic(c) && KeepsLength(c)
  {
    Cipher((_, _, text) => (text, NO_TAG), (_, _, text, tag) => if tag == NO_TAG then Some(text) else None)
  }

  const NO_TAG: Bytes := seq(16, _ => 0)

  const REST_OF_BLOCK: Bytes := [0, 5] + seq(16, _ => 0)

  lemma ExampleWire()
    ensures SendAll(Transparent(), 0, [[5]]) == [1] + REST_OF_BLOCK && Flatten<Byte>([[5]]) == [5]
  {
    var c, message: Bytes := Transparent(), [5];
    assert Chunks(message) == [message];
    var block := Block(c, 0, message);
    assert block == [1, 0] + [5] + seq(16, _ => 0);
    assert [message][1..] == [];
    assert Wire(c, 0, [message]) == block + Wire(c, Later(0, 1), []);
    assert SendAll(c, 0, [message]) == block + SendAll(c, Later(0, 1), []);
    FlattenSingle(message);
  }

  /** Otherwise the bytes held are dropped with the buffer, and the next call starts in
      the middle of a block: here a message cut after its first byte is never fed. */
  lemma LeftoverLostExample()
    ensures var c := Transparent();
            var one := ReceiveAll(c, Deframer([], 0, [], None), [[1]]);
            var two := ReceiveAll(c, Deframer([], one.count, [], None), [REST_OF_BLOCK]);
            && [1] + REST_OF_BLOCK == SendAll(c, 0, [[5]])
            && one.error.None? && two.error.None? && one.fed + two.fed == []
  {
    ExampleWire();
    ReceiveOne(Transparent(), 0, [1]);
    assert FromLittleEndian16(REST_OF_BLOCK) == 1280;
    ReceiveOne(Transparent(), 0, REST_OF_BLOCK);
  }

  /** A read too short for the block its first bytes announce is only stored. */
  lemma ReceiveOne(c: Cipher, count: U64, chunk: Bytes)
    requires |chunk| < 2 || |chunk| < 18 + FromLittleEndian16(chunk)
    ensures ReceiveAll(c, Deframer([], count, [], None), [chunk]) == Deframer(chunk, count, [], None)
  {
    assert [] + chunk == chunk && [chunk][1..] == [];
    var s := Deframer(chunk, count, [], None);
    assert Drain(c, s) == s;
    ReceiveUnroll(c, s, []);
  }
}
