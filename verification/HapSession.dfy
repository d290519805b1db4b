/** The encrypted control channel: blocks of at most 1024 bytes, each framed by a
    two-byte length and sealed with ChaCha20-Poly1305 (section 2.8 of RFC 8439)
    under a counter nonce, and the loop that takes the blocks out of a TCP stream. */
module HapSession {
  import opened Common

  type Bytes = seq<Byte>

  const COUNTER_LIMIT: nat := 0x1_0000_0000_0000_0000

  type U64 = n: int | 0 <= n < COUNTER_LIMIT

  /** A sealing key: nonce, associated data and text to ciphertext and tag, and back. */
  datatype Cipher = Cipher(
    seal: (Bytes, Bytes, Bytes) -> (Bytes, Bytes),
    open: (Bytes, Bytes, Bytes, Bytes) -> Option<Bytes>)

  /** What is assumed of the cipher: ciphertext as long as the text, a 16-byte tag,
      and opening what was sealed under the same nonce and header returns the text. */
  ghost predicate Ideal(c: Cipher) {
    forall nonce, aad, text ::
      var sealed := c.seal(nonce, aad, text);
      && |sealed.0| == |text| && |sealed.1| == 16
      && c.open(nonce, aad, sealed.0, sealed.1) == Some(text)
  }

  /** Nothing opens but what sealing yields: the tag is recomputed and compared. */
  ghost predicate Authentic(c: Cipher) {
    forall nonce, aad, body, tag ::
      var text := c.open(nonce, aad, body, tag);
      text.Some? ==> c.seal(nonce, aad, text.value) == (body, tag)
  }

  datatype Error = TooSmall | Incomplete | BadTag

  // ------------------------------------------------------------------ encoding

  function LittleEndian16(n: nat): (b: Bytes)
    requires n < 65536
    ensures |b| == 2
  {
    [n % 256, n / 256]
  }

  function FromLittleEndian16(b: Bytes): (n: nat)
    requires |b| >= 2
  {
    b[0] as int + 256 * b[1] as int
  }

  function LittleEndian(n: nat, width: nat): (b: Bytes)
    ensures |b| == width
  {
    if width == 0 then [] else [n % 256] + LittleEndian(n / 256, width - 1)
  }

  function FromLittleEndian(b: Bytes): (n: nat) {
    if b == [] then 0 else b[0] as int + 256 * FromLittleEndian(b[1..])
  }

  function Power256(k: nat): (n: nat)
    ensures n > 0
  {
    if k == 0 then 1 else 256 * Power256(k - 1)
  }

  lemma {:induction false} LittleEndianRoundTrip(n: nat, width: nat)
    requires n < Power256(width)
    ensures FromLittleEndian(LittleEndian(n, width)) == n
  {
    if width > 0 {
      LittleEndianRoundTrip(n / 256, width - 1);
      assert LittleEndian(n, width)[1..] == LittleEndian(n / 256, width - 1);
    }
  }

  /** Four zero bytes and the block counter. */
  function Nonce(count: U64): (b: Bytes)
    ensures |b| == 12
  {
    [0, 0, 0, 0] + LittleEndian(count, 8)
  }

  lemma NonceInjective(i: U64, j: U64)
    requires Nonce(i) == Nonce(j)
    ensures i == j
  {
    assert Power256(8) == COUNTER_LIMIT by {
      assert Power256(4) == 0x1_0000_0000;
    }
    assert Nonce(i)[4..] == LittleEndian(i, 8) && Nonce(j)[4..] == LittleEndian(j, 8);
    LittleEndianRoundTrip(i, 8);
    LittleEndianRoundTrip(j, 8);
  }

  /** The 64-bit counter after k more blocks. */
  function Later(count: U64, k: nat): U64 {
    (count + k) % COUNTER_LIMIT
  }

  lemma LaterStep(count: U64, k: nat)
    ensures Later(Later(count, 1), k) == Later(count, k + 1)
  {
  }

  // ------------------------------------------------------------------- framing

  /** A message cut into pieces of 1024 bytes, the last one shorter. */
  function Chunks(data: Bytes): (parts: seq<Bytes>)
  {
    if data == [] then []
    else if |data| <= 1024 then [data]
    else [data[..1024]] + Chunks(data[1024..])
  }

  lemma {:induction false} ChunksCorrect(data: Bytes)
    ensures Flatten(Chunks(data)) == data
    ensures forall part :: part in Chunks(data) ==> 0 < |part| <= 1024
    ensures |Chunks(data)| == (|data| + 1023) / 1024
    ensures forall i :: 0 <= i < |Chunks(data)| - 1 ==> |Chunks(data)[i]| == 1024
  {
    if 0 < |data| <= 1024 {
      FlattenSingle(data);
    } else if |data| > 1024 {
      ChunksCorrect(data[1024..]);
      var parts := Chunks(data);
      assert parts[0] == data[..1024] && parts[1..] == Chunks(data[1024..]);
      assert data == data[..1024] + data[1024..];
    }
  }

  /** Length, ciphertext, tag. */
  function Block(c: Cipher, count: U64, text: Bytes): (block: Bytes)
    requires |text| < 65536
  {
    var header := LittleEndian16(|text|);
    var sealed := c.seal(Nonce(count), header, text);
    header + sealed.0 + sealed.1
  }

  ghost predicate Framable(parts: seq<Bytes>) {
    forall i :: 0 <= i < |parts| ==> |parts[i]| < 65536
  }

  /** The blocks of a list of pieces, numbered from `count`. */
  function Wire(c: Cipher, count: U64, parts: seq<Bytes>): (w: Bytes)
    requires Framable(parts)
    decreases |parts|
  {
    if parts == [] then [] else
      assert parts[0] in parts;
      Block(c, count, parts[0]) + Wire(c, Later(count, 1), parts[1..])
  }

  lemma BlockLength(c: Cipher, count: U64, text: Bytes)
    requires Ideal(c) && |text| < 65536
    ensures |Block(c, count, text)| == |text| + 18
    ensures Block(c, count, text)[..2] == LittleEndian16(|text|)
    ensures FromLittleEndian16(Block(c, count, text)) == |text|
  {
    var sealed := c.seal(Nonce(count), LittleEndian16(|text|), text);
    assert |sealed.0| == |text| && |sealed.1| == 16;
  }

  lemma {:induction false} WireConcat(c: Cipher, count: U64, a: seq<Bytes>, b: seq<Bytes>)
    requires Framable(a) && Framable(b)
    ensures Framable(a + b) && Wire(c, count, a + b) == Wire(c, count, a) + Wire(c, Later(count, |a|), b)
    decreases |a|
  {
    hide Block, Later;
    if a == [] {
      assert a + b == b;
      LaterZero(count);
    } else {
      assert (a + b)[0] == a[0] && (a + b)[1..] == a[1..] + b;
      LaterStep(count, |a| - 1);
      WireConcat(c, Later(count, 1), a[1..], b);
      var block, w, rest := Block(c, count, a[0]), Wire(c, Later(count, 1), a[1..]), Wire(c, Later(count, |a|), b);
      assert (block + w) + rest == block + (w + rest);
    }
  }

  /** The wire form of messages sent one after another on one session. */
  function SendAll(c: Cipher, count: U64, messages: seq<Bytes>): (w: Bytes)
    decreases |messages|
  {
    if messages == [] then [] else
      ChunksCorrect(messages[0]);
      Wire(c, count, Chunks(messages[0]))
      + SendAll(c, Later(count, |Chunks(messages[0])|), messages[1..])
  }

  function AllChunks(messages: seq<Bytes>): (parts: seq<Bytes>) {
    if messages == [] then [] else Chunks(messages[0]) + AllChunks(messages[1..])
  }

  /** One session's messages form one unbroken numbering of blocks. */
  lemma {:induction false} SendAllIsOneWire(c: Cipher, count: U64, messages: seq<Bytes>)
    ensures Framable(AllChunks(messages))
    ensures SendAll(c, count, messages) == Wire(c, count, AllChunks(messages))
    ensures Flatten(AllChunks(messages)) == Flatten(messages)
    decreases |messages|
  {
    if messages != [] {
      var first := Chunks(messages[0]);
      ChunksCorrect(messages[0]);
      SendAllIsOneWire(c, Later(count, |first|), messages[1..]);
      WireConcat(c, count, first, AllChunks(messages[1..]));
      FlattenConcat(first, AllChunks(messages[1..]));
    }
  }

  // ---------------------------------------------------------------- decryption

  /** One block off the front of the data: its text and what follows it. */
  function OpenBlock(c: Cipher, count: U64, data: Bytes): (r: Result<(Bytes, Bytes), Error>) {
    if |data| < 18 then Err(TooSmall) else
      var len := FromLittleEndian16(data);
      if |data| < 2 + len + 16 then Err(Incomplete) else
        match c.open(Nonce(count), data[..2], data[2..2 + len], data[2 + len..2 + len + 16])
        case None => Err(BadTag)
        case Some(text) => Ok((text, data[2 + len + 16..]))
  }

  lemma BlockRoundTrip(c: Cipher, count: U64, text: Bytes, more: Bytes)
    requires Ideal(c) && |text| < 65536
    ensures OpenBlock(c, count, Block(c, count, text) + more) == Ok((text, more))
  {
    BlockLength(c, count, text);
    var header := LittleEndian16(|text|);
    var sealed := c.seal(Nonce(count), header, text);
    var data := Block(c, count, text) + more;
    assert c.open(Nonce(count), header, sealed.0, sealed.1) == Some(text);
    assert data[..2] == header;
    assert data[2..2 + |text|] == sealed.0;
    assert data[2 + |text|..2 + |text| + 16] == sealed.1;
    assert data[2 + |text| + 16..] == more;
  }

  // ---------------------------------------------------------------- deframing

  /** A call in progress: bytes not yet decrypted, the block counter, the text fed
      to the response parser, and the error that ended the call, if any. */
  datatype Deframer = Deframer(buf: Bytes, count: U64, fed: Bytes, error: Option<Error>)

  /** Decrypts as many whole blocks as are buffered. */
  function Drain(c: Cipher, s: Deframer): (t: Deframer)
    decreases |s.buf|
  {
    if |s.buf| < 2 then s else
      var total := 2 + FromLittleEndian16(s.buf) + 16;
      if |s.buf| < total then s else
        match OpenBlock(c, s.count, s.buf[..total])
        case Err(e) => Deframer(s.buf[total..], s.count, s.fed, Some(e))
        case Ok((text, _)) => Drain(c, Deframer(s.buf[total..], Later(s.count, 1), s.fed + text, s.error))
  }

  function ReceiveAll(c: Cipher, s: Deframer, fragments: seq<Bytes>): (t: Deframer)
    decreases |fragments|
  {
    if fragments == [] || s.error.Some? then s
    else ReceiveAll(c, Drain(c, s.(buf := s.buf + fragments[0])), fragments[1..])
  }

  function WireLength(parts: seq<Bytes>): (n: nat) {
    if parts == [] then 0 else |parts[0]| + 18 + WireLength(parts[1..])
  }

  lemma {:induction false} WireHasLength(c: Cipher, count: U64, parts: seq<Bytes>)
    requires Ideal(c) && Framable(parts)
    ensures |Wire(c, count, parts)| == WireLength(parts)
    decreases |parts|
  {
    if parts != [] {
      BlockLength(c, count, parts[0]);
      WireHasLength(c, Later(count, 1), parts[1..]);
    }
  }

  /** How many whole blocks the first n bytes hold. */
  function WholeBlocks(parts: seq<Bytes>, n: nat): (k: nat)
    ensures k <= |parts|
  {
    if parts == [] || n < |parts[0]| + 18 then 0
    else 1 + WholeBlocks(parts[1..], n - (|parts[0]| + 18))
  }

  /** It is the longest prefix of blocks that fits. */
  lemma {:induction false} WholeBlocksIsLongest(parts: seq<Bytes>, n: nat)
    ensures var k := WholeBlocks(parts, n);
            && WireLength(parts[..k]) <= n
            && forall j :: k < j <= |parts| ==> n < WireLength(parts[..j])
  {
    if parts != [] {
      var size := |parts[0]| + 18;
      forall j | 0 < j <= |parts| ensures WireLength(parts[..j]) == size + WireLength(parts[1..][..j - 1]) {
        assert parts[..j][0] == parts[0] && parts[..j][1..] == parts[1..][..j - 1];
      }
      if n >= size {
        WholeBlocksIsLongest(parts[1..], n - size);
      }
    }
  }

  lemma WholeBlocksFit(parts: seq<Bytes>, n: nat)
    ensures WireLength(parts[..WholeBlocks(parts, n)]) <= n
  {
    WholeBlocksIsLongest(parts, n);
  }

  /** Draining a prefix of the wire form of `parts` takes out exactly its whole blocks. */
  lemma {:induction false} DrainTakesWholeBlocks(c: Cipher, s: Deframer, parts: seq<Bytes>, n: nat)
    requires Ideal(c) && Framable(parts) && s.error.None?
    requires n <= |Wire(c, s.count, parts)| && s.buf == Wire(c, s.count, parts)[..n]
    ensures var k := WholeBlocks(parts, n);
            && WireLength(parts[..k]) <= n
            && Drain(c, s) == Deframer(Wire(c, s.count, parts)[WireLength(parts[..k])..n],
                                       Later(s.count, k), s.fed + Flatten(parts[..k]), None)
    decreases |parts|
  {
    hide Ideal, Block, Later, Drain;
    if parts == [] || n < |parts[0]| + 18 {
      DrainWaits(c, s, parts, n);
      LaterZero(s.count);
      assert s.fed + Flatten(parts[..0]) == s.fed;
    } else {
      var wire, size := Wire(c, s.count, parts), |parts[0]| + 18;
      var t := Deframer(s.buf[size..], Later(s.count, 1), s.fed + parts[0], s.error);
      DrainOne(c, s, parts, n);
      DrainTakesWholeBlocks(c, t, parts[1..], n - size);
      var k := WholeBlocks(parts[1..], n - size);
      PrefixCons(parts, k);
      LaterStep(s.count, k);
      hide Wire, WireLength, Flatten;
      SliceOfSuffix(wire, size, WireLength(parts[1..][..k]), n);
      assert s.fed + parts[0] + Flatten(parts[1..][..k]) == s.fed + Flatten(parts[..k + 1]);
    }
  }

  lemma LaterZero(count: U64)
    ensures Later(count, 0) == count
  {
  }

  lemma PrefixCons(parts: seq<Bytes>, k: nat)
    requires k < |parts|
    ensures WireLength(parts[..k + 1]) == |parts[0]| + 18 + WireLength(parts[1..][..k])
    ensures Flatten(parts[..k + 1]) == parts[0] + Flatten(parts[1..][..k])
  {
    assert parts[..k + 1][0] == parts[0] && parts[..k + 1][1..] == parts[1..][..k];
  }

  /** Less than a whole block is left alone. */
  lemma DrainWaits(c: Cipher, s: Deframer, parts: seq<Bytes>, n: nat)
    requires Ideal(c) && Framable(parts)
    requires n <= |Wire(c, s.count, parts)| && s.buf == Wire(c, s.count, parts)[..n]
    requires parts == [] || n < |parts[0]| + 18
    ensures Drain(c, s) == s
  {
    if parts != [] && n >= 2 {
      BlockLength(c, s.count, parts[0]);
      var block := Block(c, s.count, parts[0]);
      assert s.buf[0] == block[0] && s.buf[1] == block[1];
    }
  }

  /** A whole block at the front is decrypted, whatever follows it. */
  lemma DrainOne(c: Cipher, s: Deframer, parts: seq<Bytes>, n: nat)
    requires Ideal(c) && Framable(parts) && s.error.None? && parts != []
    requires n <= |Wire(c, s.count, parts)| && s.buf == Wire(c, s.count, parts)[..n]
    requires n >= |parts[0]| + 18
    ensures var size := |parts[0]| + 18;
            var rest := Wire(c, Later(s.count, 1), parts[1..]);
            && Wire(c, s.count, parts)[size..] == rest
            && n - size <= |rest| && s.buf[size..] == rest[..n - size]
            && Drain(c, s) == Drain(c, Deframer(s.buf[size..], Later(s.count, 1), s.fed + parts[0], s.error))
  {
    var block, size := Block(c, s.count, parts[0]), |parts[0]| + 18;
    BlockLength(c, s.count, parts[0]);
    BlockRoundTrip(c, s.count, parts[0], []);
    hide Block, Later, OpenBlock;
    assert block + [] == block;
    assert s.buf[0] == block[0] && s.buf[1] == block[1];
    assert s.buf[..size] == block;
  }

  /** Where the call stands once n bytes of the stream have arrived. */
  ghost function StateAt(c: Cipher, start: U64, parts: seq<Bytes>, n: nat): (s: Deframer)
    requires Ideal(c) && Framable(parts) && n <= |Wire(c, start, parts)|
  {
    var k := WholeBlocks(parts, n);
    WholeBlocksFit(parts, n);
    Deframer(Wire(c, start, parts)[WireLength(parts[..k])..n], Later(start, k), Flatten(parts[..k]), None)
  }

  lemma {:induction false} WholeBlocksResumes(parts: seq<Bytes>, k: nat, n: nat)
    requires k <= |parts| && WireLength(parts[..k]) <= n
    ensures WholeBlocks(parts, n) == k + WholeBlocks(parts[k..], n - WireLength(parts[..k]))
    decreases |parts|
  {
    if k > 0 {
      assert parts[..k][0] == parts[0] && parts[..k][1..] == parts[1..][..k - 1];
      assert parts[1..][k - 1..] == parts[k..];
      WholeBlocksResumes(parts[1..], k - 1, n - (|parts[0]| + 18));
    }
  }

  lemma {:induction false} WireLengthConcat(a: seq<Bytes>, b: seq<Bytes>)
    ensures WireLength(a + b) == WireLength(a) + WireLength(b)
  {
    if a == [] {
      assert a + b == b;
    } else {
      assert (a + b)[0] == a[0] && (a + b)[1..] == a[1..] + b;
      WireLengthConcat(a[1..], b);
    }
  }

  lemma WireFrom(c: Cipher, start: U64, parts: seq<Bytes>, k: nat)
    requires Ideal(c) && Framable(parts) && k <= |parts|
    ensures Framable(parts[..k]) && Framable(parts[k..]) && WireLength(parts[..k]) <= |Wire(c, start, parts)|
    ensures Wire(c, start, parts)[WireLength(parts[..k])..] == Wire(c, Later(start, k), parts[k..])
  {
    assert parts == parts[..k] + parts[k..];
    WireConcat(c, start, parts[..k], parts[k..]);
    WireHasLength(c, start, parts[..k]);
  }

  /** One read moves the call from where n bytes put it to where n + |chunk| bytes do. */
  lemma ReadAdvances(c: Cipher, start: U64, parts: seq<Bytes>, n: nat, chunk: Bytes)
    requires Ideal(c) && Framable(parts) && n + |chunk| <= |Wire(c, start, parts)|
    requires chunk == Wire(c, start, parts)[n..n + |chunk|]
    ensures var s := StateAt(c, start, parts, n);
            Drain(c, s.(buf := s.buf + chunk)) == StateAt(c, start, parts, n + |chunk|)
  {
    hide *;
    var wire, m, k := Wire(c, start, parts), n + |chunk|, WholeBlocks(parts, n);
    var s, off := StateAt(c, start, parts, n), WireLength(parts[..k]);
    StateAtIs(c, start, parts, n);
    SliceJoin(wire, off, n, m);
    DrainFrom(c, start, parts, k, m, s.(buf := s.buf + chunk));
  }

  lemma StateAtIs(c: Cipher, start: U64, parts: seq<Bytes>, n: nat)
    requires Ideal(c) && Framable(parts) && n <= |Wire(c, start, parts)|
    ensures var k := WholeBlocks(parts, n);
            && WireLength(parts[..k]) <= n
            && StateAt(c, start, parts, n)
               == Deframer(Wire(c, start, parts)[WireLength(parts[..k])..n], Later(start, k), Flatten(parts[..k]), None)
  {
    WholeBlocksFit(parts, n);
  }

  lemma DrainFrom(c: Cipher, start: U64, parts: seq<Bytes>, k: nat, m: nat, t: Deframer)
    requires Ideal(c) && Framable(parts) && k <= |parts|
    requires WireLength(parts[..k]) <= m <= |Wire(c, start, parts)|
    requires t == Deframer(Wire(c, start, parts)[WireLength(parts[..k])..m], Later(start, k), Flatten(parts[..k]), None)
    ensures Drain(c, t) == StateAt(c, start, parts, m)
  {
    hide *;
    var wire, off := Wire(c, start, parts), WireLength(parts[..k]);
    WireFrom(c, start, parts, k);
    SliceOfSuffix(wire, off, 0, m);
    assert t.buf == Wire(c, t.count, parts[k..])[..m - off];
    DrainTakesWholeBlocks(c, t, parts[k..], m - off);
    StateAtSplits(c, start, parts, k, m);
  }

  /** The state at m bytes, counted from a block boundary before them. */
  lemma StateAtSplits(c: Cipher, start: U64, parts: seq<Bytes>, k: nat, m: nat)
    requires Ideal(c) && Framable(parts) && k <= |parts|
    requires WireLength(parts[..k]) <= m <= |Wire(c, start, parts)|
    ensures var off := WireLength(parts[..k]);
            var j := WholeBlocks(parts[k..], m - off);
            var rest := Wire(c, start, parts)[off..];
            && WireLength(parts[k..][..j]) <= m - off
            && StateAt(c, start, parts, m)
               == Deframer(rest[WireLength(parts[k..][..j])..m - off],
                           Later(Later(start, k), j), Flatten(parts[..k]) + Flatten(parts[k..][..j]), None)
  {
    hide *;
    var wire, off := Wire(c, start, parts), WireLength(parts[..k]);
    var j := WholeBlocks(parts[k..], m - off);
    StateAtIs(c, start, parts, m);
    WholeBlocksResumes(parts, k, m);
    WholeBlocksFit(parts[k..], m - off);
    LaterSum(start, k, j);
    var head, tail := parts[..k], parts[k..][..j];
    TakeSplit(parts, k, j);
    WireLengthConcat(head, tail);
    FlattenConcat(head, tail);
    SliceOfSuffix(wire, off, WireLength(tail), m);
  }

  lemma SliceJoin(w: Bytes, from: nat, mid: nat, to: nat)
    requires from <= mid <= to <= |w|
    ensures w[from..mid] + w[mid..to] == w[from..to]
  {
  }

  lemma TakeSplit(parts: seq<Bytes>, k: nat, j: nat)
    requires k + j <= |parts|
    ensures parts[..k + j] == parts[..k] + parts[k..][..j]
  {
  }

  lemma PrefixSplit(w: Bytes, n: nat, chunk: Bytes, rest: Bytes)
    requires n <= |w| && chunk + rest <= w[n..]
    ensures n + |chunk| + |rest| <= |w|
    ensures chunk == w[n..n + |chunk|] && rest <= w[n + |chunk|..]
  {
    assert chunk == (chunk + rest)[..|chunk|] == w[n..][..|chunk|];
    assert rest == (chunk + rest)[|chunk|..];
    assert w[n..][|chunk|..] == w[n + |chunk|..];
  }

  lemma SliceOfSuffix(w: Bytes, off: nat, from: nat, to: nat)
    requires off + from <= to <= |w|
    ensures w[off..][from..to - off] == w[off + from..to]
  {
  }

  lemma LaterSum(count: U64, i: nat, j: nat)
    ensures Later(Later(count, i), j) == Later(count, i + j)
  {
  }

  lemma {:induction false} ReceiveFrom(c: Cipher, start: U64, parts: seq<Bytes>, n: nat, fragments: seq<Bytes>)
    requires Ideal(c) && Framable(parts) && n <= |Wire(c, start, parts)|
    requires Flatten(fragments) <= Wire(c, start, parts)[n..]
    ensures n + |Flatten(fragments)| <= |Wire(c, start, parts)|
    ensures ReceiveAll(c, StateAt(c, start, parts, n), fragments)
         == StateAt(c, start, parts, n + |Flatten(fragments)|)
    decreases |fragments|
  {
    hide *;
    StateAtIs(c, start, parts, n);
    ReceiveUnroll(c, StateAt(c, start, parts, n), fragments);
    if fragments != [] {
      var chunk := fragments[0];
      PrefixSplit(Wire(c, start, parts), n, chunk, Flatten(fragments[1..]));
      ReadAdvances(c, start, parts, n, chunk);
      ReceiveFrom(c, start, parts, n + |chunk|, fragments[1..]);
    }
  }

  lemma ReceiveUnroll(c: Cipher, s: Deframer, fragments: seq<Bytes>)
    requires s.error.None?
    ensures fragments == [] ==> ReceiveAll(c, s, fragments) == s && Flatten(fragments) == []
    ensures fragments != [] ==>
              && ReceiveAll(c, s, fragments) == ReceiveAll(c, Drain(c, s.(buf := s.buf + fragments[0])), fragments[1..])
              && Flatten(fragments) == fragments[0] + Flatten(fragments[1..])
  {
  }

  /** However TCP cuts the sender's ciphertext into reads, after each read the call
      has fed exactly the text of the longest run of whole blocks received, holds
      the rest, has raised no error, and counts blocks as the sender does. */
  lemma DeframingIgnoresFragmentation(c: Cipher, start: U64, messages: seq<Bytes>, fragments: seq<Bytes>)
    requires Ideal(c) && Flatten(fragments) <= SendAll(c, start, messages)
    ensures var parts, n := AllChunks(messages), |Flatten(fragments)|;
            var k := WholeBlocks(parts, n);
            var s := ReceiveAll(c, Deframer([], start, [], None), fragments);
            && WireLength(parts[..k]) <= n && (forall j :: k < j <= |parts| ==> n < WireLength(parts[..j]))
            && s.error.None? && s.count == Later(start, k)
            && s.fed == Flatten(parts[..k])
            && s.buf == SendAll(c, start, messages)[WireLength(parts[..k])..n]
  {
    hide *;
    var parts, n := AllChunks(messages), |Flatten(fragments)|;
    SendAllIsOneWire(c, start, messages);
    WholeBlocksIsLongest(parts, n);
    ReceiveWhole(c, start, parts, fragments);
    StateAtIs(c, start, parts, n);
  }

  lemma StateAtStart(c: Cipher, start: U64, parts: seq<Bytes>)
    requires Ideal(c) && Framable(parts)
    ensures StateAt(c, start, parts, 0) == Deframer([], start, [], None)
  {
    hide Ideal, Wire, StateAt, Later;
    StateAtIs(c, start, parts, 0);
    LaterZero(start);
    assert WholeBlocks(parts, 0) == 0 && parts[..0] == [];
  }

  /** When everything has arrived, the messages have been fed in order and nothing is left over. */
  lemma MessagesArriveIntact(c: Cipher, start: U64, messages: seq<Bytes>, fragments: seq<Bytes>)
    requires Ideal(c) && Flatten(fragments) == SendAll(c, start, messages)
    ensures ReceiveAll(c, Deframer([], start, [], None), fragments)
         == Deframer([], Later(start, |AllChunks(messages)|), Flatten(messages), None)
  {
    hide *;
    var parts := AllChunks(messages);
    SendAllIsOneWire(c, start, messages);
    StateAtStart(c, start, parts);
    StateAtEnd(c, start, parts);
    assert Wire(c, start, parts)[0..] == Wire(c, start, parts);
    ReceiveFrom(c, start, parts, 0, fragments);
  }

  lemma {:induction false} AllBlocksWhole(parts: seq<Bytes>)
    ensures WholeBlocks(parts, WireLength(parts)) == |parts|
  {
    if parts != [] { AllBlocksWhole(parts[1..]); }
  }

  lemma StateAtEnd(c: Cipher, start: U64, parts: seq<Bytes>)
    requires Ideal(c) && Framable(parts)
    ensures StateAt(c, start, parts, |Wire(c, start, parts)|)
         == Deframer([], Later(start, |parts|), Flatten(parts), None)
  {
    hide *;
    WireHasLength(c, start, parts);
    AllBlocksWhole(parts);
    assert parts[..|parts|] == parts;
    StateAtIs(c, start, parts, WireLength(parts));
  }

  lemma ReceiveWhole(c: Cipher, start: U64, parts: seq<Bytes>, fragments: seq<Bytes>)
    requires Ideal(c) && Framable(parts) && Flatten(fragments) <= Wire(c, start, parts)
    ensures ReceiveAll(c, Deframer([], start, [], None), fragments)
         == StateAt(c, start, parts, |Flatten(fragments)|)
  {
    hide *;
    StateAtStart(c, start, parts);
    assert Wire(c, start, parts)[0..] == Wire(c, start, parts);
    ReceiveFrom(c, start, parts, 0, fragments);
  }

  /** No nonce serves two blocks exactly as long as a key seals at most 2^64 blocks. */
  lemma NoncesDistinctIff(start: U64, total: nat)
    ensures (forall i, j :: 0 <= i < j < total ==> Nonce(Later(start, i)) != Nonce(Later(start, j)))
            <==> total <= COUNTER_LIMIT
  {
    if total <= COUNTER_LIMIT {
      forall i, j | 0 <= i < j < total ensures Nonce(Later(start, i)) != Nonce(Later(start, j)) {
        if Nonce(Later(start, i)) == Nonce(Later(start, j)) {
          NonceInjective(Later(start, i), Later(start, j));
          assert false;
        }
      }
    } else {
      assert Later(start, 0) == Later(start, COUNTER_LIMIT);
      assert Nonce(Later(start, 0)) == Nonce(Later(start, COUNTER_LIMIT));
    }
  }

  // ------------------------------------------------------------------- objects

  class HapSecureSession {
    const encryptCipher: Cipher
    const decryptCipher: Cipher
    var encryptCount: U64
    var decryptCount: U64

    constructor (encryptCipher: Cipher, decryptCipher: Cipher)
      ensures this.encryptCipher == encryptCipher && this.decryptCipher == decryptCipher
      ensures encryptCount == 0 && decryptCount == 0
    {
      this.encryptCipher := encryptCipher;
      this.decryptCipher := decryptCipher;
      encryptCount := 0;
      decryptCount := 0;
    }

    /** Seals a message, one block at a time. */
    method Encrypt(data: Bytes) returns (output: Bytes)
      modifies this`encryptCount
      ensures Framable(Chunks(data)) && output == Wire(encryptCipher, old(encryptCount), Chunks(data))
      ensures encryptCount == Later(old(encryptCount), |Chunks(data)|)
    {
      output := [];
      var i := 0;
      ChunksCorrect(data);
      hide Chunks, Wire, Block, Later;
      assert data[0..] == data;
      while i < |data|
        invariant 0 <= i <= |data|
        invariant Framable(Chunks(data[i..])) && Framable(Chunks(data))
        invariant output + Wire(encryptCipher, encryptCount, Chunks(data[i..]))
               == Wire(encryptCipher, old(encryptCount), Chunks(data))
        invariant Later(encryptCount, |Chunks(data[i..])|) == Later(old(encryptCount), |Chunks(data)|)
      {
        var end := if i + 1024 < |data| then i + 1024 else |data|;
        EncryptStep(encryptCipher, encryptCount, data, i, end);
        output := output + Block(encryptCipher, encryptCount, data[i..end]);
        encryptCount := Later(encryptCount, 1);
        i := end;
      }
      assert data[i..] == [];
      NothingLeft(encryptCipher, encryptCount);
    }

    /** Opens the first block of the data; the counter moves only on success. */
    method DecryptBlock(data: Bytes) returns (r: Result<(Bytes, Bytes), Error>)
      modifies this`decryptCount
      ensures r == OpenBlock(decryptCipher, old(decryptCount), data)
      ensures decryptCount == if r.Ok? then Later(old(decryptCount), 1) else old(decryptCount)
    {
      if |data| < 18 {
        return Err(TooSmall);
      }
      var len := FromLittleEndian16(data[..2]);
      if |data| < 2 + len + 16 {
        return Err(Incomplete);
      }
      var text := decryptCipher.open(Nonce(decryptCount), data[..2], data[2..2 + len], data[2 + len..2 + len + 16]);
      if text.None? {
        return Err(BadTag);
      }
      decryptCount := Later(decryptCount, 1);
      r := Ok((text.value, data[2 + len + 16..]));
    }
  }

  lemma NextChunk(data: Bytes, i: nat, end: nat)
    requires i < |data| && end == if i + 1024 < |data| then i + 1024 else |data|
    ensures Chunks(data[i..]) == [data[i..end]] + Chunks(data[end..])
  {
    assert data[i..][1024 * 0..] == data[i..];
    if i + 1024 < |data| {
      assert data[i..][..1024] == data[i..end] && data[i..][1024..] == data[end..];
    } else {
      assert data[i..end] == data[i..] && data[end..] == [];
    }
  }

  lemma NothingLeft(c: Cipher, count: U64)
    ensures Chunks([]) == [] && Wire(c, count, []) == [] && Later(count, 0) == count
  {
  }

  lemma EncryptStep(c: Cipher, count: U64, data: Bytes, i: nat, end: nat)
    requires i < |data| && end == if i + 1024 < |data| then i + 1024 else |data|
    ensures Framable(Chunks(data[i..])) && Framable(Chunks(data[end..])) && |data[i..end]| < 65536
    ensures Wire(c, count, Chunks(data[i..]))
         == Block(c, count, data[i..end]) + Wire(c, Later(count, 1), Chunks(data[end..]))
    ensures Later(Later(count, 1), |Chunks(data[end..])|) == Later(count, |Chunks(data[i..])|)
  {
    NextChunk(data, i, end);
    ChunksCorrect(data[i..]);
    ChunksCorrect(data[end..]);
    LaterStep(count, |Chunks(data[end..])|);
    hide Block, Later, Chunks;
    assert ([data[i..end]] + Chunks(data[end..]))[1..] == Chunks(data[end..]);
  }

  /** The receiving loop of one request: each read is appended and every whole block taken out. */
  method ReceiveResponse(session: HapSecureSession, fragments: seq<Bytes>) returns (t: Deframer)
    modifies session`decryptCount
    ensures t == ReceiveAll(session.decryptCipher, Deframer([], old(session.decryptCount), [], None), fragments)
    ensures session.decryptCount == t.count
  {
    var encryptedBuf: Bytes, fed: Bytes := [], [];
    ghost var c, first := session.decryptCipher, Deframer([], session.decryptCount, [], None);
    for i := 0 to |fragments|
      invariant ReceiveAll(c, Deframer(encryptedBuf, session.decryptCount, fed, None), fragments[i..])
             == ReceiveAll(c, first, fragments)
    {
      encryptedBuf := encryptedBuf + fragments[i];
      ghost var goal := Drain(c, Deframer(encryptedBuf, session.decryptCount, fed, None));
      assert fragments[i..][0] == fragments[i] && fragments[i..][1..] == fragments[i + 1..];
      while |encryptedBuf| >= 2
        invariant Drain(c, Deframer(encryptedBuf, session.decryptCount, fed, None)) == goal
        decreases |encryptedBuf|
      {
        var totalLen := 2 + FromLittleEndian16(encryptedBuf) + 16;
        if |encryptedBuf| < totalLen {
          break;
        }
        var block := encryptedBuf[..totalLen];
        encryptedBuf := encryptedBuf[totalLen..];
        var r := session.DecryptBlock(block);
        if r.Err? {
          return Deframer(encryptedBuf, session.decryptCount, fed, Some(r.error));
        }
        fed := fed + r.value.0;
      }
    }
    t := Deframer(encryptedBuf, session.decryptCount, fed, None);
  }
}
