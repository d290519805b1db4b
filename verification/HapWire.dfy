/** The wire format of a block, byte by byte, and what a receiver can be brought to feed:
    deframing of any stream at all, genuine, damaged or forged. */
module HapWire {
  import opened Common
  import opened Modular
  import opened HapSession

  // ---------------------------------------------------------------------- format

  /** Byte i of n, the lowest first. */
  function ByteOf(n: nat, i: nat): Byte {
    n / Power256(i) % 256
  }

  lemma Combine(s: int, t: int, a: int, b: int, r: int)
    requires 0 <= t < b && 0 <= r < a
    ensures (s * b + t) * a + r == s * (a * b) + (t * a + r) && 0 <= t * a + r < a * b
  {
    Distribute(s, t, a, b);
    Product(t, a);
    Product(b - 1 - t, a);
  }

  lemma Distribute(s: int, t: int, a: int, b: int)
    ensures (s * b + t) * a == s * (a * b) + t * a && (b - 1 - t) * a == a * b - a - t * a
  {
    assert (s * b) * a == s * (a * b);
  }

  lemma Product(x: int, y: int)
    requires x >= 0 && y >= 0
    ensures x * y >= 0
  {
  }

  lemma DivideTwice(n: nat, a: int, b: int)
    requires a > 0 && b > 0
    ensures a * b > 0 && n / a / b == n / (a * b)
  {
    var q, r := n / a, n % a;
    var s, t := q / b, q % b;
    Combine(s, t, a, b, r);
    QuotientAndRest(n, a);
    QuotientAndRest(q, b);
    ModIs(n, s, t * a + r, a * b);
  }

  lemma QuotientAndRest(n: int, a: int)
    requires a > 0
    ensures n == (n / a) * a + n % a && 0 <= n % a < a
  {
  }

  lemma {:induction false} LittleEndianBytes(n: nat, width: nat, i: nat)
    requires i < width
    ensures LittleEndian(n, width)[i] == ByteOf(n, i)
    decreases i
  {
    if i > 0 {
      LittleEndianBytes(n / 256, width - 1, i - 1);
      assert LittleEndian(n, width)[i] == LittleEndian(n / 256, width - 1)[i - 1];
      DivideTwice(n, 256, Power256(i - 1));
    }
  }

  ghost predicate IsNonce(nonce: Bytes, count: U64) {
    && |nonce| == 12 && nonce[0] == nonce[1] == nonce[2] == nonce[3] == 0
    && forall i :: 0 <= i < 8 ==> nonce[i + 4] == ByteOf(count, i)
  }

  /** Four zero bytes, then the block counter, lowest byte first; it can be read back. */
  lemma NonceLayout(count: U64)
    ensures IsNonce(Nonce(count), count) && FromLittleEndian(Nonce(count)[4..]) == count
  {
    forall i | 0 <= i < 8 ensures Nonce(count)[i + 4] == ByteOf(count, i) {
      LittleEndianBytes(count, 8, i);
    }
    assert Power256(8) == COUNTER_LIMIT by {
      assert Power256(4) == 0x1_0000_0000;
    }
    LittleEndianRoundTrip(count, 8);
    assert Nonce(count)[4..] == LittleEndian(count, 8);
  }

  lemma NonceUnique(nonce: Bytes, count: U64)
    requires IsNonce(nonce, count)
    ensures nonce == Nonce(count)
  {
    NonceLayout(count);
    forall i | 0 <= i < 12 ensures nonce[i] == Nonce(count)[i] {
      if i >= 4 { assert nonce[(i - 4) + 4] == ByteOf(count, i - 4) == Nonce(count)[(i - 4) + 4]; }
    }
  }

  /** A block is the length, low byte first, then the text sealed under the counter's nonce
      with the length as associated data, then the tag. */
  lemma BlockFormat(c: Cipher, count: U64, text: Bytes, nonce: Bytes)
    requires |text| < 65536 && IsNonce(nonce, count)
    ensures var header: Bytes := [|text| % 256, |text| / 256];
            Block(c, count, text) == header + c.seal(nonce, header, text).0 + c.seal(nonce, header, text).1
  {
    NonceUnique(nonce, count);
  }

  /** The k-th block of a session is sealed under the k-th counter and starts where the
      blocks before it end. */
  lemma KthBlock(c: Cipher, start: U64, parts: seq<Bytes>, k: nat)
    requires Ideal(c) && Framable(parts) && k < |parts|
    ensures var off := WireLength(parts[..k]);
            && off + |parts[k]| + 18 <= |Wire(c, start, parts)|
            && Wire(c, start, parts)[off..off + |parts[k]| + 18]
               == Block(c, (start + k) % 0x1_0000_0000_0000_0000, parts[k])
  {
    WireFrom(c, start, parts, k);
    var rest := parts[k..];
    assert rest[0] == parts[k];
    var block := Block(c, Later(start, k), parts[k]);
    BlockLength(c, Later(start, k), parts[k]);
    assert Wire(c, Later(start, k), rest) == block + Wire(c, Later(Later(start, k), 1), rest[1..]);
    hide Wire, Block, WireLength;
    var wire, off := Wire(c, start, parts), WireLength(parts[..k]);
    assert wire[off..][..|block|] == wire[off..off + |block|];
  }

  // ------------------------------------------------------------------- authenticity

  /** The three refusals, in the order they are looked for: shorter than any block, shorter
      than the length announced (low byte first), or not what the cipher sealed. */
  lemma OpenBlockErrors(c: Cipher, count: U64, data: Bytes)
    ensures var r := OpenBlock(c, count, data);
            && (r == Err(TooSmall) <==> |data| < 18)
            && (r == Err(Incomplete) <==> 18 <= |data| < 18 + data[0] as int + 256 * data[1] as int)
            && (r == Err(BadTag) ==> 18 <= |data| && |data| >= 18 + data[0] as int + 256 * data[1] as int)
            && (r.Ok? ==> r.value.1 == data[18 + data[0] as int + 256 * data[1] as int..])
  {
  }

  /** Opening succeeds exactly on a block sealed under the same counter, whatever follows it. */
  lemma OpenBlockIff(c: Cipher, count: U64, data: Bytes, text: Bytes, rest: Bytes)
    requires Ideal(c) && Authentic(c)
    ensures OpenBlock(c, count, data) == Ok((text, rest))
            <==> |text| < 65536 && data == Block(c, count, text) + rest
  {
    if OpenBlock(c, count, data) == Ok((text, rest)) {
      OpenedWasSealed(c, count, data, text, rest);
    }
    if |text| < 65536 && data == Block(c, count, text) + rest {
      BlockRoundTrip(c, count, text, rest);
    }
  }

  lemma OpenedWasSealed(c: Cipher, count: U64, data: Bytes, text: Bytes, rest: Bytes)
    requires Ideal(c) && Authentic(c) && OpenBlock(c, count, data) == Ok((text, rest))
    ensures |text| < 65536 && data == Block(c, count, text) + rest
  {
    var len := FromLittleEndian16(data);
    var header, body, tag := data[..2], data[2..2 + len], data[2 + len..2 + len + 16];
    assert c.open(Nonce(count), header, body, tag) == Some(text);
    SealedBack(c, Nonce(count), header, body, tag);
    assert header == LittleEndian16(len);
    assert data == header + body + tag + rest;
  }

  lemma SealedBack(c: Cipher, nonce: Bytes, aad: Bytes, body: Bytes, tag: Bytes)
    requires Ideal(c) && Authentic(c) && c.open(nonce, aad, body, tag).Some?
    ensures var text := c.open(nonce, aad, body, tag).value;
            c.seal(nonce, aad, text) == (body, tag) && |body| == |text|
  {
    var text := c.open(nonce, aad, body, tag).value;
    var sealed := c.seal(nonce, aad, text);
    assert |sealed.0| == |text|;
  }

  // -------------------------------------------------------- any stream at all

  /** Too little for the block its first bytes announce. */
  predicate Partial(buf: Bytes) {
    |buf| < 2 || |buf| < 18 + FromLittleEndian16(buf)
  }

  lemma DrainCases(c: Cipher, s: Deframer)
    requires s.error.None?
    ensures Partial(s.buf) ==> Drain(c, s) == s
    ensures !Partial(s.buf) ==>
              var total := 18 + FromLittleEndian16(s.buf);
              var r := OpenBlock(c, s.count, s.buf[..total]);
              && 18 <= total <= |s.buf|
              && (r.Err? ==> r.error == BadTag && Drain(c, s) == Deframer(s.buf[total..], s.count, s.fed, Some(BadTag)))
              && (r.Ok? ==>
                    r.value.1 == [] &&
                    Drain(c, s) == Drain(c, Deframer(s.buf[total..], Later(s.count, 1), s.fed + r.value.0, None)))
  {
    if !Partial(s.buf) {
      var total := 18 + FromLittleEndian16(s.buf);
      assert FromLittleEndian16(s.buf[..total]) == total - 18;
    }
  }

  /** Bytes that arrive later change nothing about what was drained before them. */
  lemma {:induction false} DrainThenMore(c: Cipher, s: Deframer, more: Bytes)
    requires s.error.None?
    ensures var d, e := Drain(c, s), Drain(c, s.(buf := s.buf + more));
            && (d.error.None? ==> Partial(d.buf) && e == Drain(c, d.(buf := d.buf + more)))
            && (d.error.Some? ==> e == d.(buf := d.buf + more))
    decreases |s.buf|
  {
    hide Drain, OpenBlock, FromLittleEndian16, Later, Partial;
    DrainCases(c, s);
    if !Partial(s.buf) {
      var total := 18 + FromLittleEndian16(s.buf);
      FrontUnchanged(s.buf, more, total);
      StillWhole(s.buf, more);
      DrainCases(c, s.(buf := s.buf + more));
      var r := OpenBlock(c, s.count, s.buf[..total]);
      if r.Ok? {
        DrainThenMore(c, Deframer(s.buf[total..], Later(s.count, 1), s.fed + r.value.0, None), more);
      }
    }
  }

  lemma StillWhole(buf: Bytes, more: Bytes)
    requires !Partial(buf)
    ensures !Partial(buf + more)
  {
  }

  lemma FrontUnchanged(buf: Bytes, more: Bytes, total: nat)
    requires 2 <= total <= |buf|
    ensures (buf + more)[..total] == buf[..total] && (buf + more)[total..] == buf[total..] + more
    ensures FromLittleEndian16(buf + more) == FromLittleEndian16(buf)
  {
  }

  /** What two outcomes have in common that matters: an outcome with an error keeps no bytes to go on with. */
  ghost predicate SameOutcome(a: Deframer, b: Deframer) {
    a.fed == b.fed && a.count == b.count && a.error == b.error && (a.error.None? ==> a.buf == b.buf)
  }

  lemma {:induction false} ReceiveIsDrain(c: Cipher, s: Deframer, fragments: seq<Bytes>)
    requires s.error.None? && Partial(s.buf)
    ensures SameOutcome(ReceiveAll(c, s, fragments), Drain(c, s.(buf := s.buf + Flatten(fragments))))
    decreases |fragments|
  {
    hide Drain, Flatten;
    ReceiveUnroll(c, s, fragments);
    if fragments == [] {
      assert s.buf + Flatten(fragments) == s.buf;
      DrainCases(c, s);
    } else {
      var first, rest := s.(buf := s.buf + fragments[0]), Flatten(fragments[1..]);
      var d := Drain(c, first);
      assert s.buf + Flatten(fragments) == first.buf + rest;
      DrainThenMore(c, first, rest);
      DrainThenMore(c, first, []);
      if d.error.None? { ReceiveIsDrain(c, d, fragments[1..]); }
    }
  }

  /** For every cipher and every stream, damaged or forged ones too: what is fed, the block
      counter, the error and the bytes still held depend on the bytes received and not on how
      they were cut into reads. */
  lemma AnyStreamIgnoresFragmentation(c: Cipher, start: U64, one: seq<Bytes>, other: seq<Bytes>)
    requires Flatten(one) == Flatten(other)
    ensures SameOutcome(ReceiveAll(c, Deframer([], start, [], None), one),
                        ReceiveAll(c, Deframer([], start, [], None), other))
  {
    hide *;
    PartialEmpty();
    ReceiveIsDrain(c, Deframer([], start, [], None), one);
    ReceiveIsDrain(c, Deframer([], start, [], None), other);
    SameOutcomeTrans(ReceiveAll(c, Deframer([], start, [], None), one),
                     ReceiveAll(c, Deframer([], start, [], None), other),
                     Drain(c, Deframer([] + Flatten(one), start, [], None)));
  }

  lemma PartialEmpty()
    ensures Partial([])
  {
  }

  lemma SameOutcomeTrans(a: Deframer, b: Deframer, d: Deframer)
    requires SameOutcome(a, d) && SameOutcome(b, d)
    ensures SameOutcome(a, b)
  {
  }

  // ------------------------------------------------------------- nothing forged is fed

  /** Whole frame, but no text sealed under this counter. */
  ghost predicate Forged(c: Cipher, count: U64, block: Bytes) {
    && |block| >= 18 && |block| == 18 + FromLittleEndian16(block)
    && forall text: Bytes :: |text| < 65536 ==> block != Block(c, count, text)
  }

  /** The stream is sealed blocks, in order from the counter, up to a part of a block. */
  ghost predicate Genuine(c: Cipher, start: U64, stream: Bytes, parts: seq<Bytes>, rest: Bytes) {
    Framable(parts) && Partial(rest) && stream == Wire(c, start, parts) + rest
  }

  /** The same up to a block that is forged. */
  ghost predicate GoesWrong(c: Cipher, start: U64, stream: Bytes, parts: seq<Bytes>, block: Bytes) {
    && Framable(parts) && Forged(c, Later(start, |parts|), block)
    && Wire(c, start, parts) + block <= stream
  }

  /** What a drained state says about the bytes it came from. */
  ghost predicate Explains(c: Cipher, s: Deframer, d: Deframer, parts: seq<Bytes>, block: Bytes) {
    && Framable(parts) && d.fed == s.fed + Flatten(parts) && d.count == Later(s.count, |parts|)
    && (d.error.None? ==> Genuine(c, s.count, s.buf, parts, d.buf))
    && (d.error.Some? ==> d.error == Some(BadTag) && GoesWrong(c, s.count, s.buf, parts, block))
  }

  lemma {:induction false} DrainFindsParts(c: Cipher, s: Deframer) returns (parts: seq<Bytes>, block: Bytes)
    requires Ideal(c) && Authentic(c) && s.error.None?
    ensures Explains(c, s, Drain(c, s), parts, block)
    decreases |s.buf|
  {
    hide *;
    DrainCases(c, s);
    parts, block := [], [];
    if Partial(s.buf) {
      NothingWhole(c, s);
    } else {
      var total := 18 + FromLittleEndian16(s.buf);
      var front, back := s.buf[..total], s.buf[total..];
      var r := OpenBlock(c, s.count, front);
      assert s.buf == front + back;
      FrontUnchanged(front, back, 2);
      if r.Err? {
        block := front;
        FirstForged(c, s, front, back);
      } else {
        var text := r.value.0;
        OpenBlockIff(c, s.count, front, text, []);
        assert Block(c, s.count, text) + [] == Block(c, s.count, text);
        var t := Deframer(back, Later(s.count, 1), s.fed + text, None);
        var more: seq<Bytes>;
        more, block := DrainFindsParts(c, t);
        parts := [text] + more;
        ExplainsMore(c, s, t, Drain(c, s), text, more, block);
      }
    }
  }

  lemma NothingWhole(c: Cipher, s: Deframer)
    requires s.error.None? && Partial(s.buf)
    ensures Explains(c, s, s, [], [])
  {
    LaterZero(s.count);
    assert s.fed + [] == s.fed && [] + s.buf == s.buf;
  }

  lemma FirstForged(c: Cipher, s: Deframer, front: Bytes, back: Bytes)
    requires Ideal(c) && s.buf == front + back && |front| >= 18 && |front| == 18 + FromLittleEndian16(front)
    requires OpenBlock(c, s.count, front).Err?
    ensures Explains(c, s, Deframer(back, s.count, s.fed, Some(BadTag)), [], front)
  {
    hide Forged, Ideal, OpenBlock, FromLittleEndian16, Later, Block;
    NotSealed(c, s.count, front);
    LaterZero(s.count);
    assert s.fed + [] == s.fed && [] + front == front;
  }

  lemma ExplainsMore(c: Cipher, s: Deframer, t: Deframer, d: Deframer, text: Bytes, more: seq<Bytes>, block: Bytes)
    requires |text| < 65536 && s.buf == Block(c, s.count, text) + t.buf
    requires t.count == Later(s.count, 1) && t.fed == s.fed + text
    requires Explains(c, t, d, more, block)
    ensures Explains(c, s, d, [text] + more, block)
  {
    hide Wire, Later, Forged, Partial, Block, Flatten;
    var parts, front, w := [text] + more, Block(c, s.count, text), Wire(c, t.count, more);
    WireCons(c, s.count, text, more);
    LaterStep(s.count, |more|);
    assert (s.fed + text) + Flatten(more) == s.fed + (text + Flatten(more));
    if d.error.None? {
      assert front + (w + d.buf) == (front + w) + d.buf;
    } else {
      PrefixBehind(front, w + block, t.buf);
      assert (front + w) + block == front + (w + block);
    }
  }

  lemma PrefixBehind(front: Bytes, x: Bytes, y: Bytes)
    requires x <= y
    ensures front + x <= front + y
  {
  }

  lemma NotSealed(c: Cipher, count: U64, block: Bytes)
    requires Ideal(c) && |block| >= 18 && |block| == 18 + FromLittleEndian16(block)
    requires OpenBlock(c, count, block).Err?
    ensures Forged(c, count, block)
  {
    forall text: Bytes | |text| < 65536 ensures block != Block(c, count, text) {
      BlockRoundTrip(c, count, text, []);
      assert Block(c, count, text) + [] == Block(c, count, text);
    }
  }

  lemma WireCons(c: Cipher, count: U64, text: Bytes, more: seq<Bytes>)
    requires |text| < 65536 && Framable(more)
    ensures Framable([text] + more) && Flatten([text] + more) == text + Flatten(more)
    ensures Wire(c, count, [text] + more) == Block(c, count, text) + Wire(c, Later(count, 1), more)
  {
    assert ([text] + more)[1..] == more;
  }

  lemma {:induction false} DrainGenuine(c: Cipher, s: Deframer, parts: seq<Bytes>, rest: Bytes)
    requires Ideal(c) && s.error.None? && Genuine(c, s.count, s.buf, parts, rest)
    ensures Drain(c, s) == Deframer(rest, Later(s.count, |parts|), s.fed + Flatten(parts), None)
    decreases |parts|
  {
    hide Drain, OpenBlock, Ideal, Wire, Block, Later, Flatten, Partial, FromLittleEndian16;
    GenuineUnroll(c, s.count, s.buf, parts, rest);
    DrainCases(c, s);
    if parts == [] {
      LaterZero(s.count);
      NothingFed(s.fed);
    } else {
      var text, more := parts[0], parts[1..];
      var back := Wire(c, Later(s.count, 1), more) + rest;
      GenuineFront(c, s.count, s.buf, text, back);
      DrainGenuine(c, Deframer(back, Later(s.count, 1), s.fed + text, None), more, rest);
      LaterStep(s.count, |more|);
      assert (s.fed + text) + Flatten(more) == s.fed + (text + Flatten(more));
    }
  }

  lemma NothingFed(fed: Bytes)
    ensures fed + Flatten([]) == fed
  {
    assert fed + [] == fed;
  }

  lemma GenuineUnroll(c: Cipher, start: U64, stream: Bytes, parts: seq<Bytes>, rest: Bytes)
    requires Genuine(c, start, stream, parts, rest)
    ensures parts == [] ==> stream == rest && Partial(stream)
    ensures parts != [] ==>
              var back := Wire(c, Later(start, 1), parts[1..]) + rest;
              && |parts[0]| < 65536 && stream == Block(c, start, parts[0]) + back
              && Genuine(c, Later(start, 1), back, parts[1..], rest)
              && Flatten(parts) == parts[0] + Flatten(parts[1..])
  {
    hide Block, Later, Partial;
    if parts == [] {
      assert [] + rest == rest;
    } else {
      var block, w := Block(c, start, parts[0]), Wire(c, Later(start, 1), parts[1..]);
      assert (block + w) + rest == block + (w + rest);
    }
  }

  /** A sealed block at the front is whole and opens. */
  lemma GenuineFront(c: Cipher, count: U64, stream: Bytes, text: Bytes, back: Bytes)
    requires Ideal(c) && |text| < 65536 && stream == Block(c, count, text) + back
    ensures !Partial(stream)
    ensures var total := 18 + FromLittleEndian16(stream);
            && total <= |stream| && stream[total..] == back
            && OpenBlock(c, count, stream[..total]) == Ok((text, []))
  {
    BlockLength(c, count, text);
    BlockRoundTrip(c, count, text, []);
    hide Block, OpenBlock, Ideal;
    var block := Block(c, count, text);
    assert block + [] == block;
    assert stream[..|block|] == block && stream[|block|..] == back;
    FrontUnchanged(block, back, |block|);
  }

  /** A call goes on without error exactly as long as what has arrived is sealed blocks in
      order, up to part of one. What it has fed is always the text of the sealed blocks at the
      front of the stream, and an error is always a block that was not sealed there. */
  lemma FedOnlyWhatWasSealed(c: Cipher, start: U64, fragments: seq<Bytes>)
    returns (parts: seq<Bytes>, block: Bytes)
    requires Ideal(c) && Authentic(c)
    ensures var t, stream := ReceiveAll(c, Deframer([], start, [], None), fragments), Flatten(fragments);
            && Framable(parts) && t.fed == Flatten(parts) && t.count == Later(start, |parts|)
            && (t.error.None? ==> Genuine(c, start, stream, parts, t.buf))
            && (t.error.Some? ==> t.error == Some(BadTag) && GoesWrong(c, start, stream, parts, block))
            && (t.error.None? <==> exists ps, rest :: Genuine(c, start, stream, ps, rest))
  {
    hide *;
    var s, stream := Deframer([], start, [], None), Flatten(fragments);
    assert [] + stream == stream;
    PartialEmpty();
    ReceiveIsDrain(c, s, fragments);
    var whole := s.(buf := stream);
    parts, block := DrainFindsParts(c, whole);
    Conclude(c, start, ReceiveAll(c, s, fragments), whole, Drain(c, whole), parts, block);
    if ps, rest :| Genuine(c, start, stream, ps, rest) {
      DrainGenuine(c, whole, ps, rest);
      SameError(ReceiveAll(c, s, fragments), Drain(c, whole));
    }
  }

  lemma Conclude(c: Cipher, start: U64, t: Deframer, s: Deframer, d: Deframer, parts: seq<Bytes>, block: Bytes)
    requires SameOutcome(t, d) && Explains(c, s, d, parts, block) && s.fed == [] && s.count == start
    ensures Framable(parts) && t.fed == Flatten(parts) && t.count == Later(start, |parts|)
    ensures t.error.None? ==> Genuine(c, start, s.buf, parts, t.buf)
    ensures t.error.Some? ==> t.error == Some(BadTag) && GoesWrong(c, start, s.buf, parts, block)
  {
    assert [] + Flatten(parts) == Flatten(parts);
  }

  lemma SameError(a: Deframer, b: Deframer)
    requires SameOutcome(a, b)
    ensures a.error == b.error
  {
  }
}
