/** Reading a pairing response off a TCP stream: an incremental search for the blank
    line that ends the headers, then a body of the announced length. */
module HeaderReader {
  import opened Common

  type Bytes = seq<Byte>

  const BLANK_LINE: Bytes := [13, 10, 13, 10]
  const HEADER_LIMIT: nat := 4096
  const CHUNK: nat := 1024

  datatype Error = ClosedInHeaders | HeadersTooLarge | BadHeaders | ClosedInBody

  predicate At(s: Bytes, p: nat) {
    p + 4 <= |s| && s[p..p + 4] == BLANK_LINE
  }

  /** Carriage return, line feed, twice. */
  lemma AtIff(s: Bytes, p: nat)
    ensures At(s, p) <==> p + 4 <= |s| && s[p] == 13 && s[p + 1] == 10 && s[p + 2] == 13 && s[p + 3] == 10
  {
    if p + 4 <= |s| {
      var line := s[p..p + 4];
      assert line[0] == s[p] && line[1] == s[p + 1] && line[2] == s[p + 2] && line[3] == s[p + 3];
      if s[p] == 13 && s[p + 1] == 10 && s[p + 2] == 13 && s[p + 3] == 10 { assert line == BLANK_LINE; }
    }
  }

  /** The first blank line of s. */
  ghost predicate FirstAt(s: Bytes, p: nat) {
    At(s, p) && forall j: nat :: j < p ==> !At(s, j)
  }

  function FindFrom(s: Bytes, i: nat): (r: Option<nat>)
    ensures r.Some? ==> i <= r.value && At(s, r.value) && forall j: nat :: i <= j < r.value ==> !At(s, j)
    ensures r.None? ==> forall j: nat :: i <= j ==> !At(s, j)
    decreases |s| - i
  {
    if i + 4 > |s| then None else if At(s, i) then Some(i) else FindFrom(s, i + 1)
  }

  /** Reads are what the socket returned, each of at least one and at most CHUNK bytes;
      the stream ends after the last one. */
  ghost predicate Fragments(parts: seq<Bytes>) {
    forall i :: 0 <= i < |parts| ==> 0 < |parts[i]| <= 1024
  }

  /** Header end, buffered bytes and reads not yet made. */
  datatype Headers = Headers(end: nat, buf: Bytes, rest: seq<Bytes>)

  function ReadHeaders(buf: Bytes, parts: seq<Bytes>): (r: Result<Headers, Error>)
    decreases |parts|
  {
    if parts == [] then Err(ClosedInHeaders) else
      var start := if |buf| < 3 then 0 else |buf| - 3;
      var grown := buf + parts[0];
      var found := FindFrom(grown, start);
      if found.Some? then Ok(Headers(found.value + 4, grown, parts[1..]))
      else if |grown| > HEADER_LIMIT then Err(HeadersTooLarge)
      else ReadHeaders(grown, parts[1..])
  }

  /** The body: what is already buffered, then exactly the missing rest. */
  function ReadBody(h: Headers, length: nat): (r: Result<Bytes, Error>)
    requires h.end <= |h.buf|
  {
    var already := h.buf[h.end..];
    var first := already[..Min(|already|, length)];
    var more := Flatten(h.rest);
    if |first| == length then Ok(first)
    else if |more| < length - |first| then Err(ClosedInBody)
    else Ok(first + more[..length - |first|])
  }

  /** `contentLength` stands for the header parser: the announced length, or nothing if the text is malformed. */
  function Respond(contentLength: Bytes -> Option<nat>, parts: seq<Bytes>): (r: Result<Bytes, Error>) {
    var h := ReadHeaders([], parts);
    if h.Err? then Err(h.error) else
      HeaderEndBuffered([], parts);
      var length := contentLength(h.value.buf[..h.value.end]);
      if length.None? then Err(BadHeaders) else ReadBody(h.value, length.value)
  }

  lemma {:induction false} HeaderEndBuffered(buf: Bytes, parts: seq<Bytes>)
    requires ReadHeaders(buf, parts).Ok?
    ensures var h := ReadHeaders(buf, parts).value;
            4 <= h.end <= |h.buf| && h.buf + Flatten(h.rest) == buf + Flatten(parts)
    decreases |parts|
  {
    var grown := buf + parts[0];
    FlattenInto(buf, parts);
    hide Flatten, FindFrom;
    if FindFrom(grown, if |buf| < 3 then 0 else |buf| - 3).None? {
      HeaderEndBuffered(grown, parts[1..]);
    }
  }

  lemma FlattenInto(buf: Bytes, parts: seq<Bytes>)
    requires parts != []
    ensures (buf + parts[0]) + Flatten(parts[1..]) == buf + Flatten(parts)
  {
  }

  // ------------------------------------------------------------ the scan is exact

  /** Appending only creates blank lines that touch the new bytes. */
  lemma AtPrefix(buf: Bytes, more: Bytes, j: nat)
    requires j + 4 <= |buf|
    ensures At(buf + more, j) <==> At(buf, j)
  {
    assert (buf + more)[j..j + 4] == buf[j..j + 4];
  }

  /** Some read ends past the limit but before the headers do (`end` is their length, if they have one). */
  ghost predicate CutTooLate(from: nat, parts: seq<Bytes>, end: Option<nat>)
    decreases |parts|
  {
    parts != [] &&
      var b := from + |parts[0]|;
      if end.Some? && end.value <= b then false
      else b > HEADER_LIMIT || CutTooLate(b, parts[1..], end)
  }

  /** With a buffer that holds no blank line yet: the reads give the first blank line of
      the whole stream, unless one of them ends too late. */
  lemma {:induction false} ReadHeadersExact(buf: Bytes, parts: seq<Bytes>, end: Option<nat>)
    requires forall j: nat :: !At(buf, j)
    requires var s := buf + Flatten(parts);
             if end.Some? then end.value >= 4 && FirstAt(s, end.value - 4) else forall j: nat :: !At(s, j)
    ensures var r := ReadHeaders(buf, parts);
            && (r.Err? && r.error.HeadersTooLarge? <==> CutTooLate(|buf|, parts, end))
            && (r.Ok? <==> end.Some? && !CutTooLate(|buf|, parts, end))
            && (r.Ok? ==> r.value.end == end.value)
            && (r.Err? ==> r.error.HeadersTooLarge? || r.error.ClosedInHeaders?)
    decreases |parts|
  {
    if parts == [] {
      assert buf + [] == buf;
    } else {
      var grown, more := buf + parts[0], Flatten(parts[1..]);
      assert grown + more == buf + Flatten(parts);
      ScanStep(buf, parts[0], more, end);
      var found := FindFrom(grown, if |buf| < 3 then 0 else |buf| - 3);
      if found.None? && |grown| <= HEADER_LIMIT {
        ReadHeadersExact(grown, parts[1..], end);
      }
    }
  }

  /** One read: the overlapping search finds a blank line exactly when the headers are complete, and then their end. */
  lemma ScanStep(buf: Bytes, chunk: Bytes, more: Bytes, end: Option<nat>)
    requires forall j: nat :: !At(buf, j)
    requires var s := buf + chunk + more;
             if end.Some? then end.value >= 4 && FirstAt(s, end.value - 4) else forall j: nat :: !At(s, j)
    ensures var grown := buf + chunk;
            var found := FindFrom(grown, if |buf| < 3 then 0 else |buf| - 3);
            && (found.Some? <==> end.Some? && end.value <= |grown|)
            && (found.Some? ==> found.value + 4 == end.value)
            && (found.None? ==> forall j: nat :: !At(grown, j))
  {
    var grown, start := buf + chunk, if |buf| < 3 then 0 else |buf| - 3;
    var found := FindFrom(grown, start);
    forall j: nat | j < start ensures !At(grown, j) { AtPrefix(buf, chunk, j); }
    if found.Some? {
      AtPrefix(grown, more, found.value);
      forall j: nat | j < found.value ensures !At(grown + more, j) { AtPrefix(grown, more, j); }
    } else if end.Some? && end.value <= |grown| {
      AtPrefix(grown, more, end.value - 4);
      assert false;
    }
  }

  // --------------------------------------------------------------- main results

  lemma {:induction false} ShortHeadersNeverCut(from: nat, parts: seq<Bytes>, end: nat)
    requires end <= HEADER_LIMIT + 1
    ensures !CutTooLate(from, parts, Some(end))
    decreases |parts|
  {
    if parts != [] { ShortHeadersNeverCut(from + |parts[0]|, parts[1..], end); }
  }

  /** What a reader of the whole stream would return. */
  ghost function Expected(contentLength: Bytes -> Option<nat>, s: Bytes, end: nat): Result<Bytes, Error>
    requires end <= |s|
  {
    var length := contentLength(s[..end]);
    if length.None? then Err(BadHeaders)
    else if |s| < end + length.value then Err(ClosedInBody)
    else Ok(s[end..end + length.value])
  }

  lemma BodyIsNextBytes(h: Headers, s: Bytes, length: nat)
    requires h.end <= |h.buf| && h.buf + Flatten(h.rest) == s
    ensures ReadBody(h, length)
         == if |s| < h.end + length then Err(ClosedInBody) else Ok(s[h.end..h.end + length])
    ensures s[..h.end] == h.buf[..h.end]
  {
    var more := Flatten(h.rest);
    if length <= |h.buf| - h.end {
      assert s[h.end..h.end + length] == h.buf[h.end..][..length];
    } else if length <= |s| - h.end {
      assert h.buf[h.end..][..|h.buf| - h.end] == h.buf[h.end..];
      assert s[h.end..h.end + length] == h.buf[h.end..] + more[..length - (|h.buf| - h.end)];
    }
  }

  /** Whatever the fragmentation, unless a read ends past the limit inside the headers,
      the response is the next content-length bytes after the first blank line. */
  lemma RespondExact(contentLength: Bytes -> Option<nat>, parts: seq<Bytes>, end: nat)
    requires end >= 4 && FirstAt(Flatten(parts), end - 4)
    ensures Respond(contentLength, parts)
         == if CutTooLate(0, parts, Some(end)) then Err(HeadersTooLarge)
            else Expected(contentLength, Flatten(parts), end)
  {
    hide Flatten, FirstAt, At, CutTooLate, ReadHeaders, ReadBody;
    var s := Flatten(parts);
    assert [] + s == s;
    NoneInNothing();
    ReadHeadersExact([], parts, Some(end));
    if !CutTooLate(0, parts, Some(end)) {
      HeaderEndBuffered([], parts);
      var h := ReadHeaders([], parts).value;
      var length := contentLength(s[..end]);
      BodyIsNextBytes(h, s, if length.Some? then length.value else 0);
    }
  }

  lemma NoneInNothing()
    ensures forall j: nat :: !At([], j)
  {
  }

  /** A stream with no blank line gives no response. */
  lemma RespondWithoutBlankLine(contentLength: Bytes -> Option<nat>, parts: seq<Bytes>)
    requires forall j: nat :: !At(Flatten(parts), j)
    ensures Respond(contentLength, parts)
         == Err(if CutTooLate(0, parts, None) then HeadersTooLarge else ClosedInHeaders)
  {
    assert [] + Flatten(parts) == Flatten(parts);
    ReadHeadersExact([], parts, None);
  }

  /** Cut into full chunks. */
  function Chop(s: Bytes): (parts: seq<Bytes>) {
    if |s| == 0 then [] else if |s| <= CHUNK then [s] else [s[..CHUNK]] + Chop(s[CHUNK..])
  }

  lemma {:induction false} ChopCorrect(s: Bytes)
    ensures Fragments(Chop(s)) && Flatten(Chop(s)) == s
  {
    if 0 < |s| <= CHUNK {
      FlattenSingle(s);
    } else if |s| > CHUNK {
      ChopCorrect(s[CHUNK..]);
      assert s == s[..CHUNK] + s[CHUNK..];
      assert Chop(s)[1..] == Chop(s[CHUNK..]);
    }
  }

  /** Four full reads, one of a single byte, then the rest. */
  ghost function Adverse(s: Bytes): (parts: seq<Bytes>)
    requires |s| > 4097
  {
    [s[..1024], s[1024..2048], s[2048..3072], s[3072..4096], s[4096..4097]] + Chop(s[4097..])
  }

  lemma AdverseFails(s: Bytes, end: nat)
    requires 4097 < end <= |s|
    ensures Fragments(Adverse(s)) && Flatten(Adverse(s)) == s && CutTooLate(0, Adverse(s), Some(end))
  {
    var head := [s[..1024], s[1024..2048], s[2048..3072], s[3072..4096], s[4096..4097]];
    var tail := Chop(s[4097..]);
    ChopCorrect(s[4097..]);
    FlattenConcat(head, tail);
    var a, b, c, d, e := s[..1024], s[1024..2048], s[2048..3072], s[3072..4096], s[4096..4097];
    FlattenSingle(a);
    FlattenSnoc([a], b);
    FlattenSnoc([a] + [b], c);
    FlattenSnoc([a] + [b] + [c], d);
    FlattenSnoc([a] + [b] + [c] + [d], e);
    assert head == [a] + [b] + [c] + [d] + [e];
    assert a + b + c + d + e == s[..4097];
    CutAtFifth(s, tail, end);
  }

  lemma CutAtFifth(s: Bytes, tail: seq<Bytes>, end: nat)
    requires 4097 < end <= |s|
    ensures CutTooLate(0, [s[..1024], s[1024..2048], s[2048..3072], s[3072..4096], s[4096..4097]] + tail, Some(end))
  {
    var parts := [s[..1024], s[1024..2048], s[2048..3072], s[3072..4096], s[4096..4097]] + tail;
    assert CutTooLate(4096, parts[4..], Some(end));
    assert parts[3..][1..] == parts[4..];
    assert CutTooLate(3072, parts[3..], Some(end));
    assert parts[2..][1..] == parts[3..];
    assert CutTooLate(2048, parts[2..], Some(end));
    assert parts[1..][1..] == parts[2..];
    assert CutTooLate(1024, parts[1..], Some(end));
  }

  /** The same response for every way TCP can cut the stream, exactly when the headers
      end within the first 4097 bytes: the size is only looked at after a search. */
  lemma FragmentationIndependentIff(contentLength: Bytes -> Option<nat>, s: Bytes, end: nat)
    requires 4 <= end <= |s| && FirstAt(s, end - 4)
    ensures (forall parts: seq<Bytes> :: Fragments(parts) && Flatten(parts) == s ==>
               Respond(contentLength, parts) == Expected(contentLength, s, end))
            <==> end <= 4097
  {
    if end <= 4097 {
      forall parts: seq<Bytes> | Fragments(parts) && Flatten(parts) == s
        ensures Respond(contentLength, parts) == Expected(contentLength, s, end)
      {
        ShortHeadersNeverCut(0, parts, end);
        RespondExact(contentLength, parts, end);
      }
    } else {
      AdverseFails(s, end);
      RespondExact(contentLength, Adverse(s), end);
      assert Respond(contentLength, Adverse(s)) != Expected(contentLength, s, end);
    }
  }

  // ----------------------------------------------------------------------- loops

  method Search(buf: Bytes, start: nat) returns (pos: Option<nat>)
    ensures pos == FindFrom(buf, start)
  {
    var i := start;
    while i + 4 <= |buf|
      invariant start <= i
      invariant FindFrom(buf, start) == FindFrom(buf, i)
    {
      if buf[i..i + 4] == BLANK_LINE {
        return Some(i);
      }
      i := i + 1;
    }
    pos := None;
  }

  /** The reader's loops: `bodyStart` stays 0 until the blank line is found. */
  method ReadResponse(contentLength: Bytes -> Option<nat>, parts: seq<Bytes>) returns (r: Result<Bytes, Error>)
    ensures r == Respond(contentLength, parts)
  {
    var buf: Bytes, next: nat, bodyStart: nat := [], 0, 0;
    while bodyStart == 0
      invariant next <= |parts|
      invariant bodyStart == 0 ==> ReadHeaders(buf, parts[next..]) == ReadHeaders([], parts)
      invariant bodyStart > 0 ==> ReadHeaders([], parts) == Ok(Headers(bodyStart, buf, parts[next..]))
      decreases bodyStart == 0, |parts| - next
    {
      if next == |parts| {
        return Err(ClosedInHeaders);
      }
      assert parts[next..][0] == parts[next] && parts[next..][1..] == parts[next + 1..];
      var startSearch := if |buf| < 3 then 0 else |buf| - 3;
      buf := buf + parts[next];
      next := next + 1;
      var pos := Search(buf, startSearch);
      if pos.Some? {
        bodyStart := pos.value + 4;
      } else if |buf| > HEADER_LIMIT {
        return Err(HeadersTooLarge);
      }
    }
    HeaderEndBuffered([], parts);
    var length := contentLength(buf[..bodyStart]);
    if length.None? {
      return Err(BadHeaders);
    }
    r := ReadBody(Headers(bodyStart, buf, parts[next..]), length.value);
  }
}
