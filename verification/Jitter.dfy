/** Sixteen-bit RTP sequence numbers (section 5.1 of RFC 3550) under serial arithmetic. */
module Serial {
  type U16 = x: int | 0 <= x < 65536

  /** How many increments lead from one number to another: a wrapping subtraction. */
  function Ahead(from: U16, to: U16): U16 {
    if to >= from then to - from else to - from + 65536
  }

  /** A wrapping increment. */
  function Next(x: U16): U16 {
    if x == 65535 then 0 else x + 1
  }

  lemma AheadIsDifference(from: U16, to: U16)
    ensures Ahead(from, to) == (to as int - from) % 65536 && Next(to) == (to as int + 1) % 65536
  {
  }

  /** The wrapping difference is negative when read as a signed 16-bit number. */
  predicate Behind(x: U16, reference: U16) {
    Ahead(reference, x) >= 32768
  }
}

/** The operations of the jitter buffer as functions of its whole state. */
module Jitter {
  import opened Common
  import opened Serial

  datatype Packet = Packet(sequence: U16, timestamp: nat, audioData: seq<Byte>, receivedAt: int)

  datatype Config = Config(minDepth: nat, maxDepth: nat, maxAge: nat)

  datatype BufferState = Buffering | Playing | Underrun

  datatype Stats = Stats(
    received: nat, played: nat, droppedLate: nat, droppedOverflow: nat,
    concealed: nat, underruns: nat, currentDepth: nat, maxDepthSeen: nat)

  datatype Buffer = Buffer(
    config: Config, packets: map<U16, Packet>, next: Option<U16>, state: BufferState, stats: Stats)

  function New(config: Config): Buffer {
    Buffer(config, map[], None, Buffering, Stats(0, 0, 0, 0, 0, 0, 0, 0))
  }

  // ------------------------------------------------------------- ordered keys

  lemma {:induction false} LowestFrom(keys: set<U16>, k: U16)
    requires k in keys
    ensures exists least :: least in keys && forall j :: j in keys ==> least <= j
    decreases k
  {
    if j :| j in keys && j < k { LowestFrom(keys, j); }
  }

  /** The first key of the ordered map. */
  function Lowest(keys: set<U16>): (k: U16)
    requires keys != {}
    ensures k in keys && forall j :: j in keys ==> k <= j
  {
    assert exists least :: least in keys && forall j :: j in keys ==> least <= j by {
      var any :| any in keys;
      LowestFrom(keys, any);
    }
    var k :| k in keys && forall j :: j in keys ==> k <= j;
    k
  }

  ghost predicate Ascending(ks: seq<U16>) {
    forall i, j :: 0 <= i < j < |ks| ==> ks[i] < ks[j]
  }

  /** The keys in map order. */
  function Sorted(keys: set<U16>): (ks: seq<U16>)
    ensures Ascending(ks) && |ks| == |keys|
    ensures forall k :: k in ks <==> k in keys
    decreases |keys|
  {
    if keys == {} then [] else
      var k := Lowest(keys);
      var rest := Sorted(keys - {k});
      assert forall i :: 0 <= i < |rest| ==> rest[i] in rest;
      [k] + rest
  }

  // ---------------------------------------------------- start of playback

  /** Largest difference between neighbours among the first n pairs, and where it first occurs. */
  function LargestGap(ks: seq<U16>, n: nat): (r: (int, nat))
    requires n < |ks|
  {
    if n == 0 then (0, 0) else
      var (gap, at) := LargestGap(ks, n - 1);
      var diff: int := ks[n] as int - ks[n - 1];
      if diff > gap then (diff, n - 1) else (gap, at)
  }

  lemma {:induction false} LargestGapIndex(ks: seq<U16>, n: nat)
    requires n < |ks|
    ensures 0 < n ==> LargestGap(ks, n).1 < n
    ensures LargestGap(ks, n).1 <= n
  {
    if n > 0 { LargestGapIndex(ks, n - 1); }
  }

  function StartOf(ks: seq<U16>): (start: U16)
    requires ks != []
  {
    if |ks| == 1 then ks[0] else
      var (gap, at) := LargestGap(ks, |ks| - 1);
      LargestGapIndex(ks, |ks| - 1);
      if gap > ks[0] as int + 65536 - ks[|ks| - 1] then ks[at + 1] else ks[0]
  }

  function StartSequence(packets: map<U16, Packet>): (start: Option<U16>) {
    if packets.Keys == {} then None else Some(StartOf(Sorted(packets.Keys)))
  }

  // ---------------------------------------------------------------- operations

  function UpdateState(b: Buffer): Buffer {
    var depth := |b.packets|;
    var c :=
      match b.state
      case Buffering =>
        if depth >= b.config.minDepth then
          b.(state := Playing, next := if b.next.None? then StartSequence(b.packets) else b.next)
        else b
      case Playing =>
        if depth == 0 then b.(state := Underrun, stats := b.stats.(underruns := b.stats.underruns + 1)) else b
      case Underrun =>
        if depth >= b.config.minDepth then b.(state := Playing) else b;
    c.(stats := c.stats.(currentDepth := depth))
  }

  /** Makes room by dropping the lowest key, counting the drop even when there is none. */
  function MakeRoom(b: Buffer): Buffer {
    if |b.packets| >= b.config.maxDepth then
      b.(stats := b.stats.(droppedOverflow := b.stats.droppedOverflow + 1),
         packets := if b.packets.Keys == {} then b.packets else b.packets - {Lowest(b.packets.Keys)})
    else b
  }

  function Store(b: Buffer, p: Packet): Buffer {
    var packets := b.packets[p.sequence := p];
    b.(packets := packets,
       stats := b.stats.(maxDepthSeen := if |packets| > b.stats.maxDepthSeen then |packets| else b.stats.maxDepthSeen))
  }

  predicate IsLate(b: Buffer, p: Packet) {
    b.next.Some? && Behind(p.sequence, b.next.value)
  }

  function Insert(b: Buffer, p: Packet): Buffer {
    var c := b.(stats := b.stats.(received := b.stats.received + 1));
    if IsLate(c, p) then c.(stats := c.stats.(droppedLate := c.stats.droppedLate + 1))
    else UpdateState(Store(MakeRoom(c), p))
  }

  /** Hands over a buffered packet and moves the play point just past it. */
  function Play(b: Buffer, seqno: U16): (r: (Buffer, Option<Packet>))
    requires seqno in b.packets
  {
    var c := b.(next := Some(Next(seqno)), packets := b.packets - {seqno},
                stats := b.stats.(played := b.stats.played + 1));
    (UpdateState(c), Some(b.packets[seqno]))
  }

  function HandleMissing(b: Buffer, missing: U16): (r: (Buffer, Option<Packet>)) {
    var c := b.(stats := b.stats.(concealed := b.stats.concealed + 1));
    if b.packets.Keys != {} && Ahead(missing, Lowest(b.packets.Keys)) < 10
    then Play(c, Lowest(b.packets.Keys))
    else (c.(next := Some(Next(missing))), None)
  }

  function Pop(b: Buffer): (r: (Buffer, Option<Packet>)) {
    if b.state.Buffering? || b.next.None? then (b, None)
    else if b.next.value in b.packets then Play(b, b.next.value)
    else HandleMissing(b, b.next.value)
  }

  function Flush(b: Buffer): Buffer {
    b.(packets := map[], state := Buffering, next := None)
  }

  function FlushFrom(b: Buffer, rtpTime: nat): Buffer {
    var kept := map k | k in b.packets && b.packets[k].timestamp < rtpTime :: b.packets[k];
    if kept.Keys == {} then b.(packets := kept, state := Buffering, next := None)
    else b.(packets := kept)
  }

  /** Ages below zero are clamped to zero, as the clock library does. */
  predicate Fresh(b: Buffer, p: Packet, now: int) {
    (if now > p.receivedAt then now - p.receivedAt else 0) < b.config.maxAge
  }

  function Prune(b: Buffer, now: int): Buffer {
    b.(packets := map k | k in b.packets && Fresh(b, b.packets[k], now) :: b.packets[k])
  }

  // ------------------------------------------ the largest gap finds the start

  /** All keys lie in one circular window shorter than half the number space. */
  ghost predicate FitsWindow(keys: set<U16>) {
    exists base: U16 :: InWindow(keys, base)
  }

  ghost predicate InWindow(keys: set<U16>, base: U16) {
    forall k :: k in keys ==> Ahead(base, k) < 32768
  }

  lemma {:induction false} LargestGapIsMax(ks: seq<U16>, n: nat, i: nat)
    requires Ascending(ks) && i < n < |ks|
    ensures var (gap, at) := LargestGap(ks, n);
            at < n && gap == ks[at + 1] - ks[at] && ks[i + 1] - ks[i] <= gap
  {
    LargestGapIndex(ks, n - 1);
    if n > 1 { LargestGapIsMax(ks, n - 1, if i < n - 1 then i else 0); }
  }

  lemma GapAtMost(ks: seq<U16>, bound: int)
    requires Ascending(ks) && |ks| > 1
    requires forall i :: 0 <= i < |ks| - 1 ==> ks[i + 1] - ks[i] <= bound
    ensures LargestGap(ks, |ks| - 1).0 <= bound
  {
    LargestGapIsMax(ks, |ks| - 1, 0);
  }

  /** The only pair further apart than half the space is the one the scan reports. */
  lemma GapUnique(ks: seq<U16>, i: nat)
    requires Ascending(ks) && i + 1 < |ks| && ks[i + 1] - ks[i] > 32768
    ensures LargestGap(ks, |ks| - 1) == (ks[i + 1] - ks[i], i)
  {
    LargestGapIsMax(ks, |ks| - 1, i);
    var (gap, at) := LargestGap(ks, |ks| - 1);
  }

  lemma {:induction false} Boundary(ks: seq<U16>, base: U16, n: nat) returns (i: nat)
    requires Ascending(ks) && n + 1 <= |ks| && n > 0 && ks[0] < base <= ks[n]
    ensures i < n && ks[i] < base <= ks[i + 1]
  {
    if ks[n - 1] < base { i := n - 1; } else { i := Boundary(ks, base, n - 1); }
  }

  /** No key lies on the far side of number 0 from the window's base. */
  lemma StartWithoutWrap(ks: seq<U16>, base: U16)
    requires Ascending(ks) && |ks| > 1
    requires forall k :: k in ks ==> Ahead(base, k) < 32768
    requires base <= ks[0] || ks[|ks| - 1] < base
    ensures StartOf(ks) == ks[0] && ks[|ks| - 1] - ks[0] < 32768
  {
    var last := |ks| - 1;
    assert ks[0] in ks && ks[last] in ks;
    forall i | 0 <= i < last ensures ks[i + 1] - ks[i] <= ks[last] - ks[0] {
      assert ks[0] <= ks[i] && ks[i + 1] <= ks[last];
    }
    GapAtMost(ks, ks[last] - ks[0]);
  }

  /** The window runs through number 0: the start is the first key at or above its base. */
  lemma StartAcrossWrap(ks: seq<U16>, base: U16) returns (i: nat)
    requires Ascending(ks) && |ks| > 1
    requires forall k :: k in ks ==> Ahead(base, k) < 32768
    requires ks[0] < base <= ks[|ks| - 1]
    ensures i + 1 < |ks| && ks[i] < base <= ks[i + 1] == StartOf(ks)
  {
    i := Boundary(ks, base, |ks| - 1);
    assert ks[0] in ks && ks[i] in ks && ks[i + 1] in ks && ks[|ks| - 1] in ks;
    GapUnique(ks, i);
  }

  lemma EarliestInWindow(ks: seq<U16>, base: U16, k: U16)
    requires Ascending(ks) && ks != [] && k in ks
    requires forall j :: j in ks ==> Ahead(base, j) < 32768
    ensures Ahead(StartOf(ks), k) < 32768
  {
    var last := |ks| - 1;
    var j :| 0 <= j < |ks| && ks[j] == k;
    if |ks| > 1 {
      if base <= ks[0] || ks[last] < base {
        StartWithoutWrap(ks, base);
        assert ks[0] <= k <= ks[last];
      } else {
        var i := StartAcrossWrap(ks, base);
        assert ks[i + 1] in ks;
        if j <= i { assert k <= ks[i]; } else { assert ks[i + 1] <= k; }
      }
    }
  }

  /** The start chosen by the scan has every buffered number at or ahead of it,
      also when they wrap through 0, exactly when they fit in a circular window
      shorter than 32768. */
  lemma StartIsEarliestIff(packets: map<U16, Packet>)
    requires packets.Keys != {}
    ensures StartSequence(packets).value in packets
    ensures InWindow(packets.Keys, StartSequence(packets).value) <==> FitsWindow(packets.Keys)
  {
    var ks := Sorted(packets.Keys);
    if |ks| > 1 { LargestGapIndex(ks, |ks| - 1); }
    var start := StartOf(ks);
    assert start in ks;
    if FitsWindow(packets.Keys) {
      var base :| InWindow(packets.Keys, base);
      forall k | k in packets.Keys ensures Ahead(start, k) < 32768 {
        EarliestInWindow(ks, base, k);
      }
    }
  }
}
