/** Loss accounting over 16-bit sequence numbers. */
module SequenceTracker {
  import opened Common
  import opened Serial

  const MAX_HISTORY: nat := 100
  const MAX_GAP: nat := 1000

  datatype Gap = Gap(start: U16, count: nat)

  datatype Tracker = Tracker(expected: Option<U16>, recent: seq<Gap>, received: nat, gaps: nat, lost: nat)

  function New(): Tracker {
    Tracker(None, [], 0, 0, 0)
  }

  /** The gap a packet reveals: 1 to 999 numbers missing before it. */
  function GapBefore(t: Tracker, seqno: U16): (g: Option<Gap>) {
    if t.expected.None? then None else
      var size := Ahead(t.expected.value, seqno);
      if 0 < size < MAX_GAP then Some(Gap(t.expected.value, size)) else None
  }

  function Remember(recent: seq<Gap>, g: Gap): seq<Gap> {
    (if |recent| >= MAX_HISTORY then recent[1..] else recent) + [g]
  }

  function Record(t: Tracker, seqno: U16): (t': Tracker) {
    var g := GapBefore(t, seqno);
    var counted := t.(received := t.received + 1, expected := Some(Next(seqno)));
    if g.None? then counted else
      counted.(gaps := t.gaps + 1, lost := t.lost + g.value.count, recent := Remember(t.recent, g.value))
  }

  function RecordAll(t: Tracker, seqnos: seq<U16>): Tracker {
    if seqnos == [] then t
    else Record(RecordAll(t, seqnos[..|seqnos| - 1]), seqnos[|seqnos| - 1])
  }

  // ------------------------------------------------------------------ accounting

  /** How far the stream has moved, first to last number inclusive, each packet
      taken as ahead of the one before it: wraps add up instead of starting over. */
  ghost function Span(seqnos: seq<U16>): (n: nat) {
    if |seqnos| == 0 then 0
    else if |seqnos| == 1 then 1
    else Span(seqnos[..|seqnos| - 1]) + Ahead(Next(seqnos[|seqnos| - 2]), seqnos[|seqnos| - 1]) + 1
  }

  /** Every packet is 0 to 999 ahead of the number expected after its predecessor. */
  ghost predicate NoJumps(seqnos: seq<U16>) {
    forall i: nat :: 0 < i < |seqnos| ==> Missing(seqnos, i) < 1000
  }

  /** How many numbers packet i leaves out after its predecessor. */
  ghost function Missing(seqnos: seq<U16>, i: nat): nat
    requires 0 < i < |seqnos|
  {
    Ahead(Next(seqnos[i - 1]), seqnos[i])
  }

  /** Every gap the run revealed, oldest first. */
  ghost function AllGaps(seqnos: seq<U16>): (gs: seq<Gap>) {
    if |seqnos| <= 1 then [] else
      var before := Next(seqnos[|seqnos| - 2]);
      var size := Ahead(before, seqnos[|seqnos| - 1]);
      AllGaps(seqnos[..|seqnos| - 1]) + if 0 < size < 1000 then [Gap(before, size)] else []
  }

  ghost function Latest(gs: seq<Gap>): seq<Gap> {
    if |gs| > 100 then gs[|gs| - 100..] else gs
  }

  lemma RememberLatest(gs: seq<Gap>, g: Gap)
    ensures Remember(Latest(gs), g) == Latest(gs + [g])
  {
  }

  lemma NoJumpsSnoc(init: seq<U16>, x: U16)
    requires init != []
    ensures NoJumps(init + [x]) <==> NoJumps(init) && Ahead(Next(init[|init| - 1]), x) < MAX_GAP
  {
    var all := init + [x];
    assert Missing(all, |init|) == Ahead(Next(init[|init| - 1]), x);
    forall i: nat | 0 < i < |init| ensures Missing(all, i) == Missing(init, i) {}
  }

  lemma {:induction false} RunExpects(seqnos: seq<U16>)
    ensures var t := RecordAll(New(), seqnos);
            && t.received == |seqnos|
            && t.expected == (if seqnos == [] then None else Some(Next(seqnos[|seqnos| - 1])))
  {
    if seqnos != [] { RunExpects(seqnos[..|seqnos| - 1]); }
  }

  /** Received plus lost is the unwrapped distance covered, over any number of
      wraps, exactly for the runs in which no packet is 1000 or more ahead of the
      number expected; otherwise it falls short. */
  lemma {:induction false} LossAccountsForSpanIff(seqnos: seq<U16>)
    ensures var t := RecordAll(New(), seqnos);
            && t.received == |seqnos|
            && (t.received + t.lost == Span(seqnos) <==> NoJumps(seqnos))
            && t.received + t.lost <= Span(seqnos)
  {
    if |seqnos| == 1 {
      assert RecordAll(New(), seqnos[..0]) == New();
    } else if |seqnos| > 1 {
      var init, x := seqnos[..|seqnos| - 1], seqnos[|seqnos| - 1];
      LossAccountsForSpanIff(init);
      RunExpects(init);
      NoJumpsSnoc(init, x);
      assert init + [x] == seqnos;
      var t, before := RecordAll(New(), init), Next(init[|init| - 1]);
      hide NoJumps, RecordAll;
      assert Span(seqnos) == Span(init) + Ahead(before, x) + 1;
      assert Record(t, x).lost == t.lost + if Ahead(before, x) < MAX_GAP then Ahead(before, x) else 0;
      LastRecorded(seqnos);
    }
  }

  lemma LastRecorded(seqnos: seq<U16>)
    requires seqnos != []
    ensures RecordAll(New(), seqnos)
         == Record(RecordAll(New(), seqnos[..|seqnos| - 1]), seqnos[|seqnos| - 1])
  {
  }

  /** The history is the 100 most recent gaps of the run. */
  lemma {:induction false} HistoryIsLatestGaps(seqnos: seq<U16>)
    ensures var t := RecordAll(New(), seqnos);
            t.recent == Latest(AllGaps(seqnos)) && |t.recent| <= 100 && t.gaps == |AllGaps(seqnos)|
  {
    if |seqnos| == 1 {
      assert RecordAll(New(), seqnos[..0]) == New();
    } else if |seqnos| > 1 {
      var init, x := seqnos[..|seqnos| - 1], seqnos[|seqnos| - 1];
      HistoryIsLatestGaps(init);
      RunExpects(init);
      assert init[|init| - 1] == seqnos[|seqnos| - 2];
      LastRecorded(seqnos);
      var g := GapBefore(RecordAll(New(), init), x);
      hide RecordAll, Latest;
      if g.Some? {
        RememberLatest(AllGaps(init), g.value);
        assert AllGaps(seqnos) == AllGaps(init) + [g.value];
      } else {
        assert AllGaps(seqnos) == AllGaps(init);
      }
    }
  }

  /** One packet out of order counts as nothing lost and nothing gained, yet the span goes once around. */
  lemma ReorderedExample()
    ensures var t := RecordAll(New(), [5, 4]); t.received + t.lost == 2 && Span([5, 4]) == 65536
  {
    assert [5, 4][..1] == [5] && [5][..0] == [];
    assert Span([5]) == 1;
    assert RecordAll(New(), []) == New();
    assert RecordAll(New(), [5]) == Record(New(), 5);
    assert RecordAll(New(), [5, 4]) == Record(Record(New(), 5), 4);
  }

  class SequenceTracker {
    var expectedSeq: Option<U16>
    var recentGaps: seq<Gap>
    var packetsReceived: nat
    var totalGaps: nat
    var totalLost: nat

    ghost function View(): Tracker
      reads this
    {
      Tracker(expectedSeq, recentGaps, packetsReceived, totalGaps, totalLost)
    }

    constructor ()
      ensures View() == New()
    {
      expectedSeq := None;
      recentGaps := [];
      packetsReceived, totalGaps, totalLost := 0, 0, 0;
    }

    method RecordPacket(seqno: U16) returns (gap: Option<Gap>)
      modifies this
      ensures View() == Record(old(View()), seqno) && gap == GapBefore(old(View()), seqno)
    {
      packetsReceived := packetsReceived + 1;
      gap := None;
      if expectedSeq.Some? {
        var size := Ahead(expectedSeq.value, seqno);
        if size > 0 && size < MAX_GAP {
          totalGaps := totalGaps + 1;
          totalLost := totalLost + size;
          gap := Some(Gap(expectedSeq.value, size));
          if |recentGaps| >= MAX_HISTORY {
            recentGaps := recentGaps[1..];
          }
          recentGaps := recentGaps + [gap.value];
        }
      }
      expectedSeq := Some(Next(seqno));
    }
  }
}
