/** What flushing and pruning take out of the jitter buffer, over whole runs, and what its
    statistics count. */
module JitterFlush {
  import opened Common
  import opened Serial
  import opened Jitter
  import opened JitterRuns

  // ---------------------------------------------------------------- what survives

  /** Whether a flush or a prune spares a packet. */
  predicate Spares(config: Config, op: Op, p: Packet) {
    match op
    case FlushOp => false
    case FlushFromOp(rtpTime) => p.timestamp < rtpTime
    case PruneOp(now) => now - p.receivedAt < config.maxAge && 0 < config.maxAge
    case _ => true
  }

  ghost predicate Discards(op: Op) {
    op.FlushOp? || op.FlushFromOp? || op.PruneOp?
  }

  /** A flush takes everything, one from a timestamp what is not earlier, a prune what is not
      younger than the maximum age; whatever is spared stays as it was. */
  lemma SurvivesIff(b: Buffer, op: Op, k: U16)
    requires Discards(op)
    ensures k in Apply(b, op).packets <==> k in b.packets && Spares(b.config, op, b.packets[k])
    ensures k in Apply(b, op).packets ==> Apply(b, op).packets[k] == b.packets[k]
  {
  }

  /** A flush gives up the play point, one from a timestamp only when nothing is left, a prune never. */
  lemma PlayPointAfterDiscard(b: Buffer, op: Op)
    requires Discards(op)
    ensures Apply(b, op).next == if op.FlushOp? || (op.FlushFromOp? && Apply(b, op).packets.Keys == {})
                                 then None else b.next
  {
  }

  // ------------------------------------------------------------- what comes out later

  /** `out` is what a step or a run hands out: no more than was buffered or has come in since. */
  ghost predicate Yields(w: World, v: World, out: seq<Packet>) {
    && v.delivered == w.delivered + out && w.received <= v.received
    && multiset(out) + Buffered(v.b) <= Buffered(w.b) + (v.received - w.received)
  }

  lemma StepYields(w: World, op: Op) returns (out: seq<Packet>)
    requires WellFormed(w.b)
    ensures Yields(w, Step(w, op), out)
  {
    hide *;
    out := RecordYields(w, op);
    StepIsRecorded(w, op);
    SameYields(w, Recorded(w, op), Step(w, op), out);
  }

  /** The play point's bookkeeping is none of it. */
  lemma SameYields(w: World, u: World, v: World, out: seq<Packet>)
    requires Yields(w, u, out) && v == u.(point := v.point, outs := v.outs)
    ensures Yields(w, v, out)
  {
  }

  lemma RecordYields(w: World, op: Op) returns (out: seq<Packet>)
    requires WellFormed(w.b)
    ensures Yields(w, Recorded(w, op), out)
  {
    hide Pop, Apply, Inserted, Buffered, WellFormed;
    out := [];
    assert w.delivered + [] == w.delivered;
    match op {
      case InsertOp(p) => InsertYields(w, p);
      case PopOp =>
        PopYields(w);
        if Pop(w.b).1.Some? { out := [Pop(w.b).1.value]; }
      case _ => DiscardEffect(w.b, op);
    }
  }

  lemma InsertYields(w: World, p: Packet)
    requires WellFormed(w.b)
    ensures var v := Inserted(w, p);
            && v.delivered == w.delivered && v.received == w.received + multiset{p}
            && Buffered(v.b) <= Buffered(w.b) + multiset{p}
  {
    if IsLate(w.b, p) {
      assert Buffered(Insert(w.b, p)) == Buffered(w.b);
    } else {
      hide MakeRoom, Insert, Buffered, IsLate;
      InsertEffect(w.b, p);
      MakeRoomEffect(w.b);
      RoomKeeps(w.b);
      BufferedWith(MakeRoom(w.b), Insert(w.b, p), p);
    }
  }

  lemma PopYields(w: World)
    requires WellFormed(w.b)
    ensures var (c, out) := Pop(w.b);
            Buffered(w.b) == (if out.Some? then multiset{out.value} else multiset{}) + Buffered(c)
  {
    if !w.b.state.Buffering? {
      PopAdvances(w.b);
      var (c, out) := Pop(w.b);
      if out.Some? { BufferedWithout(w.b, c, out.value.sequence); }
    }
  }

  lemma YieldsTrans(w: World, u: World, v: World, a: seq<Packet>, b: seq<Packet>)
    requires Yields(w, u, a) && Yields(u, v, b)
    ensures Yields(w, v, a + b)
  {
    hide Buffered;
    assert (w.delivered + a) + b == w.delivered + (a + b);
    assert multiset(a + b) == multiset(a) + multiset(b);
    forall q: Packet
      ensures (multiset(a + b) + Buffered(v.b))[q] <= (Buffered(w.b) + (v.received - w.received))[q]
    {
      assert (multiset(a) + Buffered(u.b))[q] <= (Buffered(w.b) + (u.received - w.received))[q];
      assert (multiset(b) + Buffered(v.b))[q] <= (Buffered(u.b) + (v.received - u.received))[q];
      assert w.received[q] <= u.received[q] <= v.received[q];
    }
  }

  lemma {:induction false} RunYields(w: World, ops: seq<Op>) returns (out: seq<Packet>)
    requires WellFormed(w.b)
    ensures Yields(w, Run(w, ops), out)
    decreases |ops|
  {
    hide Step, WellFormed, Yields;
    if ops == [] {
      out := [];
      YieldsNothing(w);
    } else {
      var u := Step(w, ops[0]);
      StepIsRecorded(w, ops[0]);
      StepWellFormed(w.b, ops[0]);
      var a := StepYields(w, ops[0]);
      var b := RunYields(u, ops[1..]);
      YieldsTrans(w, u, Run(w, ops), a, b);
      out := a + b;
    }
  }

  lemma YieldsNothing(w: World)
    ensures Yields(w, w, [])
  {
    assert w.delivered + [] == w.delivered;
  }

  /** Whatever is done after a flush or a prune: of a packet it does not spare no copy is handed
      out that has not been received since. */
  lemma DiscardedNeverComesOut(w: World, op: Op, ops: seq<Op>) returns (out: seq<Packet>)
    requires WellFormed(w.b) && Discards(op)
    ensures var v := Run(Step(w, op), ops);
            && v.delivered == w.delivered + out && w.received <= v.received
            && multiset(out) <= Buffered(Apply(w.b, op)) + (v.received - w.received)
            && forall q: Packet :: !Spares(w.b.config, op, q) ==>
                 multiset(out)[q] <= (v.received - w.received)[q]
  {
    var u := Step(w, op);
    StepIsRecorded(w, op);
    StepWellFormed(w.b, op);
    assert u.delivered == w.delivered && u.received == w.received;
    hide Step;
    out := RunYields(u, ops);
    forall q: Packet | !Spares(w.b.config, op, q) ensures Buffered(u.b)[q] == 0 {
      DiscardedGone(w.b, op, q);
    }
  }

  lemma DiscardedGone(b: Buffer, op: Op, q: Packet)
    requires WellFormed(b) && Discards(op) && !Spares(b.config, op, q)
    ensures Buffered(Apply(b, op))[q] == 0
  {
    StepWellFormed(b, op);
    BufferedAt(Apply(b, op), q);
    SurvivesIff(b, op, q.sequence);
  }

  /** Nothing received before a flush is handed out after it. */
  lemma FlushSilences(w: World, ops: seq<Op>) returns (out: seq<Packet>)
    requires WellFormed(w.b)
    ensures var u := Step(w, FlushOp);
            var v := Run(u, ops);
            && Buffered(u.b) == multiset{} && v.delivered == w.delivered + out && w.received <= v.received
            && multiset(out) <= v.received - w.received
  {
    StepIsRecorded(w, FlushOp);
    assert Step(w, FlushOp).b.packets == map[];
    out := DiscardedNeverComesOut(w, FlushOp, ops);
  }

  // ------------------------------------------------------------------- statistics

  /** A pop that does not find the packet expected. */
  predicate Misses(b: Buffer, op: Op) {
    op.PopOp? && b.next.Some? && b.next.value !in b.packets
  }

  ghost predicate RunsDry(b: Buffer, op: Op) {
    !b.state.Underrun? && Apply(b, op).state.Underrun?
  }

  ghost function Max(a: nat, b: nat): nat {
    if a > b then a else b
  }

  /** The depth an accepted packet brings about. */
  ghost function DepthReached(b: Buffer, op: Op): nat {
    if op.InsertOp? && !IsLate(b, op.p) then |Apply(b, op).packets| else 0
  }

  ghost function CountMisses(w: World, ops: seq<Op>): nat
    decreases |ops|
  {
    if ops == [] then 0 else (if Misses(w.b, ops[0]) then 1 else 0) + CountMisses(Step(w, ops[0]), ops[1..])
  }

  ghost function CountRunsDry(w: World, ops: seq<Op>): nat
    decreases |ops|
  {
    if ops == [] then 0 else (if RunsDry(w.b, ops[0]) then 1 else 0) + CountRunsDry(Step(w, ops[0]), ops[1..])
  }

  ghost function Deepest(w: World, ops: seq<Op>): nat
    decreases |ops|
  {
    if ops == [] then 0 else Max(DepthReached(w.b, ops[0]), Deepest(Step(w, ops[0]), ops[1..]))
  }

  lemma UpdateStats(b: Buffer)
    ensures var c := UpdateState(b);
            && c.stats.concealed == b.stats.concealed && c.stats.maxDepthSeen == b.stats.maxDepthSeen
            && c.stats.underruns == b.stats.underruns + (if !b.state.Underrun? && c.state.Underrun? then 1 else 0)
            && c.stats.currentDepth == |c.packets|
  {
    hide StartSequence;
  }

  lemma InsertStats(b: Buffer, p: Packet)
    requires !IsLate(b, p)
    ensures var c := Insert(b, p);
            && c.stats.concealed == b.stats.concealed
            && c.stats.maxDepthSeen == Max(b.stats.maxDepthSeen, |c.packets|)
            && c.stats.underruns == b.stats.underruns + (if !b.state.Underrun? && c.state.Underrun? then 1 else 0)
            && c.stats.currentDepth == |c.packets|
  {
    hide UpdateState, Store, MakeRoom;
    var counted := b.(stats := b.stats.(received := b.stats.received + 1));
    var stored := Store(MakeRoom(counted), p);
    assert Insert(b, p) == UpdateState(stored);
    StoreStats(b, counted, p);
    UpdateStats(stored);
    NewState(stored);
  }

  lemma StoreStats(b: Buffer, counted: Buffer, p: Packet)
    requires counted == b.(stats := b.stats.(received := b.stats.received + 1))
    ensures var c := Store(MakeRoom(counted), p);
            && c.state == b.state && c.stats.concealed == b.stats.concealed && c.stats.underruns == b.stats.underruns
            && c.stats.maxDepthSeen == Max(b.stats.maxDepthSeen, |c.packets|)
  {
  }

  lemma PlayStats(b: Buffer, n: U16)
    requires n in b.packets
    ensures var c := Play(b, n).0;
            && c.stats.concealed == b.stats.concealed && c.stats.maxDepthSeen == b.stats.maxDepthSeen
            && c.stats.underruns == b.stats.underruns + (if !b.state.Underrun? && c.state.Underrun? then 1 else 0)
            && c.stats.currentDepth == |c.packets|
  {
    UpdateStats(b.(next := Some(Next(n)), packets := b.packets - {n}, stats := b.stats.(played := b.stats.played + 1)));
    hide UpdateState;
  }

  lemma PopStats(b: Buffer)
    requires WellFormed(b)
    ensures var (c, out) := Pop(b);
            && c.stats.concealed == b.stats.concealed + (if Misses(b, PopOp) then 1 else 0)
            && c.stats.maxDepthSeen == b.stats.maxDepthSeen
            && c.stats.underruns == b.stats.underruns + (if !b.state.Underrun? && c.state.Underrun? then 1 else 0)
            && c.stats.currentDepth == if out.Some? then |c.packets| else b.stats.currentDepth
  {
    hide Play;
    if b.next.Some? {
      var n := b.next.value;
      if n in b.packets {
        PlayStats(b, n);
        PlayEffect(b, n);
      } else if b.packets.Keys != {} && Ahead(n, Lowest(b.packets.Keys)) < 10 {
        var c := b.(stats := b.stats.(concealed := b.stats.concealed + 1));
        PlayStats(c, Lowest(b.packets.Keys));
        PlayEffect(c, Lowest(b.packets.Keys));
      }
    }
  }

  lemma StepStats(b: Buffer, op: Op)
    requires WellFormed(b)
    ensures var c := Apply(b, op);
            && c.stats.concealed == b.stats.concealed + (if Misses(b, op) then 1 else 0)
            && c.stats.underruns == b.stats.underruns + (if RunsDry(b, op) then 1 else 0)
            && c.stats.maxDepthSeen == Max(b.stats.maxDepthSeen, DepthReached(b, op))
  {
    match op
    case InsertOp(p) => if !IsLate(b, p) { InsertStats(b, p); }
    case PopOp => PopStats(b);
    case _ =>
  }

  /** Over every run the statistics count what happened: concealed packets are the pops that
      missed, underruns the times the buffer ran dry, the maximum the deepest it has been. */
  lemma {:induction false} StatsCount(w: World, ops: seq<Op>)
    requires WellFormed(w.b)
    ensures var s := Run(w, ops).b.stats;
            && s.concealed == w.b.stats.concealed + CountMisses(w, ops)
            && s.underruns == w.b.stats.underruns + CountRunsDry(w, ops)
            && s.maxDepthSeen == Max(w.b.stats.maxDepthSeen, Deepest(w, ops))
    decreases |ops|
  {
    hide Step, Apply, WellFormed, Misses, RunsDry, DepthReached;
    if ops != [] {
      StepIsRecorded(w, ops[0]);
      StepWellFormed(w.b, ops[0]);
      StepStats(w.b, ops[0]);
      StatsCount(Step(w, ops[0]), ops[1..]);
    }
  }

  /** The depth reported is the depth there is. */
  predicate DepthTold(b: Buffer) {
    b.stats.currentDepth == |b.packets|
  }

  ghost predicate DropsUntold(b: Buffer, op: Op) {
    Discards(op) && Apply(b, op).packets.Keys != b.packets.Keys
  }

  /** It stops being so exactly when a flush or a prune takes something out. */
  lemma DepthToldIff(b: Buffer, op: Op)
    requires WellFormed(b) && DepthTold(b)
    ensures DepthTold(Apply(b, op)) <==> !DropsUntold(b, op)
  {
    hide Insert, Pop;
    match op
    case InsertOp(p) =>
      if IsLate(b, p) { LateChangesNothing(b, p); } else { InsertStats(b, p); }
    case PopOp =>
      PopStats(b);
      if b.state.Buffering? { PopWhileBuffering(b); } else { PopAdvances(b); }
    case _ => DiscardDepth(b, op);
  }

  lemma LateChangesNothing(b: Buffer, p: Packet)
    requires IsLate(b, p)
    ensures Insert(b, p).packets == b.packets && Insert(b, p).stats.currentDepth == b.stats.currentDepth
  {
  }

  lemma DiscardDepth(b: Buffer, op: Op)
    requires Discards(op) && DepthTold(b)
    ensures DepthTold(Apply(b, op)) <==> Apply(b, op).packets.Keys == b.packets.Keys
  {
    var c := Apply(b, op);
    assert c.packets.Keys <= b.packets.Keys && c.stats == b.stats;
    hide Apply;
    var gone := b.packets.Keys - c.packets.Keys;
    assert b.packets.Keys == c.packets.Keys + gone;
    assert |b.packets.Keys| == |c.packets.Keys| + |gone|;
    if |gone| == 0 { assert gone == {}; }
  }

  ghost predicate DepthToldThroughout(w: World, ops: seq<Op>)
    decreases |ops|
  {
    DepthTold(w.b) && (ops != [] ==> DepthToldThroughout(Step(w, ops[0]), ops[1..]))
  }

  ghost predicate DropsUntoldAlong(w: World, ops: seq<Op>)
    decreases |ops|
  {
    ops != [] && (DropsUntold(w.b, ops[0]) || DropsUntoldAlong(Step(w, ops[0]), ops[1..]))
  }

  /** Over whole runs the reported depth is right throughout exactly unless a flush or a prune
      takes something out. */
  lemma {:induction false} DepthToldThroughoutIff(w: World, ops: seq<Op>)
    requires WellFormed(w.b) && DepthTold(w.b)
    ensures DepthToldThroughout(w, ops) <==> !DropsUntoldAlong(w, ops)
    decreases |ops|
  {
    hide Step, Apply, WellFormed, DropsUntold, DepthTold;
    if ops != [] {
      StepIsRecorded(w, ops[0]);
      StepWellFormed(w.b, ops[0]);
      DepthToldIff(w.b, ops[0]);
      if DepthTold(Apply(w.b, ops[0])) { DepthToldThroughoutIff(Step(w, ops[0]), ops[1..]); }
    }
  }
}
