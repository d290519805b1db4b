/** Whole runs of the jitter buffer: packet accounting, play order, and when a
    buffered packet is passed over. */
module JitterRuns {
  import opened Common
  import opened Serial
  import opened Jitter

  datatype Op = InsertOp(p: Packet) | PopOp | FlushOp | FlushFromOp(rtpTime: nat) | PruneOp(now: int)

  /** A buffer and the history of its run: the packets it was given, those it refused as
      late, those dropped to make room, those overwritten by one of the same number, those
      removed by flushes and pruning, and those handed out.
      Since the play point was last set, `point` is its position counted without
      wrapping and `outs` the unwrapped positions of the packets handed out. */
  datatype World = World(
    b: Buffer, received: multiset<Packet>, late: multiset<Packet>, overflowed: multiset<Packet>,
    replaced: multiset<Packet>, discarded: multiset<Packet>, delivered: seq<Packet>, point: int, outs: seq<int>)

  ghost function Start(config: Config): World {
    World(New(config), multiset{}, multiset{}, multiset{}, multiset{}, multiset{}, [], 0, [])
  }

  ghost function Apply(b: Buffer, op: Op): Buffer {
    match op
    case InsertOp(p) => Insert(b, p)
    case PopOp => Pop(b).0
    case FlushOp => Flush(b)
    case FlushFromOp(t) => FlushFrom(b, t)
    case PruneOp(now) => Prune(b, now)
  }

  ghost function Result(b: Buffer, op: Op): Option<Packet> {
    if op.PopOp? then Pop(b).1 else None
  }

  ghost function Buffered(b: Buffer): multiset<Packet> {
    multiset(b.packets.Values)
  }

  /** What an insertion adds to the history. */
  ghost function Inserted(w: World, p: Packet): World {
    var room := MakeRoom(w.b);
    var v := w.(b := Insert(w.b, p), received := w.received + multiset{p});
    if IsLate(w.b, p) then v.(late := w.late + multiset{p})
    else
      var gone := if p.sequence in room.packets then multiset{room.packets[p.sequence]} else multiset{};
      v.(overflowed := w.overflowed + (Buffered(w.b) - Buffered(room)), replaced := w.replaced + gone)
  }

  /** A step without the bookkeeping of the play point. */
  ghost function Recorded(w: World, op: Op): World {
    match op
    case InsertOp(p) => Inserted(w, p)
    case PopOp =>
      var (c, out) := Pop(w.b);
      w.(b := c, delivered := if out.Some? then w.delivered + [out.value] else w.delivered)
    case _ =>
      var c := Apply(w.b, op);
      w.(b := c, discarded := w.discarded + (Buffered(w.b) - Buffered(c)))
  }

  ghost function Step(w: World, op: Op): World {
    var v, from, to, out := Recorded(w, op), w.b.next, Apply(w.b, op).next, Result(w.b, op);
    if to.None? then v.(point := 0, outs := [])
    else if from.None? then v.(point := to.value, outs := [])
    else v.(point := w.point + Ahead(from.value, to.value),
            outs := if out.Some? then w.outs + [w.point + Ahead(from.value, out.value.sequence)] else w.outs)
  }

  ghost function Run(w: World, ops: seq<Op>): World
    decreases |ops|
  {
    if ops == [] then w else Run(Step(w, ops[0]), ops[1..])
  }

  // ---------------------------------------------------------------- structure

  /** Keys are the packets' own numbers, and there is a play point exactly outside Buffering. */
  ghost predicate WellFormed(b: Buffer) {
    && (forall k :: k in b.packets ==> b.packets[k].sequence == k)
    && (b.state.Buffering? <==> b.next.None?)
  }

  ghost predicate KeysMatch(m: map<U16, Packet>) {
    forall k :: k in m ==> m[k].sequence == k
  }

  /** Re-evaluating the state with packets present never loses the play point. */
  lemma UpdateStateEffect(b: Buffer)
    requires b.packets.Keys != {} && (b.state.Buffering? <==> b.next.None?)
    ensures var c := UpdateState(b);
            && (c.state.Buffering? <==> c.next.None?)
            && (b.next.Some? ==> c.next == b.next)
            && (b.next.None? && c.next.Some? ==> c.next == StartSequence(b.packets))
            && c.packets == b.packets && c.config == b.config
            && c.stats.received == b.stats.received && c.stats.played == b.stats.played
            && c.stats.droppedLate == b.stats.droppedLate && c.stats.droppedOverflow == b.stats.droppedOverflow
  {
    hide Sorted, StartOf;
  }

  lemma MakeRoomEffect(b: Buffer)
    ensures var c := MakeRoom(b);
            && c.state == b.state && c.next == b.next && c.config == b.config
            && c.packets.Keys <= b.packets.Keys
            && (KeysMatch(b.packets) ==> KeysMatch(c.packets))
            && c.stats.received == b.stats.received && c.stats.played == b.stats.played
            && c.stats.droppedLate == b.stats.droppedLate
            && (b.config.maxDepth >= 1 && |b.packets| <= b.config.maxDepth ==>
                  && |c.packets| + c.stats.droppedOverflow == |b.packets| + b.stats.droppedOverflow
                  && |c.packets| < c.config.maxDepth)
  {
    if |b.packets| >= b.config.maxDepth && b.packets.Keys != {} {
      RemoveOne(b.packets, Lowest(b.packets.Keys));
    }
  }

  /** An accepted packet: what the insertion does to the map, the play point and the counters. */
  lemma InsertEffect(b: Buffer, p: Packet)
    requires WellFormed(b) && !IsLate(b, p)
    ensures var c, room := Insert(b, p), MakeRoom(b);
            && WellFormed(c) && c.config == b.config
            && (b.next.Some? ==> c.next == b.next)
            && (b.next.None? && c.next.Some? ==> c.next == StartSequence(c.packets))
            && c.packets == room.packets[p.sequence := p]
            && c.stats.received == b.stats.received + 1 && c.stats.played == b.stats.played
            && c.stats.droppedLate == b.stats.droppedLate && c.stats.droppedOverflow == room.stats.droppedOverflow
  {
    var counted := b.(stats := b.stats.(received := b.stats.received + 1));
    var stored := Store(MakeRoom(counted), p);
    StoreEffect(b, counted, p);
    UpdateStateEffect(stored);
    assert Insert(b, p) == UpdateState(stored);
    var room := MakeRoom(b).packets;
    assert KeysMatch(room[p.sequence := p]) by { MakeRoomEffect(b); }
  }

  lemma StoreEffect(b: Buffer, counted: Buffer, p: Packet)
    requires counted == b.(stats := b.stats.(received := b.stats.received + 1))
    ensures var c, room := Store(MakeRoom(counted), p), MakeRoom(b);
            && c.state == b.state && c.next == b.next && c.config == b.config
            && c.packets == room.packets[p.sequence := p] && c.packets.Keys != {}
            && c.stats.received == b.stats.received + 1 && c.stats.played == b.stats.played
            && c.stats.droppedLate == b.stats.droppedLate && c.stats.droppedOverflow == room.stats.droppedOverflow
  {
    assert p.sequence in Store(MakeRoom(counted), p).packets.Keys;
  }

  lemma StepWellFormed(b: Buffer, op: Op)
    requires WellFormed(b)
    ensures WellFormed(Apply(b, op))
    ensures b.next.Some? && Apply(b, op).next.Some? && !op.PopOp? ==> Apply(b, op).next == b.next
  {
    if op.InsertOp? && !IsLate(b, op.p) { InsertEffect(b, op.p); }
    if op.PopOp? && !b.state.Buffering? { PopAdvances(b); }
  }

  // --------------------------------------------------------------- accounting

  lemma RemoveOne(m: map<U16, Packet>, k: U16)
    requires k in m
    ensures |m - {k}| == |m| - 1
  {
    assert (m - {k}).Keys == m.Keys - {k};
  }

  lemma AddOne(m: map<U16, Packet>, p: Packet)
    ensures |m[p.sequence := p]| == |m| + if p.sequence in m then 0 else 1
  {
    assert m[p.sequence := p].Keys == m.Keys + {p.sequence};
  }

  lemma KeepSome(m: map<U16, Packet>, kept: map<U16, Packet>)
    requires kept.Keys <= m.Keys
    ensures |kept| <= |m|
  {
    var gone := m.Keys - kept.Keys;
    assert m.Keys == kept.Keys + gone;
    assert |m.Keys| == |kept.Keys| + |gone|;
  }

  /** Each buffered packet is there once, under its own number. */
  lemma BufferedAt(b: Buffer, q: Packet)
    requires KeysMatch(b.packets)
    ensures Buffered(b)[q] == if q.sequence in b.packets && b.packets[q.sequence] == q then 1 else 0
  {
    if q in b.packets.Values {
      var k :| k in b.packets && b.packets[k] == q;
    }
  }

  lemma BufferedWithout(b: Buffer, c: Buffer, k: U16)
    requires KeysMatch(b.packets) && k in b.packets && c.packets == b.packets - {k}
    ensures Buffered(b) == Buffered(c) + multiset{b.packets[k]}
  {
    forall q: Packet ensures Buffered(b)[q] == (Buffered(c) + multiset{b.packets[k]})[q] {
      BufferedAt(b, q);
      BufferedAt(c, q);
    }
  }

  lemma BufferedPart(b: Buffer, c: Buffer)
    requires KeysMatch(b.packets) && forall k :: k in c.packets ==> k in b.packets && c.packets[k] == b.packets[k]
    ensures Buffered(c) <= Buffered(b)
  {
    forall q: Packet ensures Buffered(c)[q] <= Buffered(b)[q] {
      BufferedAt(b, q);
      BufferedAt(c, q);
    }
  }

  lemma BufferedWith(b: Buffer, c: Buffer, p: Packet)
    requires KeysMatch(b.packets) && c.packets == b.packets[p.sequence := p]
    ensures Buffered(c) + (if p.sequence in b.packets then multiset{b.packets[p.sequence]} else multiset{})
         == Buffered(b) + multiset{p}
  {
    var over := if p.sequence in b.packets then multiset{b.packets[p.sequence]} else multiset{};
    forall q: Packet ensures (Buffered(c) + over)[q] == (Buffered(b) + multiset{p})[q] {
      BufferedAt(b, q);
      BufferedAt(c, q);
    }
  }

  lemma {:induction false} BufferedSize(b: Buffer)
    requires KeysMatch(b.packets)
    ensures |Buffered(b)| == |b.packets|
    decreases |b.packets|
  {
    if b.packets.Keys == {} {
      assert b.packets.Values == {};
    } else {
      var k :| k in b.packets.Keys;
      var c := b.(packets := b.packets - {k});
      RemoveOne(b.packets, k);
      BufferedSize(c);
      BufferedWithout(b, c, k);
    }
  }

  /** Every packet received is in exactly one place. */
  ghost predicate PacketsKept(w: World) {
    w.received
    == multiset(w.delivered) + w.late + w.overflowed + Buffered(w.b) + w.replaced + w.discarded
  }

  /** The counters count what happened. */
  ghost predicate CountersAgree(w: World) {
    var s := w.b.stats;
    && s.received == |w.received| && s.played == |w.delivered|
    && s.droppedLate == |w.late| && s.droppedOverflow == |w.overflowed|
  }

  ghost predicate Balanced(w: World) {
    PacketsKept(w) && CountersAgree(w) && |w.b.packets| <= w.b.config.maxDepth
  }

  /** Hence the counters and the sizes add up. */
  lemma CountsAddUp(w: World)
    requires WellFormed(w.b) && Balanced(w)
    ensures var s := w.b.stats;
            s.received
            == s.played + s.droppedLate + s.droppedOverflow + |w.b.packets| + |w.replaced| + |w.discarded|
  {
    BufferedSize(w.b);
  }

  lemma RoomKeeps(b: Buffer)
    requires WellFormed(b)
    ensures var c := MakeRoom(b);
            && Buffered(c) <= Buffered(b)
            && (b.packets.Keys != {} || b.config.maxDepth >= 1 ==>
                  c.stats.droppedOverflow == b.stats.droppedOverflow + |Buffered(b) - Buffered(c)|)
  {
    var c := MakeRoom(b);
    if |b.packets| >= b.config.maxDepth && b.packets.Keys != {} {
      BufferedWithout(b, c, Lowest(b.packets.Keys));
      assert Buffered(b) - Buffered(c) == multiset{b.packets[Lowest(b.packets.Keys)]};
    } else {
      assert Buffered(b) - Buffered(c) == multiset{};
    }
  }

  /** Making room and replacing moves packets from one pile to another. */
  lemma PilesExchange(
    early: multiset<Packet>, over: multiset<Packet>, repl: multiset<Packet>, disc: multiset<Packet>,
    before: multiset<Packet>, room: multiset<Packet>, after: multiset<Packet>, gone: multiset<Packet>, p: Packet)
    requires room <= before && after + gone == room + multiset{p}
    ensures early + (over + (before - room)) + after + (repl + gone) + disc
         == early + over + before + repl + disc + multiset{p}
  {
    forall q: Packet
      ensures (early + (over + (before - room)) + after + (repl + gone) + disc)[q]
           == (early + over + before + repl + disc + multiset{p})[q]
    {
      assert (after + gone)[q] == (room + multiset{p})[q];
    }
  }

  lemma AcceptKeeps(w: World, p: Packet)
    requires WellFormed(w.b) && PacketsKept(w) && !IsLate(w.b, p)
    ensures PacketsKept(Inserted(w, p))
  {
    hide MakeRoom, Insert, Buffered, IsLate;
    var room, c := MakeRoom(w.b), Insert(w.b, p);
    InsertEffect(w.b, p);
    MakeRoomEffect(w.b);
    RoomKeeps(w.b);
    BufferedWith(room, c, p);
    hide WellFormed, KeysMatch;
    var gone := if p.sequence in room.packets then multiset{room.packets[p.sequence]} else multiset{};
    PilesExchange(multiset(w.delivered) + w.late, w.overflowed, w.replaced, w.discarded,
                  Buffered(w.b), Buffered(room), Buffered(c), gone, p);
  }

  lemma InsertKeeps(w: World, p: Packet)
    requires WellFormed(w.b) && PacketsKept(w)
    ensures PacketsKept(Inserted(w, p))
  {
    if IsLate(w.b, p) {
      assert Buffered(Insert(w.b, p)) == Buffered(w.b);
    } else {
      AcceptKeeps(w, p);
    }
  }

  lemma InsertCounts(w: World, p: Packet)
    requires WellFormed(w.b) && CountersAgree(w) && w.b.config.maxDepth >= 1
    ensures CountersAgree(Inserted(w, p))
  {
    if !IsLate(w.b, p) {
      hide MakeRoom, Insert, Buffered, IsLate;
      InsertEffect(w.b, p);
      RoomKeeps(w.b);
    }
  }

  lemma InsertFits(b: Buffer, p: Packet)
    requires WellFormed(b) && b.config.maxDepth >= 1 && |b.packets| <= b.config.maxDepth
    ensures |Insert(b, p).packets| <= b.config.maxDepth && Insert(b, p).config == b.config
  {
    if !IsLate(b, p) {
      InsertEffect(b, p);
      MakeRoomEffect(b);
      AddOne(MakeRoom(b).packets, p);
    }
  }

  lemma PopKeeps(w: World)
    requires WellFormed(w.b) && PacketsKept(w)
    ensures var v := Recorded(w, PopOp);
            && PacketsKept(v) && (CountersAgree(w) ==> CountersAgree(v))
            && |v.b.packets| <= |w.b.packets| && v.b.config == w.b.config
  {
    if !w.b.state.Buffering? {
      PopAdvances(w.b);
      var (c, out) := Pop(w.b);
      if out.Some? {
        RemoveOne(w.b.packets, out.value.sequence);
        BufferedWithout(w.b, c, out.value.sequence);
        assert multiset(w.delivered + [out.value]) == multiset(w.delivered) + multiset{out.value};
      }
      hide Pop, Buffered, WellFormed;
    }
  }

  lemma DiscardEffect(b: Buffer, op: Op)
    requires WellFormed(b) && !op.InsertOp? && !op.PopOp?
    ensures var c := Apply(b, op);
            c.stats == b.stats && c.config == b.config && Buffered(c) <= Buffered(b) && |c.packets| <= |b.packets|
  {
    var c := Apply(b, op);
    assert c.packets.Keys <= b.packets.Keys;
    KeepSome(b.packets, c.packets);
    BufferedPart(b, c);
  }

  lemma DiscardKeeps(w: World, op: Op)
    requires WellFormed(w.b) && PacketsKept(w) && !op.InsertOp? && !op.PopOp?
    ensures var v := Recorded(w, op);
            && PacketsKept(v) && (CountersAgree(w) ==> CountersAgree(v))
            && |v.b.packets| <= |w.b.packets| && v.b.config == w.b.config
  {
    hide Apply, Buffered, WellFormed;
    DiscardEffect(w.b, op);
  }

  /** The play point's bookkeeping does not touch the rest of a step. */
  lemma StepIsRecorded(w: World, op: Op)
    ensures var v := Step(w, op);
            && v == Recorded(w, op).(point := v.point, outs := v.outs) && v.b == Apply(w.b, op)
  {
  }

  lemma StepKeepsPackets(w: World, op: Op)
    requires WellFormed(w.b) && PacketsKept(w)
    ensures PacketsKept(Step(w, op))
  {
    StepIsRecorded(w, op);
    hide Step, Recorded;
    match op
    case InsertOp(p) => RecordsInsert(w, p); InsertKeeps(w, p);
    case PopOp => PopKeeps(w);
    case _ => DiscardKeeps(w, op);
  }

  lemma RecordsInsert(w: World, p: Packet)
    ensures Recorded(w, InsertOp(p)) == Inserted(w, p)
  {
  }

  lemma StepBalances(w: World, op: Op)
    requires WellFormed(w.b) && Balanced(w) && w.b.config.maxDepth >= 1
    ensures Balanced(Step(w, op)) && Step(w, op).b.config == w.b.config
  {
    StepIsRecorded(w, op);
    StepKeepsPackets(w, op);
    hide Step, Recorded, PacketsKept;
    match op
    case InsertOp(p) =>
      RecordsInsert(w, p);
      InsertCounts(w, p);
      InsertFits(w.b, p);
    case PopOp => PopKeeps(w);
    case _ => DiscardKeeps(w, op);
  }

  /** Whatever the configuration, no packet is lost track of or duplicated in any run. */
  lemma {:induction false} RunKeepsPackets(w: World, ops: seq<Op>)
    requires WellFormed(w.b) && PacketsKept(w)
    ensures WellFormed(Run(w, ops).b) && PacketsKept(Run(w, ops))
    decreases |ops|
  {
    if ops != [] {
      StepKeepsPackets(w, ops[0]);
      StepWellFormed(w.b, ops[0]);
      StepIsRecorded(w, ops[0]);
      hide Step, WellFormed, PacketsKept;
      RunKeepsPackets(Step(w, ops[0]), ops[1..]);
    }
  }

  lemma {:induction false} RunBalances(w: World, ops: seq<Op>)
    requires WellFormed(w.b) && Balanced(w) && w.b.config.maxDepth >= 1
    ensures WellFormed(Run(w, ops).b) && Balanced(Run(w, ops))
    decreases |ops|
  {
    if ops != [] {
      StepBalances(w, ops[0]);
      StepWellFormed(w.b, ops[0]);
      StepIsRecorded(w, ops[0]);
      hide Step, WellFormed, Balanced;
      RunBalances(Step(w, ops[0]), ops[1..]);
    }
  }

  lemma NoPacketVanishes(config: Config, ops: seq<Op>)
    ensures PacketsKept(Run(Start(config), ops))
  {
    RunKeepsPackets(Start(config), ops);
  }

  /** A buffer configured with depth 0 counts its first packet as dropped and overfills. */
  lemma DepthZeroMiscounts(config: Config, p: Packet)
    requires config.maxDepth == 0
    ensures !Balanced(Run(Start(config), [InsertOp(p)]))
  {
    var w := Step(Start(config), InsertOp(p));
    StepIsRecorded(Start(config), InsertOp(p));
    InsertDepthZero(New(config), p);
    hide Step, Insert;
    assert Run(Start(config), [InsertOp(p)]) == w by {
      assert [InsertOp(p)][1..] == [];
      assert Run(w, []) == w;
    }
  }

  lemma InsertDepthZero(b: Buffer, p: Packet)
    requires WellFormed(b) && b.config.maxDepth == 0 && !IsLate(b, p)
    ensures |Insert(b, p).packets| > 0 && Insert(b, p).config == b.config
  {
    InsertEffect(b, p);
    assert p.sequence in Insert(b, p).packets.Keys;
  }

  /** Every received packet is played, dropped late, dropped on overflow, still
      buffered, replaced or discarded, the counters say so and the depth stays within
      its limit, in every run, exactly when that limit is at least 1. */
  lemma ConservationIff(config: Config)
    ensures (forall ops: seq<Op> :: Balanced(Run(Start(config), ops))) <==> config.maxDepth >= 1
  {
    if config.maxDepth >= 1 {
      forall ops: seq<Op> ensures Balanced(Run(Start(config), ops)) {
        RunBalances(Start(config), ops);
      }
    } else {
      var p := Packet(0, 0, [], 0);
      DepthZeroMiscounts(config, p);
      assert !Balanced(Run(Start(config), [InsertOp(p)]));
    }
  }

  lemma {:induction false} RunWellFormed(w: World, ops: seq<Op>)
    requires WellFormed(w.b)
    ensures WellFormed(Run(w, ops).b)
    decreases |ops|
  {
    if ops != [] {
      StepWellFormed(w.b, ops[0]);
      RunWellFormed(Step(w, ops[0]), ops[1..]);
    }
  }

  /** In every run, for every configuration: Buffering exactly when there is no play point. */
  lemma BufferingMeansNoPlayPoint(config: Config, ops: seq<Op>)
    ensures var b := Run(Start(config), ops).b; b.state.Buffering? <==> b.next.None?
  {
    RunWellFormed(Start(config), ops);
  }

  // --------------------------------------------------------------- play order

  lemma PlayEffect(b: Buffer, n: U16)
    requires WellFormed(b) && !b.state.Buffering? && n in b.packets
    ensures var (b', out) := Play(b, n);
            && WellFormed(b') && b'.next == Some(Next(n))
            && out == Some(b.packets[n]) && b'.packets == b.packets - {n}
            && b'.config == b.config && b'.stats.received == b.stats.received
            && b'.stats.droppedLate == b.stats.droppedLate && b'.stats.droppedOverflow == b.stats.droppedOverflow
            && b'.stats.played == b.stats.played + 1
  {
  }

  /** A pop outside Buffering moves the play point 1 to 10 places, and a packet it
      returns was buffered, no longer is, and sits just before the new point. */
  lemma PopAdvances(b: Buffer)
    requires WellFormed(b) && !b.state.Buffering?
    ensures var (b', out) := Pop(b);
            && WellFormed(b') && b'.next.Some? && 1 <= Ahead(b.next.value, b'.next.value) <= 10
            && (out.Some? ==>
                  && out.value.sequence in b.packets && out.value == b.packets[out.value.sequence]
                  && b'.packets == b.packets - {out.value.sequence}
                  && Ahead(b.next.value, b'.next.value) == Ahead(b.next.value, out.value.sequence) + 1)
            && (out.None? ==> b'.packets == b.packets)
            && b'.config == b.config && b'.stats.received == b.stats.received
            && b'.stats.droppedLate == b.stats.droppedLate && b'.stats.droppedOverflow == b.stats.droppedOverflow
            && b'.stats.played == b.stats.played + if out.Some? then 1 else 0
  {
    hide Play;
    var n := b.next.value;
    if n in b.packets {
      PlayEffect(b, n);
      assert Pop(b) == Play(b, n);
    } else if b.packets.Keys != {} && Ahead(n, Lowest(b.packets.Keys)) < 10 {
      PlayEffect(b.(stats := b.stats.(concealed := b.stats.concealed + 1)), Lowest(b.packets.Keys));
    }
  }

  /** The history lines up with the 16-bit play point and is strictly increasing. */
  ghost predicate InOrder(w: World) {
    && (w.b.next.None? ==> w.outs == [])
    && (w.b.next.Some? ==> w.point % 65536 == w.b.next.value)
    && |w.outs| <= |w.delivered|
    && (forall i, j :: 0 <= i < j < |w.outs| ==> w.outs[i] < w.outs[j])
    && (forall i :: 0 <= i < |w.outs| ==> w.outs[i] < w.point)
    && (forall i :: 0 <= i < |w.outs| ==>
          w.delivered[|w.delivered| - |w.outs| + i].sequence == w.outs[i] % 65536)
  }

  lemma AdvanceUnwrapped(point: int, from: U16, to: U16)
    requires point % 65536 == from
    ensures (point + Ahead(from, to)) % 65536 == to
  {
  }

  lemma PopWhileBuffering(b: Buffer)
    requires b.state.Buffering?
    ensures Pop(b) == (b, None)
  {
  }

  lemma PopInOrder(w: World)
    requires WellFormed(w.b) && InOrder(w)
    ensures InOrder(Step(w, PopOp))
  {
    hide Pop;
    var b := w.b;
    if b.state.Buffering? {
      PopWhileBuffering(b);
    } else {
      PopAdvances(b);
      var (b', out) := Pop(b);
      AdvanceUnwrapped(w.point, b.next.value, b'.next.value);
      if out.Some? {
        AdvanceUnwrapped(w.point, b.next.value, out.value.sequence);
        var v := Step(w, PopOp);
        assert v.outs[|w.outs|] == v.point - 1;
        forall i | 0 <= i < |v.outs|
          ensures v.delivered[|v.delivered| - |v.outs| + i].sequence == v.outs[i] % 65536
        {
          if i < |w.outs| { assert v.outs[i] == w.outs[i]; }
        }
      }
    }
  }

  lemma BufferingIffNone(b: Buffer)
    requires WellFormed(b)
    ensures b.state.Buffering? <==> b.next.None?
  {
  }

  lemma OnlyPopsDeliver(w: World, op: Op)
    requires !op.PopOp?
    ensures Recorded(w, op).delivered == w.delivered && Result(w.b, op).None?
    ensures Recorded(w, op).b == Apply(w.b, op)
  {
  }

  lemma StepInOrder(w: World, op: Op)
    requires WellFormed(w.b) && InOrder(w)
    ensures InOrder(Step(w, op))
  {
    hide Apply, WellFormed, Recorded, Result;
    if !op.PopOp? { OnlyPopsDeliver(w, op); }
    if op.PopOp? {
      PopInOrder(w);
    } else {
      StepWellFormed(w.b, op);
      BufferingIffNone(w.b);
    }
  }

  lemma {:induction false} RunInOrder(w: World, ops: seq<Op>)
    requires WellFormed(w.b) && InOrder(w)
    ensures InOrder(Run(w, ops))
    decreases |ops|
  {
    if ops != [] {
      StepWellFormed(w.b, ops[0]);
      StepInOrder(w, ops[0]);
      hide Step, InOrder, WellFormed;
      RunInOrder(Step(w, ops[0]), ops[1..]);
    }
  }

  /** Between resets of the play point, packets come out in strictly increasing
      order of their unwrapped positions, whatever was inserted when and however
      often the 16-bit numbers wrapped. */
  lemma OutputStrictlyIncreasing(config: Config, ops: seq<Op>)
    ensures InOrder(Run(Start(config), ops))
  {
    RunInOrder(Start(config), ops);
  }

  /** A pop hands out a packet exactly when playback has started and either the expected
      packet or the lowest-numbered one, at most nine ahead, is buffered. */
  lemma PopYieldsIff(b: Buffer)
    requires WellFormed(b)
    ensures Pop(b).1.Some? <==>
              && b.next.Some?
              && (b.next.value in b.packets
                  || (b.packets.Keys != {} && Ahead(b.next.value, Lowest(b.packets.Keys)) < 10))
  {
    if b.next.Some? && b.next.value in b.packets { assert b.next.value in b.packets.Keys; }
  }

  /** When the three-state machine moves: out of Buffering and Underrun when an accepted
      or played packet leaves at least the minimum depth, into Underrun when the last
      packet is played, into Buffering only by a flush. */
  lemma Transitions(b: Buffer, op: Op)
    requires WellFormed(b)
    ensures var c := Apply(b, op);
            var updated := (op.InsertOp? && !IsLate(b, op.p)) || Result(b, op).Some?;
            && (b.state.Buffering? ==>
                  c.state == if updated && |c.packets| >= b.config.minDepth then Playing else Buffering)
            && (!b.state.Buffering? && (op.FlushOp? || (op.FlushFromOp? && c.packets.Keys == {})) ==>
                  c.state.Buffering?)
            && (!b.state.Buffering? && !op.FlushOp? && !(op.FlushFromOp? && c.packets.Keys == {}) ==>
                  c.state == if !updated then b.state
                             else if b.state.Playing? then (if |c.packets| == 0 then Underrun else Playing)
                             else (if |c.packets| >= b.config.minDepth then Playing else Underrun))
  {
    match op
    case InsertOp(p) => if !IsLate(b, p) { InsertState(b, p); }
    case PopOp => if !b.state.Buffering? { PopState(b); }
    case _ =>
  }

  lemma InsertState(b: Buffer, p: Packet)
    requires !IsLate(b, p)
    ensures var c := Insert(b, p);
            c.state == match b.state
              case Buffering => if |c.packets| >= b.config.minDepth then Playing else Buffering
              case Playing => if |c.packets| == 0 then Underrun else Playing
              case Underrun => if |c.packets| >= b.config.minDepth then Playing else Underrun
  {
    hide StartSequence, Store, MakeRoom, UpdateState;
    var counted := b.(stats := b.stats.(received := b.stats.received + 1));
    StoreEffect(b, counted, p);
    NewState(Store(MakeRoom(counted), p));
    assert Insert(b, p) == UpdateState(Store(MakeRoom(counted), p));
  }

  lemma NewState(b: Buffer)
    ensures var c := UpdateState(b);
            && c.packets == b.packets
            && c.state == match b.state
                 case Buffering => if |b.packets| >= b.config.minDepth then Playing else Buffering
                 case Playing => if |b.packets| == 0 then Underrun else Playing
                 case Underrun => if |b.packets| >= b.config.minDepth then Playing else Underrun
  {
    hide StartSequence;
  }

  lemma PopState(b: Buffer)
    requires WellFormed(b) && !b.state.Buffering?
    ensures var (c, out) := Pop(b);
            c.state == if out.None? then b.state
                       else if b.state.Playing? then (if |c.packets| == 0 then Underrun else Playing)
                       else (if |c.packets| >= b.config.minDepth then Playing else Underrun)
  {
    hide StartSequence;
  }

  // -------------------------------------------------------------- passing over

  /** The pop leaves k buffered but moves the play point beyond it. */
  ghost predicate PassesOver(b: Buffer, k: U16) {
    && b.next.Some? && Pop(b).0.next.Some?
    && k in b.packets && k in Pop(b).0.packets
    && Ahead(b.next.value, k) < Ahead(b.next.value, Pop(b).0.next.value)
  }

  /** The lowest key is up to 9 ahead of the play point only by wrapping, while a
      packet before the wrap is still buffered. */
  ghost predicate WrapTrap(b: Buffer) {
    && b.next.Some? && b.next.value !in b.packets && b.packets.Keys != {}
    && Lowest(b.packets.Keys) < b.next.value
    && Ahead(b.next.value, Lowest(b.packets.Keys)) < 10
    && exists k :: k in b.packets && k > b.next.value
  }

  /** A pop passes over a buffered packet in exactly the states WrapTrap describes. */
  lemma PassesOverIff(b: Buffer)
    requires WellFormed(b)
    ensures (exists k :: PassesOver(b, k)) <==> WrapTrap(b)
  {
    if WrapTrap(b) {
      var k :| k in b.packets && k > b.next.value;
      assert PassesOver(b, k);
    }
    if k :| PassesOver(b, k) {
      if b.next.value !in b.packets {
        assert k != Lowest(b.packets.Keys) && k in b.packets.Keys;
      }
    }
  }

  /** Everything buffered is at or ahead of the play point. */
  ghost predicate AllAhead(b: Buffer) {
    b.next.Some? ==> InWindow(b.packets.Keys, b.next.value)
  }

  lemma PopKeepsAheadIff(b: Buffer)
    requires WellFormed(b) && AllAhead(b)
    ensures AllAhead(Pop(b).0) <==> !WrapTrap(b)
  {
    PassesOverIff(b);
    if !b.state.Buffering? {
      PopAdvances(b);
      var n, c := b.next.value, Pop(b).0;
      if WrapTrap(b) {
        var k :| PassesOver(b, k);
        assert k in c.packets.Keys && Ahead(n, k) < Ahead(n, c.next.value) <= 10;
        assert Ahead(c.next.value, k) >= 32768;
      } else {
        forall k | k in c.packets.Keys ensures Ahead(c.next.value, k) < 32768 {
          assert !PassesOver(b, k);
          assert Ahead(n, k) < 32768;
        }
      }
    }
  }

  /** Without the trap, the packet returned is the nearest one ahead of the play point. */
  lemma PopTakesNearest(b: Buffer, k: U16)
    requires WellFormed(b) && Pop(b).1.Some? && !WrapTrap(b) && k in b.packets
    ensures Ahead(b.next.value, Pop(b).1.value.sequence) <= Ahead(b.next.value, k)
  {
    PassesOverIff(b);
    PopAdvances(b);
    assert !PassesOver(b, k);
  }

  /** No pop meets the trap, and whenever playback starts the buffered numbers fit one window. */
  ghost predicate SafeStep(b: Buffer, op: Op) {
    && (op.PopOp? ==> !WrapTrap(b))
    && (b.next.None? && Apply(b, op).next.Some? ==> FitsWindow(Apply(b, op).packets.Keys))
  }

  ghost predicate SafeRun(w: World, ops: seq<Op>)
    decreases |ops|
  {
    ops != [] ==> SafeStep(w.b, ops[0]) && SafeRun(Step(w, ops[0]), ops[1..])
  }

  lemma InsertKeepsAhead(b: Buffer, p: Packet)
    requires WellFormed(b) && AllAhead(b) && SafeStep(b, InsertOp(p))
    ensures AllAhead(Insert(b, p))
  {
    if !IsLate(b, p) {
      var c := Insert(b, p);
      InsertEffect(b, p);
      MakeRoomEffect(b);
      assert p.sequence in c.packets.Keys;
      if b.next.None? && c.next.Some? {
        StartIsEarliestIff(c.packets);
      } else {
        assert c.packets.Keys <= b.packets.Keys + {p.sequence};
      }
    }
  }

  lemma StepKeepsAhead(b: Buffer, op: Op)
    requires WellFormed(b) && AllAhead(b) && SafeStep(b, op)
    ensures AllAhead(Apply(b, op))
  {
    match op
    case InsertOp(p) => InsertKeepsAhead(b, p);
    case PopOp => PopKeepsAheadIff(b);
    case _ => assert Apply(b, op).packets.Keys <= b.packets.Keys;
  }

  /** In a safe run everything buffered stays at or ahead of the play point. */
  lemma {:induction false} SafeRunKeepsAhead(w: World, ops: seq<Op>)
    requires WellFormed(w.b) && AllAhead(w.b) && SafeRun(w, ops)
    ensures WellFormed(Run(w, ops).b) && AllAhead(Run(w, ops).b)
    decreases |ops|
  {
    if ops != [] {
      StepWellFormed(w.b, ops[0]);
      StepKeepsAhead(w.b, ops[0]);
      SafeRunKeepsAhead(Step(w, ops[0]), ops[1..]);
    }
  }

  lemma StepAheadIff(b: Buffer, op: Op)
    requires WellFormed(b) && AllAhead(b)
    ensures AllAhead(Apply(b, op)) <==> SafeStep(b, op)
  {
    if SafeStep(b, op) {
      StepKeepsAhead(b, op);
    } else if op.PopOp? {
      PopKeepsAheadIff(b);
      if b.next.None? { PopWhileBuffering(b); }
    } else if op.InsertOp? {
      var c := Insert(b, op.p);
      InsertEffect(b, op.p);
      assert op.p.sequence in c.packets.Keys;
      StartIsEarliestIff(c.packets);
    }
  }

  ghost predicate AheadThroughout(w: World, ops: seq<Op>)
    decreases |ops|
  {
    AllAhead(w.b) && (ops != [] ==> AheadThroughout(Step(w, ops[0]), ops[1..]))
  }

  /** Over whole runs: everything buffered stays at or ahead of the play point throughout
      exactly when no pop meets the trap and playback only starts from one window. */
  lemma {:induction false} AheadThroughoutIff(w: World, ops: seq<Op>)
    requires WellFormed(w.b) && AllAhead(w.b)
    ensures AheadThroughout(w, ops) <==> SafeRun(w, ops)
    decreases |ops|
  {
    hide WellFormed, AllAhead, SafeStep, Step, Apply;
    if ops != [] {
      StepIsRecorded(w, ops[0]);
      StepWellFormed(w.b, ops[0]);
      StepAheadIff(w.b, ops[0]);
      if SafeStep(w.b, ops[0]) { AheadThroughoutIff(Step(w, ops[0]), ops[1..]); }
    }
  }

  /** The play point and the buffered numbers lie in one stretch, narrower than
      32768, that does not wrap. */
  ghost predicate NoWrap(b: Buffer) {
    && (forall j, k :: j in b.packets && k in b.packets ==> j - k < 32768)
    && (b.next.Some? ==> forall k :: k in b.packets ==> -32768 < k - b.next.value < 32768)
  }

  ghost predicate NoWrapRun(w: World, ops: seq<Op>)
    decreases |ops|
  {
    NoWrap(w.b) && (ops != [] ==> NoWrapRun(Step(w, ops[0]), ops[1..]))
  }

  lemma NoWrapNoTrap(b: Buffer)
    requires AllAhead(b) && NoWrap(b)
    ensures !WrapTrap(b)
  {
  }

  lemma NoWrapIsSafe(b: Buffer, op: Op)
    requires WellFormed(b) && AllAhead(b) && NoWrap(b) && NoWrap(Apply(b, op))
    ensures SafeStep(b, op)
  {
    NoWrapNoTrap(b);
    var c := Apply(b, op);
    if b.next.None? && c.next.Some? {
      if c.packets.Keys == {} {
        assert InWindow(c.packets.Keys, 0);
      } else {
        var low := Lowest(c.packets.Keys);
        assert InWindow(c.packets.Keys, low) by {
          forall k | k in c.packets.Keys ensures Ahead(low, k) < 32768 {
            assert k in c.packets && low in c.packets;
          }
        }
      }
    }
  }

  /** In a run whose numbers never wrap, no pop passes over a buffered packet:
      one more pop would leave every remaining packet at or ahead of the play point. */
  lemma {:induction false} NothingPassedOver(w: World, ops: seq<Op>)
    requires WellFormed(w.b) && AllAhead(w.b) && NoWrapRun(w, ops)
    ensures var b := Run(w, ops).b;
            AllAhead(b) && NoWrap(b) && !WrapTrap(b) && forall k :: !PassesOver(b, k)
    decreases |ops|
  {
    if ops == [] {
      NoWrapNoTrap(w.b);
      PassesOverIff(w.b);
    } else {
      assert NoWrapRun(Step(w, ops[0]), ops[1..]);
      NoWrapIsSafe(w.b, ops[0]);
      StepWellFormed(w.b, ops[0]);
      StepKeepsAhead(w.b, ops[0]);
      NothingPassedOver(Step(w, ops[0]), ops[1..]);
    }
  }

  lemma NothingPassedOverFromStart(config: Config, ops: seq<Op>, k: U16)
    requires NoWrapRun(Start(config), ops)
    ensures !PassesOver(Run(Start(config), ops).b, k)
  {
    NothingPassedOver(Start(config), ops);
  }

  // ------------------------------------------------------------ reaching a state

  ghost predicate Reachable(config: Config, b: Buffer) {
    exists ops :: Run(Start(config), ops).b == b
  }

  lemma {:induction false} RunSnoc(w: World, ops: seq<Op>, op: Op)
    ensures Run(w, ops + [op]) == Step(Run(w, ops), op)
    decreases |ops|
  {
    hide Step;
    if ops == [] {
      assert [op][1..] == [] && ops + [op] == [op];
    } else {
      assert (ops + [op])[0] == ops[0] && (ops + [op])[1..] == ops[1..] + [op];
      RunSnoc(Step(w, ops[0]), ops[1..], op);
    }
  }

  lemma ReachMore(config: Config, b: Buffer, op: Op)
    requires Reachable(config, b)
    ensures Reachable(config, Apply(b, op))
  {
    hide Step, Apply;
    var ops :| Run(Start(config), ops).b == b;
    RunSnoc(Start(config), ops, op);
    StepIsRecorded(Run(Start(config), ops), op);
  }

  lemma StartReachable(config: Config)
    ensures Reachable(config, New(config)) && WellFormed(New(config))
  {
    assert Run(Start(config), []).b == New(config);
  }

  /** One insertion or pop away from a reachable buffer. */
  lemma Moves(config: Config, b: Buffer, p: Packet)
    requires Reachable(config, b)
    ensures Reachable(config, Insert(b, p)) && Reachable(config, Pop(b).0)
  {
    ReachMore(config, b, InsertOp(p));
    ReachMore(config, b, PopOp);
    hide Reachable, Insert, Pop;
  }

  lemma InsertWithRoom(b: Buffer, p: Packet)
    requires WellFormed(b) && !IsLate(b, p) && |b.packets| < b.config.maxDepth
    ensures var c := Insert(b, p);
            && WellFormed(c) && c.config == b.config && c.packets == b.packets[p.sequence := p]
            && (b.next.Some? ==> c.next == b.next)
  {
    InsertEffect(b, p);
  }

  lemma PopExpected(b: Buffer)
    requires WellFormed(b) && b.next.Some? && b.next.value in b.packets && b.state.Playing? && |b.packets| >= 2
    ensures var (c, out) := Pop(b);
            && WellFormed(c) && c.packets == b.packets - {b.next.value} && c.config == b.config
            && c.next == Some(Next(b.next.value)) && c.state.Playing?
  {
    PlayEffect(b, b.next.value);
    PopState(b);
    RemoveOne(b.packets, b.next.value);
  }
}
