/** Whether an underrun holds packets back until the buffer has refilled, as it is documented to. */
module Underrun {
  import opened Common
  import opened Serial
  import opened Jitter
  import opened JitterRuns
  import JitterWrap

  /** No packet is handed out during an underrun. */
  ghost predicate HoldsBack(b: Buffer) {
    b.state.Underrun? ==> Pop(b).1.None?
  }

  // ------------------------------------------------------------- when it does

  ghost predicate Accepted(b: Buffer, op: Op) {
    (op.InsertOp? && !IsLate(b, op.p)) || JitterRuns.Result(b, op).Some?
  }

  lemma OnlyAcceptedGrow(b: Buffer, op: Op)
    requires WellFormed(b) && !Accepted(b, op)
    ensures Apply(b, op).packets.Keys <= b.packets.Keys
  {
    if op.PopOp? && !b.state.Buffering? { PopAdvances(b); }
  }

  /** With a minimum depth of at most 1 an underrun ends with the first packet accepted. */
  ghost predicate EmptyInUnderrun(b: Buffer) {
    b.state.Underrun? ==> b.packets.Keys == {}
  }

  lemma StepEmpty(b: Buffer, op: Op)
    requires WellFormed(b) && EmptyInUnderrun(b) && b.config.minDepth <= 1
    ensures EmptyInUnderrun(Apply(b, op))
  {
    Transitions(b, op);
    var c := Apply(b, op);
    hide Apply;
    if c.state.Underrun? {
      if Accepted(b, op) {
        assert |c.packets.Keys| == 0;
      } else {
        OnlyAcceptedGrow(b, op);
      }
    }
  }

  /** A minimum depth that cannot be reached keeps the buffer in Buffering. */
  ghost predicate Unstarted(b: Buffer) {
    b.state.Buffering? && |b.packets| <= if b.config.maxDepth == 0 then 1 else b.config.maxDepth
  }

  lemma {:induction false} AtMost(s: set<U16>, n: nat)
    requires forall x :: x in s ==> x < n
    ensures |s| <= n
    decreases n
  {
    if n == 0 {
      assert s == {};
    } else if n <= 65536 {
      var top: U16 := n - 1;
      var rest := s - {top};
      AtMost(rest, n - 1);
      assert s <= rest + {top};
      if top in s { assert s == rest + {top}; } else { assert s == rest; }
    } else {
      AtMost(s, n - 1);
    }
  }

  lemma StepUnstarted(b: Buffer, op: Op)
    requires WellFormed(b) && Unstarted(b)
    requires b.config.minDepth > 1 && b.config.minDepth > Min(b.config.maxDepth, 65536)
    ensures Unstarted(Apply(b, op))
  {
    Transitions(b, op);
    var c := Apply(b, op);
    AtMost(c.packets.Keys, 65536);
    if Accepted(b, op) {
      if op.InsertOp? { InsertDepth(b, op.p); }
    } else {
      OnlyAcceptedGrow(b, op);
      KeepSome(b.packets, c.packets);
      ConfigKept(b, op);
    }
  }

  lemma ConfigKept(b: Buffer, op: Op)
    requires WellFormed(b)
    ensures Apply(b, op).config == b.config
  {
    if op.PopOp? && !b.state.Buffering? { PopAdvances(b); }
    if op.InsertOp? && !IsLate(b, op.p) { InsertEffect(b, op.p); }
  }

  lemma InsertDepth(b: Buffer, p: Packet)
    requires WellFormed(b) && !IsLate(b, p)
    requires |b.packets| <= if b.config.maxDepth == 0 then 1 else b.config.maxDepth
    ensures Insert(b, p).config == b.config
    ensures |Insert(b, p).packets| <= if b.config.maxDepth == 0 then 1 else b.config.maxDepth
  {
    InsertEffect(b, p);
    MakeRoomEffect(b);
    AddOne(MakeRoom(b).packets, p);
    if b.config.maxDepth == 0 && b.packets.Keys != {} { RemoveOne(b.packets, Lowest(b.packets.Keys)); }
  }

  lemma {:induction false} NeverYields(w: World, ops: seq<Op>)
    requires WellFormed(w.b)
    requires var c := w.b.config;
             || (c.minDepth <= 1 && EmptyInUnderrun(w.b))
             || (c.minDepth > 1 && c.minDepth > Min(c.maxDepth, 65536) && Unstarted(w.b))
    ensures HoldsBack(Run(w, ops).b)
    decreases |ops|
  {
    hide Apply, Step;
    if ops != [] {
      StepIsRecorded(w, ops[0]);
      StepWellFormed(w.b, ops[0]);
      ConfigKept(w.b, ops[0]);
      if w.b.config.minDepth <= 1 { StepEmpty(w.b, ops[0]); } else { StepUnstarted(w.b, ops[0]); }
      hide WellFormed, Unstarted, EmptyInUnderrun;
      NeverYields(Step(w, ops[0]), ops[1..]);
    }
  }

  // ------------------------------------------------------------- when it does not

  /** The packets 0 to k - 1 received at time 0. */
  ghost predicate Filled(m: map<U16, Packet>, k: nat) {
    |m| == k && (forall j: U16 :: j in m <==> j < k) && forall j :: j in m ==> m[j].receivedAt == 0
  }

  lemma FilledMore(m: map<U16, Packet>, k: nat, p: Packet)
    requires Filled(m, k) && p.sequence == k && p.receivedAt == 0
    ensures Filled(m[p.sequence := p], k + 1)
  {
    AddOne(m, p);
  }

  lemma {:induction false} Fill(config: Config, k: nat) returns (b: Buffer)
    requires 2 <= config.minDepth <= Min(config.maxDepth, 65536) && k <= config.minDepth
    ensures Reachable(config, b) && WellFormed(b) && b.config == config && Filled(b.packets, k)
    ensures b.state == if k < config.minDepth then Buffering else Playing
    decreases k
  {
    hide Insert, WellFormed, Filled, Apply, Reachable;
    if k == 0 {
      b := New(config);
      StartReachable(config);
      NoneFilled();
    } else {
      var a := Fill(config, k - 1);
      var p := Packet(k - 1, 0, [], 0);
      b := Insert(a, p);
      FillStep(a, k - 1, p);
      ReachMore(config, a, InsertOp(p));
      ApplyInsert(a, p);
    }
  }

  lemma NoneFilled()
    ensures Filled(map[], 0)
  {
  }

  lemma ApplyInsert(b: Buffer, p: Packet)
    ensures Apply(b, InsertOp(p)) == Insert(b, p)
  {
  }

  lemma FillStep(a: Buffer, k: nat, p: Packet)
    requires WellFormed(a) && Filled(a.packets, k) && a.state.Buffering? && k < Min(a.config.maxDepth, 65536)
    requires p.sequence == k && p.receivedAt == 0
    ensures var b := Insert(a, p);
            && WellFormed(b) && b.config == a.config && Filled(b.packets, k + 1)
            && b.state == if k + 1 < a.config.minDepth then Buffering else Playing
  {
    hide Insert, Filled;
    FilledMore(a.packets, k, p);
    FilledSize(a.packets, k);
    FilledSize(a.packets[p.sequence := p], k + 1);
    InsertWithRoom(a, p);
    InsertState(a, p);
  }

  lemma FilledSize(m: map<U16, Packet>, k: nat)
    requires Filled(m, k)
    ensures |m| == k
  {
  }

  /** With the play point's own packet put into an empty buffer, playback goes on at once. */
  lemma InsertSole(b: Buffer, p: Packet)
    requires WellFormed(b) && b.next == Some(p.sequence) && b.packets.Keys == {} && b.config.maxDepth >= 1
    ensures var c := Insert(b, p);
            && WellFormed(c) && c.config == b.config && c.packets == map[p.sequence := p] && c.next == b.next
            && (b.state.Playing? ==> c.state.Playing?)
            && (b.state.Underrun? && b.config.minDepth >= 2 ==> c.state.Underrun?)
  {
    assert |b.packets| == 0 && b.packets == map[];
    InsertWithRoom(b, p);
    InsertState(b, p);
  }

  lemma PopSole(b: Buffer, p: Packet)
    requires WellFormed(b) && b.next == Some(p.sequence) && b.packets == map[p.sequence := p]
    ensures var (c, out) := Pop(b);
            && out == Some(p) && WellFormed(c) && c.config == b.config
            && c.packets.Keys == {} && c.next == Some(Next(p.sequence))
            && (b.state.Playing? ==> c.state.Underrun?)
  {
    PlayEffect(b, p.sequence);
    PopState(b);
    var c := Pop(b).0;
    assert c.packets == map[];
  }

  /** Playing, the rest pruned away: the last packet played brings the underrun, and the
      next one accepted is handed out during it. */
  lemma YieldsInUnderrun(config: Config) returns (b: Buffer)
    requires 2 <= config.minDepth <= Min(config.maxDepth, 65536)
    ensures Reachable(config, b) && b.state.Underrun? && |b.packets| == 1 && Pop(b).1.Some?
  {
    var full := Fill(config, config.minDepth);
    var pruned := Prune(full, config.maxAge);
    ReachMore(config, full, PruneOp(config.maxAge));
    assert pruned.packets.Keys == {};
    var s := full.next.value;
    var p, q := Packet(s, 0, [], 0), Packet(Next(s), 0, [], 0);
    var one := Insert(pruned, p);
    ReachMore(config, pruned, InsertOp(p));
    InsertSole(pruned, p);
    var out := Pop(one).0;
    ReachMore(config, one, PopOp);
    PopSole(one, p);
    b := Insert(out, q);
    ReachMore(config, out, InsertOp(q));
    InsertSole(out, q);
    PopSole(b, q);
  }

  /** In every run an underrun holds packets back exactly when the minimum depth is at most
      1, or so large that playback never starts. */
  lemma UnderrunHoldsBackIff(config: Config)
    ensures (forall ops: seq<Op> :: HoldsBack(Run(Start(config), ops).b))
            <==> config.minDepth <= 1 || config.minDepth > Min(config.maxDepth, 65536)
  {
    hide Run;
    if config.minDepth <= 1 || config.minDepth > Min(config.maxDepth, 65536) {
      forall ops: seq<Op> ensures HoldsBack(Run(Start(config), ops).b) {
        NeverYields(Start(config), ops);
      }
    } else {
      var b := YieldsInUnderrun(config);
      var ops :| Run(Start(config), ops).b == b;
      assert !HoldsBack(Run(Start(config), ops).b);
    }
  }

  /** Minimum depth 2, packets 0 and 1 in and out, packet 2 in: it comes out during the underrun. */
  lemma UnderrunExample(config: Config, p0: Packet, p1: Packet, p2: Packet)
    requires config.minDepth == 2 && config.maxDepth >= 2
    requires p0.sequence == 0 && p1.sequence == 1 && p2.sequence == 2
    ensures var b := Insert(Pop(Pop(Insert(Insert(New(config), p0), p1)).0).0, p2);
            Reachable(config, b) && b.state.Underrun? && Pop(b).1 == Some(p2)
  {
    hide Insert, Pop, Reachable, WellFormed, StartSequence;
    JitterWrap.TwoIn(config, p0, p1);
    var c := Insert(Insert(New(config), p0), p1);
    assert c.packets.Keys == {0, 1};
    JitterWrap.StartOfTwo(c.packets, 0, 1);
    Moves(config, c, p2);
    PopExpected(c);
    var d := Pop(c).0;
    assert d.packets == map[1 := p1];
    Moves(config, d, p2);
    PopSole(d, p1);
    var e := Pop(d).0;
    Moves(config, e, p2);
    InsertSole(e, p2);
    PopSole(Insert(e, p2), p2);
  }

  // ------------------------------------------------------ pops on an empty buffer

  /** A number k places on, wrapping. */
  function Plus(n: U16, k: nat): U16 {
    (n + k) % 65536
  }

  lemma PlusNext(n: U16, k: nat)
    ensures Plus(n, 0) == n && Next(Plus(n, k)) == Plus(n, k + 1) == Plus(Next(n), k)
  {
  }

  function Pops(j: nat): (ops: seq<Op>)
    ensures |ops| == j && forall i :: 0 <= i < j ==> ops[i] == PopOp
  {
    seq(j, _ => PopOp)
  }

  /** One pop on an empty buffer yields nothing and moves the play point all the same. */
  lemma EmptyPop(w: World)
    requires WellFormed(w.b) && w.b.next.Some? && w.b.packets.Keys == {}
    ensures var v := Step(w, PopOp);
            && WellFormed(v.b) && v.b.next == Some(Next(w.b.next.value)) && v.b.packets == w.b.packets
            && v.b.state == w.b.state && v.delivered == w.delivered && v.late == w.late
  {
    StepIsRecorded(w, PopOp);
    assert w.b.next.value !in w.b.packets.Keys;
  }

  lemma {:induction false} EmptyPops(w: World, j: nat)
    requires WellFormed(w.b) && w.b.next.Some? && w.b.packets.Keys == {}
    ensures var v := Run(w, Pops(j));
            && WellFormed(v.b) && v.b.next == Some(Plus(w.b.next.value, j)) && v.b.packets == w.b.packets
            && v.b.state == w.b.state && v.delivered == w.delivered && v.late == w.late
    decreases j
  {
    hide WellFormed, Step, Plus;
    PlusNext(w.b.next.value, j);
    if j > 0 {
      assert Pops(j)[1..] == Pops(j - 1);
      EmptyPop(w);
      PlusNext(w.b.next.value, j - 1);
      EmptyPops(Step(w, PopOp), j - 1);
    }
  }

  /** A packet i places on from the play point is refused after j pops on an empty buffer
      exactly when j is past i, counted in the circle, by at most half of it. */
  lemma RefusedAfterPopsIff(w: World, j: nat, p: Packet)
    requires WellFormed(w.b) && w.b.next.Some? && w.b.packets.Keys == {}
    ensures IsLate(Run(w, Pops(j)).b, p)
            <==> 0 < (j - Ahead(w.b.next.value, p.sequence)) % 65536 <= 32768
  {
    hide Run, WellFormed, Behind, Ahead, Plus;
    EmptyPops(w, j);
    BehindIff(w.b.next.value, j, p.sequence);
  }

  lemma BehindIff(n: U16, j: nat, x: U16)
    ensures Behind(x, Plus(n, j)) <==> 0 < (j - Ahead(n, x)) % 65536 <= 32768
  {
  }

  /** A stream at the pace of playback: each packet inserted, then one pop. */
  function InStep(ps: seq<Packet>): (ops: seq<Op>)
    ensures |ops| == 2 * |ps|
  {
    if ps == [] then [] else [InsertOp(ps[0]), PopOp] + InStep(ps[1..])
  }

  predicate ConsecutiveFrom(ps: seq<Packet>, n: U16) {
    forall i :: 0 <= i < |ps| ==> ps[i].sequence == Plus(n, i)
  }

  lemma ConsecutiveTail(ps: seq<Packet>, n: U16)
    requires ConsecutiveFrom(ps, n) && ps != []
    ensures ps[0].sequence == n && ConsecutiveFrom(ps[1..], Next(n))
  {
    forall i | 0 <= i < |ps| - 1 ensures ps[1..][i].sequence == Plus(Next(n), i) {
      PlusNext(n, i);
      assert ps[i + 1].sequence == Plus(n, i + 1);
    }
  }

  lemma TwoSteps(w: World, ps: seq<Packet>)
    requires ps != []
    ensures Run(w, InStep(ps)) == Run(Step(Step(w, InsertOp(ps[0])), PopOp), InStep(ps[1..]))
  {
    hide Step;
    var ops, v := InStep(ps), Step(w, InsertOp(ps[0]));
    assert ops[0] == InsertOp(ps[0]) && ops[1..][0] == PopOp && ops[1..][1..] == InStep(ps[1..]);
    assert Run(w, ops) == Run(v, ops[1..]);
  }

  /** A packet behind the play point: refused, then the pop moves the point on. */
  lemma RefusedStep(w: World, p: Packet)
    requires WellFormed(w.b) && w.b.next.Some? && w.b.packets.Keys == {} && IsLate(w.b, p)
    ensures var v := Step(Step(w, InsertOp(p)), PopOp);
            && WellFormed(v.b) && v.b.packets.Keys == {} && v.b.next == Some(Next(w.b.next.value))
            && v.delivered == w.delivered && v.late == w.late + multiset{p}
  {
    var u := Step(w, InsertOp(p));
    StepIsRecorded(w, InsertOp(p));
    assert u.b.packets == w.b.packets && u.b.next == w.b.next && u.late == w.late + multiset{p};
    StepWellFormed(w.b, InsertOp(p));
    EmptyPop(u);
  }

  /** The expected packet: stored, and handed out by the pop. */
  lemma PlayedStep(w: World, p: Packet)
    requires WellFormed(w.b) && w.b.next == Some(p.sequence) && w.b.packets.Keys == {}
    ensures var v := Step(Step(w, InsertOp(p)), PopOp);
            && WellFormed(v.b) && v.b.packets.Keys == {} && v.b.next == Some(Next(w.b.next.value))
            && v.delivered == w.delivered + [p] && v.late == w.late
  {
    var u := Step(w, InsertOp(p));
    StepIsRecorded(w, InsertOp(p));
    InsertEffect(w.b, p);
    MakeRoomEffect(w.b);
    assert u.b.packets == map[p.sequence := p];
    StepIsRecorded(u, PopOp);
    PopSole(u.b, p);
  }

  lemma {:induction false} RefusedForever(w: World, ps: seq<Packet>, n: U16, j: nat)
    requires WellFormed(w.b) && w.b.packets.Keys == {} && w.b.next == Some(Plus(n, j))
    requires ConsecutiveFrom(ps, n) && 0 < j % 65536 <= 32768
    ensures var v := Run(w, InStep(ps));
            v.delivered == w.delivered && v.late == w.late + multiset(ps) && v.b.packets.Keys == {}
    decreases |ps|
  {
    hide WellFormed, Step, Run, InStep, ConsecutiveFrom, Plus, IsLate;
    if ps == [] {
      NoSteps(w);
    } else {
      TwoSteps(w, ps);
      ConsecutiveTail(ps, n);
      FirstIsLate(w.b, ps[0], n, j);
      RefusedStep(w, ps[0]);
      PlusNext(n, j);
      RefusedForever(Step(Step(w, InsertOp(ps[0])), PopOp), ps[1..], Next(n), j);
      assert ps == [ps[0]] + ps[1..];
    }
  }

  lemma FirstIsLate(b: Buffer, p: Packet, n: U16, j: nat)
    requires b.next == Some(Plus(n, j)) && p.sequence == n && 0 < j % 65536 <= 32768
    ensures IsLate(b, p)
  {
    BehindIff(n, j, n);
  }

  lemma NoSteps(w: World)
    ensures Run(w, InStep([])) == w
  {
  }

  lemma {:induction false} PlayedInFull(w: World, ps: seq<Packet>, n: U16)
    requires WellFormed(w.b) && w.b.packets.Keys == {} && w.b.next == Some(n) && ConsecutiveFrom(ps, n)
    ensures var v := Run(w, InStep(ps));
            v.delivered == w.delivered + ps && v.late == w.late && v.b.packets.Keys == {}
    decreases |ps|
  {
    hide WellFormed, Step, Run, InStep, ConsecutiveFrom;
    if ps == [] {
      NoSteps(w);
      assert w.delivered + ps == w.delivered;
    } else {
      TwoSteps(w, ps);
      ConsecutiveTail(ps, n);
      PlayedStep(w, ps[0]);
      PlayedInFull(Step(Step(w, InsertOp(ps[0])), PopOp), ps[1..], Next(n));
      assert w.delivered + [ps[0]] + ps[1..] == w.delivered + ps;
    }
  }

  /** An empty buffer during playback, j pops, and then the stream goes on where it had
      stopped, one packet a pop. Without a pop in between, all of it is played, however long
      it is. After one to 32768 pops none of it ever is: every packet is refused as late, and
      the pops keep the play point ahead of the stream. */
  lemma GapSilencesStream(w: World, j: nat, ps: seq<Packet>)
    requires WellFormed(w.b) && w.b.next.Some? && w.b.packets.Keys == {}
    requires ConsecutiveFrom(ps, w.b.next.value)
    ensures var v := Run(Run(w, Pops(j)), InStep(ps));
            && (j % 65536 == 0 ==> v.delivered == w.delivered + ps && v.late == w.late)
            && (0 < j % 65536 <= 32768 ==> v.delivered == w.delivered && v.late == w.late + multiset(ps))
  {
    hide WellFormed, Run, InStep, ConsecutiveFrom;
    var n := w.b.next.value;
    EmptyPops(w, j);
    var u := Run(w, Pops(j));
    if j % 65536 == 0 {
      assert Plus(n, j) == n;
      PlayedInFull(u, ps, n);
    } else if j % 65536 <= 32768 {
      RefusedForever(u, ps, n, j);
    }
  }
}
