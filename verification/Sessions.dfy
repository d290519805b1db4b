/** The receiver's session manager. Every operation takes the session lock for a
    short phase, works without it, and possibly takes it again; phases of
    concurrent operations interleave freely. */
module Sessions {
  import opened Common

  type Id = nat

  datatype Policy = Reject | AllowPreempt | Queue

  datatype Reason = Preempted | PreemptedInRace | Requested | IdleTimeout | MaxDuration

  datatype Event = Started(id: Id) | Ended(id: Id, reason: Reason)

  /** What the operations share: the session behind the lock and the event channel. */
  datatype Shared = Shared(active: Option<Id>, log: seq<Event>)

  // -------------------------------------------------------------- locked phases

  datatype Admission = Busy | Proceed(preempted: Option<Id>)

  /** First phase of a start: refuse, take the old session, or find none. */
  function FirstLock(policy: Policy, s: Shared): (r: (Shared, Admission)) {
    if s.active.None? then (s, Proceed(None))
    else if policy.AllowPreempt? then (s.(active := None), Proceed(s.active))
    else (s, Busy)
  }

  /** Second phase, under one lock: the gap is re-checked and a session found there ended... */
  function Recheck(policy: Policy, s: Shared): (r: (Shared, bool)) {
    if s.active.None? then (s, true)
    else if policy.AllowPreempt? then (s.(log := s.log + [Ended(s.active.value, PreemptedInRace)]), true)
    else (s, false)
  }

  /** ... and then the new session is announced and put in place. */
  function Install(s: Shared, newId: Id): Shared {
    Shared(Some(newId), s.log + [Started(newId)])
  }

  function SecondLock(policy: Policy, s: Shared, newId: Id): (r: (Shared, bool)) {
    var (checked, ok) := Recheck(policy, s);
    (if ok then Install(checked, newId) else checked, ok)
  }

  function TakeActive(s: Shared): (r: (Shared, Option<Id>)) {
    (s.(active := None), s.active)
  }

  /** Why the active session is due to end, if it is. A zero maximum means unlimited. */
  function Due(idle: bool, maxDuration: nat, age: nat): (r: Option<Reason>) {
    if idle then Some(IdleTimeout)
    else if maxDuration > 0 && age > maxDuration then Some(MaxDuration)
    else None
  }

  function Announce(s: Shared, id: Id, reason: Reason): Shared {
    s.(log := s.log + [Ended(id, reason)])
  }

  class SessionManager {
    const policy: Policy
    const maxDuration: nat
    var activeSession: Option<Id>
    var events: seq<Event>

    ghost function View(): Shared
      reads this
    {
      Shared(activeSession, events)
    }

    constructor (policy: Policy, maxDuration: nat)
      ensures View() == Shared(None, []) && this.policy == policy && this.maxDuration == maxDuration
    {
      this.policy := policy;
      this.maxDuration := maxDuration;
      activeSession := None;
      events := [];
    }

    method StartFirstPhase() returns (r: Admission)
      modifies this`activeSession
      ensures (View(), r) == FirstLock(policy, old(View()))
    {
      if activeSession.Some? {
        match policy {
          case AllowPreempt =>
            r := Proceed(activeSession);
            activeSession := None;
          case _ =>
            r := Busy;
        }
      } else {
        r := Proceed(None);
      }
    }

    method StartSecondPhase(newId: Id) returns (ok: bool)
      modifies this
      ensures (View(), ok) == SecondLock(policy, old(View()), newId)
    {
      if activeSession.Some? {
        match policy {
          case AllowPreempt =>
            events := events + [Ended(activeSession.value, PreemptedInRace)];
          case _ =>
            return false;
        }
      }
      events := events + [Started(newId)];
      activeSession := Some(newId);
      ok := true;
    }

    method Take() returns (taken: Option<Id>)
      modifies this`activeSession
      ensures (View(), taken) == TakeActive(old(View()))
    {
      taken := activeSession;
      activeSession := None;
    }

    method TakeIfDue(idle: bool, age: nat) returns (taken: Option<(Id, Reason)>)
      modifies this`activeSession
      ensures var due := Due(idle, maxDuration, age);
              if due.Some? && old(activeSession).Some? then
                View() == TakeActive(old(View())).0 && taken == Some((old(activeSession).value, due.value))
              else View() == old(View()) && taken.None?
    {
      var reason: Option<Reason> := None;
      if activeSession.Some? {
        if idle {
          reason := Some(IdleTimeout);
        } else if maxDuration > 0 && age > maxDuration {
          reason := Some(MaxDuration);
        }
      }
      if reason.Some? {
        taken := Some((activeSession.value, reason.value));
        activeSession := None;
      } else {
        taken := None;
      }
    }

    method AnnounceEnd(id: Id, reason: Reason)
      modifies this`events
      ensures View() == Announce(old(View()), id, reason)
    {
      events := events + [Ended(id, reason)];
    }
  }

  // -------------------------------------------------------------- interleaving

  /** Where an operation is between its phases. */
  datatype Task =
    | Entering                              // a start that has not locked yet
    | Holding(id: Id, reason: Reason)       // has taken a session, will announce its end
    | Reentering                            // a start before or, with the lock, in its second phase

  /** `lock` names the start that is between the two sends of its second phase; all other
      phases are one step. Meanwhile others can still announce what they have taken. */
  datatype World = World(policy: Policy, shared: Shared, lock: Option<nat>, tasks: map<nat, Task>)

  datatype Step =
    | CallStart(t: nat)
    | LockFirst(t: nat)
    | AnnounceTaken(t: nat)
    | LockSecond(t: nat)
    | PutInPlace(t: nat, newId: Id)
    | LockEnd(t: nat)
    | LockTimeout(t: nat, idle: bool, maxDuration: nat, age: nat)

  function Init(policy: Policy): World {
    World(policy, Shared(None, []), None, map[])
  }

  ghost function Opened(log: seq<Event>): set<Id> {
    set k | 0 <= k < |log| && log[k].Started? :: log[k].id
  }

  ghost function Closed(log: seq<Event>): set<Id> {
    set k | 0 <= k < |log| && log[k].Ended? :: log[k].id
  }

  /** A step is possible when its task is at the right place and the lock, if the step
      takes it, is free; new tasks and sessions have new names. */
  ghost predicate Enabled(w: World, step: Step) {
    match step
    case CallStart(t) => t !in w.tasks
    case LockFirst(t) => t in w.tasks && w.tasks[t].Entering? && w.lock.None?
    case AnnounceTaken(t) => t in w.tasks && w.tasks[t].Holding?
    case LockSecond(t) => t in w.tasks && w.tasks[t].Reentering? && w.lock.None?
    case PutInPlace(t, newId) =>
      t in w.tasks && w.tasks[t].Reentering? && w.lock == Some(t) && newId !in Opened(w.shared.log)
    case LockEnd(t) => t !in w.tasks && w.lock.None?
    case LockTimeout(t, _, _, _) => t !in w.tasks && w.lock.None?
  }

  ghost function Do(w: World, step: Step): World
    requires Enabled(w, step)
  {
    match step
    case CallStart(t) => w.(tasks := w.tasks[t := Entering])
    case LockFirst(t) =>
      var (s, r) := FirstLock(w.policy, w.shared);
      w.(shared := s,
         tasks := if r.Busy? then w.tasks - {t}
                  else w.tasks[t := if r.preempted.Some? then Holding(r.preempted.value, Preempted) else Reentering])
    case AnnounceTaken(t) =>
      var task := w.tasks[t];
      w.(shared := Announce(w.shared, task.id, task.reason),
         tasks := if task.reason.Preempted? then w.tasks[t := Reentering] else w.tasks - {t})
    case LockSecond(t) =>
      var (s, ok) := Recheck(w.policy, w.shared);
      if ok then w.(shared := s, lock := Some(t)) else w.(shared := s, tasks := w.tasks - {t})
    case PutInPlace(t, newId) =>
      w.(shared := Install(w.shared, newId), lock := None, tasks := w.tasks - {t})
    case LockEnd(t) =>
      var (s, taken) := TakeActive(w.shared);
      w.(shared := s, tasks := if taken.Some? then w.tasks[t := Holding(taken.value, Requested)] else w.tasks)
    case LockTimeout(t, idle, maxDuration, age) =>
      var due := Due(idle, maxDuration, age);
      if due.None? || w.shared.active.None? then w else
        w.(shared := w.shared.(active := None),
           tasks := w.tasks[t := Holding(w.shared.active.value, due.value)])
  }

  ghost predicate IsRun(w: World, steps: seq<Step>, v: World)
    decreases |steps|
  {
    if steps == [] then v == w
    else Enabled(w, steps[0]) && IsRun(Do(w, steps[0]), steps[1..], v)
  }

  // ----------------------------------------------------------------- invariant

  /** Ids taken out of the manager whose end is not announced yet. */
  ghost function Held(tasks: map<nat, Task>): set<Id> {
    set t | t in tasks && tasks[t].Holding? :: tasks[t].id
  }

  /** An end comes after the session's own start, and only once; no id starts twice. */
  ghost predicate Orderly(log: seq<Event>) {
    forall k :: 0 <= k < |log| ==> MayFollow(log[..k], log[k])
  }

  ghost predicate MayFollow(log: seq<Event>, e: Event) {
    match e
    case Started(id) => id !in Opened(log)
    case Ended(id, _) => id in Opened(log) && id !in Closed(log)
  }

  ghost predicate HeldOnce(tasks: map<nat, Task>) {
    forall t, u ::
      t in tasks && u in tasks && tasks[t].Holding? && tasks[u].Holding? && tasks[t].id == tasks[u].id ==> t == u
  }

  /** The active session; under the lock of a second phase it has been replaced already. */
  ghost function ActiveSet(w: World): set<Id> {
    if w.shared.active.Some? && w.lock.None? then {w.shared.active.value} else {}
  }

  /** Sessions a subscriber has seen start and not end. */
  ghost function Open(w: World): set<Id> {
    Opened(w.shared.log) - Closed(w.shared.log)
  }

  /** Every started session is exactly one of active, held, ended. */
  ghost predicate Partition(w: World) {
    && Closed(w.shared.log) <= Opened(w.shared.log)
    && Open(w) == ActiveSet(w) + Held(w.tasks)
    && ActiveSet(w) !! Held(w.tasks)
  }

  /** Without preemption no start holds or has ended a session. */
  ghost predicate RejectsCleanly(w: World) {
    !w.policy.AllowPreempt? ==>
      && (forall t :: t in w.tasks && w.tasks[t].Holding? ==> !ByStart(w.tasks[t].reason))
      && (forall k :: 0 <= k < |w.shared.log| && w.shared.log[k].Ended? ==> !ByStart(w.shared.log[k].reason))
  }

  predicate ByStart(reason: Reason) {
    reason.Preempted? || reason.PreemptedInRace?
  }

  ghost predicate Inv(w: World) {
    Orderly(w.shared.log) && HeldOnce(w.tasks) && Partition(w) && RejectsCleanly(w)
  }

  lemma LogSnoc(log: seq<Event>, e: Event)
    ensures Opened(log + [e]) == Opened(log) + (if e.Started? then {e.id} else {})
    ensures Closed(log + [e]) == Closed(log) + (if e.Ended? then {e.id} else {})
    ensures Orderly(log) && MayFollow(log, e) ==> Orderly(log + [e])
  {
    var l := log + [e];
    assert l[|log|] == e;
    assert forall k :: 0 <= k < |log| ==> l[k] == log[k] && l[..k] == log[..k];
    assert l[..|log|] == log;
  }

  lemma HeldAdd(tasks: map<nat, Task>, t: nat, id: Id, reason: Reason)
    requires t !in tasks || !tasks[t].Holding?
    ensures Held(tasks[t := Holding(id, reason)]) == Held(tasks) + {id}
  {
    var m := tasks[t := Holding(id, reason)];
    assert m[t].id == id;
    forall u | u in tasks && tasks[u].Holding? ensures tasks[u].id in Held(m) { assert m[u] == tasks[u]; }
  }

  lemma HeldDrop(tasks: map<nat, Task>, t: nat, rest: map<nat, Task>)
    requires HeldOnce(tasks) && t in tasks
    requires rest == tasks - {t} || rest == tasks[t := Reentering]
    ensures HeldOnce(rest)
    ensures Held(rest) == Held(tasks) - (if tasks[t].Holding? then {tasks[t].id} else {})
  {
    forall u | u in tasks && u != t && tasks[u].Holding?
      ensures tasks[u].id in Held(rest)
    {
      assert u in rest && rest[u] == tasks[u];
    }
    forall u | u in rest && rest[u].Holding?
      ensures u in tasks && u != t && rest[u] == tasks[u]
    {
    }
  }

  lemma TakeKeeps(w: World, t: nat, reason: Reason)
    requires Inv(w) && w.shared.active.Some? && w.lock.None? && (t !in w.tasks || !w.tasks[t].Holding?)
    requires ByStart(reason) ==> w.policy.AllowPreempt?
    ensures Inv(w.(shared := w.shared.(active := None),
                   tasks := w.tasks[t := Holding(w.shared.active.value, reason)]))
  {
    HeldAdd(w.tasks, t, w.shared.active.value, reason);
    forall u | u in w.tasks && w.tasks[u].Holding? ensures w.tasks[u].id != w.shared.active.value {
      assert w.tasks[u].id in Held(w.tasks);
    }
  }

  lemma AnnounceKeeps(w: World, t: nat)
    requires Inv(w) && Enabled(w, AnnounceTaken(t))
    ensures Inv(Do(w, AnnounceTaken(t)))
  {
    var v, task := Do(w, AnnounceTaken(t)), w.tasks[t];
    assert task.id in Held(w.tasks);
    LogSnoc(w.shared.log, Ended(task.id, task.reason));
    HeldDrop(w.tasks, t, v.tasks);
  }

  lemma SecondKeeps(w: World, t: nat)
    requires Inv(w) && Enabled(w, LockSecond(t))
    ensures Inv(Do(w, LockSecond(t)))
  {
    var active := w.shared.active;
    HeldDrop(w.tasks, t, w.tasks - {t});
    if active.Some? { LogSnoc(w.shared.log, Ended(active.value, PreemptedInRace)); }
  }

  lemma PutInPlaceKeeps(w: World, t: nat, newId: Id)
    requires Inv(w) && Enabled(w, PutInPlace(t, newId))
    ensures Inv(Do(w, PutInPlace(t, newId)))
  {
    HeldDrop(w.tasks, t, w.tasks - {t});
    LogSnoc(w.shared.log, Started(newId));
  }

  lemma StepKeepsInv(w: World, step: Step)
    requires Inv(w) && Enabled(w, step)
    ensures Inv(Do(w, step)) && Do(w, step).policy == w.policy
  {
    match step
    case CallStart(t) =>
      assert Held(w.tasks[t := Entering]) == Held(w.tasks) by {
        forall u | u in w.tasks ensures w.tasks[t := Entering][u] == w.tasks[u] {}
      }
    case LockFirst(t) =>
      if w.shared.active.None? {
        HeldDrop(w.tasks, t, w.tasks[t := Reentering]);
      } else if w.policy.AllowPreempt? {
        TakeKeeps(w, t, Preempted);
      } else {
        HeldDrop(w.tasks, t, w.tasks - {t});
      }
    case AnnounceTaken(t) => AnnounceKeeps(w, t);
    case LockSecond(t) => SecondKeeps(w, t);
    case PutInPlace(t, newId) => PutInPlaceKeeps(w, t, newId);
    case LockEnd(t) =>
      if w.shared.active.Some? { TakeKeeps(w, t, Requested); }
    case LockTimeout(t, idle, maxDuration, age) =>
      var due := Due(idle, maxDuration, age);
      if w.shared.active.Some? && due.Some? { TakeKeeps(w, t, due.value); }
  }

  lemma {:induction false} RunKeepsInv(w: World, steps: seq<Step>, v: World)
    requires Inv(w) && IsRun(w, steps, v)
    ensures Inv(v) && v.policy == w.policy
    decreases |steps|
  {
    if steps != [] {
      StepKeepsInv(w, steps[0]);
      RunKeepsInv(Do(w, steps[0]), steps[1..], v);
    }
  }

  // -------------------------------------------------------------- main results

  /** In every interleaving each end is announced once, after its own start, and
      every started session is exactly one of: active, taken by an operation about
      to announce its end, or ended. */
  lemma EveryInterleavingIsOrderly(policy: Policy, steps: seq<Step>, w: World)
    requires IsRun(Init(policy), steps, w)
    ensures Orderly(w.shared.log) && Partition(w) && HeldOnce(w.tasks)
  {
    RunKeepsInv(Init(policy), steps, w);
  }

  /** Under Reject (and Queue, which is treated alike) no session is ever ended by a start. */
  lemma RejectNeverPreempts(policy: Policy, steps: seq<Step>, w: World, k: nat)
    requires !policy.AllowPreempt? && IsRun(Init(policy), steps, w)
    requires k < |w.shared.log| && w.shared.log[k].Ended?
    ensures w.shared.log[k].reason in {Requested, IdleTimeout, MaxDuration}
  {
    RunKeepsInv(Init(policy), steps, w);
  }

  /** The event log shows as many open sessions as there are active and held ones. */
  lemma OpenInLog(policy: Policy, steps: seq<Step>, w: World)
    requires IsRun(Init(policy), steps, w)
    ensures |Open(w)| == |ActiveSet(w)| + |Held(w.tasks)|
  {
    RunKeepsInv(Init(policy), steps, w);
    assert |ActiveSet(w) + Held(w.tasks)| == |ActiveSet(w)| + |Held(w.tasks)|;
  }

  /** A new session is put in place while the end of an earlier one is not announced yet. */
  ghost predicate Overlaps(w: World, step: Step) {
    step.PutInPlace? && Held(w.tasks) != {}
  }

  /** This is the one step that can show subscribers a second open session, and it always does. */
  lemma SecondOpenIff(w: World, step: Step)
    requires Inv(w) && Enabled(w, step) && |Open(w)| <= 1
    ensures |Open(Do(w, step))| <= 1 <==> !Overlaps(w, step)
  {
    hide Inv, Open, Held, Do, Enabled;
    if step.PutInPlace? {
      PutInPlaceOpens(w, step.t, step.newId);
      if Held(w.tasks) != {} { NonEmpty(Held(w.tasks)); }
    } else {
      OpenShrinks(w, step);
      Fewer(Open(Do(w, step)), Open(w));
    }
  }

  lemma PutInPlaceOpens(w: World, t: nat, newId: Id)
    requires Inv(w) && Enabled(w, PutInPlace(t, newId))
    ensures Open(w) == Held(w.tasks) && |Open(Do(w, PutInPlace(t, newId)))| == |Open(w)| + 1
  {
    LogSnoc(w.shared.log, Started(newId));
    hide Opened, Closed, Held;
    assert Open(Do(w, PutInPlace(t, newId))) == Open(w) + {newId} && newId !in Open(w);
  }

  lemma NonEmpty(s: set<Id>)
    requires s != {}
    ensures |s| >= 1
  {
  }

  lemma Fewer(a: set<Id>, b: set<Id>)
    requires a <= b
    ensures |a| <= |b|
  {
    assert b == a + (b - a);
  }

  lemma OpenShrinks(w: World, step: Step)
    requires Inv(w) && Enabled(w, step) && !step.PutInPlace?
    ensures Open(Do(w, step)) <= Open(w)
  {
    hide Inv, Opened, Closed;
    match step
    case AnnounceTaken(t) => LogSnoc(w.shared.log, Ended(w.tasks[t].id, w.tasks[t].reason));
    case LockSecond(t) =>
      if w.shared.active.Some? { LogSnoc(w.shared.log, Ended(w.shared.active.value, PreemptedInRace)); }
    case _ =>
  }

  ghost predicate OneOpenThroughout(w: World, steps: seq<Step>)
    decreases |steps|
  {
    |Open(w)| <= 1 && (steps != [] && Enabled(w, steps[0]) ==> OneOpenThroughout(Do(w, steps[0]), steps[1..]))
  }

  ghost predicate OverlapsAlong(w: World, steps: seq<Step>)
    decreases |steps|
  {
    steps != [] && Enabled(w, steps[0])
    && (Overlaps(w, steps[0]) || OverlapsAlong(Do(w, steps[0]), steps[1..]))
  }

  lemma {:induction false} OneOpenFrom(w: World, steps: seq<Step>, v: World)
    requires Inv(w) && |Open(w)| <= 1 && IsRun(w, steps, v)
    ensures OneOpenThroughout(w, steps) <==> !OverlapsAlong(w, steps)
    decreases |steps|
  {
    hide Inv, Enabled, Do, Open, Overlaps;
    if steps != [] {
      var u := Do(w, steps[0]);
      SecondOpenIff(w, steps[0]);
      StepKeepsInv(w, steps[0]);
      if |Open(u)| <= 1 { OneOpenFrom(u, steps[1..], v); }
    }
  }

  /** Along every run subscribers see at most one session open throughout, exactly unless a
      session is put in place while an earlier one's end is still to be announced. */
  lemma OneOpenThroughoutIff(policy: Policy, steps: seq<Step>, v: World)
    requires IsRun(Init(policy), steps, v)
    ensures OneOpenThroughout(Init(policy), steps) <==> !OverlapsAlong(Init(policy), steps)
  {
    OneOpenFrom(Init(policy), steps, v);
  }

  /** Operations run one at a time: no two are in progress at once. */
  ghost predicate OneAtATime(w: World, steps: seq<Step>)
    decreases |steps|
  {
    && (forall t, u :: t in w.tasks && u in w.tasks ==> t == u)
    && (steps != [] && Enabled(w, steps[0]) ==> OneAtATime(Do(w, steps[0]), steps[1..]))
  }

  lemma {:induction false} OneAtATimeNeverOverlaps(w: World, steps: seq<Step>)
    requires OneAtATime(w, steps)
    ensures !OverlapsAlong(w, steps)
    decreases |steps|
  {
    if steps != [] && Enabled(w, steps[0]) { OneAtATimeNeverOverlaps(Do(w, steps[0]), steps[1..]); }
  }

  /** Then subscribers never see two sessions open. */
  lemma SerialShowsOne(policy: Policy, steps: seq<Step>, v: World)
    requires IsRun(Init(policy), steps, v) && OneAtATime(Init(policy), steps)
    ensures OneOpenThroughout(Init(policy), steps)
  {
    OneAtATimeNeverOverlaps(Init(policy), steps);
    OneOpenThroughoutIff(policy, steps, v);
  }

  /** Subscribers can see two sessions at once even under Reject: an ended session's
      announcement may come after its successor's start. */
  lemma OverlapExample()
    ensures exists steps, w :: IsRun(Init(Reject), steps, w)
              && w.shared.log == [Started(1), Started(2)] && Held(w.tasks) == {1} && w.shared.active == Some(2)
  {
    var none: map<nat, Task> := map[];
    var steps1 := StartAlone(0, 1, Shared(None, []), none);
    var busy := World(Reject, Shared(Some(1), [Started(1)]), None, none);
    var held: map<nat, Task> := map[0 := Holding(1, Requested)];
    var ended := World(Reject, Shared(None, [Started(1)]), None, held);
    assert Do(busy, LockEnd(0)) == ended;
    var last := World(Reject, Shared(Some(2), [Started(1), Started(2)]), None, held);
    assert [Started(1)] + [Started(2)] == last.shared.log && [] + [Started(1)] == busy.shared.log;
    LogSnoc([], Started(1));
    var steps2 := StartAlone(1, 2, Shared(None, [Started(1)]), held);
    RunCons(busy, LockEnd(0), steps2, last);
    RunJoin(Init(Reject), steps1, busy, [LockEnd(0)] + steps2, last);
    assert Held(held) == {1} by { assert held[0].id == 1; }
  }

  /** A start that meets no other: all its steps, up to the session in place. */
  lemma StartAlone(t: nat, id: Id, s: Shared, tasks: map<nat, Task>) returns (steps: seq<Step>)
    requires t !in tasks && s.active.None? && id !in Opened(s.log)
    ensures IsRun(World(Reject, s, None, tasks), steps,
                  World(Reject, Shared(Some(id), s.log + [Started(id)]), None, tasks))
  {
    var w := World(Reject, s, None, tasks);
    var w1, w2, w3 := w.(tasks := tasks[t := Entering]), w.(tasks := tasks[t := Reentering]),
                      w.(tasks := tasks[t := Reentering], lock := Some(t));
    var v := World(Reject, Shared(Some(id), s.log + [Started(id)]), None, tasks);
    assert Do(w, CallStart(t)) == w1;
    assert Do(w1, LockFirst(t)) == w2;
    assert Do(w2, LockSecond(t)) == w3;
    assert Do(w3, PutInPlace(t, id)) == v by { assert tasks[t := Reentering] - {t} == tasks; }
    RunCons(w3, PutInPlace(t, id), [], v);
    steps := [PutInPlace(t, id)] + [];
    RunCons(w2, LockSecond(t), steps, v);
    steps := [LockSecond(t)] + steps;
    RunCons(w1, LockFirst(t), steps, v);
    steps := [LockFirst(t)] + steps;
    RunCons(w, CallStart(t), steps, v);
    steps := [CallStart(t)] + steps;
  }

  lemma RunCons(w: World, step: Step, rest: seq<Step>, v: World)
    requires Enabled(w, step) && IsRun(Do(w, step), rest, v)
    ensures IsRun(w, [step] + rest, v)
  {
    assert ([step] + rest)[1..] == rest;
  }

  lemma {:induction false} RunJoin(w: World, a: seq<Step>, u: World, b: seq<Step>, v: World)
    requires IsRun(w, a, u) && IsRun(u, b, v)
    ensures IsRun(w, a + b, v)
    decreases |a|
  {
    if a == [] {
      assert a + b == b;
    } else {
      RunJoin(Do(w, a[0]), a[1..], u, b, v);
      assert (a + b)[1..] == a[1..] + b;
    }
  }
}
