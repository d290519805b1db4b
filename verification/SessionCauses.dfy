/** What each phase of the session manager does, why a session ends, and that a start
    under preemption is never refused. */
module SessionCauses {
  import opened Common
  import opened Sessions

  // ------------------------------------------------------------------- timeouts

  /** A timeout check takes the active session exactly when it is idle, or over a maximum
      duration that is set, and gives the reason that applies; otherwise it changes nothing. */
  lemma TimeoutTakesIff(w: World, t: nat, idle: bool, maxDuration: nat, age: nat)
    requires Enabled(w, LockTimeout(t, idle, maxDuration, age))
    ensures var v, active := Do(w, LockTimeout(t, idle, maxDuration, age)), w.shared.active;
            if active.Some? && (idle || 0 < maxDuration < age) then
              && v.shared.active.None? && v.shared.log == w.shared.log && v.lock == w.lock
              && v.tasks == w.tasks[t := Holding(active.value, if idle then IdleTimeout else MaxDuration)]
            else v == w
  {
  }

  /** An end takes whatever is active and changes nothing else. */
  lemma EndTakes(w: World, t: nat)
    requires Enabled(w, LockEnd(t))
    ensures var v, active := Do(w, LockEnd(t)), w.shared.active;
            && v.shared.active.None? && v.shared.log == w.shared.log && v.lock == w.lock
            && v.tasks == if active.Some? then w.tasks[t := Holding(active.value, Requested)] else w.tasks
  {
  }

  // --------------------------------------------------------------------- causes

  /** Some step of the run is a reason for such an end. */
  ghost predicate Caused(policy: Policy, steps: seq<Step>, reason: Reason) {
    match reason
    case Preempted => policy.AllowPreempt? && exists i :: 0 <= i < |steps| && steps[i].LockFirst?
    case PreemptedInRace => policy.AllowPreempt? && exists i :: 0 <= i < |steps| && steps[i].LockSecond?
    case Requested => exists i :: 0 <= i < |steps| && steps[i].LockEnd?
    case IdleTimeout => exists i :: 0 <= i < |steps| && steps[i].LockTimeout? && steps[i].idle
    case MaxDuration =>
      exists i :: 0 <= i < |steps| && steps[i].LockTimeout? && !steps[i].idle
                  && 0 < steps[i].maxDuration < steps[i].age
  }

  ghost predicate AllCaused(w: World, steps: seq<Step>) {
    && (forall t :: t in w.tasks && w.tasks[t].Holding? ==> Caused(w.policy, steps, w.tasks[t].reason))
    && (forall k :: 0 <= k < |w.shared.log| && w.shared.log[k].Ended? ==>
          Caused(w.policy, steps, w.shared.log[k].reason))
  }

  lemma CausedLater(policy: Policy, steps: seq<Step>, step: Step, reason: Reason)
    requires Caused(policy, steps, reason)
    ensures Caused(policy, steps + [step], reason)
  {
    var more := steps + [step];
    assert forall i :: 0 <= i < |steps| ==> more[i] == steps[i];
  }

  /** The reasons one step brings in. */
  ghost predicate Brings(policy: Policy, step: Step, reason: Reason) {
    match step
    case LockFirst(_) => policy.AllowPreempt? && reason.Preempted?
    case LockSecond(_) => policy.AllowPreempt? && reason.PreemptedInRace?
    case LockEnd(_) => reason.Requested?
    case LockTimeout(_, idle, maxDuration, age) =>
      if idle then reason.IdleTimeout? else 0 < maxDuration < age && reason.MaxDuration?
    case _ => false
  }

  lemma BroughtIsCaused(policy: Policy, steps: seq<Step>, step: Step, reason: Reason)
    requires Brings(policy, step, reason)
    ensures Caused(policy, steps + [step], reason)
  {
    assert (steps + [step])[|steps|] == step;
  }

  /** A reason found after a step was there before it or is one it brings. */
  lemma StepReasons(w: World, step: Step)
    requires Enabled(w, step)
    ensures var v := Do(w, step);
            && v.policy == w.policy
            && (forall t :: t in v.tasks && v.tasks[t].Holding? ==>
                  (t in w.tasks && v.tasks[t] == w.tasks[t]) || Brings(w.policy, step, v.tasks[t].reason))
            && (forall k :: |w.shared.log| <= k < |v.shared.log| && v.shared.log[k].Ended? ==>
                  || Brings(w.policy, step, v.shared.log[k].reason)
                  || (step.AnnounceTaken? && v.shared.log[k].reason == w.tasks[step.t].reason))
            && w.shared.log <= v.shared.log
  {
  }

  lemma StepCaused(w: World, steps: seq<Step>, step: Step)
    requires Enabled(w, step) && AllCaused(w, steps)
    ensures AllCaused(Do(w, step), steps + [step])
  {
    hide Do, Caused, Brings;
    StepReasons(w, step);
    var v := Do(w, step);
    forall t | t in v.tasks && v.tasks[t].Holding? ensures Caused(v.policy, steps + [step], v.tasks[t].reason) {
      Reason(w.policy, steps, step, v.tasks[t].reason);
    }
    forall k | 0 <= k < |v.shared.log| && v.shared.log[k].Ended?
      ensures Caused(v.policy, steps + [step], v.shared.log[k].reason)
    {
      if k < |w.shared.log| { assert v.shared.log[k] == w.shared.log[k]; }
      Reason(w.policy, steps, step, v.shared.log[k].reason);
    }
  }

  lemma Reason(policy: Policy, steps: seq<Step>, step: Step, reason: Reason)
    ensures Caused(policy, steps, reason) || Brings(policy, step, reason) ==> Caused(policy, steps + [step], reason)
  {
    hide Caused, Brings;
    if Caused(policy, steps, reason) { CausedLater(policy, steps, step, reason); }
    if Brings(policy, step, reason) { BroughtIsCaused(policy, steps, step, reason); }
  }

  lemma {:induction false} RunCaused(w: World, done: seq<Step>, steps: seq<Step>, v: World)
    requires AllCaused(w, done) && IsRun(w, steps, v)
    ensures AllCaused(v, done + steps) && v.policy == w.policy
    decreases |steps|
  {
    hide AllCaused, Do, Enabled;
    if steps == [] {
      assert done + steps == done;
    } else {
      StepCaused(w, done, steps[0]);
      StepPolicy(w, steps[0]);
      RunCaused(Do(w, steps[0]), done + [steps[0]], steps[1..], v);
      assert done + [steps[0]] + steps[1..] == done + steps;
    }
  }

  lemma StepPolicy(w: World, step: Step)
    requires Enabled(w, step)
    ensures Do(w, step).policy == w.policy
  {
  }

  /** In every interleaving each announced end has its cause: an end call, an idle session at a
      timeout check, an age over a maximum that is set, or a start under AllowPreempt. */
  lemma EveryEndHasACause(policy: Policy, steps: seq<Step>, w: World, k: nat)
    requires IsRun(Init(policy), steps, w) && k < |w.shared.log| && w.shared.log[k].Ended?
    ensures Caused(policy, steps, w.shared.log[k].reason)
  {
    RunCaused(Init(policy), [], steps, w);
    assert [] + steps == steps;
  }

  /** With the maximum duration left at 0 no session is ever ended for its age. */
  lemma UnlimitedNeverExpires(policy: Policy, steps: seq<Step>, w: World, k: nat)
    requires IsRun(Init(policy), steps, w) && k < |w.shared.log| && w.shared.log[k].Ended?
    requires forall i :: 0 <= i < |steps| && steps[i].LockTimeout? ==> steps[i].maxDuration == 0
    ensures !w.shared.log[k].reason.MaxDuration?
  {
    EveryEndHasACause(policy, steps, w, k);
  }

  // --------------------------------------------------------------------- starts

  /** A start is refused at a lock exactly when it finds a session there and may not preempt it. */
  lemma StartRefusedIff(w: World, t: nat)
    ensures Enabled(w, LockFirst(t)) ==>
              (t !in Do(w, LockFirst(t)).tasks <==> w.shared.active.Some? && !w.policy.AllowPreempt?)
    ensures Enabled(w, LockSecond(t)) ==>
              (t !in Do(w, LockSecond(t)).tasks <==> w.shared.active.Some? && !w.policy.AllowPreempt?)
  {
  }

  /** What the phases of a start do: the first takes the old session to end it, the second
      ends what it finds, and the new session is announced last and is the active one. */
  lemma StartPhases(w: World, t: nat, newId: Id)
    ensures Enabled(w, LockFirst(t)) && w.policy.AllowPreempt? && w.shared.active.Some? ==>
              var taken := Holding(w.shared.active.value, Preempted);
              Do(w, LockFirst(t)) == w.(shared := w.shared.(active := None), tasks := w.tasks[t := taken])
    ensures Enabled(w, LockFirst(t)) && w.shared.active.None? ==>
              Do(w, LockFirst(t)) == w.(tasks := w.tasks[t := Reentering])
    ensures Enabled(w, LockSecond(t)) && (w.policy.AllowPreempt? || w.shared.active.None?) ==>
              var ends := if w.shared.active.Some? then [Ended(w.shared.active.value, PreemptedInRace)] else [];
              Do(w, LockSecond(t)) == w.(shared := w.shared.(log := w.shared.log + ends), lock := Some(t))
    ensures Enabled(w, PutInPlace(t, newId)) ==>
              Do(w, PutInPlace(t, newId))
              == World(w.policy, Shared(Some(newId), w.shared.log + [Started(newId)]), None, w.tasks - {t})
  {
    assert w.shared.log + [] == w.shared.log;
  }

  /** The task is a start on its way. */
  predicate Starting(w: World, t: nat) {
    t in w.tasks && (w.tasks[t].Holding? ==> w.tasks[t].reason.Preempted?)
  }

  lemma StepKeepsStarting(w: World, step: Step, t: nat)
    requires Enabled(w, step) && w.policy.AllowPreempt? && Starting(w, t)
    ensures Starting(Do(w, step), t)
            || (step.PutInPlace? && step.t == t && Do(w, step).shared.active == Some(step.newId))
  {
  }

  ghost predicate Placed(steps: seq<Step>, t: nat, log: seq<Event>) {
    exists i :: 0 <= i < |steps| && steps[i].PutInPlace? && steps[i].t == t && Started(steps[i].newId) in log
  }

  lemma PlacedLater(step: Step, rest: seq<Step>, t: nat, log: seq<Event>)
    requires Placed(rest, t, log)
    ensures Placed([step] + rest, t, log)
  {
    var i :| 0 <= i < |rest| && rest[i].PutInPlace? && rest[i].t == t && Started(rest[i].newId) in log;
    assert ([step] + rest)[i + 1] == rest[i];
  }

  lemma {:induction false} LogGrows(w: World, steps: seq<Step>, v: World)
    requires IsRun(w, steps, v)
    ensures w.shared.log <= v.shared.log
    decreases |steps|
  {
    hide Do, Enabled;
    if steps != [] {
      StepReasons(w, steps[0]);
      LogGrows(Do(w, steps[0]), steps[1..], v);
    }
  }

  /** Under AllowPreempt a start is never refused or lost: in every interleaving it is still
      on its way or has put its session in place and announced it. */
  lemma {:induction false} StartNeverLost(w: World, steps: seq<Step>, v: World, t: nat)
    requires IsRun(w, steps, v) && w.policy.AllowPreempt? && Starting(w, t)
    ensures Starting(v, t) || Placed(steps, t, v.shared.log)
    decreases |steps|
  {
    hide Do, Enabled, Starting, Placed;
    if steps != [] {
      var u := Do(w, steps[0]);
      StepKeepsStarting(w, steps[0], t);
      StepPolicy(w, steps[0]);
      assert steps == [steps[0]] + steps[1..];
      if Starting(u, t) {
        StartNeverLost(u, steps[1..], v, t);
        if Placed(steps[1..], t, v.shared.log) { PlacedLater(steps[0], steps[1..], t, v.shared.log); }
      } else {
        LogGrows(u, steps[1..], v);
        PlacedNow(w, steps, v, t);
      }
    }
  }

  lemma PlacedNow(w: World, steps: seq<Step>, v: World, t: nat)
    requires steps != [] && Enabled(w, steps[0]) && steps[0].PutInPlace? && steps[0].t == t
    requires Do(w, steps[0]).shared.log <= v.shared.log
    ensures Placed(steps, t, v.shared.log)
  {
    var log := Do(w, steps[0]).shared.log;
    assert log[|log| - 1] == Started(steps[0].newId);
    assert v.shared.log[|log| - 1] == Started(steps[0].newId);
  }

  /** The lock is held by a start that can go on. */
  predicate LockOk(w: World) {
    w.lock.Some? ==> w.lock.value in w.tasks && w.tasks[w.lock.value].Reentering?
  }

  lemma {:induction false} RunKeepsLockOk(w: World, steps: seq<Step>, v: World)
    requires IsRun(w, steps, v) && LockOk(w)
    ensures LockOk(v)
    decreases |steps|
  {
    if steps != [] { RunKeepsLockOk(Do(w, steps[0]), steps[1..], v); }
  }

  /** Nothing is ever stuck: in every reachable state whoever holds the lock can go on, and
      with the lock free every operation can. */
  lemma NeverStuck(policy: Policy, steps: seq<Step>, w: World, t: nat, newId: Id)
    requires IsRun(Init(policy), steps, w) && t in w.tasks && newId !in Opened(w.shared.log)
    ensures w.lock.Some? ==> Enabled(w, PutInPlace(w.lock.value, newId))
    ensures w.lock.None? ==> Enabled(w, LockFirst(t)) || Enabled(w, AnnounceTaken(t)) || Enabled(w, LockSecond(t))
  {
    RunKeepsLockOk(Init(policy), steps, w);
  }
}
