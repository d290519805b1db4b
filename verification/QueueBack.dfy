/** Going back through the queue: when `previous` panics, when it retraces any number
    of advances, and when an advance undoes it. */
module QueueBack {
  import opened Common
  import opened Queue
  import opened QueueRuns

  // ---------------------------------------------------------- the position's range

  /** A queued track is removed while the shuffle position is already as large as the queue. */
  predicate LateRemoval(q: Queue, call: Call) {
    call.CallRemove? && Position(q.items, call.id).Some? && q.position == |q.items|
  }

  /** No other call moves the shuffle position past the end of the queue. */
  lemma PositionKeptIff(q: Queue, call: Call)
    requires WellFormed(q) && MayCall(q, call) && q.position <= |q.items|
    ensures Perform(q, call).position <= |Perform(q, call).items| <==> !LateRemoval(q, call)
  {
    CallKeepsWellFormed(q, call);
  }

  ghost predicate StaysInRange(q: Queue, calls: seq<Call>)
    decreases |calls|
  {
    q.position <= |q.items| && (calls != [] ==> StaysInRange(Perform(q, calls[0]), calls[1..]))
  }

  ghost predicate RemovesLate(q: Queue, calls: seq<Call>)
    decreases |calls|
  {
    calls != [] && (LateRemoval(q, calls[0]) || RemovesLate(Perform(q, calls[0]), calls[1..]))
  }

  /** Some call of the run panics. */
  ghost predicate Panics(q: Queue, calls: seq<Call>)
    decreases |calls|
  {
    calls != [] && ((calls[0].CallPrevious? && PreviousPanics(q)) || Panics(Perform(q, calls[0]), calls[1..]))
  }

  /** Over whole runs the position stays in range exactly unless a removal comes late, and
      as long as it does no call panics. */
  lemma {:induction false} StaysInRangeIff(q: Queue, calls: seq<Call>, r: Queue)
    requires WellFormed(q) && q.position <= |q.items| && Reaches(q, calls, r)
    ensures StaysInRange(q, calls) <==> !RemovesLate(q, calls)
    ensures StaysInRange(q, calls) ==> r.position <= |r.items| && WellFormed(r)
    ensures Panics(q, calls) ==> RemovesLate(q, calls)
    decreases |calls|
  {
    if calls != [] {
      var p := Perform(q, calls[0]);
      PositionKeptIff(q, calls[0]);
      CallKeepsWellFormed(q, calls[0]);
      if p.position <= |p.items| { StaysInRangeIff(p, calls[1..], r); }
    }
  }

  /** Without removals nothing ever panics. */
  lemma NoRemovalNoPanic(calls: seq<Call>, r: Queue)
    requires Reaches(New(), calls, r) && forall i :: 0 <= i < |calls| ==> !calls[i].CallRemove?
    ensures !Panics(New(), calls) && !PreviousPanics(r)
  {
    NoRemovalNotLate(New(), calls);
    StaysInRangeIff(New(), calls, r);
  }

  lemma {:induction false} NoRemovalNotLate(q: Queue, calls: seq<Call>)
    requires forall i :: 0 <= i < |calls| ==> !calls[i].CallRemove?
    ensures !RemovesLate(q, calls)
    decreases |calls|
  {
    if calls != [] { NoRemovalNotLate(Perform(q, calls[0]), calls[1..]); }
  }

  // ------------------------------------------------------------- reaching the panic

  function Backs(n: nat): (calls: seq<Call>)
    ensures |calls| == n && forall i :: 0 <= i < n ==> calls[i] == CallPrevious
  {
    seq(n, _ => CallPrevious)
  }

  lemma BacksTail(n: nat)
    requires n > 0
    ensures Backs(n)[1..] == Backs(n - 1)
  {
  }

  lemma {:induction false} InRangeNeverPanics(q: Queue, n: nat)
    requires WellFormed(q) && (q.order.Some? ==> q.position <= |q.items|)
    ensures !Panics(q, Backs(n))
    decreases n
  {
    if n > 0 {
      BacksTail(n);
      CallKeepsWellFormed(q, CallPrevious);
      InRangeNeverPanics(Previous(q).0, n - 1);
    }
  }

  /** Past the order, going back panics at the latest when the history is used up. */
  lemma {:induction false} OutOfRangePanics(q: Queue)
    requires WellFormed(q) && q.order.Some? && q.position > |q.items|
    ensures Panics(q, Backs(|q.history| + 1))
    decreases |q.history|
  {
    BacksTail(|q.history| + 1);
    if !PreviousPanics(q) {
      CallKeepsWellFormed(q, CallPrevious);
      OutOfRangePanics(Previous(q).0);
    }
  }

  /** Going back, often enough, panics exactly when the queue is shuffled and its position
      lies past the order. */
  lemma GoingBackPanicsIff(q: Queue)
    requires WellFormed(q)
    ensures (exists n :: Panics(q, Backs(n))) <==> q.order.Some? && q.position > |q.items|
  {
    if q.order.Some? && q.position > |q.items| {
      OutOfRangePanics(q);
    } else {
      forall n ensures !Panics(q, Backs(n)) { InRangeNeverPanics(q, n); }
    }
  }

  /** So a removal from a shuffled queue in range makes going back panic exactly when it is late. */
  lemma RemovalCausesPanicIff(q: Queue, id: Id)
    requires WellFormed(q) && q.order.Some? && q.position <= |q.items|
    ensures (exists n :: Panics(Remove(q, id).0, Backs(n))) <==> LateRemoval(q, CallRemove(id))
  {
    PositionKeptIff(q, CallRemove(id));
    CallKeepsWellFormed(q, CallRemove(id));
    GoingBackPanicsIff(Remove(q, id).0);
  }

  /** Each panic lowers the position by one, so with the history used up going back panics for
      exactly the calls the position is past the order, and then plays the order from its end. */
  lemma {:induction false} PanicsThenRecovers(q: Queue, k: nat)
    requires WellFormed(q) && q.order.Some? && q.history == [] && k <= q.position
    requires q.position >= |q.items| && k <= q.position - |q.items|
    ensures var r := Back(q, k);
            && r == q.(position := q.position - k)
            && (PreviousPanics(r) <==> k < q.position - |q.items|)
            && (k == q.position - |q.items| && q.items != [] ==>
                  Previous(r).1 == Some(PlayOrder(q)[|q.items| - 1]))
    decreases k
  {
    if k == 0 {
      if q.position == |q.items| && q.items != [] { OrderInRange(q, q.position - 1); }
    } else {
      var p := Previous(q).0;
      assert p == q.(position := q.position - 1);
      PanicsThenRecovers(p, k - 1);
      SamePlayOrder(p, q);
    }
  }

  /** Two tracks, the first set current, shuffled, one advance, both removed: stepping back panics. */
  lemma PreviousPanicExample(x: nat, y: nat) returns (r: Queue)
    ensures Reaches(New(), [CallAdd(1, x), CallAdd(2, y), CallSetCurrent(0), CallShuffle([1]), CallAdvance,
                            CallRemove(1), CallRemove(2)], r)
    ensures PreviousPanics(r)
  {
    var calls := [CallAdd(1, x), CallAdd(2, y), CallSetCurrent(0), CallShuffle([1]), CallAdvance];
    ReachesTwoAdvanced(x, y);
    hide Reaches;
    var q, b := Queue([Item(1, x, 0), Item(2, y, 1)], Some(1), [1], Some([0, 1]), 1), Item(2, y, 1);
    ReachesSnoc(New(), calls, q, CallRemove(1));
    assert Position(q.items, 1) == Some(0);
    assert DropIndex([0, 1], 0) == [0] by {
      assert [0, 1][1..] == [1] && [1][1..] == [];
      assert DropIndex([1], 0) == [0];
    }
    var u := Queue([b], Some(0), [1], Some([0]), 1);
    assert Perform(q, CallRemove(1)) == u;
    ReachesSnoc(New(), calls + [CallRemove(1)], u, CallRemove(2));
    assert Position(u.items, 2) == Some(0);
    assert DropIndex([0], 0) == [] by { assert [0][1..] == []; }
    r := Queue([], None, [1], Some([]), 1);
    assert Perform(u, CallRemove(2)) == r;
    assert calls + [CallRemove(1)] + [CallRemove(2)]
        == [CallAdd(1, x), CallAdd(2, y), CallSetCurrent(0), CallShuffle([1]), CallAdvance,
            CallRemove(1), CallRemove(2)];
  }

  lemma ReachesTwoAdvanced(x: nat, y: nat)
    ensures Reaches(New(), [CallAdd(1, x), CallAdd(2, y), CallSetCurrent(0), CallShuffle([1]), CallAdvance],
                    Queue([Item(1, x, 0), Item(2, y, 1)], Some(1), [1], Some([0, 1]), 1))
  {
    hide Reaches;
    ReachesTwoShuffled(x, y);
    var calls := [CallAdd(1, x), CallAdd(2, y), CallSetCurrent(0), CallShuffle([1])];
    var items := [Item(1, x, 0), Item(2, y, 1)];
    var q := Queue(items, Some(0), [], Some([0, 1]), 0);
    ReachesSnoc(New(), calls, q, CallAdvance);
    assert Perform(q, CallAdvance) == Queue(items, Some(1), [1], Some([0, 1]), 1);
    assert calls + [CallAdvance] == [CallAdd(1, x), CallAdd(2, y), CallSetCurrent(0), CallShuffle([1]), CallAdvance];
  }

  // ------------------------------------------------------------ undoing a step back

  /** The track playing is the one the shuffle position is at. */
  ghost predicate InStep(q: Queue) {
    && WellFormed(q) && q.current.Some?
    && (q.order.Some? ==> q.position < |q.items| && q.order.value[q.position] == q.current.value)
  }

  /** The place in the shuffle order that an advance goes to after a step back: going back
      through the history leaves the position alone. */
  function PlaceAfterBack(q: Queue): nat {
    if Recalled(q).Some? then q.position + 1 else q.position
  }

  /** An advance returns to the track a step back has left exactly when, shuffled, that track
      is at the place of the order it goes to, or, not shuffled, the step was to its neighbour. */
  lemma AdvanceReturnsIff(q: Queue)
    requires WellFormed(q) && q.current.Some? && Previous(q).1.Some?
    ensures Advance(Previous(q).0).1 == CurrentItem(q)
            <==> if q.order.Some?
                 then PlaceAfterBack(q) < |q.items| && q.order.value[PlaceAfterBack(q)] == q.current.value
                 else Recalled(q).Some? ==> Recalled(q).value + 1 == q.current.value
  {
    if q.order.Some? && PlaceAfterBack(q) < |q.items| { OrderInRange(q, PlaceAfterBack(q)); }
  }

  /** Hence, in step with the shuffle order, exactly when the step did not go through the
      history, or, not shuffled, when it went to the track just before. */
  lemma AdvanceUndoesPreviousIff(q: Queue)
    requires InStep(q) && Previous(q).1.Some?
    ensures Advance(Previous(q).0).1 == CurrentItem(q)
            <==> if q.order.Some? then Recalled(q).None?
                 else Recalled(q).Some? ==> Recalled(q).value + 1 == q.current.value
  {
    AdvanceReturnsIff(q);
    if q.order.Some? && q.position + 1 < |q.items| {
      assert q.order.value[q.position + 1] != q.order.value[q.position];
    }
  }

  /** The second of three shuffled tracks plays: previous gives the first, and advance then the third. */
  lemma NotUndoneExample(x: nat, y: nat, z: nat)
    ensures var q := ThreeShuffled(x, y, z);
            && Reaches(New(), ThreeShuffledCalls(x, y, z), q)
            && Previous(q).1 == Some(Item(1, x, 0)) && Advance(Previous(q).0).1 == Some(Item(3, z, 2))
  {
    ReachesThreeShuffled(x, y, z);
    hide Reaches;
    assert Position(ThreeShuffled(x, y, z).items, 1) == Some(0);
  }

  // -------------------------------------------------------- retracing unshuffled

  /** Not shuffled, n advances go through n neighbouring tracks. */
  lemma {:induction false} PlainTrail(q: Queue, n: nat, trail: seq<Item>, r: Queue)
    requires WellFormed(q) && q.order.None? && q.current.Some? && Trail(q, n, trail, r)
    ensures |trail| == n && r.items == q.items && r.order.None? && r.current == Some(q.current.value + n)
    ensures q.current.value + n < |q.items|
    ensures forall i :: 0 <= i < n ==> trail[i] == q.items[q.current.value + i]
    decreases n
  {
    hide *;
    TrailUnroll(q, n, trail, r);
    CurrentInRange(q);
    if n > 0 {
      PlainAdvance(q);
      PlainTrail(Advance(q).0, n - 1, trail[1..], r);
      forall i | 0 < i < n ensures trail[i] == q.items[q.current.value + i] { assert trail[i] == trail[1..][i - 1]; }
    }
  }

  lemma CurrentInRange(q: Queue)
    requires WellFormed(q) && q.current.Some?
    ensures q.current.value < |q.items| && CurrentItem(q) == Some(q.items[q.current.value])
  {
  }

  lemma PlainAdvance(q: Queue)
    requires WellFormed(q) && q.order.None? && q.current.Some? && Advance(q).1.Some?
    ensures var p := Advance(q).0;
            WellFormed(p) && p.order.None? && p.items == q.items && p.current == Some(q.current.value + 1)
  {
  }

  /** The history and the trail agree as far back as both reach. */
  ghost predicate Agree(h: seq<Id>, ids: seq<Id>) {
    EndsWith(h, ids) || EndsWith(ids, h)
  }

  lemma TrimAgrees(h: seq<Id>, ids: seq<Id>)
    ensures Agree(Trim(h + ids), ids)
  {
    var all := h + ids;
    assert all[|h|..] == ids;
    if |all| > MAX_HISTORY {
      var cut := |all| - MAX_HISTORY;
      if cut <= |h| {
        assert all[cut..][|h| - cut..] == ids;
      } else {
        assert all[cut..] == ids[cut - |h|..];
      }
    }
  }

  lemma AgreeButLast(h: seq<Id>, ids: seq<Id>)
    requires Agree(h, ids) && ids != []
    ensures h != [] ==> h[|h| - 1] == ids[|ids| - 1]
    ensures Agree(if h == [] then h else h[..|h| - 1], ids[..|ids| - 1])
  {
    if h != [] {
      hide EndsWith;
      if EndsWith(h, ids) { EndsWithButLast(h, ids); } else { EndsWithButLast(ids, h); }
    } else {
      EndsEmpty(ids[..|ids| - 1]);
    }
  }

  /** A step back to the neighbour, by the history if it names it and by the fallback otherwise. */
  lemma PlainBack(r: Queue, k: nat)
    requires UniqueIds(r.items) && r.order.None? && r.current == Some(k + 1) && k < |r.items|
    requires r.history != [] ==> r.history[|r.history| - 1] == r.items[k].id
    ensures var (p, out) := Previous(r);
            && out == Some(r.items[k]) == CurrentItem(p)
            && p.items == r.items && p.order.None? && p.current == Some(k)
            && p.history == if r.history == [] then r.history else r.history[..|r.history| - 1]
  {
    UniquePosition(r.items, k);
    hide Position, UniqueIds;
  }

  lemma {:induction false} PlainRetraces(r: Queue, first: nat, trail: seq<Item>)
    requires UniqueIds(r.items) && r.order.None? && r.current == Some(first + |trail|)
    requires first + |trail| < |r.items| && Agree(r.history, Ids(trail))
    requires forall i :: 0 <= i < |trail| ==> trail[i] == r.items[first + i]
    ensures Retraces(r, trail)
    decreases |trail|
  {
    hide Agree, Previous, CurrentItem, UniqueIds;
    if trail != [] {
      var k := |trail| - 1;
      AgreeButLast(r.history, Ids(trail));
      assert Ids(trail[..k]) == Ids(trail)[..k];
      assert trail[k] == r.items[first + k];
      PlainBack(r, first + k);
      PlainRetraces(Previous(r).0, first, trail[..k]);
    }
  }

  /** Not shuffled, any number of advances is retraced by as many calls to `previous`,
      whatever was in the history: behind its hundred entries the fallback goes on. */
  lemma UnshuffledRetraces(q: Queue, n: nat, trail: seq<Item>, r: Queue)
    requires WellFormed(q) && q.order.None? && q.current.Some? && Trail(q, n, trail, r)
    ensures |trail| == n && Retraces(r, trail)
  {
    hide *;
    PlainTrail(q, n, trail, r);
    if n > 0 {
      StillCurrent(q);
      TrailHistory(q, n, trail, r);
      TrimAgrees(q.history, Ids(trail));
      PlainRetraces(r, q.current.value, trail);
    } else {
      NothingRetraced(r, trail);
    }
  }

  lemma StillCurrent(q: Queue)
    requires WellFormed(q) && q.current.Some?
    ensures CurrentItem(q).Some? && UniqueIds(q.items)
  {
  }

}
