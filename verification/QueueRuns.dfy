/** What removal does to the play order, and what whole sequences of queue operations play. */
module QueueRuns {
  import opened Common
  import opened Queue

  // -------------------------------------------------------------------- removal

  ghost function RemoveIndices(order: seq<nat>, at: nat): (r: seq<nat>)
    ensures |r| == |order| && forall i :: 0 <= i < |r| ==> r[i] == AfterRemove(order[i], at)
  {
    seq(|order|, i requires 0 <= i < |order| => AfterRemove(order[i], at))
  }

  lemma {:induction false} DropAbsent(order: seq<nat>, at: nat)
    requires at !in order
    ensures DropIndex(order, at) == RemoveIndices(order, at)
  {
    if order != [] {
      assert order[0] in order;
      DropAbsent(order[1..], at);
    }
  }

  lemma {:induction false} DropPresent(order: seq<nat>, at: nat, k: nat)
    requires Distinct(order) && k < |order| && order[k] == at
    ensures DropIndex(order, at) == RemoveIndices(Removed(order, k), at)
  {
    if k == 0 {
      assert at !in order[1..];
      DropAbsent(order[1..], at);
      assert Removed(order, 0) == order[1..];
    } else {
      DropPresent(order[1..], at, k - 1);
      assert Removed(order, k) == [order[0]] + Removed(order[1..], k - 1);
    }
  }

  lemma RemovedOrder(order: seq<nat>, n: nat, at: nat, k: nat)
    requires IsPermutation(order, n) && k < n && order[k] == at
    ensures IsPermutation(DropIndex(order, at), n - 1)
    ensures DropIndex(order, at) == RemoveIndices(Removed(order, k), at)
  {
    DropPresent(order, at, k);
    hide DropIndex;
    var rest := Removed(order, k);
    var r := RemoveIndices(rest, at);
    assert order[k] in order;
    forall i | 0 <= i < |rest| ensures rest[i] in order && rest[i] != at {
      assert rest[i] == order[if i < k then i else i + 1];
    }
    forall j: nat ensures j in r <==> j < n - 1 {
      if j < n - 1 {
        var was := if j >= at then j + 1 else j;
        assert was in order;
        var m :| 0 <= m < |order| && order[m] == was;
        assert r[if m < k then m else m - 1] == j;
      }
      if j in r {
        var m :| 0 <= m < |r| && r[m] == j;
        assert rest[m] in order;
      }
    }
  }

  lemma RemovedUnique(items: seq<Item>, at: nat)
    requires UniqueIds(items) && at < |items|
    ensures UniqueIds(Removed(items, at))
  {
  }

  /** The play order without the removed track. */
  lemma RemovedPlayOrder(q: Queue, r: Queue, at: nat, k: nat)
    requires WellFormed(q) && q.order.Some? && k < |q.items| && q.order.value[k] == at < |q.items|
    requires WellFormed(r) && r.items == Removed(q.items, at)
    requires r.order == Some(RemoveIndices(Removed(q.order.value, k), at))
    ensures PlayOrder(r) == Removed(PlayOrder(q), k)
  {
    var order := q.order.value;
    forall i | 0 <= i < |order| - 1 ensures PlayOrder(r)[i] == Removed(PlayOrder(q), k)[i] {
      var m := if i < k then i else i + 1;
      assert order[m] in order && order[m] != at;
      RemovedAt(q.items, at, order[m]);
    }
  }

  /** Removing a queued track takes out exactly that track: from the items, and
      from the play order, where it was at place k. The current track stays
      current unless it is the one removed. */
  lemma RemoveCorrect(q: Queue, at: nat, k: nat)
    requires WellFormed(q) && at < |q.items|
    requires q.order.Some? ==> k < |q.items| && q.order.value[k] == at
    ensures var (r, out) := Remove(q, q.items[at].id);
            && out == Some(q.items[at]) && r.items == Removed(q.items, at)
            && WellFormed(r) && r.history == q.history && r.position == q.position
            && (q.current.Some? && q.current.value != at ==> CurrentItem(r) == CurrentItem(q))
            && (r.order.Some? <==> q.order.Some?)
            && (q.order.Some? ==> PlayOrder(r) == Removed(PlayOrder(q), k))
  {
    hide Position, DropIndex, UniqueIds, IsPermutation, PlayOrder;
    var (r, out) := Remove(q, q.items[at].id);
    UniquePosition(q.items, at);
    RemovedUnique(q.items, at);
    if q.current.Some? && q.current.value != at { RemovedAt(q.items, at, q.current.value); }
    if q.order.Some? {
      RemovedOrder(q.order.value, |q.items|, at, k);
      RemovedPlayOrder(q, r, at, k);
    }
  }

  /** What repeated advancing would still play. */
  ghost function UpNext(q: Queue): seq<Item>
    requires WellFormed(q) && q.order.Some?
  {
    Tail(PlayOrder(q), q.position)
  }

  function Take<T>(s: seq<T>, count: nat): seq<T> {
    s[..Min(count, |s|)]
  }

  /** The items at these indices, those out of range left out. */
  function ItemsAt(items: seq<Item>, indices: seq<nat>): seq<Item> {
    if indices == [] then []
    else (if indices[0] < |items| then [items[indices[0]]] else []) + ItemsAt(items, indices[1..])
  }

  /** What `upcoming` lists, or nothing where its slice starts past the end and it panics. */
  function Upcoming(q: Queue, count: nat): Option<seq<Item>> {
    if q.order.Some? then
      (if q.position + 1 > |q.order.value| then None
       else Some(ItemsAt(q.items, Take(q.order.value[q.position + 1..], count))))
    else
      var start := if q.current.Some? then q.current.value + 1 else 0;
      if start > |q.items| then None else Some(Take(q.items[start..], count))
  }

  lemma {:induction false} ItemsInRange(items: seq<Item>, indices: seq<nat>)
    requires forall i :: 0 <= i < |indices| ==> indices[i] < |items|
    ensures |ItemsAt(items, indices)| == |indices|
    ensures forall i :: 0 <= i < |indices| ==> ItemsAt(items, indices)[i] == items[indices[i]]
  {
    if indices != [] { ItemsInRange(items, indices[1..]); }
  }

  /** `upcoming` panics exactly on a shuffled queue whose position is not inside its order,
      and otherwise lists the first of the tracks that repeated advancing would play. */
  lemma UpcomingIff(q: Queue, count: nat)
    requires WellFormed(q)
    ensures Upcoming(q, count).None? <==> q.order.Some? && q.position >= |q.items|
    ensures Upcoming(q, count).Some? && q.order.Some? ==> Upcoming(q, count).value == Take(UpNext(q), count)
    ensures q.order.None? && q.current.Some? ==>
              Upcoming(q, count) == Some(Take(q.items[q.current.value + 1..], count))
  {
    if q.order.Some? && q.position < |q.items| {
      var order := q.order.value;
      var next := Take(order[q.position + 1..], count);
      forall i | 0 <= i < |next| ensures next[i] < |q.items| && next[i] == order[q.position + 1 + i] {
        OrderInRange(q, q.position + 1 + i);
      }
      ItemsInRange(q.items, next);
      assert ItemsAt(q.items, next) == Take(UpNext(q), count);
    }
  }

  /** Shuffling a new queue is enough. */
  lemma UpcomingPanicExample(count: nat)
    ensures Arranges(New(), []) && Upcoming(Shuffle(New(), []), count).None?
  {
  }

  /** The position is not adjusted: a removal leaves the tracks still to come as
      they were, but for the one removed, exactly when that one had not been
      reached yet or nothing was to come. */
  lemma RemoveKeepsUpNextIff(q: Queue, at: nat, k: nat)
    requires WellFormed(q) && q.order.Some? && at < |q.items| && k < |q.items| && q.order.value[k] == at
    ensures var (r, _) := Remove(q, q.items[at].id);
            && WellFormed(r) && r.order.Some?
            && (UpNext(r) == (if k > q.position then Removed(UpNext(q), k - q.position - 1) else UpNext(q))
                <==> k > q.position || UpNext(q) == [])
  {
    hide Remove, PlayOrder, WellFormed;
    RemoveCorrect(q, at, k);
    TailAfterRemoval(PlayOrder(q), k, q.position);
  }

  ghost function Tail(s: seq<Item>, position: nat): seq<Item> {
    if position + 1 <= |s| then s[position + 1..] else []
  }

  lemma TailAfterRemoval(s: seq<Item>, k: nat, position: nat)
    requires k < |s|
    ensures k > position ==> Tail(Removed(s, k), position) == Removed(Tail(s, position), k - position - 1)
    ensures k <= position && Tail(s, position) != [] ==> Tail(Removed(s, k), position) == Tail(s, position)[1..]
    ensures k <= position && Tail(s, position) == [] ==> Tail(Removed(s, k), position) == []
  {
  }

  // ------------------------------------------------------------ every operation

  datatype Call =
    | CallAdd(id: Id, track: nat)
    | CallInsert(index: nat, id: Id, track: nat)
    | CallRemove(id: Id)
    | CallMove(from: nat, to: nat)
    | CallSetCurrent(index: nat)
    | CallAdvance
    | CallPrevious
    | CallShuffle(arrangement: seq<nat>)
    | CallUnshuffle
    | CallClear

  /** Ids are new and the random arrangement is one. */
  ghost predicate MayCall(q: Queue, call: Call) {
    match call
    case CallAdd(id, _) => NewId(q, id)
    case CallInsert(_, id, _) => NewId(q, id)
    case CallShuffle(arrangement) => Arranges(q, arrangement)
    case _ => true
  }

  /** A call that panics leaves a queue behind too: the lock around it is not poisoned. */
  function Perform(q: Queue, call: Call): Queue {
    match call
    case CallAdd(id, track) => Add(q, id, track)
    case CallInsert(index, id, track) => Insert(q, index, id, track)
    case CallRemove(id) => Remove(q, id).0
    case CallMove(from, to) => Move(q, from, to)
    case CallSetCurrent(index) => SetCurrent(q, index).0
    case CallAdvance => Advance(q).0
    case CallPrevious => Previous(q).0
    case CallShuffle(arrangement) => Shuffle(q, arrangement)
    case CallUnshuffle => Unshuffle(q)
    case CallClear => Clear(q)
  }

  ghost predicate Reaches(q: Queue, calls: seq<Call>, r: Queue)
    decreases |calls|
  {
    if calls == [] then r == q
    else MayCall(q, calls[0]) && Reaches(Perform(q, calls[0]), calls[1..], r)
  }

  lemma OrderInRange(q: Queue, k: nat)
    requires WellFormed(q) && q.order.Some? && k < |q.order.value|
    ensures q.order.value[k] < |q.items|
  {
    assert q.order.value[k] in q.order.value;
  }

  lemma CallKeepsWellFormed(q: Queue, call: Call)
    requires WellFormed(q) && MayCall(q, call)
    ensures WellFormed(Perform(q, call))
  {
    match call
    case CallAdd(id, track) => AddCorrect(q, id, track);
    case CallInsert(index, id, track) => InsertCorrect(q, index, id, track);
    case CallMove(from, to) => MoveCorrect(q, from, to);
    case CallShuffle(arrangement) => ShuffleCorrect(q, arrangement);
    case CallRemove(id) =>
      var at := Position(q.items, id);
      if at.Some? {
        var k := 0;
        if q.order.Some? {
          assert at.value in q.order.value;
          k :| 0 <= k < |q.order.value| && q.order.value[k] == at.value;
        }
        RemoveCorrect(q, at.value, k);
      }
    case CallAdvance =>
      if q.order.Some? && q.position + 1 < |q.order.value| { OrderInRange(q, q.position + 1); }
    case CallPrevious =>
      if q.order.Some? && 0 < q.position <= |q.order.value| { OrderInRange(q, q.position - 1); }
    case _ =>
  }

  /** After any calls on a new queue the current index is in range, ids differ and the
      shuffle order, if there is one, is a permutation of the item indices. */
  lemma {:induction false} AlwaysWellFormed(q: Queue, calls: seq<Call>, r: Queue)
    requires WellFormed(q) && Reaches(q, calls, r)
    ensures WellFormed(r)
    decreases |calls|
  {
    if calls != [] {
      CallKeepsWellFormed(q, calls[0]);
      AlwaysWellFormed(Perform(q, calls[0]), calls[1..], r);
    }
  }

  lemma ReachableWellFormed(calls: seq<Call>, r: Queue)
    requires Reaches(New(), calls, r)
    ensures WellFormed(r)
  {
    AlwaysWellFormed(New(), calls, r);
  }

  lemma {:induction false} ReachesSnoc(q: Queue, calls: seq<Call>, p: Queue, call: Call)
    requires Reaches(q, calls, p) && MayCall(p, call)
    ensures Reaches(q, calls + [call], Perform(p, call))
    decreases |calls|
  {
    hide MayCall, Perform;
    if calls == [] {
      assert calls + [call] == [call] && [call][1..] == [];
      assert Reaches(Perform(q, call), [], Perform(q, call));
    } else {
      assert (calls + [call])[1..] == calls[1..] + [call];
      ReachesSnoc(Perform(q, calls[0]), calls[1..], p, call);
    }
  }

  lemma ReachesNothing(q: Queue)
    ensures Reaches(q, [], q)
  {
  }

  /** Three tracks, the first set current, shuffled into their own order, one advance. */
  function ThreeShuffledCalls(x: nat, y: nat, z: nat): seq<Call> {
    [CallAdd(1, x), CallAdd(2, y), CallAdd(3, z), CallSetCurrent(0), CallShuffle([1, 2]), CallAdvance]
  }

  function ThreeShuffled(x: nat, y: nat, z: nat): Queue {
    Queue([Item(1, x, 0), Item(2, y, 1), Item(3, z, 2)], Some(1), [1], Some([0, 1, 2]), 1)
  }

  lemma ReachesTwo(x: nat, y: nat)
    ensures Reaches(New(), [CallAdd(1, x), CallAdd(2, y)], Queue([Item(1, x, 0), Item(2, y, 1)], None, [], None, 0))
  {
    hide Reaches;
    ReachesNothing(New());
    ReachesSnoc(New(), [], New(), CallAdd(1, x));
    var q := Queue([Item(1, x, 0)], None, [], None, 0);
    assert [] + [CallAdd(1, x)] == [CallAdd(1, x)] && Perform(New(), CallAdd(1, x)) == q;
    ReachesSnoc(New(), [CallAdd(1, x)], q, CallAdd(2, y));
    assert [CallAdd(1, x)] + [CallAdd(2, y)] == [CallAdd(1, x), CallAdd(2, y)];
    assert q.items + [Item(2, y, 1)] == [Item(1, x, 0), Item(2, y, 1)];
  }

  /** Two tracks, the first set current, shuffled into their own order. */
  lemma ReachesTwoShuffled(x: nat, y: nat)
    ensures Reaches(New(), [CallAdd(1, x), CallAdd(2, y), CallSetCurrent(0), CallShuffle([1])],
                    Queue([Item(1, x, 0), Item(2, y, 1)], Some(0), [], Some([0, 1]), 0))
  {
    hide Reaches;
    var calls, items := [CallAdd(1, x), CallAdd(2, y)], [Item(1, x, 0), Item(2, y, 1)];
    ReachesTwo(x, y);
    ReachesSnoc(New(), calls, Queue(items, None, [], None, 0), CallSetCurrent(0));
    calls := calls + [CallSetCurrent(0)];
    var q := Queue(items, Some(0), [], None, 0);
    var arrangement: seq<nat> := [1];
    assert arrangement[0] == 1;
    ReachesSnoc(New(), calls, q, CallShuffle(arrangement));
    assert [0] + arrangement == [0, 1];
    assert calls + [CallShuffle(arrangement)] == [CallAdd(1, x), CallAdd(2, y), CallSetCurrent(0), CallShuffle([1])];
  }

  lemma ReachesThree(x: nat, y: nat, z: nat)
    ensures Reaches(New(), [CallAdd(1, x), CallAdd(2, y), CallAdd(3, z)],
                    Queue([Item(1, x, 0), Item(2, y, 1), Item(3, z, 2)], None, [], None, 0))
  {
    hide Reaches;
    ReachesTwo(x, y);
    var q := Queue([Item(1, x, 0), Item(2, y, 1)], None, [], None, 0);
    ReachesSnoc(New(), [CallAdd(1, x), CallAdd(2, y)], q, CallAdd(3, z));
    assert [CallAdd(1, x), CallAdd(2, y)] + [CallAdd(3, z)] == [CallAdd(1, x), CallAdd(2, y), CallAdd(3, z)];
    assert q.items + [Item(3, z, 2)] == [Item(1, x, 0), Item(2, y, 1), Item(3, z, 2)];
  }

  lemma ReachesThreeShuffled(x: nat, y: nat, z: nat)
    ensures Reaches(New(), ThreeShuffledCalls(x, y, z), ThreeShuffled(x, y, z))
  {
    hide Reaches;
    var calls, items := [CallAdd(1, x), CallAdd(2, y), CallAdd(3, z)], [Item(1, x, 0), Item(2, y, 1), Item(3, z, 2)];
    ReachesThree(x, y, z);
    ReachesSnoc(New(), calls, Queue(items, None, [], None, 0), CallSetCurrent(0));
    var q := Queue(items, Some(0), [], None, 0);
    var arrangement: seq<nat> := [1, 2];
    assert arrangement[0] == 1 && arrangement[1] == 2;
    calls := calls + [CallSetCurrent(0)];
    ReachesSnoc(New(), calls, q, CallShuffle(arrangement));
    var s := Queue(items, Some(0), [], Some([0, 1, 2]), 0);
    assert [0] + arrangement == [0, 1, 2] && Perform(q, CallShuffle(arrangement)) == s;
    calls := calls + [CallShuffle(arrangement)];
    ReachesSnoc(New(), calls, s, CallAdvance);
    assert Perform(s, CallAdvance) == ThreeShuffled(x, y, z);
    assert calls + [CallAdvance] == ThreeShuffledCalls(x, y, z);
  }

  /** Three shuffled tracks, the second playing: removing the first makes the third unreachable. */
  lemma RemoveSkipsExample(x: nat, y: nat, z: nat)
    ensures var q := ThreeShuffled(x, y, z);
            && Reaches(New(), ThreeShuffledCalls(x, y, z), q)
            && Advance(q).1 == Some(Item(3, z, 2))
            && Advance(Remove(q, 1).0).1 == None
  {
    ReachesThreeShuffled(x, y, z);
    hide Reaches;
    var q := ThreeShuffled(x, y, z);
    assert Position(q.items, 1) == Some(0);
    assert DropIndex([0, 1, 2], 0) == [0, 1] by {
      assert [0, 1, 2][1..] == [1, 2] && [1, 2][1..] == [2] && [2][1..] == [];
      assert DropIndex([2], 0) == [1] && DropIndex([1, 2], 0) == [0, 1];
    }
  }

  // ------------------------------------------------------------------- coverage

  datatype Op =
    | AdvanceOp
    | AddOp(id: Id, track: nat)
    | InsertOp(index: nat, id: Id, track: nat)
    | MoveOp(from: nat, to: nat)

  ghost predicate Allowed(q: Queue, op: Op) {
    match op
    case AddOp(id, _) => NewId(q, id)
    case InsertOp(_, id, _) => NewId(q, id)
    case _ => true
  }

  function Apply(q: Queue, op: Op): Queue {
    match op
    case AdvanceOp => Advance(q).0
    case AddOp(id, track) => Add(q, id, track)
    case InsertOp(index, id, track) => Insert(q, index, id, track)
    case MoveOp(from, to) => Move(q, from, to)
  }

  /** The tracks returned by the advances of a run. */
  function Visited(q: Queue, ops: seq<Op>): (items: seq<Item>)
    decreases |ops|
  {
    if ops == [] then [] else
      (if ops[0].AdvanceOp? && Advance(q).1.Some? then [Advance(q).1.value] else [])
      + Visited(Apply(q, ops[0]), ops[1..])
  }

  function Final(q: Queue, ops: seq<Op>): Queue
    decreases |ops|
  {
    if ops == [] then q else Final(Apply(q, ops[0]), ops[1..])
  }

  ghost predicate AllowedRun(q: Queue, ops: seq<Op>)
    decreases |ops|
  {
    ops != [] ==> Allowed(q, ops[0]) && AllowedRun(Apply(q, ops[0]), ops[1..])
  }

  lemma AdvanceShuffled(q: Queue)
    requires WellFormed(q) && q.order.Some?
    ensures var (r, out) := Advance(q);
            && WellFormed(r) && r.items == q.items && r.order == q.order
            && (q.position + 1 < |q.items| ==>
                  r.position == q.position + 1 && out == Some(PlayOrder(q)[q.position + 1]))
            && (q.position + 1 >= |q.items| ==> r == q && out.None?)
  {
    if q.position + 1 < |q.items| { assert q.order.value[q.position + 1] in q.order.value; }
  }

  /** One operation either plays the next track of the order or only appends to it. */
  lemma StepShuffled(q: Queue, op: Op)
    requires WellFormed(q) && q.order.Some? && Allowed(q, op)
    ensures var r := Apply(q, op);
            && WellFormed(r) && r.order.Some? && PlayOrder(q) <= PlayOrder(r)
            && (op.AdvanceOp? ==> r == Advance(q).0)
            && (!op.AdvanceOp? ==> r.position == q.position)
  {
    match op
    case AdvanceOp => AdvanceShuffled(q);
    case AddOp(id, track) => AddCorrect(q, id, track);
    case InsertOp(index, id, track) => InsertCorrect(q, index, id, track);
    case MoveOp(from, to) => MoveCorrect(q, from, to);
  }

  /** The tracks played by a run are the next stretch of the final play order. */
  lemma {:induction false} VisitsFollowOrder(q: Queue, ops: seq<Op>)
    requires WellFormed(q) && q.order.Some? && AllowedRun(q, ops)
    ensures var r := Final(q, ops);
            && WellFormed(r) && r.order.Some? && PlayOrder(q) <= PlayOrder(r)
            && q.position <= r.position
            && (r.position == q.position ==> Visited(q, ops) == [])
            && (r.position > q.position ==>
                  r.position < |r.items| && Visited(q, ops) == PlayOrder(r)[q.position + 1..r.position + 1])
    decreases |ops|
  {
    hide *;
    RunUnroll(q, ops);
    if ops != [] {
      var p, r := Apply(q, ops[0]), Final(q, ops);
      StepShuffled(q, ops[0]);
      if ops[0].AdvanceOp? { AdvanceShuffled(q); }
      VisitsFollowOrder(p, ops[1..]);
      if p.position > q.position {
        NextStretch(PlayOrder(p), PlayOrder(r), Visited(p, ops[1..]), q.position, r.position);
      }
    }
  }

  lemma RunUnroll(q: Queue, ops: seq<Op>)
    ensures ops == [] ==> Final(q, ops) == q && Visited(q, ops) == []
    ensures ops != [] && AllowedRun(q, ops) ==>
              && Allowed(q, ops[0]) && AllowedRun(Apply(q, ops[0]), ops[1..])
    ensures ops != [] ==>
              && Final(q, ops) == Final(Apply(q, ops[0]), ops[1..])
              && var rest := Visited(Apply(q, ops[0]), ops[1..]);
                 Visited(q, ops)
                 == if ops[0].AdvanceOp? && Advance(q).1.Some? then [Advance(q).1.value] + rest else rest
  {
  }

  lemma NextStretch(early: seq<Item>, late: seq<Item>, rest: seq<Item>, from: nat, to: nat)
    requires early <= late && from + 1 < |early| && from < to < |late|
    requires rest == if to == from + 1 then [] else late[from + 2..to + 1]
    ensures [early[from + 1]] + rest == late[from + 1..to + 1]
  {
  }

  lemma PlayOrderHasAll(q: Queue, i: nat) returns (k: nat)
    requires WellFormed(q) && q.order.Some? && i < |q.items|
    ensures k < |q.items| && PlayOrder(q)[k] == q.items[i]
  {
    assert i in q.order.value;
    k :| 0 <= k < |q.order.value| && q.order.value[k] == i;
  }

  lemma PlayOrderDistinct(q: Queue)
    requires WellFormed(q) && q.order.Some?
    ensures forall i, j :: 0 <= i < j < |q.items| ==> PlayOrder(q)[i].id != PlayOrder(q)[j].id
    ensures forall k :: 0 <= k < |q.items| ==> PlayOrder(q)[k] in q.items
  {
    var order := q.order.value;
    forall i, j | 0 <= i < j < |q.items| ensures PlayOrder(q)[i].id != PlayOrder(q)[j].id {
      assert order[i] in order && order[j] in order && order[i] != order[j];
    }
    forall k | 0 <= k < |q.items| ensures PlayOrder(q)[k] in q.items { assert order[k] in order; }
  }

  lemma ShuffleCorrect(q: Queue, arrangement: seq<nat>)
    requires WellFormed(q) && Arranges(q, arrangement)
    ensures var r := Shuffle(q, arrangement);
            && WellFormed(r) && r.items == q.items && r.current == q.current && r.history == q.history
            && (q.current.Some? ==> r.position == 0 && PlayOrder(r)[0] == q.items[q.current.value])
            && (q.current.None? ==> r.position == q.position)
  {
    var order := Shuffle(q, arrangement).order.value;
    if q.current.Some? {
      assert order[0] == q.current.value;
      forall i: nat ensures i in order <==> i < |q.items| {
        if i in order && i != q.current.value { assert i in arrangement; }
        if i in arrangement { assert i in order; }
      }
      assert q.current.value !in arrangement;
      forall i, j | 0 <= i < j < |order| ensures order[i] != order[j] { assert order[j] in arrangement; }
    }
    PermutationLength(order, |q.items|);
  }

  /** There is something for the random generator to choose: every queue has an arrangement. */
  lemma ArrangementExists(q: Queue) returns (arrangement: seq<nat>)
    requires WellFormed(q)
    ensures Arranges(q, arrangement)
  {
    var n := |q.items|;
    var skip := if q.current.Some? then q.current.value else n;
    var size := if q.current.Some? then n - 1 else n;
    arrangement := seq(size, i requires 0 <= i < size => if i < skip then i else i + 1);
    forall i: nat ensures i in arrangement <==> i < n && i != skip {
      if i < n && i != skip { assert arrangement[if i < skip then i else i - 1] == i; }
    }
  }

  lemma HeadIn(order: seq<nat>)
    requires order != []
    ensures exists i: nat :: i in order
  {
    assert order[0] in order;
  }

  /** Distinct numbers that are exactly those below n are n in number. */
  lemma {:induction false} PermutationLength(order: seq<nat>, n: nat)
    requires Distinct(order) && forall i: nat :: i in order <==> i < n
    ensures |order| == n
    decreases n
  {
    if n == 0 {
      if order != [] {
        HeadIn(order);
        assert false;
      }
    } else {
      assert n - 1 in order;
      var k :| 0 <= k < |order| && order[k] == n - 1;
      var rest := Removed(order, k);
      forall i: nat ensures i in rest <==> i < n - 1 {
        if i < n - 1 {
          assert i in order;
          var m :| 0 <= m < |order| && order[m] == i;
          assert rest[if m < k then m else m - 1] == i;
        }
        if i in rest {
          var m :| 0 <= m < |rest| && rest[m] == i;
          assert order[if m < k then m else m + 1] == i;
          assert i in order;
        }
      }
      PermutationLength(rest, n - 1);
    }
  }

  /** After a shuffle with a current track, advancing, with any adds, inserts and
      moves between, never returns a track twice nor the one that was playing, and
      once an advance returns nothing every other queued track has been returned. */
  lemma ShuffleVisitsAllOnce(q: Queue, arrangement: seq<nat>, ops: seq<Op>)
    requires WellFormed(q) && q.current.Some? && Arranges(q, arrangement)
    requires AllowedRun(Shuffle(q, arrangement), ops)
    ensures var s := Shuffle(q, arrangement);
            var r, visited, first := Final(s, ops), Visited(s, ops), q.items[q.current.value];
            && (forall i, j :: 0 <= i < j < |visited| ==> visited[i].id != visited[j].id)
            && (forall i :: 0 <= i < |visited| ==> visited[i] in r.items && visited[i].id != first.id)
            && (Advance(r).1.None? ==> forall item :: item in r.items ==> item == first || item in visited)
  {
    hide Final, Visited, Advance, PlayOrder, WellFormed, AllowedRun, Arranges;
    var s := Shuffle(q, arrangement);
    ShuffleCorrect(q, arrangement);
    VisitsFollowOrder(s, ops);
    var r, visited, first := Final(s, ops), Visited(s, ops), q.items[q.current.value];
    AdvanceShuffled(r);
    assert visited == PlayOrder(r)[1..r.position + 1];
    VisitedOnce(r, visited);
    if Advance(r).1.None? {
      forall item | item in r.items ensures item == first || item in visited {
        var i :| 0 <= i < |r.items| && r.items[i] == item;
        var k := PlayOrderHasAll(r, i);
        if k > 0 { assert visited[k - 1] == item; }
      }
    }
  }

  lemma VisitedOnce(r: Queue, visited: seq<Item>)
    requires WellFormed(r) && r.order.Some? && r.position < |r.items|
    requires visited == PlayOrder(r)[1..r.position + 1]
    ensures forall i, j :: 0 <= i < j < |visited| ==> visited[i].id != visited[j].id
    ensures forall i :: 0 <= i < |visited| ==> visited[i] in r.items && visited[i].id != PlayOrder(r)[0].id
  {
    PlayOrderDistinct(r);
    hide PlayOrder, WellFormed;
  }

  /** Shuffled with no current track the position keeps its old value, and exactly the
      tracks of the order up to that place are never played: every run of advances starts
      behind them and has played all the others once an advance returns nothing. */
  lemma ShuffleWithoutCurrentSkips(q: Queue, arrangement: seq<nat>, ops: seq<Op>)
    requires WellFormed(q) && q.current.None? && Arranges(q, arrangement)
    requires AllowedRun(Shuffle(q, arrangement), ops)
    ensures var s := Shuffle(q, arrangement);
            var r, visited := Final(s, ops), Visited(s, ops);
            && WellFormed(s) && WellFormed(r) && r.order.Some? && PlayOrder(s) <= PlayOrder(r)
            && (forall k :: 0 <= k < |r.items| && k <= q.position ==> PlayOrder(r)[k] !in visited)
            && (Advance(r).1.None? ==> forall k :: q.position < k < |r.items| ==> PlayOrder(r)[k] in visited)
  {
    hide Final, Visited, Advance, PlayOrder, WellFormed, AllowedRun, Arranges;
    var s := Shuffle(q, arrangement);
    ShuffleCorrect(q, arrangement);
    VisitsFollowOrder(s, ops);
    var r, visited := Final(s, ops), Visited(s, ops);
    AdvanceShuffled(r);
    PlayOrderDistinct(r);
    if r.position > s.position {
      StretchHolds(PlayOrder(r), q.position, r.position, visited);
    }
  }

  lemma StretchHolds(order: seq<Item>, from: nat, to: nat, visited: seq<Item>)
    requires from < to < |order| && visited == order[from + 1..to + 1]
    requires forall i, j :: 0 <= i < j < |order| ==> order[i].id != order[j].id
    ensures forall k :: 0 <= k <= from ==> order[k] !in visited
    ensures forall k :: from < k <= to ==> order[k] in visited
  {
    forall k | from < k <= to ensures order[k] in visited { assert visited[k - from - 1] == order[k]; }
  }

  // -------------------------------------------------------------------- retrace

  /** The tracks current before each of n advances, all of which succeed. */
  ghost predicate Trail(q: Queue, n: nat, trail: seq<Item>, r: Queue)
    decreases n
  {
    if n == 0 then trail == [] && r == q
    else
      && trail != [] && CurrentItem(q) == Some(trail[0]) && Advance(q).1.Some?
      && Trail(Advance(q).0, n - 1, trail[1..], r)
  }

  function Ids(items: seq<Item>): (ids: seq<Id>)
    ensures |ids| == |items| && forall i :: 0 <= i < |ids| ==> ids[i] == items[i].id
  {
    seq(|items|, i requires 0 <= i < |items| => items[i].id)
  }

  ghost predicate EndsWith(h: seq<Id>, tail: seq<Id>) {
    |tail| <= |h| && h[|h| - |tail|..] == tail
  }

  lemma AdvanceEffect(q: Queue)
    requires WellFormed(q) && CurrentItem(q).Some? && Advance(q).1.Some?
    ensures var (r, out) := Advance(q);
            && WellFormed(r) && r.items == q.items && CurrentItem(r) == out
            && r.history == Trim(q.history + [CurrentItem(q).value.id])
  {
    if q.order.Some? && q.position + 1 < |q.order.value| {
      assert q.order.value[q.position + 1] in q.order.value;
    }
  }

  lemma RecentKept(h: seq<Id>, before: seq<Id>, id: Id)
    requires EndsWith(h, before) && |before| < MAX_HISTORY
    ensures EndsWith(Trim(h + [id]), before + [id])
  {
  }

  lemma {:induction false} TrailInHistory(q: Queue, n: nat, trail: seq<Item>, r: Queue, before: seq<Id>)
    requires WellFormed(q) && CurrentItem(q).Some? && Trail(q, n, trail, r)
    requires EndsWith(q.history, before) && |before| + n <= MAX_HISTORY
    ensures |trail| == n && WellFormed(r) && r.items == q.items && CurrentItem(r).Some?
    ensures EndsWith(r.history, before + Ids(trail))
    ensures forall i :: 0 <= i < |trail| ==> trail[i] in q.items
    decreases n
  {
    hide Advance, WellFormed, CurrentItem, Trim, EndsWith, Ids;
    if n == 0 {
      JoinIds(before, trail);
    } else {
      AdvanceEffect(q);
      var p, id := Advance(q).0, trail[0].id;
      RecentKept(q.history, before, id);
      TrailInHistory(p, n - 1, trail[1..], r, before + [id]);
      JoinIds(before, trail);
      CurrentQueued(q);
    }
  }

  lemma JoinIds(before: seq<Id>, trail: seq<Item>)
    ensures trail == [] ==> before + Ids(trail) == before
    ensures trail != [] ==> before + [trail[0].id] + Ids(trail[1..]) == before + Ids(trail)
  {
  }

  lemma CurrentQueued(q: Queue)
    requires CurrentItem(q).Some?
    ensures CurrentItem(q).value in q.items
  {
  }

  /** Edits keep the history, the current track and every track that was queued. */
  lemma {:induction false} EditsKeep(q: Queue, ops: seq<Op>)
    requires WellFormed(q) && AllowedRun(q, ops) && forall i :: 0 <= i < |ops| ==> !ops[i].AdvanceOp?
    ensures var r := Final(q, ops);
            && WellFormed(r) && r.history == q.history && CurrentItem(r) == CurrentItem(q)
            && forall item :: item in q.items ==> item in r.items
    decreases |ops|
  {
    if ops != [] {
      var p := Apply(q, ops[0]);
      match ops[0] {
        case AddOp(id, track) => AddCorrect(q, id, track);
        case InsertOp(index, id, track) =>
          InsertCorrect(q, index, id, track);
          forall i | 0 <= i < |q.items| ensures q.items[i] in p.items {
            InsertedAt(q.items, Min(index, |q.items|), Item(id, track, |q.items|), i);
          }
        case MoveOp(from, to) =>
          MoveCorrect(q, from, to);
          if from < |q.items| && to < |q.items| {
            forall i | 0 <= i < |q.items| ensures q.items[i] in p.items { MovedAt(q.items, from, to, i); }
          }
      }
      EditsKeep(p, ops[1..]);
    }
  }

  /** n calls to `previous` succeed and return these tracks, in this order. */
  ghost predicate Retraces(q: Queue, items: seq<Item>)
    decreases |items|
  {
    items != [] ==>
      && Previous(q).1 == Some(items[|items| - 1])
      && CurrentItem(Previous(q).0) == Some(items[|items| - 1])
      && Retraces(Previous(q).0, items[..|items| - 1])
  }

  lemma EndsWithButLast(h: seq<Id>, tail: seq<Id>)
    requires EndsWith(h, tail) && tail != []
    ensures h != [] && h[|h| - 1] == tail[|tail| - 1] && EndsWith(h[..|h| - 1], tail[..|tail| - 1])
  {
    var from := |h| - |tail|;
    assert h == h[..from] + tail;
    assert h[..|h| - 1] == h[..from] + tail[..|tail| - 1];
    assert (h[..from] + tail[..|tail| - 1])[from..] == tail[..|tail| - 1];
  }

  lemma UniquePosition(items: seq<Item>, k: nat)
    requires UniqueIds(items) && k < |items|
    ensures Position(items, items[k].id) == Some(k)
  {
  }

  /** A step back to the track the history names last. */
  lemma PreviousRecalls(q: Queue, item: Item)
    requires WellFormed(q) && q.history != [] && q.history[|q.history| - 1] == item.id && item in q.items
    ensures var (p, out) := Previous(q);
            && WellFormed(p) && p.items == q.items && p.history == q.history[..|q.history| - 1]
            && out == Some(item) && CurrentItem(p) == Some(item)
  {
    var k :| 0 <= k < |q.items| && q.items[k] == item;
    UniquePosition(q.items, k);
  }

  lemma {:induction false} HistoryRetraces(q: Queue, items: seq<Item>)
    requires WellFormed(q) && EndsWith(q.history, Ids(items))
    requires forall i :: 0 <= i < |items| ==> items[i] in q.items
    ensures Retraces(q, items)
    decreases |items|
  {
    hide WellFormed, EndsWith, Previous, CurrentItem;
    if items != [] {
      var k := |items| - 1;
      EndsWithButLast(q.history, Ids(items));
      assert Ids(items[..k]) == Ids(items)[..k];
      PreviousRecalls(q, items[k]);
      HistoryRetraces(Previous(q).0, items[..k]);
    }
  }

  /** From a current track, n successful advances, then any adds, inserts and
      moves, then n calls to `previous` lead back through the same tracks in
      reverse, shuffled or not, for every n up to the size of the history. */
  lemma PreviousRetraces(q: Queue, n: nat, trail: seq<Item>, r: Queue, edits: seq<Op>)
    requires WellFormed(q) && CurrentItem(q).Some? && n <= 100 && Trail(q, n, trail, r)
    requires AllowedRun(r, edits) && forall i :: 0 <= i < |edits| ==> !edits[i].AdvanceOp?
    ensures |trail| == n && Retraces(Final(r, edits), trail)
  {
    hide *;
    HistoryHolds();
    EndsEmpty(q.history);
    TrailInHistory(q, n, trail, r, []);
    assert [] + Ids(trail) == Ids(trail);
    EditsKeep(r, edits);
    HistoryRetraces(Final(r, edits), trail);
  }

  lemma HistoryHolds()
    ensures MAX_HISTORY == 100
  {
  }

  lemma EndsEmpty(h: seq<Id>)
    ensures EndsWith(h, [])
  {
  }

  // ------------------------------------------------- beyond the history's limit

  lemma TrimTwice(h: seq<Id>, more: seq<Id>)
    ensures Trim(Trim(h) + more) == Trim(h + more)
  {
  }

  lemma TrailUnroll(q: Queue, n: nat, trail: seq<Item>, r: Queue)
    requires Trail(q, n, trail, r)
    ensures n == 0 ==> trail == [] && r == q
    ensures n > 0 ==>
              && trail != [] && CurrentItem(q) == Some(trail[0]) && Advance(q).1.Some?
              && Trail(Advance(q).0, n - 1, trail[1..], r)
  {
  }

  /** A trail through the shuffle order starts at the current track and then follows it. */
  lemma {:induction false} ShuffledTrail(q: Queue, n: nat, trail: seq<Item>, r: Queue)
    requires WellFormed(q) && q.order.Some? && Trail(q, n, trail, r) && n > 0
    ensures |trail| == n && WellFormed(r) && r.items == q.items && r.order == q.order
    ensures CurrentItem(q) == Some(trail[0]) && r.position == q.position + n < |q.items|
    ensures forall i :: 0 < i < n ==> trail[i] == PlayOrder(q)[q.position + i]
    decreases n
  {
    hide *;
    TrailUnroll(q, n, trail, r);
    AdvanceShuffled(q);
    AdvanceEffect(q);
    var p := Advance(q).0;
    SamePlayOrder(p, q);
    if n == 1 {
      TrailUnroll(p, 0, trail[1..], r);
    } else {
      ShuffledTrail(p, n - 1, trail[1..], r);
      forall i | 0 < i < n ensures trail[i] == PlayOrder(q)[q.position + i] {
        assert trail[i] == trail[1..][i - 1];
      }
    }
  }

  /** What the history holds after a trail, whatever it held before. */
  lemma {:induction false} TrailHistory(q: Queue, n: nat, trail: seq<Item>, r: Queue)
    requires WellFormed(q) && CurrentItem(q).Some? && n > 0 && Trail(q, n, trail, r)
    ensures r.history == Trim(q.history + Ids(trail))
    decreases n
  {
    hide *;
    TrailUnroll(q, n, trail, r);
    AdvanceEffect(q);
    var p := Advance(q).0;
    JoinIds(q.history, trail);
    if n == 1 {
      TrailUnroll(p, 0, trail[1..], r);
      SingleId(trail[0]);
      assert trail == [trail[0]];
    } else {
      TrailHistory(p, n - 1, trail[1..], r);
      TrimTwice(q.history + [trail[0].id], Ids(trail[1..]));
    }
  }

  lemma SingleId(item: Item)
    ensures Ids([item]) == [item.id]
  {
  }

  lemma SamePlayOrder(p: Queue, q: Queue)
    requires WellFormed(p) && WellFormed(q) && p.order.Some? && p.items == q.items && p.order == q.order
    ensures PlayOrder(p) == PlayOrder(q)
  {
  }

  ghost function Back(q: Queue, k: nat): Queue
    decreases k
  {
    if k == 0 then q else Back(Previous(q).0, k - 1)
  }

  lemma {:induction false} RetracesSplit(q: Queue, a: seq<Item>, b: seq<Item>)
    requires Retraces(q, a + b)
    ensures Retraces(Back(q, |b|), a)
    decreases |b|
  {
    if b == [] {
      assert a + b == a;
    } else {
      assert (a + b)[..|a + b| - 1] == a + b[..|b| - 1];
      RetracesSplit(Previous(q).0, a, b[..|b| - 1]);
    }
  }

  /** Going back by history alone leaves the shuffle position where it was. */
  lemma {:induction false} BackByHistory(q: Queue, k: nat)
    requires k <= |q.history|
    requires forall i :: |q.history| - k <= i < |q.history| ==> Position(q.items, q.history[i]).Some?
    ensures var r := Back(q, k);
            && r.items == q.items && r.order == q.order && r.position == q.position
            && r.history == q.history[..|q.history| - k]
    decreases k
  {
    if k > 0 {
      assert Position(q.items, q.history[|q.history| - 1]).Some?;
      BackByHistory(Previous(q).0, k - 1);
    }
  }

  /** One hundred places further on the shuffle order holds the track that is current,
      which it can only when that was not reached through the order. */
  ghost predicate CurrentComesLater(q: Queue)
    requires WellFormed(q) && q.order.Some?
  {
    q.position + 100 < |q.items| && CurrentItem(q) == Some(PlayOrder(q)[q.position + 100])
  }

  /** In shuffle mode n advances can be undone by n calls to `previous` exactly when n is at
      most 100: beyond that the fallback steps back from a shuffle position that going back
      through the history never moved. For n = 101 that position may hold the right track by chance. */
  lemma ShuffledRetraceIff(q: Queue, n: nat, trail: seq<Item>, r: Queue)
    requires WellFormed(q) && q.order.Some? && Trail(q, n, trail, r)
    ensures |trail| == n
    ensures Retraces(r, trail) <==> n <= 100 || (n == 101 && CurrentComesLater(q))
  {
    hide *;
    HistoryHolds();
    TrailUnroll(q, n, trail, r);
    if n == 0 {
      NothingRetraced(r, trail);
    } else {
      ShuffledTrail(q, n, trail, r);
      if n <= MAX_HISTORY {
        NoEdits(r);
        PreviousRetraces(q, n, trail, r, []);
      } else {
        BeyondHistory(q, n, trail, r);
      }
    }
  }

  /** From the track the shuffle position is at, whatever was played before, exactly up to 100. */
  lemma ShuffledRetraceInStepIff(q: Queue, n: nat, trail: seq<Item>, r: Queue)
    requires WellFormed(q) && q.order.Some? && Trail(q, n, trail, r)
    requires q.position < |q.items| && CurrentItem(q) == Some(PlayOrder(q)[q.position])
    ensures |trail| == n && (Retraces(r, trail) <==> n <= 100)
  {
    hide *;
    ShuffledRetraceIff(q, n, trail, r);
    InStepNotLater(q);
  }

  lemma InStepNotLater(q: Queue)
    requires WellFormed(q) && q.order.Some?
    requires q.position < |q.items| && CurrentItem(q) == Some(PlayOrder(q)[q.position])
    ensures !CurrentComesLater(q)
  {
    hide PlayOrder, WellFormed, CurrentItem;
    if CurrentComesLater(q) {
      DifferentPlaces(q, q.position, q.position + 100);
      assert false;
    }
  }

  lemma NoEdits(r: Queue)
    ensures AllowedRun(r, []) && Final(r, []) == r
  {
  }

  lemma NothingRetraced(r: Queue, trail: seq<Item>)
    requires trail == []
    ensures Retraces(r, trail)
  {
  }

  lemma FallsBack(t: Queue, q: Queue, n: nat)
    requires WellFormed(q) && q.order.Some? && 0 < n < |q.items|
    requires t.items == q.items && t.order == q.order && t.position == n && t.history == []
    ensures Previous(t).1 == Some(PlayOrder(q)[n - 1]) == CurrentItem(Previous(t).0)
  {
    assert q.order.value[n - 1] in q.order.value;
  }

  lemma HistoryFound(q: Queue, trail: seq<Item>, cut: nat)
    requires cut <= |trail| && q.history == Ids(trail)[cut..]
    requires forall i :: 0 <= i < |trail| ==> trail[i] in q.items
    ensures forall i :: 0 <= i < |q.history| ==> Position(q.items, q.history[i]).Some?
  {
    forall i | 0 <= i < |q.history| ensures Position(q.items, q.history[i]).Some? {
      assert trail[cut + i] in q.items && q.history[i] == trail[cut + i].id;
    }
  }

  /** After a hundred steps back the next one leads to the place before the last reached. */
  lemma BeyondHistory(q: Queue, n: nat, trail: seq<Item>, r: Queue)
    requires WellFormed(q) && q.order.Some? && Trail(q, n, trail, r) && n > MAX_HISTORY
    ensures Retraces(r, trail) <==> n == MAX_HISTORY + 1 && CurrentComesLater(q)
  {
    hide *;
    HistoryHolds();
    ShuffledTrail(q, n, trail, r);
    BackToStart(q, n, trail, r);
    var cut, t, to := n - MAX_HISTORY, Back(r, MAX_HISTORY), q.position + n;
    FallsBack(t, q, to);
    SplitAt(trail, cut);
    LateRetraces(q, n, trail, r);
    RetracesIff(r, trail[..cut], trail[cut..]);
    if cut > 1 {
      DifferentPlaces(q, q.position + cut - 1, to - 1);
      if Retraces(t, trail[..cut]) {
        LastOf(t, trail[..cut]);
        assert false;
      }
    } else {
      OneStep(t, trail[..cut]);
      ComesLaterIs(q);
    }
  }

  lemma ComesLaterIs(q: Queue)
    requires WellFormed(q) && q.order.Some?
    ensures CurrentComesLater(q)
            <==> q.position + 100 < |q.items| && CurrentItem(q) == Some(PlayOrder(q)[q.position + 100])
  {
  }

  /** With the later part retraced, the whole is exactly when the earlier part is from there. */
  lemma RetracesIff(q: Queue, a: seq<Item>, b: seq<Item>)
    requires Retraces(q, b)
    ensures Retraces(q, a + b) <==> Retraces(Back(q, |b|), a)
  {
    RetracesJoin(q, a, b);
    if Retraces(q, a + b) { RetracesSplit(q, a, b); }
  }

  /** The last hundred steps are retraced through the history. */
  lemma LateRetraces(q: Queue, n: nat, trail: seq<Item>, r: Queue)
    requires WellFormed(q) && q.order.Some? && Trail(q, n, trail, r) && n > MAX_HISTORY
    ensures |trail| == n && Retraces(r, trail[n - MAX_HISTORY..])
  {
    hide *;
    ShuffledTrail(q, n, trail, r);
    TrailUnroll(q, n, trail, r);
    AllRecalled(q, n, trail, r);
    var late := trail[n - MAX_HISTORY..];
    IdsFrom(trail, n - MAX_HISTORY);
    WholeEnd(Ids(late));
    HistoryRetraces(r, late);
  }

  lemma IdsFrom(trail: seq<Item>, cut: nat)
    requires cut <= |trail|
    ensures Ids(trail[cut..]) == Ids(trail)[cut..]
  {
  }

  lemma WholeEnd(h: seq<Id>)
    ensures EndsWith(h, h)
  {
    assert h[0..] == h;
  }

  lemma {:induction false} RetracesJoin(q: Queue, a: seq<Item>, b: seq<Item>)
    requires Retraces(q, b)
    ensures Retraces(Back(q, |b|), a) ==> Retraces(q, a + b)
    decreases |b|
  {
    if b == [] {
      assert a + b == a;
    } else {
      assert (a + b)[..|a + b| - 1] == a + b[..|b| - 1];
      RetracesJoin(Previous(q).0, a, b[..|b| - 1]);
    }
  }

  lemma OneStep(q: Queue, items: seq<Item>)
    requires |items| == 1
    ensures Retraces(q, items) <==> Previous(q).1 == Some(items[0]) == CurrentItem(Previous(q).0)
  {
    assert Retraces(Previous(q).0, items[..0]);
  }

  lemma SplitAt(trail: seq<Item>, cut: nat)
    requires 0 < cut <= |trail|
    ensures trail == trail[..cut] + trail[cut..] && trail[..cut][cut - 1] == trail[cut - 1]
  {
  }

  /** A hundred steps back use up the history and leave the shuffle position alone. */
  lemma BackToStart(q: Queue, n: nat, trail: seq<Item>, r: Queue)
    requires WellFormed(q) && q.order.Some? && Trail(q, n, trail, r) && n > MAX_HISTORY
    ensures var t := Back(r, MAX_HISTORY);
            t.items == q.items && t.order == q.order && t.position == q.position + n && t.history == []
  {
    hide *;
    ShuffledTrail(q, n, trail, r);
    AllRecalled(q, n, trail, r);
    BackByHistory(r, MAX_HISTORY);
    assert r.history[..0] == [];
  }

  lemma AllRecalled(q: Queue, n: nat, trail: seq<Item>, r: Queue)
    requires WellFormed(q) && q.order.Some? && Trail(q, n, trail, r) && n > MAX_HISTORY
    ensures |trail| == n && r.history == Ids(trail)[n - MAX_HISTORY..]
    ensures forall i :: 0 <= i < |r.history| ==> Position(r.items, r.history[i]).Some?
    ensures forall i :: 0 <= i < |trail| ==> trail[i] in r.items
  {
    hide *;
    ShuffledTrail(q, n, trail, r);
    TrailUnroll(q, n, trail, r);
    TrailHistory(q, n, trail, r);
    TrimLong(q.history, Ids(trail));
    CurrentQueued(q);
    PlacesHoldItems(q, trail);
    HistoryFound(r, trail, n - MAX_HISTORY);
  }

  lemma TrimLong(h: seq<Id>, more: seq<Id>)
    requires |more| > MAX_HISTORY
    ensures Trim(h + more) == more[|more| - MAX_HISTORY..] && |Trim(h + more)| == MAX_HISTORY
  {
  }

  lemma DifferentPlaces(q: Queue, i: nat, j: nat)
    requires WellFormed(q) && q.order.Some? && i < j < |q.items|
    ensures PlayOrder(q)[i] != PlayOrder(q)[j]
  {
    PlayOrderDistinct(q);
  }

  lemma PlacesHoldItems(q: Queue, trail: seq<Item>)
    requires WellFormed(q) && q.order.Some? && q.position + |trail| <= |q.items|
    requires trail != [] ==> trail[0] in q.items
    requires forall i :: 0 < i < |trail| ==> trail[i] == PlayOrder(q)[q.position + i]
    ensures forall i :: 0 <= i < |trail| ==> trail[i] in q.items
  {
    PlayOrderDistinct(q);
  }

  lemma LastOf(q: Queue, items: seq<Item>)
    requires items != [] && Retraces(q, items)
    ensures Previous(q).1 == Some(items[|items| - 1])
  {
  }
}
