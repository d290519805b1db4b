/** The playback queue: items, the current index, the history of ids played and,
    when shuffled, a play order given by indices into the items. */
module Queue {
  import opened Common

  type Id = nat

  datatype Item = Item(id: Id, track: nat, originalPosition: nat)

  const MAX_HISTORY: nat := 100

  datatype Queue = Queue(
    items: seq<Item>, current: Option<nat>, history: seq<Id>, order: Option<seq<nat>>, position: nat)

  function New(): Queue {
    Queue([], None, [], None, 0)
  }

  // ------------------------------------------------------------ index arithmetic

  /** Where index i goes when an item is inserted at `at`. */
  function AfterInsert(i: nat, at: nat): nat {
    if i >= at then i + 1 else i
  }

  /** Where index i, other than `at`, goes when the item at `at` is removed. */
  function AfterRemove(i: nat, at: nat): nat {
    if i > at then i - 1 else i
  }

  /** Where index i goes when the item at `from` is moved to `to`. */
  function AfterMove(i: nat, from: nat, to: nat): nat {
    if i == from then to
    else if from < to then (if from < i <= to then i - 1 else i)
    else if to <= i < from then i + 1 else i
  }

  function Inserted<T>(s: seq<T>, at: nat, x: T): seq<T>
    requires at <= |s|
  {
    s[..at] + [x] + s[at..]
  }

  function Removed<T>(s: seq<T>, at: nat): seq<T>
    requires at < |s|
  {
    s[..at] + s[at + 1..]
  }

  function Moved<T>(s: seq<T>, from: nat, to: nat): (r: seq<T>)
    requires from < |s| && to < |s|
    ensures |r| == |s|
  {
    Inserted(Removed(s, from), to, s[from])
  }

  lemma InsertedAt<T>(s: seq<T>, at: nat, x: T, i: nat)
    requires at <= |s| && i < |s|
    ensures Inserted(s, at, x)[AfterInsert(i, at)] == s[i] && Inserted(s, at, x)[at] == x
  {
  }

  lemma RemovedAt<T>(s: seq<T>, at: nat, i: nat)
    requires at < |s| && i < |s| && i != at
    ensures AfterRemove(i, at) < |s| - 1 && Removed(s, at)[AfterRemove(i, at)] == s[i]
  {
  }

  lemma MovedAt<T>(s: seq<T>, from: nat, to: nat, i: nat)
    requires from < |s| && to < |s| && i < |s|
    ensures AfterMove(i, from, to) < |s| && Moved(s, from, to)[AfterMove(i, from, to)] == s[i]
  {
    if i != from {
      RemovedAt(s, from, i);
      InsertedAt(Removed(s, from), to, s[from], AfterRemove(i, from));
    }
  }

  // ------------------------------------------------------------------ operations

  function Position(items: seq<Item>, id: Id): (r: Option<nat>)
    ensures r.Some? ==> r.value < |items| && items[r.value].id == id
    ensures r.None? ==> forall i :: 0 <= i < |items| ==> items[i].id != id
  {
    if items == [] then None
    else if items[0].id == id then Some(0)
    else
      var r := Position(items[1..], id);
      if r.Some? then Some(r.value + 1) else None
  }

  function Add(q: Queue, id: Id, track: nat): Queue {
    var position := |q.items|;
    q.(items := q.items + [Item(id, track, position)],
       order := if q.order.Some? then Some(q.order.value + [position]) else None)
  }

  function InsertIndices(order: seq<nat>, at: nat): (r: seq<nat>)
    ensures |r| == |order| && forall i :: 0 <= i < |r| ==> r[i] == AfterInsert(order[i], at)
  {
    seq(|order|, i requires 0 <= i < |order| => AfterInsert(order[i], at))
  }

  function Insert(q: Queue, index: nat, id: Id, track: nat): Queue {
    var at := Min(index, |q.items|);
    q.(items := Inserted(q.items, at, Item(id, track, |q.items|)),
       current := if q.current.Some? then Some(AfterInsert(q.current.value, at)) else None,
       order := if q.order.Some? then Some(InsertIndices(q.order.value, at) + [at]) else None)
  }

  /** Insertion right behind the current track, or in front when there is none. */
  function AddNext(q: Queue, id: Id, track: nat): Queue {
    Insert(q, if q.current.Some? then q.current.value + 1 else 0, id, track)
  }

  /** The order without one index, the higher ones closing up. */
  function DropIndex(order: seq<nat>, at: nat): (r: seq<nat>) {
    if order == [] then []
    else if order[0] == at then DropIndex(order[1..], at)
    else [AfterRemove(order[0], at)] + DropIndex(order[1..], at)
  }

  function Remove(q: Queue, id: Id): (r: (Queue, Option<Item>)) {
    var found := Position(q.items, id);
    if found.None? then (q, None) else
      var at := found.value;
      var items := Removed(q.items, at);
      var current :=
        if q.current.None? then None
        else if at == q.current.value then
          (if items == [] then None else Some(Min(at, |items| - 1)))
        else Some(AfterRemove(q.current.value, at));
      (q.(items := items, current := current,
          order := if q.order.Some? then Some(DropIndex(q.order.value, at)) else None),
       Some(q.items[at]))
  }

  function MoveIndices(order: seq<nat>, from: nat, to: nat): (r: seq<nat>)
    ensures |r| == |order| && forall i :: 0 <= i < |r| ==> r[i] == AfterMove(order[i], from, to)
  {
    seq(|order|, i requires 0 <= i < |order| => AfterMove(order[i], from, to))
  }

  function Move(q: Queue, from: nat, to: nat): Queue {
    if from >= |q.items| || to >= |q.items| then q else
      q.(items := Moved(q.items, from, to),
         current := if q.current.Some? then Some(AfterMove(q.current.value, from, to)) else None,
         order := if q.order.Some? then Some(MoveIndices(q.order.value, from, to)) else None)
  }

  function CurrentItem(q: Queue): Option<Item> {
    if q.current.Some? && q.current.value < |q.items| then Some(q.items[q.current.value]) else None
  }

  /** The newest ids, at most MAX_HISTORY of them. */
  function Trim(h: seq<Id>): seq<Id> {
    if |h| > MAX_HISTORY then h[|h| - MAX_HISTORY..] else h
  }

  function SetCurrent(q: Queue, index: nat): (r: (Queue, bool)) {
    if index >= |q.items| then (q, false) else
      var history := if CurrentItem(q).Some? then Trim(q.history + [CurrentItem(q).value.id]) else q.history;
      (q.(history := history, current := Some(index)), true)
  }

  /** The index to play next and the shuffle position that goes with it. */
  function NextIndex(q: Queue): (r: (Option<nat>, nat)) {
    if q.order.Some? then
      (if q.position + 1 < |q.order.value| then (Some(q.order.value[q.position + 1]), q.position + 1)
       else (None, q.position))
    else if q.current.Some? && q.current.value + 1 < |q.items| then (Some(q.current.value + 1), q.position)
    else (None, q.position)
  }

  function Advance(q: Queue): (r: (Queue, Option<Item>)) {
    var (next, position) := NextIndex(q);
    if next.None? then (q, None) else
      var p := SetCurrent(q.(position := position), next.value).0;
      (p, CurrentItem(p))
  }

  /** The item the newest history entry names, if it is still queued. */
  function Recalled(q: Queue): (r: Option<nat>) {
    if q.history == [] then None else Position(q.items, q.history[|q.history| - 1])
  }

  /** The step back through the shuffle order indexes past its end, and the call panics. */
  predicate PreviousPanics(q: Queue) {
    Recalled(q).None? && q.order.Some? && q.position > |q.order.value|
  }

  /** A call that panics has popped the history and lowered the position before it does. */
  function Previous(q: Queue): (r: (Queue, Option<Item>)) {
    var popped := if q.history == [] then q else q.(history := q.history[..|q.history| - 1]);
    var found := Recalled(q);
    if found.Some? then
      var p := popped.(current := found);
      (p, CurrentItem(p))
    else if q.order.Some? then
      (if q.position > |q.order.value| then (popped.(position := q.position - 1), None)
       else if q.position > 0 then
         var p := popped.(position := q.position - 1, current := Some(q.order.value[q.position - 1]));
         (p, CurrentItem(p))
       else (popped, None))
    else if q.current.Some? && q.current.value > 0 then
      var p := popped.(current := Some(q.current.value - 1));
      (p, CurrentItem(p))
    else (popped, None)
  }

  /** Shuffling with a given random arrangement of the indices other than the current one. */
  function Shuffle(q: Queue, arrangement: seq<nat>): Queue {
    if q.current.Some? then q.(order := Some([q.current.value] + arrangement), position := 0)
    else q.(order := Some(arrangement))
  }

  function Unshuffle(q: Queue): Queue {
    q.(order := None)
  }

  /** Everything but the history. */
  function Clear(q: Queue): Queue {
    q.(items := [], current := None, order := None, position := 0)
  }

  ghost predicate Arranges(q: Queue, arrangement: seq<nat>) {
    && Distinct(arrangement)
    && forall i: nat :: i in arrangement <==> i < |q.items| && Some(i) != q.current
  }

  // ------------------------------------------------------------- well-formedness

  ghost predicate IsPermutation(order: seq<nat>, n: nat) {
    && |order| == n && Distinct(order)
    && forall i: nat :: i in order <==> i < n
  }

  ghost predicate UniqueIds(items: seq<Item>) {
    forall i, j :: 0 <= i < j < |items| ==> items[i].id != items[j].id
  }

  ghost predicate WellFormed(q: Queue) {
    && UniqueIds(q.items)
    && (q.current.Some? ==> q.current.value < |q.items|)
    && (q.order.Some? ==> IsPermutation(q.order.value, |q.items|))
  }

  ghost predicate NewId(q: Queue, id: Id) {
    forall i :: 0 <= i < |q.items| ==> q.items[i].id != id
  }

  /** The items in shuffled play order. */
  ghost function PlayOrder(q: Queue): (s: seq<Item>)
    requires WellFormed(q) && q.order.Some?
    ensures |s| == |q.items|
  {
    seq(|q.order.value|, i requires 0 <= i < |q.order.value| =>
      assert q.order.value[i] in q.order.value; q.items[q.order.value[i]])
  }

  lemma AddCorrect(q: Queue, id: Id, track: nat)
    requires WellFormed(q) && NewId(q, id)
    ensures WellFormed(Add(q, id, track)) && CurrentItem(Add(q, id, track)) == CurrentItem(q)
    ensures q.order.Some? ==> PlayOrder(Add(q, id, track)) == PlayOrder(q) + [Item(id, track, |q.items|)]
  {
    if q.order.Some? {
      var order := q.order.value;
      forall i | 0 <= i < |order| ensures order[i] < |q.items| { assert order[i] in order; }
    }
  }

  lemma InsertedOrder(order: seq<nat>, n: nat, at: nat)
    requires IsPermutation(order, n) && at <= n
    ensures IsPermutation(InsertIndices(order, at) + [at], n + 1)
  {
    var r := InsertIndices(order, at) + [at];
    forall j: nat ensures j in r <==> j < n + 1 {
      if j < n + 1 && j != at {
        var was := if j > at then j - 1 else j;
        assert was in order;
        var k :| 0 <= k < |order| && order[k] == was;
        assert r[k] == j;
      } else if j == at {
        assert r[|order|] == at;
      }
      if j in r {
        var k :| 0 <= k < |r| && r[k] == j;
        if k < |order| { assert order[k] in order; }
      }
    }
  }

  lemma InsertCorrect(q: Queue, index: nat, id: Id, track: nat)
    requires WellFormed(q) && NewId(q, id)
    ensures WellFormed(Insert(q, index, id, track))
    ensures CurrentItem(Insert(q, index, id, track)) == CurrentItem(q)
    ensures q.order.Some? ==>
              PlayOrder(Insert(q, index, id, track)) == PlayOrder(q) + [Item(id, track, |q.items|)]
  {
    var at, r := Min(index, |q.items|), Insert(q, index, id, track);
    if q.current.Some? { InsertedAt(q.items, at, Item(id, track, |q.items|), q.current.value); }
    if q.order.Some? {
      var order := q.order.value;
      InsertedOrder(order, |q.items|, at);
      forall i | 0 <= i < |order| ensures PlayOrder(r)[i] == PlayOrder(q)[i] {
        assert order[i] in order;
        InsertedAt(q.items, at, Item(id, track, |q.items|), order[i]);
      }
    }
  }

  lemma MovedOrder(order: seq<nat>, n: nat, from: nat, to: nat)
    requires IsPermutation(order, n) && from < n && to < n
    ensures IsPermutation(MoveIndices(order, from, to), n)
  {
    var r := MoveIndices(order, from, to);
    forall j: nat ensures j in r <==> j < n {
      if j < n {
        var was := AfterMove(j, to, from);
        assert AfterMove(was, from, to) == j && was < n;
        assert was in order;
        var k :| 0 <= k < |order| && order[k] == was;
        assert r[k] == j;
      }
      if j in r {
        var k :| 0 <= k < |r| && r[k] == j;
        assert order[k] in order;
      }
    }
  }

  lemma MovedUnique(items: seq<Item>, from: nat, to: nat)
    requires UniqueIds(items) && from < |items| && to < |items|
    ensures UniqueIds(Moved(items, from, to))
  {
    var r := Moved(items, from, to);
    forall i, j | 0 <= i < j < |r| ensures r[i].id != r[j].id {
      MovedAt(items, from, to, AfterMove(i, to, from));
      MovedAt(items, from, to, AfterMove(j, to, from));
    }
  }

  lemma MoveCorrect(q: Queue, from: nat, to: nat)
    requires WellFormed(q)
    ensures WellFormed(Move(q, from, to)) && CurrentItem(Move(q, from, to)) == CurrentItem(q)
    ensures q.order.Some? ==> PlayOrder(Move(q, from, to)) == PlayOrder(q)
  {
    if from < |q.items| && to < |q.items| {
      var r := Move(q, from, to);
      MovedUnique(q.items, from, to);
      if q.current.Some? { MovedAt(q.items, from, to, q.current.value); }
      if q.order.Some? {
        var order := q.order.value;
        MovedOrder(order, |q.items|, from, to);
        forall i | 0 <= i < |order| ensures PlayOrder(r)[i] == PlayOrder(q)[i] {
          assert order[i] in order;
          MovedAt(q.items, from, to, order[i]);
        }
      }
    }
  }
}
