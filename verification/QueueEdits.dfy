/** Where each edit of the playback queue puts things, and what is played next because of it. */
module QueueEdits {
  import opened Common
  import opened Queue
  import opened QueueRuns

  // ------------------------------------------------------------------ insertions

  /** A track added goes last and nothing else moves. */
  lemma AddPlaces(q: Queue, id: Id, track: nat)
    ensures var r := Add(q, id, track);
            && r.items == q.items + [Item(id, track, |q.items|)]
            && r.current == q.current && r.history == q.history && r.position == q.position
  {
  }

  /** A track inserted goes to the index given, or last if that is past the end, between the
      tracks that were before and behind that place. */
  lemma InsertPlaces(q: Queue, index: nat, id: Id, track: nat)
    ensures var r, at := Insert(q, index, id, track), Min(index, |q.items|);
            && |r.items| == |q.items| + 1 && r.items[at] == Item(id, track, |q.items|)
            && r.items[..at] == q.items[..at] && r.items[at + 1..] == q.items[at..]
            && r.history == q.history && r.position == q.position
  {
  }

  /** The track added to be played next is what an advance returns exactly when, not shuffled,
      a track is current, or, shuffled, the last track of the order is playing: in a shuffle
      order it goes last. */
  lemma AddNextPlaysNextIff(q: Queue, id: Id, track: nat)
    requires WellFormed(q) && NewId(q, id)
    ensures Advance(AddNext(q, id, track)).1 == Some(Item(id, track, |q.items|))
            <==> if q.order.Some? then q.position + 1 == |q.items| else q.current.Some?
  {
    var r, item := AddNext(q, id, track), Item(id, track, |q.items|);
    var index := if q.current.Some? then q.current.value + 1 else 0;
    InsertCorrect(q, index, id, track);
    InsertPlaces(q, index, id, track);
    if q.order.Some? {
      AdvanceShuffled(r);
      hide Insert, Advance, PlayOrder;
      if q.position + 1 < |q.items| {
        PlayOrderDistinct(r);
        assert PlayOrder(r)[q.position + 1].id != PlayOrder(r)[|q.items|].id;
      }
    }
  }

  /** Two tracks, the first playing, shuffled into their own order: the one added to be
      played next is played last. */
  lemma AddNextLastExample(x: nat, y: nat, z: nat)
    ensures var q := Queue([Item(1, x, 0), Item(2, y, 1)], Some(0), [], Some([0, 1]), 0);
            var r := AddNext(q, 3, z);
            && Reaches(New(), [CallAdd(1, x), CallAdd(2, y), CallSetCurrent(0), CallShuffle([1])], q)
            && Advance(r).1 == Some(Item(2, y, 1))
            && Advance(Advance(r).0).1 == Some(Item(3, z, 2))
  {
    ReachesTwoShuffled(x, y);
    hide Reaches;
    var q := Queue([Item(1, x, 0), Item(2, y, 1)], Some(0), [], Some([0, 1]), 0);
    var r := AddNext(q, 3, z);
    assert r.items == [Item(1, x, 0), Item(3, z, 2), Item(2, y, 1)];
    assert r.order.value == [0, 2, 1];
  }

  // ------------------------------------------------------------- moves and removals

  /** The track moved ends at its new place and the others keep their order; an index out of
      range changes nothing. */
  lemma MovePlaces(q: Queue, from: nat, to: nat)
    ensures var r := Move(q, from, to);
            if from < |q.items| && to < |q.items| then
              && |r.items| == |q.items| && r.items[to] == q.items[from]
              && Removed(r.items, to) == Removed(q.items, from)
              && r.history == q.history && r.position == q.position
            else r == q
  {
    if from < |q.items| && to < |q.items| {
      var rest := Removed(q.items, from);
      assert Moved(q.items, from, to) == rest[..to] + [q.items[from]] + rest[to..];
    }
  }

  /** With the current track removed the one behind it becomes current, or the last one if
      there is none behind it, or none at all if it was the only one. */
  lemma RemoveCurrentMoves(q: Queue)
    requires WellFormed(q) && q.current.Some?
    ensures var at := q.current.value;
            CurrentItem(Remove(q, q.items[at].id).0)
            == if |q.items| == 1 then None
               else Some(q.items[if at + 1 < |q.items| then at + 1 else at - 1])
  {
    UniquePosition(q.items, q.current.value);
    hide Position, DropIndex;
  }

  /** Without a current track a removal leaves none, and an id that is not queued changes nothing. */
  lemma RemoveOtherwise(q: Queue, id: Id)
    requires WellFormed(q)
    ensures q.current.None? ==> Remove(q, id).0.current.None?
    ensures NewId(q, id) ==> Remove(q, id) == (q, None)
  {
  }

  // --------------------------------------------------------------------- jumping

  /** Setting the current track succeeds exactly for an index in range. */
  lemma SetCurrentCorrect(q: Queue, index: nat)
    ensures var (r, ok) := SetCurrent(q, index);
            && (ok <==> index < |q.items|)
            && (ok ==> CurrentItem(r) == Some(q.items[index]) && r.items == q.items)
            && (!ok ==> r == q)
            && r.order == q.order && r.position == q.position
  {
  }

  /** `previous` undoes it. */
  lemma PreviousUndoesSetCurrent(q: Queue, index: nat)
    requires WellFormed(q) && CurrentItem(q).Some? && index < |q.items|
    ensures Previous(SetCurrent(q, index).0).1 == CurrentItem(q)
    ensures Previous(SetCurrent(q, index).0).0.current == q.current
  {
    var r := SetCurrent(q, index).0;
    UniquePosition(q.items, q.current.value);
    hide Position;
    LastKept(q.history, CurrentItem(q).value.id);
  }

  lemma LastKept(h: seq<Id>, id: Id)
    ensures var t := Trim(h + [id]); t != [] && t[|t| - 1] == id && |t| <= 100
  {
  }

  // --------------------------------------------------------- leaving shuffle, clearing

  /** Out of shuffle mode the queue is played on in list order from the current track. */
  lemma UnshufflePlaysOn(q: Queue)
    requires WellFormed(q)
    ensures var r := Unshuffle(q);
            && WellFormed(r) && r.items == q.items && CurrentItem(r) == CurrentItem(q) && r.history == q.history
            && r.position == q.position
            && Advance(r).1 == if q.current.Some? && q.current.value + 1 < |q.items|
                               then Some(q.items[q.current.value + 1]) else None
  {
  }

  /** A cleared queue plays nothing in either direction, although its history is kept. */
  lemma ClearedPlaysNothing(q: Queue)
    ensures var r := Clear(q);
            && r.items == [] && CurrentItem(r).None? && r.history == q.history
            && Advance(r) == (r, None) && Previous(r).1.None? && !PreviousPanics(r)
            && Upcoming(r, 1) == Some([])
  {
  }
}
