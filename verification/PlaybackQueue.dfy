/** The playback queue as an object: each method makes the state change its function describes. */
module PlaybackQueue {
  import opened Common
  import opened Queue
  import Q = Queue
  import opened QueueRuns

  lemma RetainStep(indices: seq<nat>, at: nat, kept: seq<nat>, k: nat)
    requires k < |indices|
    ensures RemoveIndices(kept, at) + DropIndex(indices[k..], at)
         == RemoveIndices(if indices[k] == at then kept else kept + [indices[k]], at) + DropIndex(indices[k + 1..], at)
  {
    var x, rest := indices[k], indices[k..];
    assert rest[0] == x && rest[1..] == indices[k + 1..];
    var more := DropIndex(rest[1..], at);
    assert DropIndex(rest, at) == if x == at then more else [AfterRemove(x, at)] + more;
    hide DropIndex;
    if x != at {
      assert RemoveIndices(kept + [x], at) == RemoveIndices(kept, at) + [AfterRemove(x, at)];
    }
  }

  class PlaybackQueue {
    var items: seq<Item>
    var currentIndex: Option<nat>
    var history: seq<Id>
    var shuffleOrder: Option<seq<nat>>
    var shufflePosition: nat

    ghost function View(): Queue
      reads this
    {
      Queue(items, currentIndex, history, shuffleOrder, shufflePosition)
    }

    constructor ()
      ensures View() == New()
    {
      items := [];
      currentIndex := None;
      history := [];
      shuffleOrder := None;
      shufflePosition := 0;
    }

    method Add(id: Id, track: nat)
      modifies this`items, this`shuffleOrder
      ensures View() == Q.Add(old(View()), id, track)
    {
      var position := |items|;
      items := items + [Item(id, track, position)];
      if shuffleOrder.Some? {
        shuffleOrder := Some(shuffleOrder.value + [position]);
      }
    }

    method Insert(index: nat, id: Id, track: nat)
      modifies this`items, this`currentIndex, this`shuffleOrder
      ensures View() == Q.Insert(old(View()), index, id, track)
    {
      var item := Item(id, track, |items|);
      var insertAt := Min(index, |items|);
      items := items[..insertAt] + [item] + items[insertAt..];
      if currentIndex.Some? && insertAt <= currentIndex.value {
        currentIndex := Some(currentIndex.value + 1);
      }
      if shuffleOrder.Some? {
        var order := ShiftUp(shuffleOrder.value, insertAt);
        shuffleOrder := Some(order + [insertAt]);
      }
    }

    method AddNext(id: Id, track: nat)
      modifies this`items, this`currentIndex, this`shuffleOrder
      ensures View() == Q.AddNext(old(View()), id, track)
    {
      var insertAt := if currentIndex.Some? then currentIndex.value + 1 else 0;
      Insert(insertAt, id, track);
    }

    /** The loop that makes room in the shuffle order. */
    static method ShiftUp(indices: seq<nat>, at: nat) returns (order: seq<nat>)
      ensures order == InsertIndices(indices, at)
    {
      order := indices;
      for k := 0 to |order|
        invariant |order| == |indices|
        invariant forall i :: 0 <= i < k ==> order[i] == AfterInsert(indices[i], at)
        invariant forall i :: k <= i < |order| ==> order[i] == indices[i]
      {
        if order[k] >= at {
          order := order[k := order[k] + 1];
        }
      }
    }

    method Remove(id: Id) returns (out: Option<Item>)
      modifies this`items, this`currentIndex, this`shuffleOrder
      ensures (View(), out) == Q.Remove(old(View()), id)
    {
      var found := Position(items, id);
      if found.None? {
        return None;
      }
      var index := found.value;
      out := Some(items[index]);
      items := items[..index] + items[index + 1..];
      if currentIndex.Some? {
        var current := currentIndex.value;
        if index < current {
          currentIndex := Some(current - 1);
        } else if index == current {
          if |items| == 0 {
            currentIndex := None;
          } else {
            currentIndex := Some(Min(current, |items| - 1));
          }
        }
      }
      if shuffleOrder.Some? {
        var order := CloseGap(shuffleOrder.value, index);
        shuffleOrder := Some(order);
      }
    }

    /** Retains the other indices, then shifts the higher ones down. */
    static method CloseGap(indices: seq<nat>, at: nat) returns (order: seq<nat>)
      ensures order == DropIndex(indices, at)
    {
      var kept := Retain(indices, at);
      order := ShiftDown(kept, at);
    }

    static method Retain(indices: seq<nat>, at: nat) returns (kept: seq<nat>)
      ensures RemoveIndices(kept, at) == DropIndex(indices, at)
    {
      kept := [];
      assert indices[0..] == indices;
      for k := 0 to |indices|
        invariant DropIndex(indices, at) == RemoveIndices(kept, at) + DropIndex(indices[k..], at)
      {
        RetainStep(indices, at, kept, k);
        if indices[k] != at {
          kept := kept + [indices[k]];
        }
      }
    }

    static method ShiftDown(indices: seq<nat>, at: nat) returns (order: seq<nat>)
      ensures order == RemoveIndices(indices, at)
    {
      order := indices;
      for k := 0 to |order|
        invariant |order| == |indices|
        invariant forall i :: 0 <= i < k ==> order[i] == AfterRemove(indices[i], at)
        invariant forall i :: k <= i < |order| ==> order[i] == indices[i]
      {
        if order[k] > at {
          order := order[k := order[k] - 1];
        }
      }
    }

    method MoveTrack(from: nat, to: nat)
      modifies this`items, this`currentIndex, this`shuffleOrder
      ensures View() == Q.Move(old(View()), from, to)
    {
      if from >= |items| || to >= |items| {
        return;
      }
      var item := items[from];
      items := items[..from] + items[from + 1..];
      items := items[..to] + [item] + items[to..];
      if currentIndex.Some? {
        var current := currentIndex.value;
        currentIndex := Some(
          if current == from then to
          else if from < current && to >= current then current - 1
          else if from > current && to <= current then current + 1
          else current);
      }
      if shuffleOrder.Some? {
        var order := Renumber(shuffleOrder.value, from, to);
        shuffleOrder := Some(order);
      }
    }

    static method Renumber(indices: seq<nat>, from: nat, to: nat) returns (order: seq<nat>)
      ensures order == MoveIndices(indices, from, to)
    {
      order := indices;
      for k := 0 to |order|
        invariant |order| == |indices|
        invariant forall i :: 0 <= i < k ==> order[i] == AfterMove(indices[i], from, to)
        invariant forall i :: k <= i < |order| ==> order[i] == indices[i]
      {
        if order[k] == from {
          order := order[k := to];
        } else if from < to {
          if order[k] > from && order[k] <= to {
            order := order[k := order[k] - 1];
          }
        } else if order[k] >= to && order[k] < from {
          order := order[k := order[k] + 1];
        }
      }
    }

    method SetCurrent(index: nat) returns (ok: bool)
      modifies this`history, this`currentIndex
      ensures (View(), ok) == Q.SetCurrent(old(View()), index)
    {
      if index >= |items| {
        return false;
      }
      if currentIndex.Some? && currentIndex.value < |items| {
        AddToHistory(items[currentIndex.value].id);
      }
      currentIndex := Some(index);
      ok := true;
    }

    method AddToHistory(id: Id)
      modifies this`history
      ensures history == Trim(old(history) + [id])
    {
      history := history + [id];
      while |history| > MAX_HISTORY
        invariant Trim(history) == Trim(old(history) + [id])
        decreases |history|
      {
        history := history[1..];
      }
    }

    method Advance() returns (out: Option<Item>)
      modifies this`history, this`currentIndex, this`shufflePosition
      ensures (View(), out) == Q.Advance(old(View()))
    {
      var next: Option<nat> := None;
      if shuffleOrder.Some? {
        if shufflePosition + 1 < |shuffleOrder.value| {
          shufflePosition := shufflePosition + 1;
          next := Some(shuffleOrder.value[shufflePosition]);
        }
      } else if currentIndex.Some? && currentIndex.value + 1 < |items| {
        next := Some(currentIndex.value + 1);
      }
      if next.None? {
        return None;
      }
      var ok := SetCurrent(next.value);
      out := Current();
    }

    method Current() returns (out: Option<Item>)
      ensures out == CurrentItem(View())
    {
      if currentIndex.Some? && currentIndex.value < |items| {
        out := Some(items[currentIndex.value]);
      } else {
        out := None;
      }
    }

    /** Indexing past the shuffle order ends the call where it stands. */
    method Previous() returns (panicked: bool, out: Option<Item>)
      modifies this`history, this`currentIndex, this`shufflePosition
      ensures (View(), out) == Q.Previous(old(View())) && panicked == PreviousPanics(old(View()))
    {
      panicked, out := false, None;
      if |history| > 0 {
        var id := history[|history| - 1];
        history := history[..|history| - 1];
        var found := Position(items, id);
        if found.Some? {
          currentIndex := found;
          out := Current();
          return;
        }
      }
      var prev: Option<nat> := None;
      if shuffleOrder.Some? {
        if shufflePosition > 0 {
          shufflePosition := shufflePosition - 1;
          if shufflePosition >= |shuffleOrder.value| {
            panicked := true;
            return;
          }
          prev := Some(shuffleOrder.value[shufflePosition]);
        }
      } else if currentIndex.Some? && currentIndex.value > 0 {
        prev := Some(currentIndex.value - 1);
      }
      if prev.None? {
        return;
      }
      currentIndex := prev;
      out := Current();
    }

    /** `arrangement` is what the random shuffle makes of the indices other than the current one. */
    method Shuffle(arrangement: seq<nat>)
      requires Arranges(View(), arrangement)
      modifies this`shuffleOrder, this`shufflePosition
      ensures View() == Q.Shuffle(old(View()), arrangement)
      ensures WellFormed(old(View())) ==> WellFormed(View())
    {
      if WellFormed(View()) { ShuffleCorrect(View(), arrangement); }
      var order := arrangement;
      if currentIndex.Some? {
        order := [currentIndex.value] + order;
        shufflePosition := 0;
      }
      shuffleOrder := Some(order);
    }

    method Unshuffle()
      modifies this`shuffleOrder
      ensures View() == Q.Unshuffle(old(View()))
    {
      shuffleOrder := None;
    }

    method Clear()
      modifies this
      ensures View() == Q.Clear(old(View()))
    {
      items := [];
      currentIndex := None;
      shuffleOrder := None;
      shufflePosition := 0;
    }
  }
}
