/** The lock-free byte ring under one producer thread and one consumer thread.

    A call is split at every access to shared memory: each load of an atomic
    position, each byte copied, and the final store of a position is one step,
    and the two threads' steps interleave freely. `accepted` and `consumed` are
    history variables: the bytes of every published write, and the bytes of
    every published read or skip. */
module SpscRing {
  import opened Common
  import opened Modular

  datatype Request = Read(len: nat) | Peek(len: nat) | Skip(len: nat)

  datatype Producer =
    | ProducerIdle
    | SawWritePos(input: seq<Byte>, w: nat)
    | WriteSized(input: seq<Byte>, n: nat)
    | WriteCopying(input: seq<Byte>, n: nat, w: nat, done: nat)

  /** `seen` is the history length at which the loaded write position was published. */
  datatype Consumer =
    | ConsumerIdle
    | SawPublished(req: Request, w: nat, seen: nat)
    | ReadSized(req: Request, n: nat)
    | ReadCopying(req: Request, n: nat, r: nat, out: seq<Byte>)

  datatype Ring = Ring(
    capacity: nat,
    data: seq<Byte>,
    readPos: nat,
    writePos: nat,
    producer: Producer,
    consumer: Consumer,
    accepted: seq<Byte>,
    consumed: seq<Byte>)

  datatype Step =
    | BeginWrite(input: seq<Byte>)
    | SizeWrite
    | ReloadWritePos
    | CopyIn
    | PublishWrite
    | BeginConsume(req: Request)
    | SizeRead
    | ReloadReadPos
    | CopyOut
    | FinishConsume

  /** The fill level as computed from two loaded positions. */
  function Level(capacity: nat, w: nat, r: nat): (level: int) {
    if w >= r then w - r else capacity - r + w
  }

  /** The i-th slot of a copy that starts at p and continues at slot 0 when it meets the end. */
  function Slot(capacity: nat, p: nat, n: nat, i: nat): (a: nat)
    requires p <= capacity && i < n
  {
    var firstPart := Min(capacity - p, n);
    if i < firstPart then p + i else i - firstPart
  }

  /** What a consumer with the whole ring to itself would find between the two positions. */
  ghost function Contents(s: Ring): (q: seq<Byte>)
    requires Shaped(s)
  {
    seq(Level(s.capacity, s.writePos, s.readPos), i requires 0 <= i => s.data[(s.readPos + i) % s.capacity])
  }

  ghost predicate Shaped(s: Ring) {
    && s.capacity > 0 && |s.data| == s.capacity
    && s.readPos < s.capacity && s.writePos < s.capacity
  }

  function Init(capacity: nat): Ring {
    Ring(capacity, seq(capacity, _ => 0), 0, 0, ProducerIdle, ConsumerIdle, [], [])
  }

  ghost predicate Enabled(s: Ring, step: Step) {
    match step
    case BeginWrite(_) => s.producer.ProducerIdle?
    case SizeWrite => s.producer.SawWritePos?
    case ReloadWritePos => s.producer.WriteSized?
    case CopyIn =>
      && s.producer.WriteCopying? && s.producer.done < s.producer.n <= |s.producer.input|
      && s.producer.w <= s.capacity
      && Slot(s.capacity, s.producer.w, s.producer.n, s.producer.done) < |s.data|
    case PublishWrite =>
      s.producer.WriteCopying? && s.producer.done == s.producer.n <= |s.producer.input|
    case BeginConsume(_) => s.consumer.ConsumerIdle?
    case SizeRead => s.consumer.SawPublished?
    case ReloadReadPos => s.consumer.ReadSized?
    case CopyOut =>
      && s.consumer.ReadCopying? && !s.consumer.req.Skip? && |s.consumer.out| < s.consumer.n
      && s.consumer.r <= s.capacity
      && Slot(s.capacity, s.consumer.r, s.consumer.n, |s.consumer.out|) < |s.data|
    case FinishConsume =>
      s.consumer.ReadCopying? && (s.consumer.req.Skip? || |s.consumer.out| == s.consumer.n)
  }

  /** One atomic step. A call whose size comes out as zero returns at once, except `skip`. */
  ghost function Do(s: Ring, step: Step): Ring
    requires Shaped(s) && Enabled(s, step)
  {
    match step
    case BeginWrite(input) => s.(producer := SawWritePos(input, s.writePos))
    case SizeWrite =>
      var free := s.capacity - Level(s.capacity, s.producer.w, s.readPos) - 1;
      var n := if free < 0 then 0 else Min(|s.producer.input|, free);
      s.(producer := if n == 0 then ProducerIdle else WriteSized(s.producer.input, n))
    case ReloadWritePos => s.(producer := WriteCopying(s.producer.input, s.producer.n, s.writePos, 0))
    case CopyIn =>
      var p := s.producer;
      s.(data := s.data[Slot(s.capacity, p.w, p.n, p.done) := p.input[p.done]],
         producer := p.(done := p.done + 1))
    case PublishWrite =>
      var p := s.producer;
      s.(writePos := (p.w + p.n) % s.capacity,
         producer := ProducerIdle,
         accepted := s.accepted + p.input[..p.n])
    case BeginConsume(req) => s.(consumer := SawPublished(req, s.writePos, |s.accepted|))
    case SizeRead =>
      var level := Level(s.capacity, s.consumer.w, s.readPos);
      var n := if level < 0 then 0 else Min(s.consumer.req.len, level);
      s.(consumer := if n == 0 && !s.consumer.req.Skip? then ConsumerIdle else ReadSized(s.consumer.req, n))
    case ReloadReadPos => s.(consumer := ReadCopying(s.consumer.req, s.consumer.n, s.readPos, []))
    case CopyOut =>
      var c := s.consumer;
      s.(consumer := c.(out := c.out + [s.data[Slot(s.capacity, c.r, c.n, |c.out|)]]))
    case FinishConsume =>
      var c := s.consumer;
      if c.req.Peek? then s.(consumer := ConsumerIdle) else
        s.(readPos := (c.r + c.n) % s.capacity,
           consumer := ConsumerIdle,
           consumed := s.consumed + if c.req.Read? then c.out
                                    else seq(c.n, i requires 0 <= i => s.data[(s.readPos + i) % s.capacity]))
  }

  /** Runs: every prefix of every interleaving of the two threads. */
  ghost predicate IsRun(s: Ring, steps: seq<Step>, t: Ring)
    decreases |steps|
  {
    if steps == [] then t == s
    else Shaped(s) && Enabled(s, steps[0]) && IsRun(Do(s, steps[0]), steps[1..], t)
  }

  // ---------------------------------------------------------------- invariant

  ghost predicate Counters(s: Ring) {
    && Shaped(s)
    && |s.consumed| <= |s.accepted| < |s.consumed| + s.capacity
    && s.readPos == |s.consumed| % s.capacity
    && s.writePos == |s.accepted| % s.capacity
  }

  ghost predicate Stored(s: Ring)
    requires Counters(s)
  {
    && s.consumed == s.accepted[..|s.consumed|]
    && forall k :: |s.consumed| <= k < |s.accepted| ==> s.data[k % s.capacity] == s.accepted[k]
  }

  ghost predicate ProducerOk(s: Ring)
    requires Counters(s)
  {
    var fill := |s.accepted| - |s.consumed|;
    match s.producer
    case ProducerIdle => true
    case SawWritePos(_, w) => w == s.writePos
    case WriteSized(input, n) => 0 < n <= |input| && fill + n < s.capacity
    case WriteCopying(input, n, w, done) =>
      && 0 < n <= |input| && fill + n < s.capacity && w == s.writePos && done <= n
      && forall j :: 0 <= j < done ==> s.data[(|s.accepted| + j) % s.capacity] == input[j]
  }

  ghost predicate ConsumerOk(s: Ring)
    requires Counters(s)
  {
    var fill := |s.accepted| - |s.consumed|;
    match s.consumer
    case ConsumerIdle => true
    case SawPublished(_, w, seen) => |s.consumed| <= seen <= |s.accepted| && w == seen % s.capacity
    case ReadSized(req, n) => n <= fill
    case ReadCopying(req, n, r, out) =>
      && n <= fill && r == s.readPos && |out| <= n
      && out == s.accepted[|s.consumed|..|s.consumed| + |out|]
  }

  ghost predicate Inv(s: Ring) {
    Counters(s) && Stored(s) && ProducerOk(s) && ConsumerOk(s)
  }

  /** The two-branch level formula recovers a distance below one lap from two remainders. */
  lemma LevelIsDistance(capacity: nat, from: nat, to: nat)
    requires capacity > 0 && from <= to < from + capacity
    ensures Level(capacity, to % capacity, from % capacity) == to - from
  {
    ModAdd(from, to - from, capacity);
    Wrap(from % capacity, to - from, capacity);
  }

  /** A split copy visits consecutive slots modulo the capacity. */
  lemma SlotIsOffset(capacity: nat, at: nat, n: nat, i: nat)
    requires capacity > 0 && i < n <= capacity
    ensures Slot(capacity, at % capacity, n, i) == (at + i) % capacity
  {
    ModAdd(at, i, capacity);
    Wrap(at % capacity, i, capacity);
  }

  lemma NextPos(capacity: nat, at: nat, n: nat)
    requires capacity > 0
    ensures (at % capacity + n) % capacity == (at + n) % capacity
  {
    ModAdd(at, n, capacity);
  }

  lemma InitInv(capacity: nat)
    requires capacity > 0
    ensures Inv(Init(capacity))
  {
  }

  lemma CopyInKeeps(s: Ring)
    requires Inv(s) && Enabled(s, CopyIn)
    ensures Inv(Do(s, CopyIn))
  {
    var p := s.producer;
    var W := |s.accepted|;
    var slot := Slot(s.capacity, p.w, p.n, p.done);
    SlotIsOffset(s.capacity, W, p.n, p.done);
    var t := Do(s, CopyIn);
    forall k | |s.consumed| <= k < W
      ensures t.data[k % s.capacity] == s.accepted[k]
    {
      if k % s.capacity == slot { SameSlot(k, W + p.done, s.capacity); }
    }
    forall j | 0 <= j < p.done + 1
      ensures t.data[(W + j) % s.capacity] == p.input[j]
    {
      if j < p.done && (W + j) % s.capacity == slot { SameSlot(W + j, W + p.done, s.capacity); }
    }
  }

  lemma PublishWriteKeeps(s: Ring)
    requires Inv(s) && Enabled(s, PublishWrite)
    ensures Inv(Do(s, PublishWrite))
  {
    var p := s.producer;
    NextPos(s.capacity, |s.accepted|, p.n);
    var t := Do(s, PublishWrite);
    forall k | |t.consumed| <= k < |t.accepted|
      ensures t.data[k % s.capacity] == t.accepted[k]
    {
      if k >= |s.accepted| {
        var j := k - |s.accepted|;
        assert s.data[(|s.accepted| + j) % s.capacity] == p.input[j];
      }
    }
  }

  lemma CopyOutKeeps(s: Ring)
    requires Inv(s) && Enabled(s, CopyOut)
    ensures Inv(Do(s, CopyOut))
  {
    var c := s.consumer;
    var k := |s.consumed| + |c.out|;
    SlotIsOffset(s.capacity, |s.consumed|, c.n, |c.out|);
    assert s.data[k % s.capacity] == s.accepted[k];
  }

  lemma FinishConsumeKeeps(s: Ring)
    requires Inv(s) && Enabled(s, FinishConsume)
    ensures Inv(Do(s, FinishConsume))
  {
    var c := s.consumer;
    if !c.req.Peek? {
      NextPos(s.capacity, |s.consumed|, c.n);
      ContentsIsUnread(s);
      assert Do(s, FinishConsume).consumed == s.consumed + s.accepted[|s.consumed|..|s.consumed| + c.n];
    }
  }

  lemma SizingKeeps(s: Ring, step: Step)
    requires Inv(s) && Enabled(s, step) && (step.SizeWrite? || step.SizeRead?)
    ensures Inv(Do(s, step))
  {
    LevelIsDistance(s.capacity, |s.consumed|, if step.SizeWrite? then |s.accepted| else s.consumer.seen);
  }

  /** A write takes all that fits when it loads the read position; a read takes all
      that had been published when it loaded the write position. */
  lemma SizesAreExact(s: Ring)
    requires Inv(s)
    ensures s.producer.SawWritePos? ==>
              var n := Min(|s.producer.input|, s.capacity - 1 - (|s.accepted| - |s.consumed|));
              Do(s, SizeWrite).producer == if n == 0 then ProducerIdle else WriteSized(s.producer.input, n)
    ensures s.consumer.SawPublished? && !s.consumer.req.Skip? ==>
              var n := Min(s.consumer.req.len, s.consumer.seen - |s.consumed|);
              Do(s, SizeRead).consumer == if n == 0 then ConsumerIdle else ReadSized(s.consumer.req, n)
    ensures s.consumer.SawPublished? && s.consumer.req.Skip? ==>
              var n := Min(s.consumer.req.len, s.consumer.seen - |s.consumed|);
              Do(s, SizeRead).consumer == ReadSized(s.consumer.req, n)
  {
    LevelIsDistance(s.capacity, |s.consumed|, |s.accepted|);
    if s.consumer.SawPublished? { LevelIsDistance(s.capacity, |s.consumed|, s.consumer.seen); }
  }

  lemma StepKeepsInv(s: Ring, step: Step)
    requires Inv(s) && Enabled(s, step)
    ensures Inv(Do(s, step))
  {
    match step
    case SizeWrite => SizingKeeps(s, step);
    case SizeRead => SizingKeeps(s, step);
    case CopyIn => CopyInKeeps(s);
    case PublishWrite => PublishWriteKeeps(s);
    case CopyOut => CopyOutKeeps(s);
    case FinishConsume => FinishConsumeKeeps(s);
    case _ =>
  }

  lemma ContentsIsUnread(s: Ring)
    requires Counters(s) && Stored(s)
    ensures Contents(s) == s.accepted[|s.consumed|..]
  {
    var R := |s.consumed|;
    LevelIsDistance(s.capacity, R, |s.accepted|);
    forall i | 0 <= i < |s.accepted| - R
      ensures Contents(s)[i] == s.accepted[R + i]
    {
      ModAdd(R, i, s.capacity);
      assert s.data[(R + i) % s.capacity] == s.accepted[R + i];
    }
  }

  // ------------------------------------------------------------- main results

  lemma {:induction false} RunKeepsInv(s: Ring, steps: seq<Step>, t: Ring)
    requires Inv(s) && IsRun(s, steps, t)
    ensures Inv(t)
    decreases |steps|
  {
    if steps != [] {
      StepKeepsInv(s, steps[0]);
      RunKeepsInv(Do(s, steps[0]), steps[1..], t);
    }
  }

  /** Whatever the interleaving, the bytes taken out followed by the bytes still
      in the ring are the bytes put in, in order, and the ring never overfills. */
  lemma NothingLostOrReordered(capacity: nat, steps: seq<Step>, t: Ring)
    requires capacity > 0 && IsRun(Init(capacity), steps, t)
    ensures Shaped(t) && t.consumed + Contents(t) == t.accepted
    ensures |Contents(t)| <= t.capacity - 1
  {
    InitInv(capacity);
    RunKeepsInv(Init(capacity), steps, t);
    ContentsIsUnread(t);
  }

  lemma PublishAppends(s: Ring)
    requires Inv(s) && Enabled(s, PublishWrite)
    ensures Inv(Do(s, PublishWrite))
    ensures Contents(Do(s, PublishWrite)) == Contents(s) + s.producer.input[..s.producer.n]
  {
    PublishWriteKeeps(s);
    ContentsIsUnread(s);
    ContentsIsUnread(Do(s, PublishWrite));
  }

  lemma FinishDequeues(s: Ring)
    requires Inv(s) && Enabled(s, FinishConsume)
    ensures Inv(Do(s, FinishConsume)) && s.consumer.n <= |Contents(s)|
    ensures !s.consumer.req.Skip? ==> s.consumer.out == Contents(s)[..s.consumer.n]
    ensures !s.consumer.req.Peek? ==>
              && Contents(Do(s, FinishConsume)) == Contents(s)[s.consumer.n..]
              && Do(s, FinishConsume).consumed == s.consumed + Contents(s)[..s.consumer.n]
  {
    FinishConsumeKeeps(s);
    ContentsIsUnread(s);
    ContentsIsUnread(Do(s, FinishConsume));
  }

  /** Steps that only touch a thread's own variables or an unpublished slot. */
  ghost predicate Internal(s: Ring, step: Step)
    requires Enabled(s, step)
  {
    !step.PublishWrite? && (step.FinishConsume? ==> s.consumer.req.Peek?)
  }

  lemma InternalStutters(s: Ring, step: Step)
    requires Inv(s) && Enabled(s, step) && Internal(s, step)
    ensures Inv(Do(s, step))
    ensures Contents(Do(s, step)) == Contents(s) && Do(s, step).consumed == s.consumed
  {
    StepKeepsInv(s, step);
    ContentsIsUnread(s);
    ContentsIsUnread(Do(s, step));
  }

  /** One step of an unbounded queue with a record of what was taken from it. */
  ghost predicate QueueStep(q: seq<Byte>, taken: seq<Byte>, q': seq<Byte>, taken': seq<Byte>) {
    || (q' == q && taken' == taken)
    || (q <= q' && taken' == taken)
    || (taken <= taken' && taken + q == taken' + q')
  }

  /** Seen through `Contents`, every step of the split protocol is one step of an
      unbounded queue; the three lemmas above say which one. */
  lemma StepRefinesQueue(s: Ring, step: Step)
    requires Inv(s) && Enabled(s, step)
    ensures Inv(Do(s, step))
    ensures QueueStep(Contents(s), s.consumed, Contents(Do(s, step)), Do(s, step).consumed)
  {
    if Internal(s, step) {
      InternalStutters(s, step);
    } else if step.PublishWrite? {
      PublishAppends(s);
    } else {
      FinishDequeues(s);
    }
  }

  /** The k-th readable slot. */
  ghost function ReadableSlot(s: Ring, k: nat): (a: nat)
    requires s.capacity > 0
  {
    (s.readPos + k) % s.capacity
  }

  lemma WritesAvoidReadable(s: Ring, i: nat, k: nat)
    requires Inv(s) && s.producer.WriteCopying? && i < s.producer.n && k < |Contents(s)|
    ensures Slot(s.capacity, s.producer.w, s.producer.n, i) != ReadableSlot(s, k)
  {
    var R, W := |s.consumed|, |s.accepted|;
    ContentsIsUnread(s);
    SlotIsOffset(s.capacity, W, s.producer.n, i);
    ModAdd(R, k, s.capacity);
    if (R + k) % s.capacity == (W + i) % s.capacity {
      SameSlot(R + k, W + i, s.capacity);
      assert false;
    }
  }

  lemma ReadsStayReadable(s: Ring, i: nat)
    requires Inv(s) && s.consumer.ReadCopying? && i < s.consumer.n
    ensures i < |Contents(s)| && Slot(s.capacity, s.consumer.r, s.consumer.n, i) == ReadableSlot(s, i)
  {
    ContentsIsUnread(s);
    SlotIsOffset(s.capacity, |s.consumed|, s.consumer.n, i);
    ModAdd(|s.consumed|, i, s.capacity);
  }

  /** Steps of the producer alone. */
  ghost predicate ByProducer(steps: seq<Step>) {
    forall i :: 0 <= i < |steps| ==>
      || steps[i].BeginWrite? || steps[i].SizeWrite? || steps[i].ReloadWritePos?
      || steps[i].CopyIn? || steps[i].PublishWrite?
  }

  lemma {:induction false} ProducerLeavesConsumer(s: Ring, steps: seq<Step>, t: Ring)
    requires Inv(s) && IsRun(s, steps, t) && ByProducer(steps)
    ensures Inv(t) && t.consumer == s.consumer && t.consumed == s.consumed && t.capacity == s.capacity
    decreases |steps|
  {
    if steps != [] {
      StepKeepsInv(s, steps[0]);
      assert ByProducer(steps[1..]);
      ProducerLeavesConsumer(Do(s, steps[0]), steps[1..], t);
    }
  }

  /** A read or a peek is sized to everything published when it began, or to what it asked for,
      whatever the producer does before it is sized: no byte there is overlooked. */
  lemma ReadFindsAll(s: Ring, req: Request, steps: seq<Step>, t: Ring)
    requires Inv(s) && s.consumer.ConsumerIdle? && !req.Skip?
    requires ByProducer(steps) && IsRun(Do(s, BeginConsume(req)), steps, t)
    ensures var n := Min(req.len, |s.accepted| - |s.consumed|);
            && Inv(t) && Enabled(t, SizeRead)
            && Do(t, SizeRead).consumer == if n == 0 then ConsumerIdle else ReadSized(req, n)
  {
    StepKeepsInv(s, BeginConsume(req));
    ProducerLeavesConsumer(Do(s, BeginConsume(req)), steps, t);
    SizesAreExact(t);
  }

  /** In every reachable state the slots a write call has filled or will fill lie
      outside the readable region, and the slots a read call copies from lie inside it. */
  lemma CopiesNeverOverlap(capacity: nat, steps: seq<Step>, t: Ring)
    requires capacity > 0 && IsRun(Init(capacity), steps, t)
    ensures Inv(t)
    ensures t.producer.WriteCopying? ==>
              forall i: nat, k: nat :: i < t.producer.n && k < |Contents(t)| ==>
                Slot(t.capacity, t.producer.w, t.producer.n, i) != ReadableSlot(t, k)
    ensures t.consumer.ReadCopying? ==>
              && t.consumer.n <= |Contents(t)|
              && forall i: nat :: i < t.consumer.n ==>
                   Slot(t.capacity, t.consumer.r, t.consumer.n, i) == ReadableSlot(t, i)
  {
    InitInv(capacity);
    RunKeepsInv(Init(capacity), steps, t);
    if t.producer.WriteCopying? {
      forall i: nat, k: nat | i < t.producer.n && k < |Contents(t)|
        ensures Slot(t.capacity, t.producer.w, t.producer.n, i) != ReadableSlot(t, k)
      {
        WritesAvoidReadable(t, i, k);
      }
    }
    if t.consumer.ReadCopying? {
      ContentsIsUnread(t);
      forall i: nat | i < t.consumer.n
        ensures Slot(t.capacity, t.consumer.r, t.consumer.n, i) == ReadableSlot(t, i)
      {
        ReadsStayReadable(t, i);
      }
    }
  }

  /** Neither thread can get stuck: a started call always has a next step. */
  lemma CallsNeverBlock(s: Ring)
    requires Inv(s)
    ensures !s.producer.ProducerIdle? ==>
              exists step: Step :: !step.BeginWrite? && Enabled(s, step) && Do(s, step).producer != s.producer
    ensures !s.consumer.ConsumerIdle? ==>
              exists step: Step :: !step.BeginConsume? && Enabled(s, step) && Do(s, step).consumer != s.consumer
  {
    match s.producer {
    case ProducerIdle =>
    case SawWritePos(_, _) => assert Do(s, SizeWrite).producer != s.producer;
    case WriteSized(_, _) => assert Do(s, ReloadWritePos).producer != s.producer;
    case WriteCopying(_, n, _, done) =>
      if done < n {
        SlotIsOffset(s.capacity, |s.accepted|, n, done);
        assert Do(s, CopyIn).producer != s.producer;
      } else {
        assert Do(s, PublishWrite).producer != s.producer;
      }
    }
    match s.consumer
    case ConsumerIdle =>
    case SawPublished(_, _, _) => assert Do(s, SizeRead).consumer != s.consumer;
    case ReadSized(_, _) => assert Do(s, ReloadReadPos).consumer != s.consumer;
    case ReadCopying(req, n, _, out) =>
      if !req.Skip? && |out| < n {
        SlotIsOffset(s.capacity, |s.consumed|, n, |out|);
        assert Do(s, CopyOut).consumer != s.consumer;
      } else {
        assert Do(s, FinishConsume).consumer != s.consumer;
      }
  }
}
