/** How often the streamer asks its source, how a tick ends, and when a packet is padded. */
module PcmPadding {
  import opened Common
  import opened PcmStream

  // ---------------------------------------------------------------- single steps

  /** The initial fill stops at three quarters of the capacity, at an empty read or at a
      failed one, whichever comes first, and reads nothing it does not need. */
  lemma {:induction false} FillStops(c: Config, feed: Feed, s: Stream)
    requires |s.ring| < c.capacity
    ensures var (t, ok) := Fill(c, feed, s);
            && t.packets == s.packets && t.readCount >= s.readCount
            && (ok <==> t.readCount == s.readCount || feed(t.readCount - 1).Data?)
            && (|t.ring| >= c.capacity * 3 / 4
                || (t.readCount > s.readCount && (!ok || feed(t.readCount - 1) == Data([]))))
            && (|s.ring| >= c.capacity * 3 / 4 ==> t == s)
            && forall i :: s.readCount <= i < t.readCount - 1 ==> feed(i).Data? && feed(i).bytes != []
    decreases c.capacity - |s.ring|
  {
    if |s.ring| < High(c) {
      var r := feed(s.readCount);
      if r.Data? && r.bytes != [] {
        FillStops(c, feed, s.(ring := Put(c, s.ring, r.bytes), readCount := s.readCount + 1));
      }
    }
  }

  /** A tick forms one packet unless the ring is empty and the source gives nothing. */
  predicate HasAudio(feed: Feed, s: Stream) {
    s.ring != [] || (feed(s.readCount).Data? && feed(s.readCount).bytes != [])
  }

  /** The four outcomes of a tick, and when each occurs. */
  lemma TickOutcomes(c: Config, feed: Feed, s: Stream, sendOk: bool)
    requires Sane(c) && |s.ring| < c.capacity
    ensures var (t, outcome) := Tick(c, feed, s, sendOk);
            && (outcome.Sent? <==> HasAudio(feed, s) && sendOk)
            && (outcome.SendFailed? <==> HasAudio(feed, s) && !sendOk)
            && (outcome.Finished? <==> s.ring == [] && feed(s.readCount) == Data([]))
            && (outcome.SourceFailed? <==> s.ring == [] && feed(s.readCount).Failed?)
            && |t.packets| == |s.packets| + (if HasAudio(feed, s) then 1 else 0)
            && s.packets <= t.packets
  {
  }

  /** A tick over a ring with audio asks the source once more, exactly when the packet sent
      leaves less than a quarter of the capacity. */
  lemma TickReads(c: Config, feed: Feed, s: Stream, sendOk: bool)
    requires Sane(c) && |s.ring| < c.capacity && s.ring != []
    ensures var (t, outcome) := Tick(c, feed, s, sendOk);
            var left := |s.ring| - Min(c.packet, |s.ring|);
            && t.readCount == s.readCount + (if sendOk && left < c.capacity / 4 then 1 else 0)
            && |t.packets| == |s.packets| + 1 && t.packets[|s.packets|].used == Min(c.packet, |s.ring|)
  {
  }

  /** A run goes on where it stands as long as everything is sent, one packet a tick, and
      nothing more happens after the first outcome that is not Sent. */
  lemma {:induction false} LoopGoesOn(c: Config, feed: Feed, s: Stream, early: seq<bool>, late: seq<bool>)
    requires Sane(c) && |s.ring| < c.capacity
    ensures var (t, outcome) := Loop(c, feed, s, early);
            && Loop(c, feed, s, early + late) == (if outcome.Sent? then Loop(c, feed, t, late) else (t, outcome))
            && (outcome.Sent? ==> |t.packets| == |s.packets| + |early|)
    decreases |early|
  {
    if early == [] {
      assert early + late == late;
    } else {
      TickOutcomes(c, feed, s, early[0]);
      hide Tick;
      assert (early + late)[0] == early[0] && (early + late)[1..] == early[1..] + late;
      var (t, outcome) := Tick(c, feed, s, early[0]);
      if outcome.Sent? { LoopGoesOn(c, feed, t, early[1..], late); }
    }
  }

  // --------------------------------------------------------------------- padding

  /** Packet k carries less audio than it could. */
  predicate PaddedAt(c: Config, s: Stream, k: nat) {
    k < |s.packets| && s.packets[k].used < c.packet
  }

  ghost predicate Unpadded(c: Config, s: Stream) {
    forall k :: 0 <= k < |s.packets| ==> s.packets[k].used == c.packet
  }

  /** Every read so far gave at least m bytes. */
  ghost predicate GaveAtLeast(feed: Feed, n: nat, m: nat) {
    forall i :: 0 <= i < n ==> feed(i).Data? && |feed(i).bytes| >= m
  }

  lemma EnoughRoom(c: Config)
    requires Sane(c) && Roomy(c)
    ensures c.packet <= c.capacity / 4 && c.packet <= High(c) && 0 < High(c) < c.capacity
  {
  }

  lemma PutFits(c: Config, ring: Bytes, x: Bytes)
    requires |ring| < c.capacity && |ring| + |x| < c.capacity
    ensures |Put(c, ring, x)| == |ring| + |x|
  {
  }

  /** After a tick over at least a packet's worth, whose refill is at least a packet's worth,
      there is at least a packet's worth again. */
  lemma TickStaysFull(c: Config, feed: Feed, s: Stream, sendOk: bool)
    requires Sane(c) && Roomy(c) && Bounded(c, feed) && c.packet <= |s.ring| < c.capacity && Unpadded(c, s)
    requires var t := Tick(c, feed, s, sendOk).0; forall i :: s.readCount <= i < t.readCount ==>
               feed(i).Data? && |feed(i).bytes| >= c.packet
    ensures var (t, outcome) := Tick(c, feed, s, sendOk);
            Unpadded(c, t) && (outcome.Sent? ==> c.packet <= |t.ring|) && (outcome.Sent? || outcome.SendFailed?)
  {
    EnoughRoom(c);
    TickReads(c, feed, s, sendOk);
    TickOutcomes(c, feed, s, sendOk);
    var left := |s.ring| - c.packet;
    if sendOk {
      RefillLength(c, feed, FormPacket(c, s));
    }
    hide Bounded, Put;
  }

  lemma RefillLength(c: Config, feed: Feed, s: Stream)
    requires Sane(c) && Roomy(c) && Bounded(c, feed) && |s.ring| < c.capacity
    ensures var r := feed(s.readCount);
            |Refill(c, feed, s).ring|
            == |s.ring| + if |s.ring| < c.capacity / 4 && r.Data? then |r.bytes| else 0
  {
    var r := feed(s.readCount);
    if |s.ring| < c.capacity / 4 && r.Data? { PutFits(c, s.ring, r.bytes); }
  }

  lemma {:induction false} LoopUnpadded(c: Config, feed: Feed, s: Stream, sends: seq<bool>)
    requires Sane(c) && Roomy(c) && Bounded(c, feed) && c.packet <= |s.ring| < c.capacity && Unpadded(c, s)
    requires GaveAtLeast(feed, Loop(c, feed, s, sends).0.readCount, c.packet)
    ensures Unpadded(c, Loop(c, feed, s, sends).0)
    ensures Loop(c, feed, s, sends).1.Sent? || Loop(c, feed, s, sends).1.SendFailed?
    decreases |sends|
  {
    if sends != [] {
      var (t, outcome) := Tick(c, feed, s, sends[0]);
      hide Tick, Bounded, Roomy;
      if outcome.Sent? { LoopReadsOn(c, feed, t, sends[1..]); }
      TickStaysFull(c, feed, s, sends[0]);
      if outcome.Sent? { LoopUnpadded(c, feed, t, sends[1..]); }
    }
  }

  lemma {:induction false} LoopReadsOn(c: Config, feed: Feed, s: Stream, sends: seq<bool>)
    requires Sane(c) && |s.ring| < c.capacity
    ensures Loop(c, feed, s, sends).0.readCount >= s.readCount
    decreases |sends|
  {
    if sends != [] {
      TickReadsOn(c, feed, s, sends[0]);
      hide Tick;
      var (t, outcome) := Tick(c, feed, s, sends[0]);
      if outcome.Sent? { LoopReadsOn(c, feed, t, sends[1..]); }
    }
  }

  lemma TickReadsOn(c: Config, feed: Feed, s: Stream, sendOk: bool)
    requires Sane(c) && |s.ring| < c.capacity
    ensures Tick(c, feed, s, sendOk).0.readCount >= s.readCount
  {
  }

  /** As long as every read gives at least a packet's worth, no packet is padded and the
      stream goes on: padding in mid-stream is never the streamer's own doing. */
  lemma PaddedOnlyAfterShortRead(c: Config, feed: Feed, sends: seq<bool>)
    requires Sane(c) && Roomy(c) && Bounded(c, feed)
    requires GaveAtLeast(feed, Run(c, feed, sends).0.readCount, c.packet)
    ensures Unpadded(c, Run(c, feed, sends).0)
    ensures Run(c, feed, sends).1.Sent? || Run(c, feed, sends).1.SendFailed?
  {
    var start := Stream([], 0, []);
    FillStops(c, feed, start);
    EnoughRoom(c);
    var (s, ok) := Fill(c, feed, start);
    hide Fill, Bounded, Roomy;
    if ok {
      LoopReadsOn(c, feed, s, sends);
      assert |s.ring| >= c.packet;
      LoopUnpadded(c, feed, s, sends);
    }
  }

  // --------------------------------------------------------------- exact condition

  /** A source that gives m bytes at every read. */
  function Steady(m: nat): Feed {
    _ => Data(seq(m, _ => 0))
  }

  lemma SteadyGives(c: Config, m: nat)
    requires m <= 4 * c.packet
    ensures Bounded(c, Steady(m)) && forall n :: GaveAtLeast(Steady(m), n, m)
  {
  }

  /** A tick of a source slower than playback: padded, or the ring is shorter afterwards. */
  lemma SlowTick(c: Config, m: nat, s: Stream)
    requires Sane(c) && Roomy(c) && 0 < m < c.packet && |s.ring| < c.capacity
    ensures var (t, outcome) := Tick(c, Steady(m), s, true);
            && outcome.Sent? && s.packets <= t.packets
            && (PaddedAt(c, t, |s.packets|) || (s.ring != [] && |t.ring| < |s.ring|))
  {
    EnoughRoom(c);
    SteadyGives(c, m);
    TickOutcomes(c, Steady(m), s, true);
    if s.ring != [] {
      TickReads(c, Steady(m), s, true);
      RefillLength(c, Steady(m), FormPacket(c, s));
    } else {
      PutFits(c, [], seq(m, _ => 0));
    }
    hide Bounded, Put;
  }

  /** Ticks of a slow source never fail. */
  lemma {:induction false} SlowLoopPads(c: Config, m: nat, s: Stream) returns (sends: seq<bool>, k: nat)
    requires Sane(c) && Roomy(c) && 0 < m < c.packet && |s.ring| < c.capacity
    ensures PaddedAt(c, Loop(c, Steady(m), s, sends).0, k)
    decreases |s.ring|
  {
    hide Tick, Roomy;
    SlowTick(c, m, s);
    var t := Tick(c, Steady(m), s, true).0;
    if PaddedAt(c, t, |s.packets|) {
      sends, k := [true], |s.packets|;
      assert [true][1..] == [];
      assert Loop(c, Steady(m), t, []) == (t, Sent);
    } else {
      var rest: seq<bool>;
      rest, k := SlowLoopPads(c, m, t);
      sends := [true] + rest;
      assert sends[1..] == rest;
    }
  }

  lemma SlowRunPads(c: Config, m: nat)
    requires Sane(c) && Roomy(c) && 0 < m < c.packet
    ensures exists sends :: !Unpadded(c, Run(c, Steady(m), sends).0)
  {
    var start := Stream([], 0, []);
    FillStops(c, Steady(m), start);
    var (s, ok) := Fill(c, Steady(m), start);
    hide Fill;
    var sends, k := SlowLoopPads(c, m, s);
    assert Run(c, Steady(m), sends) == Loop(c, Steady(m), s, sends);
    hide Run;
    assert !Unpadded(c, Run(c, Steady(m), sends).0);
  }

  /** No run of a roomy streamer pads a packet, whatever source gives at least m bytes at every
      read, exactly when m is at least a packet's worth (or a packet is a single byte). */
  lemma UnpaddedIff(c: Config, m: nat)
    requires Sane(c) && Roomy(c) && m <= 4 * c.packet
    ensures (forall feed: Feed, sends: seq<bool> ::
               Bounded(c, feed) && GaveAtLeast(feed, Run(c, feed, sends).0.readCount, m)
               ==> Unpadded(c, Run(c, feed, sends).0))
            <==> m >= c.packet || c.packet == 1
  {
    if m >= c.packet {
      forall feed: Feed, sends: seq<bool> |
        Bounded(c, feed) && GaveAtLeast(feed, Run(c, feed, sends).0.readCount, m)
        ensures Unpadded(c, Run(c, feed, sends).0)
      {
        hide Run, Bounded, Unpadded;
        PaddedOnlyAfterShortRead(c, feed, sends);
      }
    } else if c.packet == 1 {
      forall feed: Feed, sends: seq<bool> |
        Bounded(c, feed) && GaveAtLeast(feed, Run(c, feed, sends).0.readCount, m)
        ensures Unpadded(c, Run(c, feed, sends).0)
      {
        NeverEmpty(c, feed, sends);
      }
    } else {
      var slow := if m == 0 then 1 else m;
      SlowRunPads(c, slow);
      hide Run, Unpadded;
      var sends :| !Unpadded(c, Run(c, Steady(slow), sends).0);
      SteadyGives(c, slow);
      assert GaveAtLeast(Steady(slow), Run(c, Steady(slow), sends).0.readCount, m);
    }
  }

  /** A packet is only formed when there is audio. */
  lemma {:induction false} LoopNeverEmpty(c: Config, feed: Feed, s: Stream, sends: seq<bool>)
    requires Sane(c) && Roomy(c) && c.packet == 1 && |s.ring| < c.capacity && Unpadded(c, s)
    ensures Unpadded(c, Loop(c, feed, s, sends).0)
    decreases |sends|
  {
    if sends != [] {
      TickNeverEmpty(c, feed, s, sends[0]);
      hide Tick;
      var (t, outcome) := Tick(c, feed, s, sends[0]);
      if outcome.Sent? { LoopNeverEmpty(c, feed, t, sends[1..]); }
    }
  }

  lemma TickNeverEmpty(c: Config, feed: Feed, s: Stream, sendOk: bool)
    requires Sane(c) && Roomy(c) && c.packet == 1 && |s.ring| < c.capacity && Unpadded(c, s)
    ensures Unpadded(c, Tick(c, feed, s, sendOk).0)
  {
    EnoughRoom(c);
  }

  lemma NeverEmpty(c: Config, feed: Feed, sends: seq<bool>)
    requires Sane(c) && Roomy(c) && c.packet == 1
    ensures Unpadded(c, Run(c, feed, sends).0)
  {
    var start := Stream([], 0, []);
    FillStops(c, feed, start);
    var (s, ok) := Fill(c, feed, start);
    hide Fill;
    if ok { LoopNeverEmpty(c, feed, s, sends); }
  }

  // ----------------------------------------------------------------- frame counts

  /** For frames of b bytes, exactly the buffers of more than 5632 frames less four bytes are roomy. */
  lemma RoomyFramesIff(bufferFrames: nat, bytesPerFrame: nat)
    requires bytesPerFrame > 0
    ensures Roomy(ForFrames(bufferFrames, bytesPerFrame))
            <==> bufferFrames * bytesPerFrame + 4 > 5632 * bytesPerFrame
  {
  }
}
