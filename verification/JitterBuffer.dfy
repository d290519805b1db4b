/** The jitter buffer as an object updated in place, and the output callback that drains it. */
module JitterBuffer {
  import opened Common
  import opened Serial
  import opened Jitter
  import opened JitterRuns

  class JitterBuffer {
    const config: Config
    var packets: map<U16, Packet>
    var nextPlaySeq: Option<U16>
    var state: BufferState
    var stats: Stats

    /** The object's fields as one value. */
    ghost function View(): Buffer
      reads this
    {
      Buffer(config, packets, nextPlaySeq, state, stats)
    }

    constructor (config: Config)
      ensures View() == New(config)
    {
      this.config := config;
      packets := map[];
      nextPlaySeq := None;
      state := Buffering;
      stats := Stats(0, 0, 0, 0, 0, 0, 0, 0);
    }

    /** The scan for the largest circular gap. */
    method DetermineStartSequence() returns (start: Option<U16>)
      ensures start == StartSequence(packets)
      ensures packets.Keys != {} && FitsWindow(packets.Keys) ==>
                start.Some? && InWindow(packets.Keys, start.value)
    {
      hide Sorted, Ascending, InWindow, FitsWindow, Ahead, Lowest;
      if packets.Keys == {} {
        return None;
      }
      StartIsEarliestIff(packets);
      var keys := Sorted(packets.Keys);
      if |keys| == 1 {
        return Some(keys[0]);
      }
      var maxGap: int, maxGapIndex: nat := 0, 0;
      for i := 0 to |keys| - 1
        invariant (maxGap, maxGapIndex) == LargestGap(keys, i)
      {
        var diff := keys[i + 1] as int - keys[i];
        if diff > maxGap {
          maxGap := diff;
          maxGapIndex := i;
        }
      }
      LargestGapIndex(keys, |keys| - 1);
      var wrapGap := keys[0] as int + 65536 - keys[|keys| - 1];
      if maxGap > wrapGap {
        start := Some(keys[maxGapIndex + 1]);
      } else {
        start := Some(keys[0]);
      }
    }

    method UpdateState()
      modifies this`state, this`nextPlaySeq, this`stats
      ensures View() == Jitter.UpdateState(old(View()))
    {
      var depth := |packets|;
      match state {
        case Buffering =>
          if depth >= config.minDepth {
            state := Playing;
            if nextPlaySeq.None? {
              nextPlaySeq := DetermineStartSequence();
            }
          }
        case Playing =>
          if depth == 0 {
            state := Underrun;
            stats := stats.(underruns := stats.underruns + 1);
          }
        case Underrun =>
          if depth >= config.minDepth {
            state := Playing;
          }
      }
      stats := stats.(currentDepth := depth);
    }

    method Insert(packet: Packet)
      modifies this
      ensures View() == Jitter.Insert(old(View()), packet)
    {
      hide Jitter.UpdateState, Jitter.Store, Jitter.MakeRoom;
      stats := stats.(received := stats.received + 1);
      if nextPlaySeq.Some? && Behind(packet.sequence, nextPlaySeq.value) {
        stats := stats.(droppedLate := stats.droppedLate + 1);
        return;
      }
      Accept(packet);
    }

    method Accept(packet: Packet)
      modifies this
      ensures View() == Jitter.UpdateState(Jitter.Store(Jitter.MakeRoom(old(View())), packet))
    {
      DropOldestIfFull();
      Keep(packet);
      UpdateState();
    }

    method DropOldestIfFull()
      modifies this`packets, this`stats
      ensures View() == Jitter.MakeRoom(old(View()))
    {
      if |packets| >= config.maxDepth {
        stats := stats.(droppedOverflow := stats.droppedOverflow + 1);
        if packets.Keys != {} {
          packets := packets - {Lowest(packets.Keys)};
        }
      }
    }

    method Keep(packet: Packet)
      modifies this`packets, this`stats
      ensures View() == Jitter.Store(old(View()), packet)
    {
      packets := packets[packet.sequence := packet];
      if |packets| > stats.maxDepthSeen {
        stats := stats.(maxDepthSeen := |packets|);
      }
    }

    method Pop() returns (out: Option<Packet>)
      modifies this
      ensures (View(), out) == Jitter.Pop(old(View()))
    {
      if state.Buffering? || nextPlaySeq.None? {
        return None;
      }
      var nextSeq := nextPlaySeq.value;
      if nextSeq in packets {
        out := Some(packets[nextSeq]);
        packets := packets - {nextSeq};
        nextPlaySeq := Some(Next(nextSeq));
        stats := stats.(played := stats.played + 1);
        UpdateState();
      } else {
        out := HandleMissingPacket(nextSeq);
      }
    }

    method HandleMissingPacket(missing: U16) returns (out: Option<Packet>)
      modifies this
      ensures (View(), out) == Jitter.HandleMissing(old(View()), missing)
    {
      stats := stats.(concealed := stats.concealed + 1);
      if packets.Keys != {} {
        var available := Lowest(packets.Keys);
        if Ahead(missing, available) < 10 {
          nextPlaySeq := Some(Next(available));
          out := Some(packets[available]);
          packets := packets - {available};
          stats := stats.(played := stats.played + 1);
          UpdateState();
          return;
        }
      }
      nextPlaySeq := Some(Next(missing));
      out := None;
    }

    method Flush()
      modifies this
      ensures View() == Jitter.Flush(old(View()))
    {
      packets := map[];
      state := Buffering;
      nextPlaySeq := None;
    }

    method FlushFromTimestamp(rtpTime: nat)
      modifies this
      ensures View() == Jitter.FlushFrom(old(View()), rtpTime)
    {
      packets := map k | k in packets && packets[k].timestamp < rtpTime :: packets[k];
      if packets.Keys == {} {
        state := Buffering;
        nextPlaySeq := None;
      }
    }

    method PruneOld(now: int)
      modifies this`packets
      ensures View() == Jitter.Prune(old(View()), now)
    {
      packets := map k | k in packets &&
                         (if now > packets[k].receivedAt then now - packets[k].receivedAt else 0) < config.maxAge
                 :: packets[k];
    }
  }

  // ---------------------------------------------------------- output callback

  /** Each packet handed out was buffered, so popping cannot go on forever. */
  lemma PopShrinks(b: Buffer)
    requires Pop(b).1.Some?
    ensures |Pop(b).0.packets| == |b.packets| - 1
  {
    var n := b.next.value;
    var k := if n in b.packets then n else Lowest(b.packets.Keys);
    RemoveOne(b.packets, k);
    assert Pop(b).0.packets == b.packets - {k};
  }

  function RoomAfter(room: nat, data: seq<Byte>): nat {
    if |data| < room then room - |data| else 0
  }

  /** The packets handed out by popping until one pop yields nothing or `room` bytes are met. */
  ghost function Drained(b: Buffer, room: nat): (ps: seq<Packet>)
    decreases |b.packets|
  {
    var (c, out) := Pop(b);
    if room == 0 || out.None? then [] else
      PopShrinks(b);
      [out.value] + Drained(c, RoomAfter(room, out.value.audioData))
  }

  /** The buffer after those pops. */
  ghost function AfterDrain(b: Buffer, room: nat): (c: Buffer)
    decreases |b.packets|
  {
    var (c, out) := Pop(b);
    if room == 0 then b else if out.None? then c else
      PopShrinks(b);
      AfterDrain(c, RoomAfter(room, out.value.audioData))
  }

  lemma DrainUnroll(b: Buffer, room: nat)
    requires room > 0
    ensures var (c, out) := Pop(b);
            && (out.None? ==> Drained(b, room) == [] && AfterDrain(b, room) == c)
            && (out.Some? ==>
                  var less := RoomAfter(room, out.value.audioData);
                  Drained(b, room) == [out.value] + Drained(c, less) && AfterDrain(b, room) == AfterDrain(c, less))
  {
  }

  ghost function AfterPops(b: Buffer, n: nat): Buffer
    decreases n
  {
    if n == 0 then b else AfterPops(Pop(b).0, n - 1)
  }

  /** The payloads handed out meet what is wanted only with the last one, or the pop after
      them finds nothing. */
  lemma {:induction false} DrainStops(b: Buffer, room: nat)
    ensures var ps := Drained(b, room);
            var last := AfterPops(b, |ps|);
            && (|Payloads(ps)| < room ==> Pop(last).1.None? && AfterDrain(b, room) == Pop(last).0)
            && (|Payloads(ps)| >= room ==> AfterDrain(b, room) == last)
            && (ps != [] ==> |Payloads(ps[..|ps| - 1])| < room)
    decreases |b.packets|
  {
    hide Pop, AfterDrain, Drained;
    if room == 0 {
      DrainNothing(b);
    } else {
      DrainUnroll(b, room);
      var (c, out) := Pop(b);
      if out.Some? {
        PopShrinks(b);
        var less := RoomAfter(room, out.value.audioData);
        var ps, rest := Drained(b, room), Drained(c, less);
        DrainStops(c, less);
        assert ps[0] == out.value && ps[1..] == rest;
        if rest == [] {
          assert ps[..0] == [];
        } else {
          assert ps[..|ps| - 1][0] == ps[0] && ps[..|ps| - 1][1..] == rest[..|rest| - 1];
        }
      }
    }
  }

  /** Every packet that was buffered either comes out or is still there. */
  lemma {:induction false} DrainSplits(b: Buffer, room: nat)
    requires WellFormed(b)
    ensures Buffered(b) == multiset(Drained(b, room)) + Buffered(AfterDrain(b, room))
    ensures WellFormed(AfterDrain(b, room))
    decreases |b.packets|
  {
    hide Drained, AfterDrain, Pop, Buffered;
    if room == 0 {
      DrainNothing(b);
    } else {
      DrainUnroll(b, room);
      PopSplits(b);
      var (c, out) := Pop(b);
      if out.Some? {
        PopShrinks(b);
        DrainSplits(c, RoomAfter(room, out.value.audioData));
      }
    }
  }

  lemma DrainNothing(b: Buffer)
    ensures Drained(b, 0) == [] && AfterDrain(b, 0) == b
  {
  }

  lemma PopSplits(b: Buffer)
    requires WellFormed(b)
    ensures var (c, out) := Pop(b);
            && WellFormed(c)
            && Buffered(b) == (if out.Some? then multiset{out.value} else multiset{}) + Buffered(c)
  {
    if !b.state.Buffering? {
      PopAdvances(b);
      var (c, out) := Pop(b);
      if out.Some? { BufferedWithout(b, c, out.value.sequence); }
    }
  }

  ghost function Payloads(ps: seq<Packet>): (bytes: seq<Byte>) {
    if ps == [] then [] else ps[0].audioData + Payloads(ps[1..])
  }

  /** The bytes the callback has to offer when `room` bytes are wanted. */
  ghost function Offered(b: Buffer, room: nat): (bytes: seq<Byte>) {
    Payloads(Drained(b, room))
  }

  lemma OfferedIs(b: Buffer, room: nat)
    ensures Offered(b, room) == Payloads(Drained(b, room))
  {
  }

  lemma OfferedStep(b: Buffer, room: nat)
    requires room > 0
    ensures var (c, out) := Pop(b);
            Offered(b, room) == if out.None? then [] else
              var data := out.value.audioData;
              data + Offered(c, RoomAfter(room, data))
  {
    var (c, out) := Pop(b);
    DrainUnroll(b, room);
    if out.Some? {
      var rest := Drained(c, RoomAfter(room, out.value.audioData));
      assert ([out.value] + rest)[1..] == rest;
    }
  }

  /** Fills an output buffer: popped payloads end to end, cut at the end of the
      buffer, then silence. Terminates because every pop that yields a packet,
      even an empty one, takes it out of the buffer. The jitter buffer is left as
      those pops leave it: the packets that did not come out are still there. */
  method FillOutput(jitter: JitterBuffer, buffer: array<Byte>) returns (written: nat)
    modifies jitter, buffer
    ensures var bytes := Offered(old(jitter.View()), buffer.Length);
            && written == Min(|bytes|, buffer.Length)
            && buffer[..] == bytes[..written] + seq(buffer.Length - written, _ => 0)
    ensures jitter.View() == AfterDrain(old(jitter.View()), buffer.Length)
    ensures WellFormed(old(jitter.View())) ==>
              Buffered(old(jitter.View()))
              == multiset(Drained(old(jitter.View()), buffer.Length)) + Buffered(jitter.View())
    ensures written < buffer.Length ==>
              Pop(AfterPops(old(jitter.View()), |Drained(old(jitter.View()), buffer.Length)|)).1.None?
  {
    hide Offered, Drained, AfterDrain, AfterPops, Payloads, WellFormed, Buffered, Pop;
    OfferedIs(jitter.View(), buffer.Length);
    DrainStops(jitter.View(), buffer.Length);
    if WellFormed(jitter.View()) { DrainSplits(jitter.View(), buffer.Length); }
    written := PopInto(jitter, buffer);
  }

  /** The callback's loop. */
  method PopInto(jitter: JitterBuffer, buffer: array<Byte>) returns (written: nat)
    modifies jitter, buffer
    ensures var bytes := Offered(old(jitter.View()), buffer.Length);
            && written == Min(|bytes|, buffer.Length)
            && buffer[..] == bytes[..written] + seq(buffer.Length - written, _ => 0)
    ensures jitter.View() == AfterDrain(old(jitter.View()), buffer.Length)
  {
    hide Offered, Drained, AfterDrain;
    written := 0;
    DrainNothing(jitter.View());
    ghost var total := Offered(jitter.View(), buffer.Length);
    while written < buffer.Length
      invariant written <= buffer.Length && written <= |total|
      invariant buffer[..written] == total[..written]
      invariant written < buffer.Length ==> total[written..] == Offered(jitter.View(), buffer.Length - written)
      invariant AfterDrain(jitter.View(), buffer.Length - written) == AfterDrain(old(jitter.View()), buffer.Length)
      decreases |jitter.packets|, buffer.Length - written
    {
      var out := Take(jitter, buffer.Length - written);
      if out.None? {
        Silence(buffer, written);
        return;
      }
      var toCopy := Min(|out.value.audioData|, buffer.Length - written);
      CopyInto(buffer, written, out.value.audioData[..toCopy]);
      Continues(total, written, out.value.audioData, toCopy);
      written := written + toCopy;
    }
    DrainNothing(jitter.View());
  }

  /** A pop, described by what it leaves to be offered. */
  method Take(jitter: JitterBuffer, ghost room: nat) returns (out: Option<Packet>)
    requires room > 0
    modifies jitter
    ensures out.None? ==>
              Offered(old(jitter.View()), room) == [] && AfterDrain(old(jitter.View()), room) == jitter.View()
    ensures out.Some? ==>
              var data := out.value.audioData;
              && Offered(old(jitter.View()), room) == data + Offered(jitter.View(), RoomAfter(room, data))
              && AfterDrain(old(jitter.View()), room) == AfterDrain(jitter.View(), RoomAfter(room, data))
              && |jitter.packets| < |old(jitter.packets)|
  {
    OfferedStep(jitter.View(), room);
    DrainUnroll(jitter.View(), room);
    ghost var before := jitter.View();
    out := jitter.Pop();
    if out.Some? { PopShrinks(before); }
  }

  lemma Continues(total: seq<Byte>, written: nat, data: seq<Byte>, n: nat)
    requires written <= |total| && n <= |data| && data <= total[written..]
    ensures total[..written + n] == total[..written] + data[..n]
    ensures n == |data| ==> total[written + n..] == total[written..][n..]
  {
  }

  method Silence(buffer: array<Byte>, from: nat)
    requires from <= buffer.Length
    modifies buffer
    ensures buffer[..] == old(buffer[..from]) + seq(buffer.Length - from, _ => 0)
  {
    for i := from to buffer.Length
      invariant buffer[..from] == old(buffer[..from])
      invariant forall j :: from <= j < i ==> buffer[j] == 0
    {
      buffer[i] := 0;
    }
  }

  method CopyInto(buffer: array<Byte>, at: nat, data: seq<Byte>)
    requires at + |data| <= buffer.Length
    modifies buffer
    ensures buffer[..at + |data|] == old(buffer[..at]) + data
  {
    forall i | 0 <= i < |data| {
      buffer[at + i] := data[i];
    }
  }
}
