/** The PCM streamer's loops over the real ring, proved against the byte-flow functions. */
module PcmStreamer {
  import opened Common
  import opened RingBuffer
  import opened PcmStream

  /** An audio source that answers from a script of unlimited length. */
  class AudioSource {
    const feed: Feed
    var position: nat

    constructor (feed: Feed)
      ensures this.feed == feed && position == 0
    {
      this.feed := feed;
      position := 0;
    }

    method Next() returns (r: Read)
      modifies this`position
      ensures r == feed(old(position)) && position == old(position) + 1
    {
      r := feed(position);
      position := position + 1;
    }
  }

  class PcmStreamer {
    const config: Config
    const buffer: AudioRingBuffer
    const source: AudioSource
    const packetData: array<Byte>
    var packets: seq<Packet>

    ghost predicate Valid()
      reads this, buffer
    {
      && Sane(config) && buffer.Valid() && buffer.capacity == config.capacity
      && packetData.Length == config.packet && packetData != buffer.data
    }

    ghost function View(): Stream
      requires Valid()
      reads this, buffer, buffer.data, source
    {
      Stream(buffer.Contents(), source.position, packets)
    }

    constructor (bufferFrames: nat, bytesPerFrame: nat, source: AudioSource)
      requires bytesPerFrame > 0
      ensures config == ForFrames(bufferFrames, bytesPerFrame) && this.source == source && packets == []
      ensures buffer.capacity == config.capacity && packetData.Length == config.packet
      ensures bufferFrames > 0 ==> Valid() && View() == Stream([], source.position, [])
    {
      var size := bufferFrames * bytesPerFrame;
      assert bufferFrames > 0 ==> size > 0;
      config := ForFrames(bufferFrames, bytesPerFrame);
      buffer := new AudioRingBuffer(size);
      packetData := new Byte[FRAMES_PER_PACKET * bytesPerFrame](_ => 0);
      this.source := source;
      packets := [];
    }

    /** Terminates for every source: below the watermark there is room, so each
        pass that does not end the loop puts at least one byte into the ring. */
    method FillBuffer() returns (ok: bool)
      requires Valid()
      modifies buffer, buffer.data, source
      ensures Valid() && (View(), ok) == Fill(config, source.feed, old(View()))
    {
      hide Fill, Put, Window;
      var ready := buffer.IsReady();
      while !ready
        invariant Valid() && packets == old(packets)
        invariant ready <==> |buffer.Contents()| >= High(config)
        invariant Fill(config, source.feed, View()) == Fill(config, source.feed, old(View()))
        decreases High(config) - |buffer.Contents()|, !ready
      {
        ghost var before := View();
        FillCases(config, source.feed, before);
        var r := source.Next();
        if r.Failed? {
          return false;
        }
        if |r.bytes| == 0 {
          return true;
        }
        var written := buffer.Write(r.bytes);
        PutGrows(config, before.ring, r.bytes);
        ready := buffer.IsReady();
      }
      FillCases(config, source.feed, View());
      ok := true;
    }

    /** Pads what was read with silence and records the packet. */
    method RecordPacket(n: nat)
      requires Valid() && n <= packetData.Length
      modifies packetData, this`packets
      ensures packets == old(packets) + [Packet(Padded(old(packetData[..n]), config.packet), n)]
    {
      ghost var chunk := packetData[..n];
      for i := n to packetData.Length
        invariant packetData[..n] == chunk
        invariant forall j :: n <= j < i ==> packetData[j] == 0
        invariant packets == old(packets)
      {
        packetData[i] := 0;
      }
      assert packetData[..] == Padded(chunk, config.packet);
      packets := packets + [Packet(packetData[..], n)];
    }

    /** Reads up to a packet's worth out of the ring. */
    method ReadChunk() returns (n: nat)
      requires Valid()
      modifies buffer, packetData
      ensures Valid() && n == Min(config.packet, |old(buffer.Contents())|)
      ensures packetData[..n] == old(buffer.Contents())[..n]
      ensures View() == old(View()).(ring := old(buffer.Contents())[n..])
    {
      n := buffer.Read(packetData);
    }

    /** The ring was empty: ask the source once. */
    method Pull() returns (outcome: Outcome)
      requires Valid() && buffer.Contents() == []
      modifies buffer, buffer.data, source
      ensures Valid()
      ensures var s, r := old(View()), source.feed(old(source.position));
              var read := s.(readCount := s.readCount + 1);
              if r.Failed? then View() == read && outcome.SourceFailed?
              else if r.bytes == [] then View() == read && outcome.Finished?
              else View() == read.(ring := Put(config, [], r.bytes)) && outcome.Sent?
    {
      var r := source.Next();
      if r.Failed? {
        return SourceFailed;
      }
      if |r.bytes| == 0 {
        return Finished;
      }
      var written := buffer.Write(r.bytes);
      outcome := Sent;
    }

    /** One audio tick of the streaming loop: a read that finds the ring empty is
        repeated after asking the source. */
    method AudioTick(sendOk: bool) returns (outcome: Outcome)
      requires Valid()
      modifies buffer, buffer.data, packetData, source, this`packets
      ensures Valid() && (View(), outcome) == Tick(config, source.feed, old(View()), sendOk)
    {
      hide Tick, FormPacket, Dispatch, Put, Window;
      ghost var whole := View();
      TickCases(config, source.feed, whole, sendOk);
      var bytesRead := ReadChunk();
      if bytesRead == 0 {
        outcome := Pull();
        if !outcome.Sent? {
          return;
        }
        whole := View();
        bytesRead := ReadChunk();
      }
      FormPacketIs(config, whole);
      RecordPacket(bytesRead);
      outcome := Deliver(sendOk);
    }

    /** Hands the packet to the network, then refills. */
    method Deliver(sendOk: bool) returns (outcome: Outcome)
      requires Valid()
      modifies buffer, buffer.data, source
      ensures Valid() && (View(), outcome) == Dispatch(config, source.feed, old(View()), sendOk)
    {
      hide Refill, Window;
      if !sendOk {
        return SendFailed;
      }
      RefillIfLow();
      outcome := Sent;
    }

    method RefillIfLow()
      requires Valid()
      modifies buffer, buffer.data, source
      ensures Valid() && View() == Refill(config, source.feed, old(View()))
    {
      var under := buffer.IsUnderrunning();
      if under {
        var r := source.Next();
        if r.Data? && |r.bytes| > 0 {
          var written := buffer.Write(r.bytes);
        }
      }
    }
  }

  lemma FormPacketIs(c: Config, s: Stream)
    requires |s.ring| < c.capacity
    ensures var n := Min(c.packet, |s.ring|);
            var packet := Packet(Padded(s.ring[..n], c.packet), n);
            FormPacket(c, s) == s.(ring := s.ring[n..], packets := s.packets + [packet])
  {
  }

  lemma FillCases(c: Config, feed: Feed, s: Stream)
    requires |s.ring| < c.capacity
    ensures var read := s.(readCount := s.readCount + 1);
            Fill(c, feed, s) ==
              if |s.ring| >= High(c) then (s, true)
              else match feed(s.readCount)
                case Failed => (read, false)
                case Data(x) =>
                  if |x| == 0 then (read, true) else Fill(c, feed, read.(ring := Put(c, s.ring, x)))
  {
  }

  /** Below the high watermark a read of at least a byte stores at least a byte. */
  lemma PutGrows(c: Config, ring: Bytes, x: Bytes)
    requires |ring| < High(c) && |ring| < c.capacity && |x| > 0
    ensures Put(c, ring, x) == ring + x[..Min(|x|, c.capacity - 1 - |ring|)]
    ensures |ring| < |Put(c, ring, x)|
  {
  }

  lemma TickCases(c: Config, feed: Feed, s: Stream, sendOk: bool)
    requires Sane(c) && |s.ring| < c.capacity
    ensures var read := s.(readCount := s.readCount + 1);
            Tick(c, feed, s, sendOk) ==
              if |s.ring| > 0 then Dispatch(c, feed, FormPacket(c, s), sendOk)
              else match feed(s.readCount)
                case Failed => (read, SourceFailed)
                case Data(x) =>
                  if x == [] then (read, Finished)
                  else Dispatch(c, feed, FormPacket(c, read.(ring := Put(c, [], x))), sendOk)
  {
    assert |s.ring| == 0 ==> s.ring == [];
  }
}
