/** The byte flow of the PCM streamer: source to ring, ring to fixed-size packets. */
module PcmStream {
  import opened Common

  type Bytes = seq<Byte>

  /** One call to the source: bytes (none at the end of the stream) or a failure. */
  datatype Read = Data(bytes: Bytes) | Failed

  /** Everything the source will ever answer, in order. */
  type Feed = nat -> Read

  const FRAMES_PER_PACKET: nat := 352

  datatype Config = Config(capacity: nat, packet: nat)

  /** The sizes of a streamer with this many buffer frames of this many bytes. */
  function ForFrames(bufferFrames: nat, bytesPerFrame: nat): Config {
    Config(bufferFrames * bytesPerFrame, FRAMES_PER_PACKET * bytesPerFrame)
  }

  ghost predicate Sane(c: Config) {
    c.capacity > 0 && c.packet > 0
  }

  /** A read fills at most the four-packet buffer it is given. */
  ghost predicate Bounded(c: Config, feed: Feed) {
    forall i: nat :: feed(i).Data? ==> |feed(i).bytes| <= 4 * c.packet
  }

  /** `used` is how much of the payload is audio; the rest is padding. */
  datatype Packet = Packet(payload: Bytes, used: nat)

  /** Ring contents, number of source reads made, packets formed. */
  datatype Stream = Stream(ring: Bytes, readCount: nat, packets: seq<Packet>)

  function High(c: Config): nat {
    c.capacity * 3 / 4
  }

  /** What the ring keeps of a write: it holds one byte less than its capacity. */
  function Put(c: Config, ring: Bytes, x: Bytes): (r: Bytes)
    requires |ring| < c.capacity
    ensures |r| < c.capacity
  {
    ring + x[..Min(|x|, c.capacity - 1 - |ring|)]
  }

  /** Fills to the high watermark, the end of the source, or its failure. */
  function Fill(c: Config, feed: Feed, s: Stream): (r: (Stream, bool))
    requires |s.ring| < c.capacity
    ensures |r.0.ring| < c.capacity
    decreases High(c) - |s.ring|
  {
    if |s.ring| >= High(c) then (s, true) else
      match feed(s.readCount)
      case Failed => (s.(readCount := s.readCount + 1), false)
      case Data(x) =>
        if x == [] then (s.(readCount := s.readCount + 1), true)
        else Fill(c, feed, s.(ring := Put(c, s.ring, x), readCount := s.readCount + 1))
  }

  function Padded(x: Bytes, n: nat): (p: Bytes)
    requires |x| <= n
    ensures |p| == n && p[..|x|] == x && forall i :: |x| <= i < n ==> p[i] == 0
  {
    x + seq(n - |x|, _ => 0)
  }

  datatype Outcome = Sent | Finished | SourceFailed | SendFailed

  /** Takes a packet's worth out of the ring and forms the packet. */
  function FormPacket(c: Config, s: Stream): (t: Stream)
    requires |s.ring| < c.capacity
    ensures |t.ring| < c.capacity
  {
    var n := Min(c.packet, |s.ring|);
    s.(ring := s.ring[n..], packets := s.packets + [Packet(Padded(s.ring[..n], c.packet), n)])
  }

  /** The refill after a packet: only below the low watermark, and failures are ignored. */
  function Refill(c: Config, feed: Feed, s: Stream): (t: Stream)
    requires |s.ring| < c.capacity
    ensures |t.ring| < c.capacity
  {
    if |s.ring| >= c.capacity / 4 then s else
      match feed(s.readCount)
      case Failed => s.(readCount := s.readCount + 1)
      case Data(x) => s.(ring := Put(c, s.ring, x), readCount := s.readCount + 1)
  }

  /** One audio tick; `sendOk` says whether the network accepts the packet. */
  function Tick(c: Config, feed: Feed, s: Stream, sendOk: bool): (r: (Stream, Outcome))
    requires Sane(c) && |s.ring| < c.capacity
    ensures |r.0.ring| < c.capacity
  {
    if s.ring != [] then Dispatch(c, feed, FormPacket(c, s), sendOk) else
      match feed(s.readCount)
      case Failed => (s.(readCount := s.readCount + 1), SourceFailed)
      case Data(x) =>
        if x == [] then (s.(readCount := s.readCount + 1), Finished)
        else Dispatch(c, feed, FormPacket(c, s.(ring := Put(c, [], x), readCount := s.readCount + 1)), sendOk)
  }

  function Dispatch(c: Config, feed: Feed, s: Stream, sendOk: bool): (r: (Stream, Outcome))
    requires |s.ring| < c.capacity
    ensures |r.0.ring| < c.capacity
  {
    if sendOk then (Refill(c, feed, s), Sent) else (s, SendFailed)
  }

  /** Ticks until the source ends or something fails. */
  function Loop(c: Config, feed: Feed, s: Stream, sends: seq<bool>): (r: (Stream, Outcome))
    requires Sane(c) && |s.ring| < c.capacity
    ensures |r.0.ring| < c.capacity
    decreases |sends|
  {
    if sends == [] then (s, Sent) else
      var (t, outcome) := Tick(c, feed, s, sends[0]);
      if outcome.Sent? then Loop(c, feed, t, sends[1..]) else (t, outcome)
  }

  /** A whole run: the initial fill, then any number of ticks. */
  function Run(c: Config, feed: Feed, sends: seq<bool>): (r: (Stream, Outcome))
    requires Sane(c)
  {
    var (s, ok) := Fill(c, feed, Stream([], 0, []));
    if ok then Loop(c, feed, s, sends) else (s, SourceFailed)
  }

  // ---------------------------------------------------------------- conservation

  /** The bytes the first n reads handed over. */
  ghost function Taken(feed: Feed, n: nat): Bytes {
    if n == 0 then [] else Taken(feed, n - 1) + if feed(n - 1).Data? then feed(n - 1).bytes else []
  }

  ghost function Audio(packets: seq<Packet>): Bytes {
    if packets == [] then [] else
      var last := packets[|packets| - 1];
      Audio(packets[..|packets| - 1]) + last.payload[..Min(last.used, |last.payload|)]
  }

  ghost predicate Conserved(feed: Feed, s: Stream) {
    Audio(s.packets) + s.ring == Taken(feed, s.readCount)
  }

  ghost predicate WellPadded(c: Config, s: Stream) {
    forall k :: 0 <= k < |s.packets| ==>
      && s.packets[k].used <= |s.packets[k].payload| == c.packet
      && forall i :: s.packets[k].used <= i < c.packet ==> s.packets[k].payload[i] == 0
  }

  /** A full read always fits above the high watermark. */
  predicate Roomy(c: Config) {
    c.capacity - High(c) >= 4 * c.packet
  }

  lemma PutConserves(c: Config, feed: Feed, s: Stream, x: Bytes)
    requires |s.ring| < c.capacity && Conserved(feed, s) && feed(s.readCount) == Data(x)
    requires |x| <= c.capacity - 1 - |s.ring|
    ensures Conserved(feed, s.(ring := Put(c, s.ring, x), readCount := s.readCount + 1))
  {
    assert Put(c, s.ring, x) == s.ring + x;
    assert Audio(s.packets) + (s.ring + x) == (Audio(s.packets) + s.ring) + x;
  }

  lemma {:induction false} FillConserves(c: Config, feed: Feed, s: Stream)
    requires Bounded(c, feed) && Roomy(c) && |s.ring| < c.capacity && Conserved(feed, s)
    ensures Conserved(feed, Fill(c, feed, s).0) && Fill(c, feed, s).0.packets == s.packets
    decreases High(c) - |s.ring|
  {
    if |s.ring| < High(c) {
      var r := feed(s.readCount);
      if r.Data? && r.bytes != [] {
        var t := s.(ring := Put(c, s.ring, r.bytes), readCount := s.readCount + 1);
        PutConserves(c, feed, s, r.bytes);
        hide Conserved, Put, Bounded;
        FillConserves(c, feed, t);
      }
    }
  }

  lemma AudioMore(packets: seq<Packet>, p: Packet)
    requires p.used <= |p.payload|
    ensures Audio(packets + [p]) == Audio(packets) + p.payload[..p.used]
  {
    assert (packets + [p])[..|packets|] == packets;
  }

  lemma WellPaddedMore(c: Config, s: Stream, t: Stream, p: Packet)
    requires WellPadded(c, s) && t.packets == s.packets + [p] && p.used <= |p.payload| == c.packet
    requires forall i :: p.used <= i < c.packet ==> p.payload[i] == 0
    ensures WellPadded(c, t)
  {
  }

  lemma Regroup(a: Bytes, x: Bytes, n: nat)
    requires n <= |x|
    ensures (a + x[..n]) + x[n..] == a + x
  {
  }

  lemma FormPacketConserves(c: Config, feed: Feed, s: Stream)
    requires |s.ring| < c.capacity && Conserved(feed, s) && WellPadded(c, s)
    ensures Conserved(feed, FormPacket(c, s)) && WellPadded(c, FormPacket(c, s))
  {
    var n, t := Min(c.packet, |s.ring|), FormPacket(c, s);
    var p := Packet(Padded(s.ring[..n], c.packet), n);
    assert t == s.(ring := s.ring[n..], packets := s.packets + [p]);
    hide FormPacket, Padded, WellPadded, Audio, Taken;
    WellPaddedMore(c, s, t, p);
    AudioMore(s.packets, p);
    Regroup(Audio(s.packets), s.ring, n);
  }

  lemma RefillConserves(c: Config, feed: Feed, s: Stream)
    requires Bounded(c, feed) && Roomy(c) && |s.ring| < c.capacity && Conserved(feed, s)
    ensures Conserved(feed, Refill(c, feed, s)) && Refill(c, feed, s).packets == s.packets
  {
    hide Audio, Taken, Put, Conserved;
    var r := feed(s.readCount);
    if |s.ring| < c.capacity / 4 {
      if r.Data? { PutConserves(c, feed, s, r.bytes); } else { NothingTaken(feed, s); }
    }
  }

  lemma NothingTaken(feed: Feed, s: Stream)
    requires Conserved(feed, s) && feed(s.readCount).Failed?
    ensures Conserved(feed, s.(readCount := s.readCount + 1))
  {
    assert Taken(feed, s.readCount + 1) == Taken(feed, s.readCount) + [];
  }

  lemma DispatchConserves(c: Config, feed: Feed, s: Stream, sendOk: bool)
    requires Bounded(c, feed) && Roomy(c) && |s.ring| < c.capacity && Conserved(feed, s) && WellPadded(c, s)
    ensures var (t, outcome) := Dispatch(c, feed, FormPacket(c, s), sendOk);
            Conserved(feed, t) && WellPadded(c, t) && !outcome.Finished?
  {
    hide FormPacket, Refill, Conserved, Bounded;
    FormPacketConserves(c, feed, s);
    RefillConserves(c, feed, FormPacket(c, s));
  }

  lemma TickConserves(c: Config, feed: Feed, s: Stream, sendOk: bool)
    requires Sane(c) && Bounded(c, feed) && Roomy(c) && |s.ring| < c.capacity
    requires Conserved(feed, s) && WellPadded(c, s)
    ensures Conserved(feed, Tick(c, feed, s, sendOk).0) && WellPadded(c, Tick(c, feed, s, sendOk).0)
    ensures Tick(c, feed, s, sendOk).1.Finished? ==> Tick(c, feed, s, sendOk).0.ring == []
  {
    hide FormPacket, Dispatch, Conserved, Put;
    if s.ring != [] {
      DispatchConserves(c, feed, s, sendOk);
    } else {
      ReadConserves(c, feed, s);
      var r := feed(s.readCount);
      if r.Data? && r.bytes != [] {
        DispatchConserves(c, feed, s.(ring := Put(c, [], r.bytes), readCount := s.readCount + 1), sendOk);
      }
    }
  }

  /** A read into the empty ring loses nothing. */
  lemma ReadConserves(c: Config, feed: Feed, s: Stream)
    requires Sane(c) && Bounded(c, feed) && Roomy(c) && s.ring == [] && Conserved(feed, s)
    ensures var r := feed(s.readCount);
            Conserved(feed, s.(ring := if r.Data? && r.bytes != [] then Put(c, [], r.bytes) else [],
                               readCount := s.readCount + 1))
  {
    var r := feed(s.readCount);
    assert Audio(s.packets) + [] == Audio(s.packets);
    if r.Data? { assert Put(c, [], r.bytes) == r.bytes; }
  }

  lemma {:induction false} LoopConserves(c: Config, feed: Feed, s: Stream, sends: seq<bool>)
    requires Sane(c) && Bounded(c, feed) && Roomy(c) && |s.ring| < c.capacity
    requires Conserved(feed, s) && WellPadded(c, s)
    ensures Conserved(feed, Loop(c, feed, s, sends).0) && WellPadded(c, Loop(c, feed, s, sends).0)
    ensures Loop(c, feed, s, sends).1.Finished? ==> Loop(c, feed, s, sends).0.ring == []
    decreases |sends|
  {
    if sends != [] {
      TickConserves(c, feed, s, sends[0]);
      var (t, outcome) := Tick(c, feed, s, sends[0]);
      if outcome.Sent? { LoopConserves(c, feed, t, sends[1..]); }
    }
  }

  /** In every run of a roomy streamer the audio in the packets followed by the ring
      is what the source gave, and padding is silence; once finished, every byte
      the source gave has gone into a packet. */
  lemma RunConserves(c: Config, feed: Feed, sends: seq<bool>)
    requires Sane(c) && Bounded(c, feed) && Roomy(c)
    ensures var (s, outcome) := Run(c, feed, sends);
            && Audio(s.packets) + s.ring == Taken(feed, s.readCount)
            && WellPadded(c, s)
            && (outcome.Finished? ==> Audio(s.packets) == Taken(feed, s.readCount))
  {
    var start := Stream([], 0, []);
    FillConserves(c, feed, start);
    var (s, ok) := Fill(c, feed, start);
    if ok { LoopConserves(c, feed, s, sends); }
    var final := Run(c, feed, sends).0;
    if Run(c, feed, sends).1.Finished? { assert Audio(final.packets) + [] == Audio(final.packets); }
  }

  // ------------------------------------------------------------- exact condition

  /** Single bytes to just below the high watermark, then full reads. */
  function Overfeed(c: Config): (feed: Feed)
    ensures Bounded(c, feed) || c.packet == 0
  {
    i => if i + 1 < High(c) then Data([0]) else Data(seq(4 * c.packet, _ => 0))
  }

  lemma {:induction false} OverfeedTaken(c: Config, n: nat)
    requires n + 1 <= High(c) || n == 0
    ensures |Taken(Overfeed(c), n)| == n
  {
    if n > 0 { OverfeedTaken(c, n - 1); }
  }

  lemma {:induction false} FillOverflows(c: Config, s: Stream)
    requires Sane(c) && !Roomy(c) && |s.ring| == s.readCount < High(c)
    ensures var t := Fill(c, Overfeed(c), s).0;
            && Fill(c, Overfeed(c), s).1 && t.readCount == High(c) && |t.ring| == c.capacity - 1
            && t.packets == s.packets
    decreases High(c) - |s.ring|
  {
    var t := s.(ring := Put(c, s.ring, Overfeed(c)(s.readCount).bytes), readCount := s.readCount + 1);
    if s.readCount + 1 < High(c) {
      FillOverflows(c, t);
    } else {
      assert |t.ring| == c.capacity - 1;
    }
  }

  lemma OverfillLoses(c: Config)
    requires Sane(c) && !Roomy(c) && High(c) > 0
    ensures !Conserved(Overfeed(c), Run(c, Overfeed(c), []).0)
  {
    var feed, start := Overfeed(c), Stream([], 0, []);
    FillOverflows(c, start);
    OverfeedTaken(c, High(c) - 1);
    hide Fill;
    var s := Run(c, feed, []).0;
    assert s == Fill(c, feed, start).0;
    assert |Taken(feed, High(c))| == High(c) - 1 + 4 * c.packet;
    assert |Audio(s.packets) + s.ring| == c.capacity - 1;
  }

  /** A ring of one slot holds nothing, so the first read is lost. */
  lemma SingleSlotLoses(c: Config)
    requires Sane(c) && High(c) == 0
    ensures !Conserved(Overfeed(c), Run(c, Overfeed(c), [false]).0)
  {
    var feed := Overfeed(c);
    SingleSlotRun(c, feed, feed(0).bytes);
    var s := Run(c, feed, [false]).0;
    assert |Taken(feed, 1)| == 4 * c.packet;
    hide Run, Taken;
    assert |Audio(s.packets) + s.ring| == 0;
  }

  /** One failed send: the fill does nothing, the tick forms a packet without audio. */
  lemma SingleSlotRun(c: Config, feed: Feed, x: Bytes)
    requires Sane(c) && c.capacity == 1 && feed(0) == Data(x) && x != []
    ensures var s := Run(c, feed, [false]).0;
            s.ring == [] && s.readCount == 1 && Audio(s.packets) == []
  {
    var start, p := Stream([], 0, []), Packet(Padded([], c.packet), 0);
    assert Fill(c, feed, start) == (start, true);
    hide Fill, Tick, Padded, Audio;
    SingleSlotTick(c, feed, x);
    assert Loop(c, feed, start, [false]) == Tick(c, feed, start, false);
    AudioMore([], p);
    NoAudio();
    assert [] + [p] == [p];
  }

  lemma SingleSlotTick(c: Config, feed: Feed, x: Bytes)
    requires Sane(c) && c.capacity == 1 && feed(0) == Data(x) && x != []
    ensures Tick(c, feed, Stream([], 0, []), false)
         == (Stream([], 1, [Packet(Padded([], c.packet), 0)]), SendFailed)
  {
    hide FormPacket, Put;
    NothingPut(c, x);
    EmptyPacket(c);
  }

  lemma NothingPut(c: Config, x: Bytes)
    requires c.capacity == 1
    ensures Put(c, [], x) == []
  {
  }

  lemma EmptyPacket(c: Config)
    requires c.capacity > 0
    ensures FormPacket(c, Stream([], 1, [])) == Stream([], 1, [Packet(Padded([], c.packet), 0)])
  {
    var s := Stream([], 1, []);
    assert s.ring[0..] == [] && s.ring[..0] == [];
  }

  lemma NoAudio()
    ensures Audio([]) == []
  {
  }

  lemma CrampedLoses(c: Config)
    requires Sane(c) && !Roomy(c)
    ensures exists feed: Feed, sends: seq<bool> :: Bounded(c, feed) && !Conserved(feed, Run(c, feed, sends).0)
  {
    if High(c) > 0 { OverfillLoses(c); } else { SingleSlotLoses(c); }
  }

  /** No source and no run ever loses a byte exactly when a four-packet read fits
      into what the high watermark leaves free. */
  lemma ConservationIff(c: Config)
    requires Sane(c)
    ensures (forall feed: Feed, sends: seq<bool> :: Bounded(c, feed) ==> Conserved(feed, Run(c, feed, sends).0))
            <==> c.capacity - c.capacity * 3 / 4 >= 4 * c.packet
  {
    if Roomy(c) {
      forall feed: Feed, sends: seq<bool> | Bounded(c, feed) ensures Conserved(feed, Run(c, feed, sends).0) {
        RunConserves(c, feed, sends);
      }
    } else {
      CrampedLoses(c);
    }
  }

  /** 5632 frames of any size are enough. */
  lemma EnoughFrames(bufferFrames: nat, bytesPerFrame: nat)
    requires bufferFrames >= 5632 && bytesPerFrame > 0
    ensures Sane(ForFrames(bufferFrames, bytesPerFrame)) && Roomy(ForFrames(bufferFrames, bytesPerFrame))
  {
    var cap := bufferFrames * bytesPerFrame;
    assert cap == 5632 * bytesPerFrame + (bufferFrames - 5632) * bytesPerFrame;
    assert (bufferFrames - 5632) * bytesPerFrame >= 0;
  }
}
