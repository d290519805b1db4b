/** What the lowest-key lookups do to a full buffer and at the wrap of the numbers. */
module JitterWrap {
  import opened Common
  import opened Serial
  import opened Jitter
  import opened JitterRuns

  // -------------------------------------------------------------------- overflow

  /** The next packet accepted pushes one out. */
  ghost predicate Full(b: Buffer) {
    |b.packets| >= b.config.maxDepth && b.packets.Keys != {}
  }

  /** Where playing order starts: at the play point, or where playback would start now. */
  ghost function Origin(b: Buffer): U16
    requires b.packets.Keys != {}
  {
    if b.next.Some? then b.next.value else StartSequence(b.packets).value
  }

  /** Whatever is pushed out is, of all that is buffered, the first in playing order. */
  ghost predicate DropsOldest(b: Buffer)
    requires b.packets.Keys != {}
  {
    forall k, j :: k in b.packets && k !in MakeRoom(b).packets && j in b.packets ==>
      Ahead(Origin(b), k) <= Ahead(Origin(b), j)
  }

  /** What is pushed out is the lowest key and nothing else. */
  lemma DropsLowest(b: Buffer)
    requires Full(b)
    ensures forall k :: k in b.packets && k !in MakeRoom(b).packets <==> k == Lowest(b.packets.Keys)
  {
    assert MakeRoom(b).packets == b.packets - {Lowest(b.packets.Keys)};
    assert Lowest(b.packets.Keys) in b.packets.Keys;
  }

  lemma DropsOldestMeans(b: Buffer)
    requires Full(b)
    ensures DropsOldest(b)
            <==> forall j :: j in b.packets.Keys ==> Ahead(Origin(b), Lowest(b.packets.Keys)) <= Ahead(Origin(b), j)
  {
    hide MakeRoom, Origin;
    DropsLowest(b);
    var low := Lowest(b.packets.Keys);
    if DropsOldest(b) {
      assert low in b.packets && low !in MakeRoom(b).packets;
      forall j | j in b.packets.Keys ensures Ahead(Origin(b), low) <= Ahead(Origin(b), j) { assert j in b.packets; }
    }
  }

  /** During playback a full buffer drops its oldest packet exactly when no number has
      wrapped past the play point, or all have. */
  lemma DropsOldestPlayingIff(b: Buffer)
    requires Full(b) && b.next.Some?
    ensures DropsOldest(b)
            <==> Lowest(b.packets.Keys) >= b.next.value || forall k :: k in b.packets.Keys ==> k < b.next.value
  {
    DropsOldestMeans(b);
    hide DropsOldest;
    var low, n := Lowest(b.packets.Keys), b.next.value;
    if low < n && !(forall k :: k in b.packets.Keys ==> k < n) {
      var k :| k in b.packets.Keys && k >= n;
      assert Ahead(n, k) < Ahead(n, low);
    }
  }

  /** Before playback, with all numbers in one window, exactly when they do not wrap. */
  lemma DropsOldestBeforeIff(b: Buffer)
    requires Full(b) && b.next.None? && FitsWindow(b.packets.Keys)
    ensures DropsOldest(b) <==> forall k :: k in b.packets.Keys ==> k - Lowest(b.packets.Keys) < 32768
  {
    DropsOldestMeans(b);
    StartIsEarliestIff(b.packets);
    hide DropsOldest, StartSequence;
    var low, start := Lowest(b.packets.Keys), StartSequence(b.packets).value;
    assert start in b.packets.Keys;
    if start == low {
      forall k | k in b.packets.Keys ensures k - low < 32768 { assert Ahead(start, k) < 32768; }
    } else {
      assert Ahead(start, start) < Ahead(start, low) < 32768;
    }
  }

  /** In runs whose numbers never wrap every drop is of the oldest packet. */
  lemma NoWrapDropsOldest(config: Config, ops: seq<Op>)
    requires NoWrapRun(Start(config), ops) && Full(Run(Start(config), ops).b)
    ensures DropsOldest(Run(Start(config), ops).b)
  {
    hide Run, Full, DropsOldest;
    NothingPassedOver(Start(config), ops);
    NoWrapOldest(Run(Start(config), ops).b);
  }

  lemma NoWrapOldest(b: Buffer)
    requires Full(b) && AllAhead(b) && NoWrap(b)
    ensures DropsOldest(b)
  {
    var low := Lowest(b.packets.Keys);
    assert low in b.packets;
    if b.next.Some? {
      DropsOldestPlayingIff(b);
      assert Ahead(b.next.value, low) < 32768;
    } else {
      assert InWindow(b.packets.Keys, low) by {
        forall k | k in b.packets.Keys ensures Ahead(low, k) < 32768 { assert k in b.packets; }
      }
      DropsOldestBeforeIff(b);
    }
  }

  // ---------------------------------------------------------------- concrete runs

  /** The first two packets of a run, before the minimum depth of 2 is reached and then at it. */
  lemma TwoIn(config: Config, p: Packet, q: Packet)
    requires config.minDepth == 2 && config.maxDepth >= 2 && p.sequence != q.sequence
    ensures var b := Insert(Insert(New(config), p), q);
            && Reachable(config, b) && WellFormed(b) && b.config == config && b.state.Playing?
            && b.packets == map[p.sequence := p, q.sequence := q] && b.next == StartSequence(b.packets)
  {
    hide Insert, Reachable, StartSequence;
    var a := New(config);
    StartReachable(config);
    Moves(config, a, p);
    InsertWithRoom(a, p);
    InsertState(a, p);
    var b := Insert(a, p);
    assert b.packets == map[p.sequence := p];
    Moves(config, b, q);
    SecondIn(b, p, q);
  }

  lemma SecondIn(b: Buffer, p: Packet, q: Packet)
    requires WellFormed(b) && b.state.Buffering? && b.config.minDepth == 2 && b.config.maxDepth >= 2
    requires b.packets == map[p.sequence := p] && p.sequence != q.sequence
    ensures var c := Insert(b, q);
            && WellFormed(c) && c.config == b.config && c.state.Playing?
            && c.packets == map[p.sequence := p, q.sequence := q] && c.next == StartSequence(c.packets)
  {
    hide Insert, StartSequence;
    InsertWithRoom(b, q);
    InsertState(b, q);
    InsertEffect(b, q);
    var c := Insert(b, q);
    assert c.packets == map[p.sequence := p, q.sequence := q];
    assert |c.packets| == 2;
  }

  /** Two numbers less than half the circle apart, the other way round from their order if they wrap. */
  lemma StartOfTwo(packets: map<U16, Packet>, x: U16, y: U16)
    requires packets.Keys == {x, y} && 0 < Ahead(x, y) < 32768
    ensures StartSequence(packets) == Some(x)
  {
    StartIsEarliestIff(packets);
    assert InWindow(packets.Keys, x);
    assert x in packets.Keys;
  }

  /** Maximum depth 2, packets 65535 and 0 in, then packet 1: 0 is dropped and 65535 kept. */
  lemma DropsNewerExample(config: Config, p: Packet, q: Packet, r: Packet)
    requires config.minDepth == 2 && config.maxDepth == 2
    requires p.sequence == 65535 && q.sequence == 0 && r.sequence == 1
    ensures var b := Insert(Insert(New(config), p), q);
            && Reachable(config, b) && Full(b) && b.next == Some(65535) && !DropsOldest(b)
            && Insert(b, r).packets == map[65535 := p, 1 := r]
  {
    hide Insert, Reachable, StartSequence, DropsOldest;
    TwoIn(config, p, q);
    var b := Insert(Insert(New(config), p), q);
    assert b.packets.Keys == {65535, 0};
    StartOfTwo(b.packets, 65535, 0);
    assert |b.packets| == 2 && Lowest(b.packets.Keys) == 0;
    DropsOldestPlayingIff(b);
    InsertEffect(b, r);
    assert MakeRoom(b).packets == b.packets - {0};
  }

  /** Packets 65533 and 65535 in, one pop, packet 0 in: the next pop hands out 0 and passes over 65535. */
  lemma PassedOverExample(config: Config, p: Packet, q: Packet, r: Packet)
    requires config.minDepth == 2 && config.maxDepth >= 2
    requires p.sequence == 65533 && q.sequence == 65535 && r.sequence == 0
    ensures var b := Insert(Pop(Insert(Insert(New(config), p), q)).0, r);
            Reachable(config, b) && Pop(b).1 == Some(r) && PassesOver(b, 65535)
  {
    hide Insert, Pop, Reachable, StartSequence, PassesOver;
    TwoIn(config, p, q);
    var a := Insert(Insert(New(config), p), q);
    assert a.packets.Keys == {65533, 65535};
    StartOfTwo(a.packets, 65533, 65535);
    Moves(config, a, r);
    PopExpected(a);
    var c := Pop(a).0;
    assert c.packets == map[65535 := q];
    Moves(config, c, r);
    InsertWithRoom(c, r);
    PassedOverAt(Insert(c, r), q, r);
  }

  lemma PassedOverAt(b: Buffer, q: Packet, r: Packet)
    requires WellFormed(b) && b.next == Some(65534) && b.packets == map[65535 := q, 0 := r]
    ensures Pop(b).1 == Some(r) && PassesOver(b, 65535)
  {
    assert 0 in b.packets.Keys;
    assert Lowest(b.packets.Keys) == 0;
  }
}
