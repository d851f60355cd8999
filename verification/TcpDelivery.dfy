/** What a delivered segment leaves at the receiver, and that a round trip makes progress. */
module TcpDeliveries {
  import opened Common
  import opened Wrap32
  import opened ByteStreams
  import opened Segments
  import opened Reassembly
  import opened TcpMessages
  import opened TcpSending
  import opened TcpSystem
  import R = TcpSenderRuns
  import RR = ReassemblerRuns
  import Rcv = TcpReceiving

  /** Stream index `j` has reached the receiver: it is in the output or held back. */
  ghost predicate Has(r: Reasm, j: nat)
  {
    j < |r.out.history| || j in r.stored
  }

  /** Index `j` is in the payload of a segment at absolute sequence number `at`. */
  ghost predicate InPayload(p: Packet, j: nat)
  {
    R.PayloadIndex(p.at) <= j < R.PayloadIndex(p.at) + |p.m.payload|
  }

  ghost predicate InReceiveWindow(r: Reasm, j: nat)
  {
    |r.out.history| <= j < r.out.popped + r.out.capacity
  }

  /** Everything in the output and held back is what the sender took, the output is as long as
      what has reached the receiver allows, and it is closed exactly at the announced end. */
  ghost predicate AsSent(r: Reasm, snd: Sender)
    requires snd.input.Valid()
  {
    && r.out.history <= R.Taken(snd) && !Has(r, |r.out.history|)
    && (forall j: nat :: j in r.stored ==> |r.out.history| < j < |R.Taken(snd)| && r.stored[j] == R.Taken(snd)[j])
    && (r.eof ==> snd.finSent && r.end == |R.Taken(snd)|)
    && (r.out.closed <==> r.eof && |r.out.history| == |R.Taken(snd)|)
  }

  /** The receiver takes a fresh segment in: besides what it had, exactly the indices of the payload
      that lie in its window, each with the sender's byte; a FIN tells the end, a first SYN the
      initial sequence number; and nothing else changes. */
  lemma DeliverExact(rcv: Rcv.Receiver, snd: Sender, p: Packet)
    requires R.Sound(snd) && ReceiverSound(rcv, snd) && PacketSound(p, snd)
    requires Distance(p.at, |rcv.reassembler.out.history|) < 0x8000_0000
    requires rcv.isn.Some? || p.m.syn
    ensures var rcv' := rcv.Receive(p.m);
            var r, r' := rcv.reassembler, rcv'.reassembler;
            && rcv'.isn == Some(snd.isn)
            && (forall j: nat :: Has(r', j) <==> Has(r, j) || (InPayload(p, j) && InReceiveWindow(r, j)))
            && AsSent(r', snd)
            && (r'.eof <==> r.eof || p.m.fin)
            && r'.out == r.out.(history := r'.out.history, closed := r'.out.closed)
  {
    hide R.Tiles, Reasm.Insert, Has, InPayload, InReceiveWindow, R.Slice, Rcv.Receiver.Receive, AsSent;
    DeliverSound(rcv, snd, p);
    DeliveredInsert(rcv, snd, p);
    var r, i := rcv.reassembler, R.PayloadIndex(p.at);
    SliceOfTaken(p, snd);
    InsertTakes(r, R.Taken(snd), snd.finSent, i, p.m.payload, p.m.fin);
    InsertAsSent(r, snd, i, p.m.payload, p.m.fin);
    forall j: nat
      ensures Has(r.Insert(i, p.m.payload, p.m.fin), j) <==> Has(r, j) || (InPayload(p, j) && InReceiveWindow(r, j))
    {
      InsertHas(r, R.Taken(snd), i, p.m.payload, p.m.fin, j);
      PayloadHas(p, j);
    }
  }

  lemma PayloadHas(p: Packet, j: nat)
    ensures InPayload(p, j) <==> R.PayloadIndex(p.at) <= j < R.PayloadIndex(p.at) + |p.m.payload|
  {
  }

  lemma SliceOfTaken(p: Packet, snd: Sender)
    requires R.Sound(snd) && PacketSound(p, snd)
    ensures var i, taken := R.PayloadIndex(p.at), R.Taken(snd);
            && |taken| < 0x1_0000_0000_0000_0000
            && (p.m.Length() > 0 ==> i + |p.m.payload| <= |taken| && p.m.payload == taken[i..i + |p.m.payload|])
            && (p.m.fin ==> snd.finSent && i + |p.m.payload| == |taken|)
            && (p.m.Length() == 0 ==> p.m.payload == [])
  {
    hide R.Tiles;
  }

  /** In stream terms a delivered segment is inserted at its payload index. */
  lemma DeliveredInsert(rcv: Rcv.Receiver, snd: Sender, p: Packet)
    requires R.Sound(snd) && ReceiverSound(rcv, snd) && PacketSound(p, snd)
    requires Distance(p.at, |rcv.reassembler.out.history|) < 0x8000_0000
    requires rcv.isn.Some? || p.m.syn
    ensures rcv.reassembler.Valid() && !rcv.reassembler.out.error
    ensures rcv.Receive(p.m).isn == Some(snd.isn)
    ensures rcv.Receive(p.m).reassembler == rcv.reassembler.Insert(R.PayloadIndex(p.at), p.m.payload, p.m.fin)
  {
    hide R.Tiles, Unwrap, Reasm.Insert, Holding;
    SliceOfTaken(p, snd);
    ValidHolding(rcv.reassembler, R.Taken(snd), snd.finSent);
    UnwrapWrap(p.at, snd.isn, |rcv.reassembler.out.history|);
    assert rcv.isn.None? ==> p.m.seqno == snd.isn;
    if p.m.Length() == 0 {
      InsertNothing(rcv.reassembler, R.Taken(snd), snd.finSent, rcv.StreamIndex(p.m, snd.isn));
      InsertNothing(rcv.reassembler, R.Taken(snd), snd.finSent, R.PayloadIndex(p.at));
    }
  }

  lemma ValidHolding(r: Reasm, taken: seq<Byte>, fin: bool)
    requires Holding(r, taken, fin)
    ensures r.Valid() && !r.out.error && |r.out.history| <= |taken|
  {
  }

  lemma InsertTakes(r: Reasm, taken: seq<Byte>, fin: bool, first: nat, data: seq<Byte>, last: bool)
    requires Holding(r, taken, fin)
    ensures var r' := r.Insert(first, data, last);
            (r'.eof <==> r.eof || last) && r'.out == r.out.(history := r'.out.history, closed := r'.out.closed)
  {
    hide Drain;
  }

  lemma InsertHas(r: Reasm, taken: seq<Byte>, first: nat, data: seq<Byte>, last: bool, j: nat)
    requires r.Valid()
    requires data != [] ==> first + |data| <= |taken| && data == taken[first..first + |data|]
    ensures Has(r.Insert(first, data, last), j) <==>
            Has(r, j) || (first <= j < first + |data| && InReceiveWindow(r, j))
  {
    hide Drain, Accept, Placed;
    var c := r.Accepted(first, data);
    AcceptedKeys(r, first, data, j);
    AcceptedInWindow(r, first, data);
    DrainMeaning(r.out.history, c);
  }

  lemma AcceptedKeys(r: Reasm, first: nat, data: seq<Byte>, j: nat)
    requires r.Valid()
    ensures j in r.Accepted(first, data) <==> j in r.stored || (first <= j < first + |data| && InReceiveWindow(r, j))
  {
    RR.InWindowAt(r, RR.Op.Insert(first, data, false), j);
  }

  lemma InsertAsSent(r: Reasm, snd: Sender, first: nat, data: seq<Byte>, last: bool)
    requires R.Sound(snd) && Holding(r, R.Taken(snd), snd.finSent)
    requires Holding(r.Insert(first, data, last), R.Taken(snd), snd.finSent)
    ensures AsSent(r.Insert(first, data, last), snd)
  {
    hide Drain, R.Tiles;
    var c := r.Accepted(first, data);
    AcceptedInWindow(r, first, data);
    DrainMeaning(r.out.history, c);
  }

  /** Before the handshake anything but a SYN is dropped. */
  lemma DroppedBeforeSyn(rcv: Rcv.Receiver, m: SenderMessage)
    requires rcv.reassembler.Valid() && rcv.isn.None? && !m.syn && !m.rst
    ensures rcv.Receive(m) == rcv
  {
  }

  // ----- over whole runs

  /** Event `e` brings stream index `j` while it lies in the receiver's window. */
  ghost predicate Brings(s: System, e: Event, j: nat)
  {
    && e.DeliverData? && (s.rcv.isn.Some? || e.p.m.syn)
    && InPayload(e.p, j) && InReceiveWindow(s.rcv.reassembler, j)
  }

  lemma StepHas(s: System, e: Event, j: nat)
    requires Inv(s) && Enabled(s, e)
    ensures Has(Apply(s, e).rcv.reassembler, j) <==> Has(s.rcv.reassembler, j) || Brings(s, e, j)
  {
    hide R.Tiles, Payloads, Tagged, Sender.Push, Sender.Tick, Sender.Receive, Rcv.Receiver.Receive, InPayload;
    hide InReceiveWindow, AsSent;
    match e
    case DeliverData(p) =>
      assert PacketSound(p, s.snd);
      if s.rcv.isn.Some? || p.m.syn {
        DeliverExact(s.rcv, s.snd, p);
      } else {
        DroppedBeforeSyn(s.rcv, p.m);
      }
    case _ =>
  }

  /** Over every run: what has reached the receiver, in the output or held back, is exactly the
      indices that some segment brought while they lay in the window. */
  lemma {:induction false} HeldExactly(states: seq<System>, events: seq<Event>, i: nat, j: nat,
                                       capacity: nat, isn: U32, rtoMs: nat, recvCapacity: nat)
    requires IsRun(states, events) && states[0] == Initial(capacity, isn, rtoMs, recvCapacity) && i <= |events|
    ensures Has(states[i].rcv.reassembler, j) <==> exists k :: 0 <= k < i && Brings(states[k], events[k], j)
  {
    hide Inv, Enabled, Apply, Brings;
    if i > 0 {
      var s, e := states[i - 1], events[i - 1];
      assert Next(s, e, states[i]);
      RunInv(states, events, i - 1, capacity, isn, rtoMs, recvCapacity);
      HeldExactly(states, events, i - 1, j, capacity, isn, rtoMs, recvCapacity);
      StepHas(s, e, j);
    }
  }

  // ----- a round trip makes progress

  lemma {:induction false} TotalSplit(x: seq<SenderMessage>, k: nat)
    requires k <= |x|
    ensures R.Total(x) == R.Total(x[..k]) + R.Total(x[k..])
  {
    if k == 0 {
      assert x[0..] == x;
    } else {
      R.RemovedFront(x, k - 1);
      TotalSplit(x[1..], k - 1);
    }
  }

  lemma {:induction false} TilesTotal(x: seq<SenderMessage>, a: nat, b: nat, isn: U32, w: seq<Byte>, fin: bool)
    requires R.Tiles(x, a, b, isn, w, fin)
    ensures a + R.Total(x) == b
  {
    if x != [] {
      TilesTotal(x[1..], a + x[0].Length(), b, isn, w, fin);
    }
  }

  lemma OldestSound(s: System)
    requires Inv(s) && s.snd.outstanding != []
    ensures var p := Packet(s.snd.outstanding[0], R.LeftEdge(s.snd));
            && PacketSound(p, s.snd) && 0 < p.m.Length() <= s.snd.inFlight
            && R.Slice(p.m, p.at, s.snd.isn, R.Taken(s.snd), s.snd.finSent)
  {
    R.FrontEnd(s.snd);
  }

  /** The receiver wants the oldest segment outstanding or something behind it, so that segment is
      fresh, and it is the SYN if the receiver has seen none. */
  lemma OldestFresh(s: System)
    requires Inv(s) && s.snd.outstanding != []
    ensures var p, out := Packet(s.snd.outstanding[0], R.LeftEdge(s.snd)), s.rcv.reassembler.out;
            && R.PayloadIndex(p.at) <= |out.history| && Distance(p.at, |out.history|) < 0x8000_0000
            && (s.rcv.isn.Some? || p.m.syn)
  {
    hide R.Tiles, Payloads;
    OldestSound(s);
    AckBehindNext(s.rcv, s.snd);
  }

  /** With room for its payload the receiver then acknowledges all of it. */
  lemma OldestAcknowledged(s: System)
    requires Inv(s) && s.snd.outstanding != []
    requires var p, out := Packet(s.snd.outstanding[0], R.LeftEdge(s.snd)), s.rcv.reassembler.out;
             R.PayloadIndex(p.at) + |p.m.payload| <= out.popped + out.capacity
    ensures var p := Packet(s.snd.outstanding[0], R.LeftEdge(s.snd));
            s.rcv.reassembler.Valid() && p.at + p.m.Length() <= s.rcv.Receive(p.m).AckPosition()
  {
    hide R.Tiles, Payloads, Rcv.Receiver.Receive;
    var p := Packet(s.snd.outstanding[0], R.LeftEdge(s.snd));
    OldestSound(s);
    OldestFresh(s);
    DeliverExact(s.rcv, s.snd, p);
    ReceivedGrows(s.rcv, p.m);
    var r, r' := s.rcv.reassembler, s.rcv.Receive(p.m).reassembler;
    var j := |r'.out.history|;
    assert InPayload(p, j) ==> InReceiveWindow(r, j);
  }

  lemma ReceivedGrows(rcv: Rcv.Receiver, m: SenderMessage)
    requires rcv.reassembler.Valid()
    ensures |rcv.reassembler.out.history| <= |rcv.Receive(m).reassembler.out.history|
  {
    Rcv.ReceiveValid(rcv, m);
  }

  /** An acknowledgment of the oldest segment removes it. */
  lemma AcknowledgedRemoved(s: System, a: AckPacket)
    requires Inv(s) && Enabled(s, DeliverAck(a)) && s.snd.outstanding != [] && a.m.ackno.Some?
    requires R.LeftEdge(s.snd) + s.snd.outstanding[0].Length() <= a.at
    ensures R.LeftEdge(s.snd) + s.snd.outstanding[0].Length() <= R.LeftEdge(Apply(s, DeliverAck(a)).snd)
  {
    hide R.Tiles, R.Slice, Payloads, Unwrap, Sender.Receive;
    var snd, snd' := s.snd, s.snd.Receive(a.m);
    NoReset(s, a);
    assert AckSound(a, s.rcv);
    AckBehindNext(s.rcv, snd);
    UnwrapWrap(a.at, snd.isn, snd.next);
    R.ReceiveSound(snd, a.m);
    var k := R.AckedCount(snd.outstanding, R.LeftEdge(snd), a.at);
    TilesTotal(snd.outstanding, R.LeftEdge(snd), snd.next, snd.isn, R.Taken(snd), snd.finSent);
    TilesTotal(snd'.outstanding, R.LeftEdge(snd'), snd'.next, snd'.isn, R.Taken(snd'), snd'.finSent);
    TotalSplit(snd.outstanding, k);
    assert k > 0 && snd.outstanding[..k][0] == snd.outstanding[0];
  }

  /** Everything outstanding is on the network. */
  ghost predicate OnNetwork(s: System)
  {
    R.LeftEdge(s.snd) >= 0 && Tagged(s.snd.outstanding, R.LeftEdge(s.snd)) <= s.data
  }

  lemma TaggedFirst(m: SenderMessage, x: seq<SenderMessage>, a: nat)
    ensures Tagged([m] + x, a) == {Packet(m, a)} + Tagged(x, a + m.Length())
  {
    assert ([m] + x)[1..] == x;
  }

  lemma TaggedNil(a: nat)
    ensures Tagged([], a) == {}
  {
  }

  lemma {:induction false} TaggedConcat(x: seq<SenderMessage>, y: seq<SenderMessage>, a: nat)
    ensures Tagged(x + y, a) == Tagged(x, a) + Tagged(y, a + R.Total(x))
  {
    hide Tagged;
    if x == [] {
      assert x + y == y;
      TaggedNil(a);
    } else {
      var m, rest := x[0], x[1..];
      assert x + y == [m] + (rest + y) && x == [m] + rest;
      TaggedFirst(m, rest + y, a);
      TaggedFirst(m, rest, a);
      TaggedConcat(rest, y, a + m.Length());
      assert R.Total(x) == m.Length() + R.Total(rest);
    }
  }

  lemma StepOnNetwork(s: System, e: Event)
    requires Inv(s) && Enabled(s, e) && OnNetwork(s)
    ensures OnNetwork(Apply(s, e))
  {
    hide R.Slice, R.Tiles, Payloads, Tagged, Sender.Push, Sender.Tick, Sender.Receive, Rcv.Receiver.Receive;
    hide PacketSound, AckSound, ReceiverSound;
    var snd := s.snd;
    TilesTotal(snd.outstanding, R.LeftEdge(snd), snd.next, snd.isn, R.Taken(snd), snd.finSent);
    match e
    case Push => PushOnNetwork(s);
    case Tick(ms) => TickShape(snd, ms);
    case DeliverAck(a) => AckOnNetwork(s, a);
    case _ =>
  }

  lemma PushOnNetwork(s: System)
    requires Inv(s) && OnNetwork(s)
    requires R.LeftEdge(s.snd) + R.Total(s.snd.outstanding) == s.snd.next
    ensures OnNetwork(Apply(s, Push))
  {
    hide R.Slice, R.Tiles, Payloads, Tagged, PushUpTo, Sender.RightEdge, PacketSound, AckSound, ReceiverSound;
    R.RightEdgeBound(s.snd);
    R.PushSound(s.snd, s.snd.RightEdge());
    TaggedConcat(s.snd.outstanding, s.snd.Push().sent, R.LeftEdge(s.snd));
  }

  lemma AckOnNetwork(s: System, a: AckPacket)
    requires Inv(s) && Enabled(s, DeliverAck(a)) && OnNetwork(s)
    ensures OnNetwork(Apply(s, DeliverAck(a)))
  {
    hide Inv, Payloads, Tagged, Sender.Receive;
    SenderInv(s);
    NoReset(s, a);
    AckedOnNetwork(s.snd, a.m, s.data);
  }

  lemma AckedOnNetwork(snd: Sender, m: ReceiverMessage, data: set<Packet>)
    requires R.Sound(snd) && !m.rst && R.LeftEdge(snd) >= 0 && Tagged(snd.outstanding, R.LeftEdge(snd)) <= data
    ensures var snd' := snd.Receive(m); R.LeftEdge(snd') >= 0 && Tagged(snd'.outstanding, R.LeftEdge(snd')) <= data
  {
    hide R.Slice, R.Tiles, Tagged, Unwrap, Sender.Receive, R.AckedCount, R.Taken;
    var snd' := snd.Receive(m);
    R.ReceiveSound(snd, m);
    var k := R.AckedCount(snd.outstanding, R.LeftEdge(snd), R.AckOf(snd, m));
    TilesTotal(snd.outstanding, R.LeftEdge(snd), snd.next, snd.isn, R.Taken(snd), snd.finSent);
    TilesTotal(snd'.outstanding, R.LeftEdge(snd'), snd'.next, snd'.isn, R.Taken(snd'), snd'.finSent);
    TotalSplit(snd.outstanding, k);
    assert snd.outstanding[..k] + snd.outstanding[k..] == snd.outstanding;
    TaggedConcat(snd.outstanding[..k], snd.outstanding[k..], R.LeftEdge(snd));
  }

  lemma {:induction false} RunOnNetwork(states: seq<System>, events: seq<Event>, i: nat,
                                        capacity: nat, isn: U32, rtoMs: nat, recvCapacity: nat)
    requires IsRun(states, events) && states[0] == Initial(capacity, isn, rtoMs, recvCapacity) && i <= |events|
    ensures Inv(states[i]) && OnNetwork(states[i])
  {
    hide Inv, Enabled, Apply;
    RunInv(states, events, i, capacity, isn, rtoMs, recvCapacity);
    if i > 0 {
      assert Next(states[i - 1], events[i - 1], states[i]);
      RunOnNetwork(states, events, i - 1, capacity, isn, rtoMs, recvCapacity);
      StepOnNetwork(states[i - 1], events[i - 1]);
    }
  }

  /** Progress, in every reachable state with something outstanding and room for the oldest segment
      at the receiver: that segment may be delivered, the receiver's answer may be, and then the
      sender's left edge lies behind the segment. */
  lemma RoundTripAdvances(states: seq<System>, events: seq<Event>, i: nat,
                          capacity: nat, isn: U32, rtoMs: nat, recvCapacity: nat)
    returns (s1: System, s2: System, s3: System)
    requires IsRun(states, events) && states[0] == Initial(capacity, isn, rtoMs, recvCapacity) && i <= |events|
    requires states[i].snd.outstanding != [] && R.LeftEdge(states[i].snd) >= 0
    requires var s := states[i];
             R.PayloadIndex(R.LeftEdge(s.snd)) + |s.snd.outstanding[0].payload|
             <= s.rcv.reassembler.out.popped + s.rcv.reassembler.out.capacity
    ensures var s := states[i];
            var p := Packet(s.snd.outstanding[0], R.LeftEdge(s.snd));
            && Next(s, DeliverData(p), s1) && Next(s1, SendAck, s2)
            && Next(s2, DeliverAck(AckPacket(s1.rcv.Send(), s1.rcv.AckPosition())), s3)
            && p.at + p.m.Length() <= R.LeftEdge(s3.snd)
  {
    hide Inv, Sender.Receive, Rcv.Receiver.Receive, Tagged, OnNetwork, Payloads;
    var s := states[i];
    var p := Packet(s.snd.outstanding[0], R.LeftEdge(s.snd));
    RunOnNetwork(states, events, i, capacity, isn, rtoMs, recvCapacity);
    OldestOnNetwork(s);
    OldestFresh(s);
    OldestAcknowledged(s);
    SenderInv(s);
    s1 := Apply(s, DeliverData(p));
    StepKeeps(s, DeliverData(p));
    SenderInv(s1);
    var a := AckPacket(s1.rcv.Send(), s1.rcv.AckPosition());
    s2 := Apply(s1, SendAck);
    StepKeeps(s1, SendAck);
    SenderInv(s2);
    AnswerEnabled(s1, p, s2, a);
    s3 := Apply(s2, DeliverAck(a));
    AcknowledgedRemoved(s2, a);
  }

  lemma OldestOnNetwork(s: System)
    requires OnNetwork(s) && s.snd.outstanding != []
    ensures Packet(s.snd.outstanding[0], R.LeftEdge(s.snd)) in s.data
  {
  }

  /** The answer carries an acknowledgment, and it is fresh: at most 65535 numbers are in flight. */
  lemma AnswerEnabled(s: System, p: Packet, s': System, a: AckPacket)
    requires Inv(s) && s.rcv.isn.Some? && s' == s.(acks := s.acks + {a})
    requires a == AckPacket(s.rcv.Send(), s.rcv.AckPosition())
    ensures Enabled(s', DeliverAck(a)) && a.m.ackno.Some?
  {
    hide R.Tiles, Payloads;
    AckBehindNext(s.rcv, s.snd);
  }
}
