/**
 When the sender stays within the receiver's window. Every message from the receiver replaces the
 window of the sender (src/tcp_sender.cc:86-87), one overtaken by a later acknowledgment too.
 */
module TcpWindows {
  import opened Common
  import opened Wrap32
  import opened ByteStreams
  import opened Segments
  import opened Reassembly
  import opened Timers
  import opened TcpMessages
  import opened TcpSending
  import opened TcpSystem
  import R = TcpSenderRuns
  import Rcv = TcpReceiving
  import RR = ReassemblerRuns

  /** A later acknowledgment has moved the sender's left edge beyond this one. */
  ghost predicate Overtaken(s: System, a: AckPacket) { a.at < R.LeftEdge(s.snd) }

  /** The sender's right edge lies within the edge a message advertised exactly if the message was
      not overtaken when it was processed. */
  lemma WindowTaken(s: System, a: AckPacket)
    requires Inv(s) && Enabled(s, DeliverAck(a))
    ensures var snd := Apply(s, DeliverAck(a)).snd;
            && snd.windowSize == a.m.windowSize
            && (R.LeftEdge(snd) + snd.windowSize <= a.at + a.m.windowSize <==> !Overtaken(s, a))
  {
    hide Inv, Sender.Receive;
    LeftEdgeMoves(s, a);
  }

  lemma LeftEdgeMoves(s: System, a: AckPacket)
    requires Inv(s) && Enabled(s, DeliverAck(a))
    ensures s.snd.input.Valid() && s.rcv.reassembler.Valid() && s.snd.Receive(a.m).windowSize == a.m.windowSize
    ensures R.LeftEdge(s.snd) <= R.LeftEdge(s.snd.Receive(a.m)) <= Max(R.LeftEdge(s.snd), a.at)
  {
    hide R.Tiles, R.Slice, Payloads, Unwrap, R.AckedCount, Sender.Receive;
    assert AckSound(a, s.rcv);
    AckBehindNext(s.rcv, s.snd);
    R.ReceiveSound(s.snd, a.m);
    if a.m.ackno.Some? {
      UnwrapWrap(a.at, s.snd.isn, s.snd.next);
    }
    WindowReplaced(s.snd, a.m);
  }

  lemma WindowReplaced(s: Sender, m: ReceiverMessage)
    requires !m.rst
    ensures s.Receive(m).windowSize == m.windowSize
  {
    hide Unwrap, RemoveAcked;
    if m.ackno.Some? {
      R.RemoveAckedSuffix(s.(zeroWindow := m.windowSize == 0, windowSize := m.windowSize),
                          Unwrap(m.ackno.value, s.isn, s.next));
    }
  }

  /** As far as the receiver allows: the right edge of its window, or one number beyond what it
      has when the window is closed. */
  ghost function Reach(rcv: Rcv.Receiver): nat
    requires rcv.reassembler.Valid()
  {
    Max(rcv.WindowEdge(), rcv.AckPosition() + 1)
  }

  /** The last message the sender took its window from had not been overtaken. */
  ghost predicate WindowFresh(states: seq<System>, events: seq<Event>, i: nat)
    requires |states| == |events| + 1 && i <= |events|
  {
    i > 0 ==>
      match events[i - 1]
      case DeliverAck(a) => !Overtaken(states[i - 1], a)
      case _ => WindowFresh(states, events, i - 1)
  }

  ghost predicate Within(s: System)
    requires s.rcv.reassembler.Valid()
  {
    R.LeftEdge(s.snd) + Max(1, s.snd.windowSize) <= Reach(s.rcv)
  }

  /** What no event but an arriving message changes, and how far a push goes. */
  lemma StepEdges(s: System, e: Event)
    requires Inv(s) && Enabled(s, e)
    ensures var s' := Apply(s, e);
            && s'.rcv.reassembler.Valid() && Reach(s.rcv) <= Reach(s'.rcv)
            && (e.DeliverAck? ==> s'.rcv == s.rcv && s'.snd.next == s.snd.next)
            && (!e.DeliverAck? ==> R.LeftEdge(s'.snd) == R.LeftEdge(s.snd) && s'.snd.windowSize == s.snd.windowSize)
            && s'.snd.next <= (if e.Push? then Max(R.LeftEdge(s.snd) + Max(1, s.snd.windowSize), s.snd.next)
                               else s.snd.next)
  {
    hide Inv, R.Tiles, R.Slice, R.Exhausted, Payloads, Tagged;
    hide Sender.Push, Sender.Tick, Sender.Receive, Rcv.Receiver.Receive;
    SenderInv(s);
    match e
    case Push => R.PushRespectsWindow(s.snd);
    case Tick(ms) => TickShape(s.snd, ms);
    case DeliverAck(a) =>
      NoReset(s, a);
      R.ReceiveSound(s.snd, a.m);
    case DeliverData(p) =>
      Rcv.ReceiveValid(s.rcv, p.m);
      Rcv.StepKeepsEdge(s.rcv, Rcv.Arrive(p.m));
    case Read(n) => Rcv.StepKeepsEdge(s.rcv, Rcv.Event.Read(n));
    case _ =>
  }

  /** Over every run: while the last window taken is fresh, the sender's right edge is within the
      receiver's reach. */
  lemma {:induction false} FreshWithin(states: seq<System>, events: seq<Event>, i: nat,
                                       capacity: nat, isn: U32, rtoMs: nat, recvCapacity: nat)
    requires IsRun(states, events) && states[0] == Initial(capacity, isn, rtoMs, recvCapacity) && i <= |events|
    requires WindowFresh(states, events, i)
    ensures Inv(states[i]) && Within(states[i])
  {
    hide Inv, Enabled, Apply, Reach, Overtaken;
    RunInv(states, events, i, capacity, isn, rtoMs, recvCapacity);
    EdgesInv(states[i]);
    if i > 0 {
      var s, e := states[i - 1], events[i - 1];
      assert Next(s, e, states[i]);
      RunInv(states, events, i - 1, capacity, isn, rtoMs, recvCapacity);
      StepEdges(s, e);
      if e.DeliverAck? {
        WindowTaken(s, e.a);
        AdvertisedWithin(s, e.a);
      } else {
        FreshWithin(states, events, i - 1, capacity, isn, rtoMs, recvCapacity);
      }
    }
  }

  lemma EdgesInv(s: System)
    requires Inv(s)
    ensures s.rcv.reassembler.Valid() && R.LeftEdge(s.snd) + 1 <= s.rcv.AckPosition() + 1 <= Reach(s.rcv)
  {
  }

  lemma AdvertisedWithin(s: System, a: AckPacket)
    requires Inv(s) && Enabled(s, DeliverAck(a))
    ensures a.at + a.m.windowSize <= Reach(s.rcv)
  {
    assert AckSound(a, s.rcv);
  }

  /** A push goes no further than the receiver allows, or sends nothing, if the last window taken
      is fresh. */
  lemma PushWithinReach(states: seq<System>, events: seq<Event>, i: nat,
                        capacity: nat, isn: U32, rtoMs: nat, recvCapacity: nat)
    requires IsRun(states, events) && states[0] == Initial(capacity, isn, rtoMs, recvCapacity)
    requires i < |events| && events[i].Push? && WindowFresh(states, events, i)
    ensures Inv(states[i]) && states[i + 1].snd.next <= Max(Reach(states[i].rcv), states[i].snd.next)
  {
    hide Inv, Enabled, Apply, Reach;
    FreshWithin(states, events, i, capacity, isn, rtoMs, recvCapacity);
    assert Next(states[i], events[i], states[i + 1]);
    StepEdges(states[i], events[i]);
  }

  /** Over every run in which no message was overtaken, everything sent stays within the
      receiver's window, or is the one number that probes a closed one. */
  lemma {:induction false} SentWithinReach(states: seq<System>, events: seq<Event>, i: nat,
                                           capacity: nat, isn: U32, rtoMs: nat, recvCapacity: nat)
    requires IsRun(states, events) && states[0] == Initial(capacity, isn, rtoMs, recvCapacity) && i <= |events|
    requires forall k :: 0 <= k < i && events[k].DeliverAck? ==> !Overtaken(states[k], events[k].a)
    ensures WindowFresh(states, events, i) && Inv(states[i]) && states[i].snd.next <= Reach(states[i].rcv)
  {
    hide Inv, Enabled, Apply, Overtaken;
    RunInv(states, events, i, capacity, isn, rtoMs, recvCapacity);
    EdgesInv(states[i]);
    if i > 0 {
      SentWithinReach(states, events, i - 1, capacity, isn, rtoMs, recvCapacity);
      FreshWithin(states, events, i - 1, capacity, isn, rtoMs, recvCapacity);
      assert Next(states[i - 1], events[i - 1], states[i]);
      StepEdges(states[i - 1], events[i - 1]);
    }
  }

  // ----- an overtaken message

  ghost const ACK_FIRST := AckPacket(ReceiverMessage(Some(2), 1, false), 2)
  ghost const FIRST := Packet(SenderMessage(0, true, [1], false, false), 0)
  ghost const SECOND := Packet(SenderMessage(2, false, [2, 3], false, false), 2)

  /** Three bytes written, SYN and one of them sent in a window of two. */
  ghost function FirstSent(): System
  {
    System(Sender(Stream(3, [1, 2, 3], 1, false, false), 0, NewRto(1000).Start(), 2, false,
                  2, 2, true, false, [FIRST.m]),
           Rcv.NewReceiver(2), {FIRST}, {WINDOW}, [])
  }

  /** That is acknowledged, with room for one more. */
  ghost function FirstAcked(): System
  {
    System(Sender(Stream(3, [1, 2, 3], 1, false, false), 0, NewRto(1000), 1, false, 2, 0, true, false, []),
           Rcv.Receiver(Reasm(Stream(2, [1], 0, false, false), map[], 0, false), Some(0)),
           {FIRST}, {WINDOW, ACK_FIRST}, [1])
  }

  lemma SendFirst() returns (s1: System, s2: System, s3: System)
    ensures Next(Initial(3, 0, 1000, 2), Write([1, 2, 3]), s1) && Next(s1, SendAck, s2)
    ensures Next(s2, DeliverAck(WINDOW), s3) && Next(s3, Push, FirstSent())
  {
    hide Sender.Push, Sender.Receive;
    var s0 := Initial(3, 0, 1000, 2);
    s1 := s0.(snd := s0.snd.(input := Stream(3, [1, 2, 3], 0, false, false)));
    assert Next(s0, Write([1, 2, 3]), s1) by { PushFits(s0.snd.input, [1, 2, 3]); }
    s2 := s1.(acks := {WINDOW});
    assert Next(s1, SendAck, s2);
    s3 := s2.(snd := s2.snd.(windowSize := 2));
    assert Next(s2, DeliverAck(WINDOW), s3) by { WindowArrives(s2.snd); }
    assert Next(s3, Push, FirstSent()) by {
      PushFirst(s3.snd);
      assert Tagged([FIRST.m], 0) == {FIRST} + Tagged([], 2);
    }
  }

  lemma PushFirst(s: Sender)
    requires s == Sender(Stream(3, [1, 2, 3], 0, false, false), 0, NewRto(1000), 2, false, 0, 0, false, false, [])
    ensures s.Push() == Sent(FirstSent().snd, [FIRST.m])
  {
    FirstSegment(s);
    hide Sender.NextSegment;
    PushStep(s, 2);
    PushEnd(FirstSent().snd, 2);
  }

  lemma FirstSegment(s: Sender)
    requires s == Sender(Stream(3, [1, 2, 3], 0, false, false), 0, NewRto(1000), 2, false, 0, 0, false, false, [])
    ensures s.NextSegment(2) == FIRST.m && s.Transmitted(FIRST.m) == FirstSent().snd
  {
    assert s.input.Buffered()[..1] == [1];
  }

  lemma AckFirst() returns (s5: System, s6: System)
    ensures Next(FirstSent(), DeliverData(FIRST), s5) && Next(s5, SendAck, s6)
    ensures Next(s6, DeliverAck(ACK_FIRST), FirstAcked())
  {
    hide Sender.Receive, Rcv.Receiver.Receive, Payloads;
    var s4 := FirstSent();
    s5 := s4.(rcv := FirstAcked().rcv);
    assert Next(s4, DeliverData(FIRST), s5) by { FirstArrives(s4.rcv); }
    s6 := s5.(acks := {WINDOW, ACK_FIRST});
    assert Next(s5, SendAck, s6);
    assert Next(s6, DeliverAck(ACK_FIRST), FirstAcked()) by {
      AckArrives(s6.snd);
      FirstPayload();
    }
  }

  lemma FirstPayload()
    ensures Payloads([FIRST.m][..1]) == [1]
  {
    assert Payloads([FIRST.m]) == [1] + Payloads([]);
  }

  lemma FirstArrives(rcv: Rcv.Receiver)
    requires rcv == Rcv.NewReceiver(2)
    ensures rcv.Receive(FIRST.m) == FirstAcked().rcv
  {
    hide Reasm.Accepted, Drain, Unwrap;
    UnwrapWrap(0, 0, 0);
    AcceptOne(rcv.reassembler);
    DrainOne(rcv.reassembler.Accepted(0, [1]));
  }

  lemma AcceptOne(r: Reasm)
    requires r == Fresh(2)
    ensures RR.Agrees(r.Accepted(0, [1]), [1]) && 0 in r.Accepted(0, [1])
  {
    hide Reasm.Accepted, RR.Agrees, Placed;
    assert RR.Agrees(r.stored, [1]) by { NothingAgrees(); }
    RR.AcceptFragment(r, [1], 0, [1]);
    FirstIndex(r);
  }

  lemma NothingAgrees()
    ensures RR.Agrees(map[], [1])
  {
  }

  lemma DrainOne(c: Content)
    requires RR.Agrees(c, [1]) && 0 in c
    ensures Drain([], c) == Drained([1], map[])
  {
    hide Drain;
    RR.DrainOfStream([], c, [1]);
    assert forall j: nat :: j !in Drain([], c).rest;
  }

  lemma FirstIndex(r: Reasm)
    requires r == Fresh(2)
    ensures 0 in Placed(r.ClipStart(0), r.Clip(0, [1]))
  {
    assert r.Clip(0, [1]) == [1] && InSpan(0, 0, 1);
  }

  lemma AckArrives(snd: Sender)
    requires snd == FirstSent().snd
    ensures snd.Receive(ACK_FIRST.m) == FirstAcked().snd
  {
    hide Unwrap;
    UnwrapWrap(2, 0, 2);
    UnwrapWrap(0, 0, 2);
    var s' := snd.(inFlight := 0, outstanding := [], windowSize := 1);
    assert RemoveAcked(s', 2) == s';
    assert RemoveAcked(snd.(windowSize := 1), 2) == s';
  }

  /** A run in which an overtaken window lets the sender go beyond the receiver's: the first
      message of the receiver arrives again after the acknowledgment. */
  lemma OvertakenWindowRun() returns (states: seq<System>, events: seq<Event>)
    ensures IsRun(states, events) && states[0] == Initial(3, 0, 1000, 2)
    ensures var s := states[|events|];
            s.rcv.reassembler.Valid() && s.snd.next == 4 > Reach(s.rcv) == s.rcv.WindowEdge() == 3
  {
    hide Next, Initial;
    var s1, s2, s3 := SendFirst();
    var s5, s6 := AckFirst();
    var s8, s9 := SendSecond();
    states, events := [Initial(3, 0, 1000, 2), s1, s2, s3, FirstSent(), s5, s6, FirstAcked(), s8, s9],
      [Write([1, 2, 3]), SendAck, DeliverAck(WINDOW), Push, DeliverData(FIRST), SendAck, DeliverAck(ACK_FIRST),
       DeliverAck(WINDOW), Push];
  }

  lemma SendSecond() returns (s8: System, s9: System)
    ensures Next(FirstAcked(), DeliverAck(WINDOW), s8) && Next(s8, Push, s9)
    ensures s9.rcv.reassembler.Valid() && s9.snd.next == 4 && Reach(s9.rcv) == s9.rcv.WindowEdge() == 3
  {
    hide Sender.Push, Sender.Receive, Payloads;
    var s7 := FirstAcked();
    s8 := s7.(snd := s7.snd.(windowSize := 2));
    assert Next(s7, DeliverAck(WINDOW), s8) by {
      WindowArrives(s7.snd);
      NoPayloads();
    }
    PushSecond(s8.snd);
    s9 := Apply(s8, Push);
  }

  lemma NoPayloads()
    ensures Payloads([][..0]) == []
  {
  }

  lemma PushSecond(s: Sender)
    requires s == FirstAcked().snd.(windowSize := 2)
    ensures s.Push() == Sent(s.Transmitted(SECOND.m), [SECOND.m]) && s.Push().s.next == 4
  {
    assert s.NextSegment(2) == SECOND.m by { assert s.input.Buffered()[..2] == [2, 3]; }
    hide Sender.NextSegment;
    PushStep(s, 4);
    PushEnd(s.Transmitted(SECOND.m), 4);
  }
}
