/**
 One direction of a connection: a sender and a receiver joined by a network that may lose,
 duplicate and reorder messages. The calls are those of util/tcp_peer.hh, in any order.
 */
module TcpSystem {
  import opened Common
  import opened Wrap32
  import opened ByteStreams
  import opened Segments
  import opened Reassembly
  import opened Timers
  import opened TcpMessages
  import opened TcpReceiving
  import opened TcpSending
  import R = TcpSenderRuns
  import RR = ReassemblerRuns

  /** A message in flight, tagged with the absolute sequence number it stands for. The tag is
      not on the wire: no step of the receiver or the sender looks at it. */
  datatype Packet = Packet(m: SenderMessage, at: nat)

  datatype AckPacket = AckPacket(m: ReceiverMessage, at: nat)

  /** The network only grows: a lost message is one that is never delivered, and a message may
      be delivered any number of times, in any order. `acked` records the payloads removed from
      the retransmission queue. */
  datatype System = System(snd: Sender, rcv: Receiver, data: set<Packet>, acks: set<AckPacket>, acked: seq<Byte>)

  datatype Event =
    | Write(bytes: seq<Byte>) | Close | Push | Tick(ms: nat) | SendEmpty | DeliverAck(a: AckPacket)
    | DeliverData(p: Packet) | SendAck | Read(n: nat)

  ghost function Initial(capacity: nat, isn: U32, rtoMs: nat, recvCapacity: nat): System
  {
    System(NewSender(capacity, isn, rtoMs), NewReceiver(recvCapacity), {}, {}, [])
  }

  /** The packets of consecutive segments starting at `a`. */
  ghost function Tagged(sent: seq<SenderMessage>, a: nat): set<Packet>
  {
    if sent == [] then {} else {Packet(sent[0], a)} + Tagged(sent[1..], a + sent[0].Length())
  }

  ghost function Payloads(segments: seq<SenderMessage>): seq<Byte>
  {
    if segments == [] then [] else segments[0].payload + Payloads(segments[1..])
  }

  /** The assumptions of the code, and nothing else: the stream is shorter than the 64-bit
      counters, and a delivered message is fresh -- its absolute position is less than 2^31 from
      the checkpoint it is unwrapped with. The application may write after closing. */
  ghost predicate Enabled(s: System, e: Event)
  {
    match e
    case Write(bytes) => R.Countable(|s.snd.input.history| + |bytes|)
    case DeliverData(p) => p in s.data && Distance(p.at, |s.rcv.reassembler.out.history|) < 0x8000_0000
    case DeliverAck(a) => a in s.acks && (a.m.ackno.Some? ==> Distance(a.at, s.snd.next) < 0x8000_0000)
    case _ => true
  }

  ghost function Apply(s: System, e: Event): System
    requires s.snd.input.Valid() && s.rcv.reassembler.Valid()
  {
    match e
    case Write(bytes) => s.(snd := s.snd.(input := s.snd.input.Push(bytes)))
    case Close => s.(snd := s.snd.(input := s.snd.input.Close()))
    case Push =>
      var r := s.snd.Push();
      s.(snd := r.s, data := s.data + Tagged(r.sent, s.snd.next))
    case Tick(ms) =>
      var r := s.snd.Tick(ms);
      s.(snd := r.s, data := s.data + Tagged(r.sent, Sub64(s.snd.next, s.snd.inFlight)))
    case SendEmpty => s.(data := s.data + {Packet(s.snd.EmptyMessage(), s.snd.next)})
    case DeliverAck(a) =>
      var snd := s.snd.Receive(a.m);
      var k := |s.snd.outstanding| - |snd.outstanding|;
      s.(snd := snd, acked := s.acked + (if k >= 0 then Payloads(s.snd.outstanding[..k]) else []))
    case DeliverData(p) => s.(rcv := s.rcv.Receive(p.m))
    case SendAck => s.(acks := s.acks + {AckPacket(s.rcv.Send(), s.rcv.AckPosition())})
    case Read(n) => s.(rcv := s.rcv.(reassembler := s.rcv.reassembler.Read(n)))
  }

  // ----- the invariant

  /** A reassembler fed with slices of `taken`, the bytes the sender has sent so far. */
  ghost predicate Holding(r: Reasm, taken: seq<Byte>, fin: bool)
  {
    && r.Valid() && !r.out.error
    && r.out.history <= taken && RR.Agrees(r.stored, taken)
    && (r.eof ==> fin && r.end == |taken|)
    && (r.out.closed <==> r.eof && |r.out.history| == r.end)
  }

  ghost predicate ReceiverSound(rcv: Receiver, snd: Sender)
    requires snd.input.Valid()
  {
    && Holding(rcv.reassembler, R.Taken(snd), snd.finSent)
    && (rcv.isn.None? ==> rcv.reassembler == Fresh(rcv.reassembler.out.capacity))
    && (rcv.isn.Some? ==> rcv.isn.value == snd.isn && snd.synSent)
  }

  ghost predicate PacketSound(p: Packet, snd: Sender)
    requires snd.input.Valid()
  {
    && p.m.seqno == Wrap(p.at, snd.isn) && !p.m.rst
    && p.at + p.m.Length() <= snd.next
    && (p.m.Length() == 0 || R.Slice(p.m, p.at, snd.isn, R.Taken(snd), snd.finSent))
  }

  ghost predicate AckSound(a: AckPacket, rcv: Receiver)
    requires rcv.reassembler.Valid()
  {
    && !a.m.rst && a.at <= rcv.AckPosition() && a.at + a.m.windowSize <= rcv.WindowEdge()
    && (a.m.ackno.Some? ==> rcv.isn.Some? && a.m.ackno.value == Wrap(a.at, rcv.isn.value))
    && (a.m.ackno.None? ==> a.at == 0)
  }

  ghost predicate Inv(s: System)
  {
    && R.Sound(s.snd)
    && ReceiverSound(s.rcv, s.snd)
    && (forall p :: p in s.data ==> PacketSound(p, s.snd))
    && (forall a :: a in s.acks ==> AckSound(a, s.rcv))
    && R.LeftEdge(s.snd) <= s.rcv.AckPosition()
    && s.acked + Payloads(s.snd.outstanding) == R.Taken(s.snd)
  }

  // ----- the receiver's side

  lemma InsertHolding(r: Reasm, taken: seq<Byte>, fin: bool, first: nat, data: seq<Byte>, last: bool)
    requires Holding(r, taken, fin) && |taken| < 0x1_0000_0000_0000_0000
    requires first + |data| <= |taken| && data == taken[first..first + |data|]
    requires last ==> fin && first + |data| == |taken|
    ensures Holding(r.Insert(first, data, last), taken, fin)
  {
    hide Drain, Accept, Placed;
    InsertValid(r, first, data, last);
    RR.AcceptFragment(r, taken, first, data);
    AcceptedInWindow(r, first, data);
    RR.DrainOfStream(r.out.history, r.Accepted(first, data), taken);
  }

  /** A segment with no sequence number changes nothing in the reassembler. */
  lemma InsertNothing(r: Reasm, taken: seq<Byte>, fin: bool, first: nat)
    requires Holding(r, taken, fin)
    ensures r.Insert(first, [], false) == r
  {
    AcceptedInWindow(r, first, []);
    assert |r.out.history| !in r.stored;
  }

  lemma DeliverSound(rcv: Receiver, snd: Sender, p: Packet)
    requires R.Sound(snd) && ReceiverSound(rcv, snd) && PacketSound(p, snd)
    requires Distance(p.at, |rcv.reassembler.out.history|) < 0x8000_0000
    ensures ReceiverSound(rcv.Receive(p.m), snd)
  {
    hide R.Tiles, Drain, Accept, Unwrap;
    UnwrapWrap(p.at, snd.isn, |rcv.reassembler.out.history|);
    var r, taken, fin := rcv.reassembler, R.Taken(snd), snd.finSent;
    if p.m.Length() == 0 {
      if rcv.isn.Some? {
        InsertNothing(r, taken, fin, rcv.StreamIndex(p.m, snd.isn));
      }
    } else if rcv.isn.Some? || p.m.syn {
      assert rcv.isn.None? ==> p.m.seqno == snd.isn;
      assert rcv.StreamIndex(p.m, snd.isn) == R.PayloadIndex(p.at);
      InsertHolding(r, taken, fin, R.PayloadIndex(p.at), p.m.payload, p.m.fin);
    }
  }

  /** An empty message changes nothing at the receiver, and it tells where the sender stands:
      unwrapped near the truth its number is the next one. */
  lemma EmptyMessageIsSilent(s: System, checkpoint: nat)
    requires Inv(s) && checkpoint < 0x1_0000_0000_0000_0000 && Distance(s.snd.next, checkpoint) < 0x8000_0000
    ensures var m := s.snd.EmptyMessage();
            && m.Length() == 0 && !m.rst && s.rcv.Receive(m) == s.rcv
            && Unwrap(m.seqno, s.snd.isn, checkpoint) == s.snd.next
  {
    hide R.Tiles, Payloads, Unwrap;
    var m := s.snd.EmptyMessage();
    UnwrapWrap(s.snd.next, s.snd.isn, checkpoint);
    if s.rcv.isn.Some? {
      InsertNothing(s.rcv.reassembler, R.Taken(s.snd), s.snd.finSent, s.rcv.StreamIndex(m, s.rcv.isn.value));
    }
  }

  /** What the receiver holds survives the sender taking more. */
  lemma ReceiverLags(rcv: Receiver, snd: Sender, snd': Sender)
    requires snd.input.Valid() && snd'.input.Valid() && ReceiverSound(rcv, snd)
    requires snd'.isn == snd.isn && (snd.synSent ==> snd'.synSent)
    requires R.Taken(snd) <= R.Taken(snd') && (snd.finSent ==> snd'.finSent && R.Taken(snd) == R.Taken(snd'))
    ensures ReceiverSound(rcv, snd')
  {
  }

  /** The acknowledgment never runs ahead of what was sent. */
  lemma AckBehindNext(rcv: Receiver, snd: Sender)
    requires R.Sound(snd) && ReceiverSound(rcv, snd)
    ensures rcv.AckPosition() <= snd.next
  {
  }

  // ----- the sender's side

  lemma PacketKept(p: Packet, snd: Sender, snd': Sender)
    requires snd.input.Valid() && snd'.input.Valid() && PacketSound(p, snd)
    requires snd'.isn == snd.isn && snd.next <= snd'.next
    requires R.Taken(snd) <= R.Taken(snd') && (snd.finSent ==> snd'.finSent && R.Taken(snd) == R.Taken(snd'))
    ensures PacketSound(p, snd')
  {
    hide R.Slice, R.Taken;
    if p.m.Length() > 0 {
      R.SliceGrow(p.m, p.at, snd.isn, R.Taken(snd), snd.finSent, R.Taken(snd'), snd'.finSent);
    }
  }

  lemma {:induction false} TaggedSound(sent: seq<SenderMessage>, a: nat, snd: Sender)
    requires snd.input.Valid() && R.Tiles(sent, a, snd.next, snd.isn, R.Taken(snd), snd.finSent)
    ensures forall p :: p in Tagged(sent, a) ==> PacketSound(p, snd)
  {
    if sent != [] {
      TaggedSound(sent[1..], a + sent[0].Length(), snd);
      R.TilesSpan(sent[1..], a + sent[0].Length(), snd.next, snd.isn, R.Taken(snd), snd.finSent);
    }
  }

  lemma {:induction false} PayloadsConcat(x: seq<SenderMessage>, y: seq<SenderMessage>)
    ensures Payloads(x + y) == Payloads(x) + Payloads(y)
  {
    if x == [] {
      assert x + y == y;
    } else {
      assert (x + y)[1..] == x[1..] + y;
      PayloadsConcat(x[1..], y);
      Associative(x[0].payload, Payloads(x[1..]), Payloads(y));
    }
  }

  /** How many stream bytes lie before absolute position `a`. */
  ghost function BytesBefore(a: nat, w: seq<Byte>): (n: nat)
    ensures n <= |w|
  {
    if a == 0 then 0 else Min(a - 1, |w|)
  }

  lemma SlicePayload(m: SenderMessage, a: nat, isn: U32, w: seq<Byte>, fin: bool)
    requires R.Slice(m, a, isn, w, fin)
    ensures BytesBefore(a, w) <= BytesBefore(a + m.Length(), w)
    ensures m.payload == w[BytesBefore(a, w)..BytesBefore(a + m.Length(), w)]
  {
  }

  lemma {:induction false} TilesPayload(x: seq<SenderMessage>, a: nat, b: nat, isn: U32, w: seq<Byte>, fin: bool)
    requires R.Tiles(x, a, b, isn, w, fin)
    ensures BytesBefore(a, w) <= BytesBefore(b, w) && Payloads(x) == w[BytesBefore(a, w)..BytesBefore(b, w)]
  {
    hide R.Slice, BytesBefore;
    if x != [] {
      var mid := a + x[0].Length();
      TilesPayload(x[1..], mid, b, isn, w, fin);
      SlicePayload(x[0], a, isn, w, fin);
      assert w[BytesBefore(a, w)..BytesBefore(mid, w)] + w[BytesBefore(mid, w)..BytesBefore(b, w)]
          == w[BytesBefore(a, w)..BytesBefore(b, w)];
    }
  }

  lemma TakenBefore(s: Sender, w: seq<Byte>)
    requires R.Sound(s) && s.input.popped <= |w| && (s.finSent ==> |w| == s.input.popped)
    ensures s.input.popped == BytesBefore(s.next, w)
  {
  }

  // ----- every step keeps the invariant

  lemma WriteOrCloseKeeps(s: System, input: Stream)
    requires Inv(s) && input.Valid() && !input.error && R.Countable(|input.history|)
    requires input.popped == s.snd.input.popped && s.snd.input.history <= input.history
    requires s.snd.input.closed ==> input.closed
    ensures Inv(s.(snd := s.snd.(input := input)))
  {
    hide R.Tiles, R.Slice;
    var snd' := s.snd.(input := input);
    R.InputSound(s.snd, input);
    ReceiverLags(s.rcv, s.snd, snd');
    forall p | p in s.data
      ensures PacketSound(p, snd')
    {
      PacketKept(p, s.snd, snd');
    }
  }

  lemma PushKeeps(s: System)
    requires Inv(s)
    ensures Inv(Apply(s, Push))
  {
    hide R.Tiles, R.Slice, PushUpTo, Payloads, Tagged, Sender.RightEdge, BytesBefore;
    var snd, r := s.snd, s.snd.Push();
    R.RightEdgeBound(snd);
    R.PushSound(snd, snd.RightEdge());
    R.PushRespectsWindow(snd);
    var w := R.Taken(r.s);
    TaggedSound(r.sent, snd.next, r.s);
    TakenBefore(snd, w);
    TakenBefore(r.s, w);
    TilesPayload(r.sent, snd.next, r.s.next, snd.isn, w, r.s.finSent);
    PayloadsConcat(snd.outstanding, r.sent);
    Associative(s.acked, Payloads(snd.outstanding), Payloads(r.sent));
    assert R.Taken(snd) + w[snd.input.popped..r.s.input.popped] == w;
    ReceiverLags(s.rcv, snd, r.s);
    forall p | p in s.data
      ensures PacketSound(p, r.s)
    {
      PacketKept(p, snd, r.s);
    }
  }

  lemma TickKeeps(s: System, ms: nat)
    requires Inv(s)
    ensures Inv(Apply(s, Tick(ms)))
  {
    hide R.Slice, R.Tiles, Payloads, Sender.Tick;
    var r := s.snd.Tick(ms);
    TickShape(s.snd, ms);
    ReceiverLags(s.rcv, s.snd, r.s);
    if r.sent != [] {
      RetransmissionSound(s.snd, r.s);
    }
    forall p | p in s.data
      ensures PacketSound(p, r.s)
    {
      PacketKept(p, s.snd, r.s);
    }
  }

  /** A tick changes the timer only, and may retransmit the oldest segment outstanding. */
  lemma TickShape(snd: Sender, ms: nat)
    ensures var r := snd.Tick(ms);
            && r.s == snd.(timer := r.s.timer)
            && (r.sent == [] || (snd.outstanding != [] && r.sent == [snd.outstanding[0]]))
  {
  }

  /** A retransmission is the exact slice at the left edge. */
  lemma RetransmissionSound(snd: Sender, snd': Sender)
    requires R.Sound(snd) && snd.outstanding != [] && snd' == snd.(timer := snd'.timer)
    ensures forall p :: p in Tagged([snd.outstanding[0]], Sub64(snd.next, snd.inFlight)) ==> PacketSound(p, snd')
  {
    var m, a := snd.outstanding[0], snd.next - snd.inFlight;
    R.TilesSpan(snd.outstanding[1..], a + m.Length(), snd.next, snd.isn, R.Taken(snd), snd.finSent);
    assert Tagged([m], a) == {Packet(m, a)};
  }

  lemma DeliverAckKeeps(s: System, a: AckPacket)
    requires Inv(s) && Enabled(s, DeliverAck(a))
    ensures Inv(Apply(s, DeliverAck(a)))
  {
    hide R.Tiles, R.Slice, Payloads, Unwrap, Sender.Receive, R.AckedCount;
    var snd, snd' := s.snd, s.snd.Receive(a.m);
    R.ReceiveSound(snd, a.m);
    AckBehindNext(s.rcv, snd);
    if a.m.ackno.Some? {
      UnwrapWrap(a.at, snd.isn, snd.next);
    }
    var k := R.AckedCount(snd.outstanding, R.LeftEdge(snd), R.AckOf(snd, a.m));
    assert snd.outstanding[..k] + snd.outstanding[k..] == snd.outstanding;
    PayloadsConcat(snd.outstanding[..k], snd.outstanding[k..]);
    Associative(s.acked, Payloads(snd.outstanding[..k]), Payloads(snd.outstanding[k..]));
    ReceiverLags(s.rcv, snd, snd');
    forall p | p in s.data
      ensures PacketSound(p, snd')
    {
      PacketKept(p, snd, snd');
    }
  }

  lemma AckKept(a: AckPacket, rcv: Receiver, rcv': Receiver)
    requires rcv.reassembler.Valid() && rcv'.reassembler.Valid() && AckSound(a, rcv)
    requires rcv.AckPosition() <= rcv'.AckPosition() && rcv.WindowEdge() <= rcv'.WindowEdge()
    requires rcv.isn.Some? ==> rcv'.isn == rcv.isn
    ensures AckSound(a, rcv')
  {
  }

  lemma ReceiverStepKeeps(s: System, rcv: Receiver)
    requires Inv(s) && ReceiverSound(rcv, s.snd)
    requires s.rcv.AckPosition() <= rcv.AckPosition() && s.rcv.WindowEdge() <= rcv.WindowEdge()
    requires s.rcv.isn.Some? ==> rcv.isn == s.rcv.isn
    ensures Inv(s.(rcv := rcv))
  {
    hide R.Tiles, R.Slice, Payloads;
    forall a | a in s.acks
      ensures AckSound(a, rcv)
    {
      AckKept(a, s.rcv, rcv);
    }
  }

  lemma SenderInv(s: System)
    requires Inv(s)
    ensures R.Sound(s.snd) && s.rcv.reassembler.Valid()
  {
  }

  lemma NoReset(s: System, a: AckPacket)
    requires Inv(s) && a in s.acks
    ensures !a.m.rst
  {
    assert AckSound(a, s.rcv);
  }

  lemma WriteKeeps(s: System, bytes: seq<Byte>)
    requires Inv(s) && Enabled(s, Write(bytes))
    ensures Inv(Apply(s, Write(bytes)))
  {
    hide R.Tiles, R.Slice, Payloads;
    WriteOrCloseKeeps(s, s.snd.input.Push(bytes));
  }

  lemma CloseKeeps(s: System)
    requires Inv(s)
    ensures Inv(Apply(s, Close))
  {
    hide R.Tiles, R.Slice, Payloads;
    WriteOrCloseKeeps(s, s.snd.input.Close());
  }

  lemma ReadKeeps(s: System, n: nat)
    requires Inv(s)
    ensures Inv(Apply(s, Event.Read(n)))
  {
    hide R.Tiles, R.Slice, Payloads;
    ReceiverStepKeeps(s, s.rcv.(reassembler := s.rcv.reassembler.Read(n)));
  }

  lemma SendEmptyKeeps(s: System)
    requires Inv(s)
    ensures Inv(Apply(s, SendEmpty))
  {
    hide R.Tiles, R.Slice, Payloads;
    assert PacketSound(Packet(s.snd.EmptyMessage(), s.snd.next), s.snd);
  }

  lemma SendAckKeeps(s: System)
    requires Inv(s)
    ensures Inv(Apply(s, SendAck))
  {
    hide R.Tiles, R.Slice, Payloads;
    assert AckSound(AckPacket(s.rcv.Send(), s.rcv.AckPosition()), s.rcv);
  }

  lemma DeliverDataKeeps(s: System, p: Packet)
    requires Inv(s) && Enabled(s, DeliverData(p))
    ensures Inv(Apply(s, DeliverData(p)))
  {
    hide R.Tiles, R.Slice, Payloads, Receiver.Receive;
    DeliverSound(s.rcv, s.snd, p);
    ReceiveValid(s.rcv, p.m);
    ReceivedIsn(s.rcv, p.m);
    StepKeepsEdge(s.rcv, Arrive(p.m));
    ReceiverStepKeeps(s, s.rcv.Receive(p.m));
  }

  lemma ReceivedIsn(rcv: Receiver, m: SenderMessage)
    requires rcv.reassembler.Valid()
    ensures rcv.isn.Some? ==> rcv.Receive(m).isn == rcv.isn
  {
  }

  lemma StepKeeps(s: System, e: Event)
    requires Inv(s) && Enabled(s, e)
    ensures s.snd.input.Valid() && s.rcv.reassembler.Valid() && Inv(Apply(s, e))
  {
    SenderInv(s);
    hide Inv, Enabled, Apply;
    match e
    case Write(bytes) => WriteKeeps(s, bytes);
    case Close => CloseKeeps(s);
    case Push => PushKeeps(s);
    case Tick(ms) => TickKeeps(s, ms);
    case SendEmpty => SendEmptyKeeps(s);
    case DeliverAck(a) => DeliverAckKeeps(s, a);
    case DeliverData(p) => DeliverDataKeeps(s, p);
    case SendAck => SendAckKeeps(s);
    case Read(n) => ReadKeeps(s, n);
  }

  // ----- whole runs

  ghost predicate Next(s: System, e: Event, s': System)
  {
    s.snd.input.Valid() && s.rcv.reassembler.Valid() && Enabled(s, e) && s' == Apply(s, e)
  }

  ghost predicate IsRun(states: seq<System>, events: seq<Event>)
  {
    && |states| == |events| + 1
    && forall i :: 0 <= i < |events| ==> Next(states[i], events[i], states[i + 1])
  }

  lemma InitialInv(capacity: nat, isn: U32, rtoMs: nat, recvCapacity: nat)
    ensures Inv(Initial(capacity, isn, rtoMs, recvCapacity))
  {
  }

  lemma {:induction false} RunInv(states: seq<System>, events: seq<Event>, i: nat,
                                  capacity: nat, isn: U32, rtoMs: nat, recvCapacity: nat)
    requires IsRun(states, events) && states[0] == Initial(capacity, isn, rtoMs, recvCapacity) && i <= |events|
    ensures Inv(states[i])
  {
    hide Inv, Enabled, Apply;
    if i > 0 {
      RunInv(states, events, i - 1, capacity, isn, rtoMs, recvCapacity);
      assert Next(states[i - 1], events[i - 1], states[i]);
      StepKeeps(states[i - 1], events[i - 1]);
    } else {
      InitialInv(capacity, isn, rtoMs, recvCapacity);
    }
  }

  /** End-to-end safety, over every run: what the receiver has emitted is a prefix of what was
      written; the left edge of the sender's window is at or behind the receiver's
      acknowledgment position, which is at or behind the next sequence number; the payloads
      acknowledged, outstanding and still buffered make up everything written; a receiver that has
      closed holds everything the sender will ever take, the FIN included; and a FIN sent with
      nothing in flight means the receiver has closed. */
  lemma EndToEnd(states: seq<System>, events: seq<Event>, i: nat,
                 capacity: nat, isn: U32, rtoMs: nat, recvCapacity: nat)
    requires IsRun(states, events) && states[0] == Initial(capacity, isn, rtoMs, recvCapacity) && i <= |events|
    ensures var s := states[i];
            var written, emitted := s.snd.input.history, s.rcv.reassembler.out.history;
            && emitted <= written
            && s.snd.next - s.snd.inFlight <= s.rcv.AckPosition() <= s.snd.next
            && s.snd.input.popped <= |written|
            && s.acked + Payloads(s.snd.outstanding) + written[s.snd.input.popped..] == written
            && (s.rcv.reassembler.out.closed ==>
                  s.snd.finSent && s.snd.input.closed && emitted == written[..s.snd.input.popped])
            && (s.snd.finSent && s.snd.inFlight == 0 ==> s.rcv.reassembler.out.closed)
  {
    hide Next, Inv, Payloads;
    RunInv(states, events, i, capacity, isn, rtoMs, recvCapacity);
    Ends(states[i]);
  }

  lemma Ends(s: System)
    requires Inv(s)
    ensures var input, out := s.snd.input, s.rcv.reassembler.out;
            && input.popped <= |input.history| && out.history <= input.history[..input.popped]
            && s.snd.next - s.snd.inFlight <= s.rcv.AckPosition() <= s.snd.next
            && s.acked + Payloads(s.snd.outstanding) == input.history[..input.popped]
            && (out.closed ==> s.snd.finSent && input.closed && out.history == input.history[..input.popped])
            && (s.snd.finSent && s.snd.inFlight == 0 ==> out.closed)
  {
    hide R.Tiles, R.Slice, PacketSound, AckSound, Payloads;
    AckBehindNext(s.rcv, s.snd);
  }

  /** Over every run, whatever is or ever was on the network, first transmission or
      retransmission, is an empty probe or the exact slice of SYN ++ stream ++ FIN at its
      sequence number, within what has been sent; and what is outstanding tiles the sequence
      numbers in flight, at most 65535 of them. */
  lemma EverySegmentIsAnExactSlice(states: seq<System>, events: seq<Event>, i: nat,
                                   capacity: nat, isn: U32, rtoMs: nat, recvCapacity: nat)
    requires IsRun(states, events) && states[0] == Initial(capacity, isn, rtoMs, recvCapacity) && i <= |events|
    ensures var snd := states[i].snd;
            && snd.input.Valid()
            && (forall p :: p in states[i].data ==>
                  && p.at + p.m.Length() <= snd.next
                  && (p.m.Length() == 0 || R.Slice(p.m, p.at, snd.isn, R.Taken(snd), snd.finSent)))
            && snd.inFlight <= 0xffff && snd.inFlight <= snd.next
            && R.Tiles(snd.outstanding, snd.next - snd.inFlight, snd.next, snd.isn, R.Taken(snd), snd.finSent)
  {
    hide R.Tiles, R.Slice, Payloads;
    RunInv(states, events, i, capacity, isn, rtoMs, recvCapacity);
  }

  /** For streams shorter than 2^31 - 2 bytes freshness is no assumption: every message in the
      network, however old, may be delivered. */
  lemma ShortStreamsAreFresh(states: seq<System>, events: seq<Event>, i: nat,
                             capacity: nat, isn: U32, rtoMs: nat, recvCapacity: nat)
    requires IsRun(states, events) && states[0] == Initial(capacity, isn, rtoMs, recvCapacity) && i <= |events|
    requires |states[i].snd.input.history| < 0x8000_0000 - 2
    ensures forall p :: p in states[i].data ==> Enabled(states[i], DeliverData(p))
    ensures forall a :: a in states[i].acks ==> Enabled(states[i], DeliverAck(a))
  {
    hide R.Tiles, R.Slice, Payloads;
    RunInv(states, events, i, capacity, isn, rtoMs, recvCapacity);
    AckBehindNext(states[i].rcv, states[i].snd);
  }

  // ----- writing after the FIN

  /** A write that is accepted, at least in part, when the FIN is already out. A write after
      close but before the FIN is no such thing: it still goes out, ahead of the FIN. */
  ghost predicate LateWrite(s: System, e: Event)
  {
    s.snd.input.Valid() && e.Write? && s.snd.finSent && e.bytes != [] && s.snd.input.Available() > 0
  }

  lemma PushFin(s: Sender)
    requires R.Sound(s)
    ensures var r := s.Push().s;
            && r.input.Valid() && r.input.history == s.input.history && (s.finSent ==> r == s)
            && (r.finSent && !s.finSent ==> r.input.popped == |s.input.history|)
  {
    hide R.Tiles, PushUpTo, Sender.RightEdge;
    R.RightEdgeBound(s);
    R.PushSound(s, s.RightEdge());
  }

  /** The FIN goes out behind everything written, and from then on exactly the late writes add
      bytes that are never taken. */
  lemma StepFin(s: System, e: Event)
    requires Inv(s) && Enabled(s, e)
    ensures var i, i' := s.snd.input, Apply(s, e).snd.input;
            && i'.Valid()
            && (s.snd.finSent ==>
                  && Apply(s, e).snd.finSent
                  && (i'.popped == |i'.history| <==> i.popped == |i.history| && !LateWrite(s, e)))
            && (!s.snd.finSent ==> !LateWrite(s, e))
            && (!s.snd.finSent && Apply(s, e).snd.finSent ==> i'.popped == |i'.history|)
  {
    hide Inv, R.Tiles, Sender.Push, Sender.Receive, Payloads, Tagged;
    SenderInv(s);
    match e
    case Push => PushFin(s.snd);
    case Tick(ms) => TickShape(s.snd, ms);
    case DeliverAck(a) => AckInput(s, a);
    case _ =>
  }

  lemma AckInput(s: System, a: AckPacket)
    requires Inv(s) && Enabled(s, DeliverAck(a))
    ensures s.snd.Receive(a.m).input == s.snd.input && s.snd.Receive(a.m).finSent == s.snd.finSent
  {
    hide R.Tiles, R.Slice, Payloads, Sender.Receive, R.AckedCount;
    NoReset(s, a);
    R.ReceiveSound(s.snd, a.m);
  }

  /** Whether everything written has been taken, once the FIN is out. */
  lemma {:induction false} TakenAll(states: seq<System>, events: seq<Event>, i: nat,
                                    capacity: nat, isn: U32, rtoMs: nat, recvCapacity: nat)
    requires IsRun(states, events) && states[0] == Initial(capacity, isn, rtoMs, recvCapacity) && i <= |events|
    ensures states[i].snd.input.Valid()
    ensures states[i].snd.finSent ==>
              (states[i].snd.input.popped == |states[i].snd.input.history|
               <==> forall k :: 0 <= k < i ==> !LateWrite(states[k], events[k]))
    ensures !states[i].snd.finSent ==> forall k :: 0 <= k < i ==> !LateWrite(states[k], events[k])
  {
    hide Inv, Apply, LateWrite, Enabled;
    if i > 0 {
      TakenAll(states, events, i - 1, capacity, isn, rtoMs, recvCapacity);
      RunInv(states, events, i - 1, capacity, isn, rtoMs, recvCapacity);
      assert Next(states[i - 1], events[i - 1], states[i]);
      StepFin(states[i - 1], events[i - 1]);
    }
  }

  /** When the receiver has closed, or the FIN is out with nothing in flight, the receiver holds
      everything written exactly if nothing was accepted after the FIN went out. */
  lemma CleanCloseExact(states: seq<System>, events: seq<Event>, i: nat,
                        capacity: nat, isn: U32, rtoMs: nat, recvCapacity: nat)
    requires IsRun(states, events) && states[0] == Initial(capacity, isn, rtoMs, recvCapacity) && i <= |events|
    requires states[i].rcv.reassembler.out.closed || (states[i].snd.finSent && states[i].snd.inFlight == 0)
    ensures states[i].rcv.reassembler.out.history == states[i].snd.input.history
            <==> forall k :: 0 <= k < i ==> !LateWrite(states[k], events[k])
  {
    hide Apply, LateWrite, Enabled;
    EndToEnd(states, events, i, capacity, isn, rtoMs, recvCapacity);
    TakenAll(states, events, i, capacity, isn, rtoMs, recvCapacity);
    var input := states[i].snd.input;
    assert input.history[..|input.history|] == input.history;
  }

  ghost const WINDOW := AckPacket(ReceiverMessage(None, 2, false), 0)
  ghost const ACK_TWO := AckPacket(ReceiverMessage(Some(2), 2, false), 2)
  ghost const SYN_FIN := Packet(SenderMessage(0, true, [], true, false), 0)

  /** SYN and FIN have gone out in one segment. */
  ghost function FinSent(): System
  {
    System(Sender(Empty(1).Close(), 0, NewRto(1000).Start(), 2, false, 2, 2, true, true, [SYN_FIN.m]),
           NewReceiver(2), {SYN_FIN}, {WINDOW}, [])
  }

  lemma OpenClose() returns (s1: System, s2: System, s3: System, s4: System)
    ensures Next(Initial(1, 0, 1000, 2), SendAck, s1) && Next(s1, DeliverAck(WINDOW), s2)
    ensures Next(s2, Close, s3) && Next(s3, Push, s4) && s4 == FinSent()
  {
    hide Sender.Push, Sender.Receive;
    var s0 := Initial(1, 0, 1000, 2);
    s1 := s0.(acks := {WINDOW});
    assert Next(s0, SendAck, s1);
    s2 := s1.(snd := s1.snd.(windowSize := 2));
    assert Next(s1, DeliverAck(WINDOW), s2) by { WindowArrives(s1.snd); }
    s3 := s2.(snd := s2.snd.(input := Empty(1).Close()));
    assert Next(s2, Close, s3);
    s4 := FinSent();
    assert Next(s3, Push, s4) by {
      SynFin(s3.snd);
      assert Tagged([SYN_FIN.m], 0) == {SYN_FIN} + Tagged([], 2);
    }
  }

  lemma WindowArrives(snd: Sender)
    requires !snd.zeroWindow
    ensures snd.Receive(WINDOW.m) == snd.(windowSize := 2)
  {
  }

  lemma SynFin(s: Sender)
    requires s == Sender(Empty(1).Close(), 0, NewRto(1000), 2, false, 0, 0, false, false, [])
    ensures s.Push() == Sent(FinSent().snd, [SYN_FIN.m])
  {
    assert s.NextSegment(2) == SYN_FIN.m;
    PushStep(s, 2);
    PushEnd(s.Transmitted(SYN_FIN.m), 2);
  }

  lemma DeliverAckWrite() returns (s5: System, s6: System, s7: System, s8: System)
    ensures Next(FinSent(), DeliverData(SYN_FIN), s5) && Next(s5, SendAck, s6)
    ensures Next(s6, DeliverAck(ACK_TWO), s7) && Next(s7, Write([7]), s8)
    ensures s8.rcv.reassembler.out.closed && s8.snd.finSent && s8.snd.inFlight == 0
    ensures s8.snd.input.history == [7] && s8.rcv.reassembler.out.history == []
  {
    hide Sender.Receive, Receiver.Receive, Payloads;
    var s4 := FinSent();
    s5 := s4.(rcv := Receiver(Reasm(Empty(2).Close(), map[], 0, true), Some(0)));
    assert Next(s4, DeliverData(SYN_FIN), s5) by { SynFinArrives(s4.rcv); }
    s6 := s5.(acks := {WINDOW, ACK_TWO});
    assert Next(s5, SendAck, s6);
    s7 := s6.(snd := s6.snd.(inFlight := 0, outstanding := [], timer := NewRto(1000)));
    assert Next(s6, DeliverAck(ACK_TWO), s7) by { AckTwoArrives(s6.snd); PayloadsOfSynFin(); }
    s8 := s7.(snd := s7.snd.(input := s7.snd.input.(history := [7])));
    assert Next(s7, Write([7]), s8) by { PushFits(s7.snd.input, [7]); }
  }

  lemma PayloadsOfSynFin()
    ensures Payloads([SYN_FIN.m][..1]) == []
  {
  }

  lemma SynFinArrives(rcv: Receiver)
    requires rcv == NewReceiver(2)
    ensures rcv.Receive(SYN_FIN.m) == Receiver(Reasm(Empty(2).Close(), map[], 0, true), Some(0))
  {
    hide Accept;
    UnwrapWrap(0, 0, 0);
    AcceptedInWindow(rcv.reassembler, 0, []);
    assert Drain([], map[]) == Drained([], map[]);
  }

  lemma AckTwoArrives(snd: Sender)
    requires snd == FinSent().snd
    ensures snd.Receive(ACK_TWO.m) == snd.(inFlight := 0, outstanding := [], timer := NewRto(1000))
  {
    hide Unwrap;
    UnwrapWrap(2, 0, 2);
    UnwrapWrap(0, 0, 2);
    var s' := snd.(inFlight := 0, outstanding := []);
    assert RemoveAcked(s', 2) == s';
    assert RemoveAcked(snd, 2) == s';
  }

  /** A run in which a byte is lost to a late write: both streams close empty, everything is
      acknowledged, and then a byte is accepted. */
  lemma LateWriteRun() returns (states: seq<System>, events: seq<Event>)
    ensures IsRun(states, events) && states[0] == Initial(1, 0, 1000, 2)
    ensures var s := states[|events|];
            && s.rcv.reassembler.out.closed && s.snd.finSent && s.snd.inFlight == 0
            && s.snd.input.history == [7] && s.rcv.reassembler.out.history == []
  {
    hide Next, Initial;
    var s1, s2, s3, s4 := OpenClose();
    var s5, s6, s7, s8 := DeliverAckWrite();
    states, events := [Initial(1, 0, 1000, 2), s1, s2, s3, s4, s5, s6, s7, s8],
      [SendAck, DeliverAck(WINDOW), Close, Push, DeliverData(SYN_FIN), SendAck, DeliverAck(ACK_TWO), Write([7])];
  }
}
