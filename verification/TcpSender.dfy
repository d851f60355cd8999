/** The sending half of a connection: src/tcp_sender.cc. */
module TcpSending {
  import opened Common
  import opened Wrap32
  import opened ByteStreams
  import opened Timers
  import opened TcpMessages

  /** The value of a sender. */
  datatype Sender = Sender(
    input: Stream, isn: U32, timer: Rto,
    windowSize: U16, zeroWindow: bool,
    next: nat, inFlight: nat, synSent: bool, finSent: bool,
    outstanding: seq<SenderMessage>)
  {
    function EmptyMessage(): SenderMessage
    {
      SenderMessage(Wrap(next, isn), false, [], false, input.error)
    }

    /** The segment the next call of send_segment would build in a window of `room`. */
    function NextSegment(room: nat): SenderMessage
      requires input.Valid() && room > 0
    {
      var syn := if synSent then 0 else 1;
      var payload := input.Buffered()[..Min(Min(room - syn, 1000), |input.Buffered()|)];
      var fin := !finSent && input.closed && |payload| == |input.Buffered()| && syn + |payload| < room;
      SenderMessage(Wrap(next, isn), !synSent, payload, fin, input.error)
    }

    /** The sender once `m` has gone out for the first time. */
    function Transmitted(m: SenderMessage): Sender
      requires input.Valid()
    {
      this.(input := input.Pop(|m.payload|),
            next := next + m.Length(), inFlight := inFlight + m.Length(),
            synSent := synSent || m.syn, finSent := finSent || m.fin,
            outstanding := outstanding + [m],
            timer := if timer.clock.running then timer else timer.Start())
    }

    function RightEdge(): nat
    {
      Add64(Sub64(next, inFlight), if zeroWindow then 1 else windowSize)
    }

    function Push(): Sent
      requires input.Valid()
    {
      PushUpTo(this, RightEdge())
    }

    function Receive(m: ReceiverMessage): Sender
    {
      if m.rst then
        this.(outstanding := [], inFlight := 0, timer := timer.Stop(), input := input.SetError())
      else
        var s := this.(zeroWindow := m.windowSize == 0, windowSize := m.windowSize);
        if m.ackno.None? then s else
          var absAckno := Unwrap(m.ackno.value, isn, next);
          if absAckno > next then s else
            var acked := RemoveAcked(s, absAckno);
            if acked.outstanding == s.outstanding then s else
              var reset := acked.timer.ResetBackoff();
              acked.(timer := if acked.outstanding == [] then reset.Stop() else reset.Start())
    }

    function Tick(ms: nat): Sent
    {
      var s := this.(timer := timer.Tick(ms));
      if !s.timer.clock.Expired() || outstanding == [] then Sent(s, []) else
        var t := if zeroWindow then s.timer else s.timer.RecordRetransmission();
        Sent(s.(timer := t.Start()), [outstanding[0]])
    }
  }

  /** A sender after a call, with what the call transmitted. */
  datatype Sent = Sent(s: Sender, sent: seq<SenderMessage>)

  function NewSender(capacity: nat, isn: U32, initialRtoMs: nat): Sender
  {
    Sender(Empty(capacity), isn, NewRto(initialRtoMs), 1, false, 0, 0, false, false, [])
  }

  /** Segments go out one by one until the right edge is reached or nothing is left to send. */
  function PushUpTo(s: Sender, rightEdge: nat): Sent
    requires s.input.Valid()
    decreases rightEdge - s.next
  {
    if s.next >= rightEdge || s.finSent then Sent(s, []) else
      var m := s.NextSegment(rightEdge - s.next);
      if m.Length() == 0 then Sent(s, []) else
        var rest := PushUpTo(s.Transmitted(m), rightEdge);
        Sent(rest.s, [m] + rest.sent)
  }

  lemma PushStep(s: Sender, rightEdge: nat)
    requires s.input.Valid() && s.next < rightEdge && !s.finSent
    ensures var m := s.NextSegment(rightEdge - s.next);
            if m.Length() == 0 then PushUpTo(s, rightEdge) == Sent(s, [])
            else
              var rest := PushUpTo(s.Transmitted(m), rightEdge);
              PushUpTo(s, rightEdge) == Sent(rest.s, [m] + rest.sent)
  {
  }

  lemma PushEnd(s: Sender, rightEdge: nat)
    requires s.input.Valid() && (s.next >= rightEdge || s.finSent)
    ensures PushUpTo(s, rightEdge) == Sent(s, [])
  {
  }

  lemma PopNothing(s: Stream)
    requires s.Valid()
    ensures s.Pop(0) == s
  {
  }

  /** The end of a segment as the sender recomputes it from the wire. */
  function SegmentEnd(s: Sender, m: SenderMessage): nat
  {
    Add64(Unwrap(m.seqno, s.isn, s.next), m.Length())
  }

  function RemoveAcked(s: Sender, absAckno: nat): Sender
    decreases |s.outstanding|
  {
    if s.outstanding == [] || SegmentEnd(s, s.outstanding[0]) > absAckno then s else
      var inFlight := Sub64(s.inFlight, s.outstanding[0].Length());
      RemoveAcked(s.(inFlight := inFlight, outstanding := s.outstanding[1..]), absAckno)
  }

  class TCPSender {
    const input: ByteStream
    const isn: U32
    const timer: RetransmissionTimer
    var windowSize: U16
    var zeroWindow: bool
    var nextSeqno: nat
    var bytesInFlight: nat
    var synSent: bool
    var finSent: bool
    var outstanding: seq<SenderMessage>

    ghost predicate Valid()
      reads this, input
    {
      input.Valid()
    }

    ghost function State(): Sender
      reads this, input, timer, timer.timer
    {
      Sender(input.State(), isn, timer.State(), windowSize, zeroWindow,
             nextSeqno, bytesInFlight, synSent, finSent, outstanding)
    }

    constructor (input: ByteStream, isn: U32, initialRtoMs: nat)
      requires input.Valid()
      ensures Valid() && this.input == input && fresh(timer) && fresh(timer.timer)
      ensures State() == Sender(input.State(), isn, NewRto(initialRtoMs), 1, false, 0, 0, false, false, [])
    {
      this.input, this.isn := input, isn;
      timer := new RetransmissionTimer(initialRtoMs);
      windowSize, zeroWindow := 1, false;
      nextSeqno, bytesInFlight, synSent, finSent, outstanding := 0, 0, false, false, [];
    }

    method MakeEmptyMessage() returns (m: SenderMessage)
      requires Valid()
      ensures m == State().EmptyMessage()
    {
      m := SenderMessage(Wrap(nextSeqno, isn), false, [], false, input.error);
    }

    /** Pull buffered bytes, one contiguous run at a time, up to `room`. */
    method TakePayload(room: nat) returns (payload: seq<Byte>)
      requires Valid()
      modifies input
      ensures Valid() && payload == old(input.State().Buffered())[..Min(room, |old(input.State().Buffered())|)]
      ensures input.State() == old(input.State()).Pop(|payload|)
    {
      hide Flatten, NonEmptyChunks, ByteStream.ChainOk, ByteStream.Unread;
      payload := [];
      ghost var start := input.State();
      while |payload| < room && input.BytesBuffered() > 0
        invariant input.Valid() && |payload| <= Min(room, |start.Buffered()|)
        invariant payload == start.Buffered()[..|payload|]
        invariant input.State() == start.Pop(|payload|)
        decreases room - |payload|
      {
        var view := input.Peek();
        view := view[..Min(|view|, room - |payload|)];
        NextView(start, |payload|, view);
        payload := payload + view;
        input.Pop(|view|);
      }
    }

    /** The segment itself: SYN first, then payload, then FIN if the window has room for it. */
    method BuildSegment(windowRemaining: nat) returns (msg: SenderMessage)
      requires Valid() && windowRemaining > 0
      modifies input
      ensures Valid() && msg == old(State()).NextSegment(windowRemaining)
      ensures input.State() == old(input.State()).Pop(|msg.payload|)
    {
      hide Flatten, NonEmptyChunks, Wrap;
      msg := MakeEmptyMessage();
      var length := 0;
      if !synSent {
        msg := msg.(syn := true);
        length := length + 1;
      }
      var payload := TakePayload(Min(windowRemaining - length, 1000));
      msg := msg.(payload := payload);
      length := length + |payload|;
      if !finSent && input.closed && input.BytesBuffered() == 0 && length < windowRemaining {
        msg := msg.(fin := true);
      }
    }

    method SendSegment(windowRemaining: nat) returns (sent: seq<SenderMessage>)
      requires Valid()
      modifies this, input, timer, timer.timer
      ensures Valid()
      ensures windowRemaining == 0 ==> sent == []
      ensures windowRemaining > 0 ==>
                var m := old(State()).NextSegment(windowRemaining);
                sent == if m.Length() == 0 then [] else [m]
      ensures sent == [] ==> State() == old(State())
      ensures sent != [] ==> State() == old(State()).Transmitted(sent[0])
    {
      hide Flatten, NonEmptyChunks, Wrap, Min;
      if windowRemaining == 0 {
        return [];
      }
      var msg := BuildSegment(windowRemaining);
      if msg.Length() == 0 {
        PopNothing(old(input.State()));
        return [];
      }
      sent := [msg];
      RecordTransmission(msg, msg.Length());
      if !timer.timer.running {
        timer.Start();
      }
    }

    /** The counters and flags after a first transmission. */
    method RecordTransmission(msg: SenderMessage, length: nat)
      modifies this
      ensures nextSeqno == old(nextSeqno) + length && bytesInFlight == old(bytesInFlight) + length
      ensures (synSent <==> old(synSent) || msg.syn) && (finSent <==> old(finSent) || msg.fin)
      ensures outstanding == old(outstanding) + [msg]
      ensures windowSize == old(windowSize) && zeroWindow == old(zeroWindow)
    {
      nextSeqno := nextSeqno + length;
      bytesInFlight := bytesInFlight + length;
      synSent := synSent || msg.syn;
      finSent := finSent || msg.fin;
      outstanding := outstanding + [msg];
    }

    method Push() returns (sent: seq<SenderMessage>)
      requires Valid()
      modifies this, input, timer, timer.timer
      ensures Valid() && Sent(State(), sent) == old(State()).Push()
    {
      hide Flatten, NonEmptyChunks, Wrap, Min, Sub64, Add64, PushUpTo;
      var effectiveWindow := if zeroWindow then 1 else windowSize;
      var absAck := Sub64(nextSeqno, bytesInFlight);
      var rightEdge := Add64(absAck, effectiveWindow);
      sent := [];
      while nextSeqno < rightEdge && !finSent
        invariant Valid()
        invariant old(State()).Push().s == PushUpTo(State(), rightEdge).s
        invariant old(State()).Push().sent == sent + PushUpTo(State(), rightEdge).sent
        decreases rightEdge - nextSeqno
      {
        PushStep(State(), rightEdge);
        var more := SendSegment(rightEdge - nextSeqno);
        if more == [] {
          return;
        }
        sent := sent + more;
      }
      PushEnd(State(), rightEdge);
    }

    method Receive(msg: ReceiverMessage)
      requires Valid()
      modifies this, input, timer, timer.timer
      ensures Valid() && State() == old(State()).Receive(msg)
    {
      hide Flatten, NonEmptyChunks, ByteStream.ChainOk, ByteStream.Unread, Unwrap, Sub64, Add64;
      if msg.rst {
        outstanding, bytesInFlight := [], 0;
        timer.Stop();
        input.SetError();
        return;
      }
      zeroWindow := msg.windowSize == 0;
      windowSize := msg.windowSize;
      if msg.ackno.None? {
        return;
      }
      var absAckno := Unwrap(msg.ackno.value, isn, nextSeqno);
      if absAckno > nextSeqno {
        return;
      }
      ghost var before := State();
      var ackedAnything := false;
      while outstanding != []
        invariant Valid()
        invariant RemoveAcked(State(), absAckno) == RemoveAcked(before, absAckno)
        invariant State() == before.(outstanding := outstanding, inFlight := bytesInFlight)
        invariant ackedAnything <==> outstanding != before.outstanding
        invariant |outstanding| <= |before.outstanding|
        decreases |outstanding|
      {
        var seg := outstanding[0];
        var segEnd := Add64(Unwrap(seg.seqno, isn, nextSeqno), seg.Length());
        if segEnd > absAckno {
          break;
        }
        bytesInFlight := Sub64(bytesInFlight, seg.Length());
        outstanding := outstanding[1..];
        ackedAnything := true;
      }
      if ackedAnything {
        timer.ResetBackoff();
        if outstanding == [] {
          timer.Stop();
        } else {
          timer.Start();
        }
      }
    }

    method Tick(ms: nat) returns (sent: seq<SenderMessage>)
      requires Valid()
      modifies this, timer, timer.timer
      ensures Valid() && Sent(State(), sent) == old(State()).Tick(ms)
    {
      timer.Tick(ms);
      if !timer.timer.IsExpired() || outstanding == [] {
        return [];
      }
      sent := [outstanding[0]];
      if !zeroWindow {
        timer.RecordRetransmission();
      }
      timer.Start();
    }
  }
}
