/** The receiving half of a connection: src/tcp_receiver.cc. */
module TcpReceiving {
  import opened Common
  import opened Wrap32
  import opened Reassembly
  import opened TcpMessages

  /** The value of a receiver. */
  datatype Receiver = Receiver(reassembler: Reasm, isn: Option<U32>)
  {
    ghost function Receive(m: SenderMessage): Receiver
      requires reassembler.Valid()
    {
      if m.rst then
        this.(reassembler := reassembler.(out := reassembler.out.SetError().Close()))
      else if isn.None? && !m.syn then
        this
      else
        var zero := if isn.None? then m.seqno else isn.value;
        Receiver(reassembler.Insert(StreamIndex(m, zero), m.payload, m.fin), Some(zero))
    }

    /** The stream index of the payload: the SYN takes sequence number 0. */
    ghost function StreamIndex(m: SenderMessage, zero: U32): nat
    {
      var absolute := Unwrap(m.seqno, zero, |reassembler.out.history|);
      if m.syn then absolute else Sub64(absolute, 1)
    }

    ghost function Send(): ReceiverMessage
      requires reassembler.Valid()
    {
      var out := reassembler.out;
      if out.error then ReceiverMessage(None, 0, true)
      else if isn.None? then ReceiverMessage(None, Min(out.Available(), 0xffff), false)
      else ReceiverMessage(Some(Wrap(AckPosition(), isn.value)), Min(out.Available(), 0xffff), false)
    }

    /** The absolute sequence number wanted next; nothing is wanted before the SYN arrives. */
    ghost function AckPosition(): nat
    {
      if isn.None? then 0
      else 1 + |reassembler.out.history| + (if reassembler.out.closed then 1 else 0)
    }

    /** The right edge of the advertised window, as an absolute sequence number. */
    ghost function WindowEdge(): nat
      requires reassembler.Valid()
    {
      AckPosition() + Min(reassembler.out.Available(), 0xffff)
    }
  }

  ghost function NewReceiver(capacity: nat): Receiver { Receiver(Fresh(capacity), None) }

  lemma ReceiveValid(r: Receiver, m: SenderMessage)
    requires r.reassembler.Valid()
    ensures r.Receive(m).reassembler.Valid()
    ensures r.reassembler.out.history <= r.Receive(m).reassembler.out.history
    ensures r.AckPosition() <= r.Receive(m).AckPosition()
  {
    if !m.rst && !(r.isn.None? && !m.syn) {
      var zero := if r.isn.None? then m.seqno else r.isn.value;
      InsertValid(r.reassembler, r.StreamIndex(m, zero), m.payload, m.fin);
    }
  }

  /** What the peer makes of an acknowledgment: unwrapped near the truth it is the position
      wanted next, and with the window added it is the window edge. */
  lemma SentPosition(r: Receiver, checkpoint: nat)
    requires r.reassembler.Valid() && !r.reassembler.out.error && r.isn.Some?
    requires r.AckPosition() < 0x1_0000_0000_0000_0000 && checkpoint < 0x1_0000_0000_0000_0000
    requires Distance(r.AckPosition(), checkpoint) < 0x8000_0000
    ensures var m := r.Send();
            && m.ackno.Some? && Unwrap(m.ackno.value, r.isn.value, checkpoint) == r.AckPosition()
            && Unwrap(m.ackno.value, r.isn.value, checkpoint) + m.windowSize == r.WindowEdge()
  {
    hide Unwrap;
    UnwrapWrap(r.AckPosition(), r.isn.value, checkpoint);
  }

  /** What the receiver tells besides acknowledgments: a reset once the stream has an error, and
      before the handshake its room alone, cut to 16 bits. */
  lemma SendMeaning(r: Receiver)
    requires r.reassembler.Valid()
    ensures var m, out := r.Send(), r.reassembler.out;
            && (m.rst <==> out.error) && (m.ackno.Some? <==> !out.error && r.isn.Some?)
            && (out.error ==> m.windowSize == 0)
            && (!out.error ==> m.windowSize <= out.capacity - |out.Buffered()|
                               && (m.windowSize == out.capacity - |out.Buffered()| || m.windowSize == 0xffff))
  {
  }

  /** A reset puts the stream in error and closes it, and touches nothing else; from then on the
      receiver answers with resets, whatever arrives or is read. */
  lemma ResetReceived(r: Receiver, m: SenderMessage)
    requires r.reassembler.Valid() && m.rst
    ensures var r' := r.Receive(m);
            && r'.reassembler.out == r.reassembler.out.(error := true, closed := true)
            && r' == r.(reassembler := r.reassembler.(out := r'.reassembler.out))
            && r'.Send().rst
  {
  }

  lemma ErrorStays(r: Receiver, e: Event)
    requires r.reassembler.Valid() && r.reassembler.out.error
    ensures Step(r, e).reassembler.Valid() && Step(r, e).reassembler.out.error && Step(r, e).Send().rst
  {
    StepKeepsEdge(r, e);
  }

  /** One step of a receiver: a message arrives, or the application reads. */
  datatype Event = Arrive(m: SenderMessage) | Read(n: nat)

  ghost function Step(r: Receiver, e: Event): Receiver
    requires r.reassembler.Valid()
  {
    match e
    case Arrive(m) => r.Receive(m)
    case Read(n) => r.(reassembler := r.reassembler.Read(n))
  }

  lemma StepKeepsEdge(r: Receiver, e: Event)
    requires r.reassembler.Valid()
    ensures Step(r, e).reassembler.Valid() && r.WindowEdge() <= Step(r, e).WindowEdge()
  {
    if e.Arrive? {
      ReceiveValid(r, e.m);
    }
  }

  /** In every run, whatever arrives, the right edge of the window never moves back. */
  lemma {:induction false} WindowEdgeNeverShrinks(states: seq<Receiver>, events: seq<Event>, i: nat, j: nat)
    requires |states| == |events| + 1 && i <= j <= |events| && states[i].reassembler.Valid()
    requires forall k :: i <= k < j ==> states[k].reassembler.Valid() ==> states[k + 1] == Step(states[k], events[k])
    ensures states[j].reassembler.Valid() && states[i].WindowEdge() <= states[j].WindowEdge()
    decreases j
  {
    if i < j {
      WindowEdgeNeverShrinks(states, events, i, j - 1);
      StepKeepsEdge(states[j - 1], events[j - 1]);
    }
  }

  class TCPReceiver {
    const reassembler: Reassembler
    var isn: Option<U32>

    ghost predicate Valid()
      reads this, reassembler, reassembler.output
    {
      reassembler.Valid()
    }

    ghost function State(): Receiver
      reads this, reassembler, reassembler.output
    {
      Receiver(reassembler.State(), isn)
    }

    constructor (reassembler: Reassembler)
      requires reassembler.Valid()
      ensures Valid() && this.reassembler == reassembler
      ensures State() == Receiver(reassembler.State(), None)
    {
      this.reassembler := reassembler;
      isn := None;
    }

    /** The stream index of a payload that is inserted must be in range, as for Reassembler.Insert. */
    method Receive(message: SenderMessage)
      requires Valid()
      requires !message.rst && (isn.Some? || message.syn) ==>
                 var zero := if isn.None? then message.seqno else isn.value;
                 reassembler.Addressable(State().StreamIndex(message, zero), message.payload)
      modifies this, reassembler, reassembler.output
      ensures Valid() && State() == old(State()).Receive(message)
    {
      if message.rst {
        reassembler.output.SetError();
        reassembler.output.Close();
        return;
      }
      if isn.None? {
        if !message.syn {
          return;
        }
        isn := Some(message.seqno);
      }
      var checkpoint := reassembler.output.bytesPushed;
      var absSeqno := Unwrap(message.seqno, isn.value, checkpoint);
      var streamIndex := if message.syn then absSeqno else Sub64(absSeqno, 1);
      reassembler.Insert(streamIndex, message.payload, message.fin);
    }

    method Send() returns (m: ReceiverMessage)
      requires Valid()
      ensures m == State().Send()
    {
      var writer := reassembler.output;
      var windowSize := Min(writer.AvailableCapacity(), 0xffff);
      if writer.error {
        return ReceiverMessage(None, 0, true);
      }
      if isn.None? {
        return ReceiverMessage(None, windowSize, false);
      }
      var nextSeqno := 1 + writer.bytesPushed + (if writer.closed then 1 else 0);
      return ReceiverMessage(Some(Wrap(nextSeqno, isn.value)), windowSize, false);
    }
  }
}
