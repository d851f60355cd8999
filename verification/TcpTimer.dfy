/**
 What the retransmission timer of a sender counts, told from outside: from the calls made, the
 segments outstanding and the segments sent, over every run: src/tcp_sender.cc, src/timer.hh.
 */
module TcpTimers {
  import opened Common
  import Wrap32
  import opened ByteStreams
  import opened Timers
  import opened TcpMessages
  import opened TcpSending
  import opened TcpSenderRuns

  /** How often the oldest segment has been sent again for an open window since an acknowledgment
      last removed a segment, and the ticks since the clock last started. */
  datatype Count = Count(expiries: nat, elapsed: nat)

  /** The clock starts anew with the first segment outstanding, with a segment sent again, and
      with an acknowledgment that removes a segment; a reset stops it. It runs only while
      something is outstanding. */
  ghost function Counted(c: Count, s: Sender, e: Event, s': Sender): Count
    requires s.input.Valid()
  {
    match e
    case Push => if s.outstanding == [] && s'.outstanding != [] then c.(elapsed := 0) else c
    case Tick(ms) =>
      if SentBy(s, e) != [] then Count(c.expiries + (if s.windowSize == 0 then 0 else 1), 0)
      else if s.outstanding != [] then c.(elapsed := c.elapsed + ms)
      else c
    case Receive(m) =>
      if m.rst then c.(elapsed := 0)
      else if |s'.outstanding| < |s.outstanding| then Count(0, 0)
      else c
    case _ => c
  }

  ghost function CountOf(states: seq<Sender>, events: seq<Event>, i: nat): Count
    requires IsRun(states, events) && i <= |events|
  {
    if i == 0 then Count(0, 0)
    else Counted(CountOf(states, events, i - 1), states[i - 1], events[i - 1], states[i])
  }

  /** The timer of the sender agrees with the count. */
  ghost predicate Agrees(s: Sender, c: Count)
  {
    && s.timer.retransmissions == c.expiries
    && s.timer.clock.elapsedMs == c.elapsed % 0x1_0000_0000_0000_0000
    && (s.outstanding == [] ==> s.timer.clock.elapsedMs == 0)
    && (s.zeroWindow <==> s.windowSize == 0)
  }

  lemma {:induction false} PushAgrees(s: Sender, rightEdge: nat)
    requires s.input.Valid() && TimerSound(s)
    ensures var r := PushUpTo(s, rightEdge).s;
            && r.timer == (if s.outstanding == [] && r.outstanding != [] then s.timer.Start() else s.timer)
            && (s.outstanding != [] ==> r.outstanding != [])
            && r.windowSize == s.windowSize && r.zeroWindow == s.zeroWindow
    decreases rightEdge - s.next
  {
    hide Sender.NextSegment, Rto.BackoffExact;
    if s.next < rightEdge && !s.finSent {
      PushStep(s, rightEdge);
      var m := s.NextSegment(rightEdge - s.next);
      if m.Length() > 0 {
        BackoffKept(s.timer, 0);
        PushAgrees(s.Transmitted(m), rightEdge);
      }
    } else {
      PushEnd(s, rightEdge);
    }
  }

  lemma TickAgrees(s: Sender, ms: nat, c: Count)
    requires s.input.Valid() && TimerSound(s) && Agrees(s, c)
    ensures Agrees(s.Tick(ms).s, Counted(c, s, Tick(ms), s.Tick(ms).s))
  {
    hide Add64, Rto.BackoffExact;
    AddModulo(c.elapsed, ms);
  }

  lemma ReceiveAgrees(s: Sender, m: ReceiverMessage, c: Count)
    requires s.input.Valid() && TimerSound(s) && Agrees(s, c)
    ensures Agrees(s.Receive(m), Counted(c, s, Receive(m), s.Receive(m)))
  {
    hide RemoveAcked, Wrap32.Unwrap;
    if !m.rst && m.ackno.Some? {
      var s' := s.(zeroWindow := m.windowSize == 0, windowSize := m.windowSize);
      RemoveAckedSuffix(s', Wrap32.Unwrap(m.ackno.value, s.isn, s.next));
      RemovedFewer(s', Wrap32.Unwrap(m.ackno.value, s.isn, s.next));
    }
  }

  /** Either nothing is removed or the queue gets shorter. */
  lemma {:induction false} RemovedFewer(s: Sender, ack: nat)
    ensures RemoveAcked(s, ack).outstanding == s.outstanding || |RemoveAcked(s, ack).outstanding| < |s.outstanding|
    decreases |s.outstanding|
  {
    if s.outstanding != [] && SegmentEnd(s, s.outstanding[0]) <= ack {
      var inFlight := Sub64(s.inFlight, s.outstanding[0].Length());
      RemoveAckedSuffix(s.(inFlight := inFlight, outstanding := s.outstanding[1..]), ack);
    }
  }

  lemma StepAgrees(s: Sender, e: Event, c: Count)
    requires s.input.Valid() && TimerSound(s) && Agrees(s, c)
    ensures Agrees(Step(s, e), Counted(c, s, e, Step(s, e)))
  {
    hide PushUpTo, Sender.Receive, Sender.Tick, Sender.RightEdge, Rto.BackoffExact;
    match e
    case Push => PushAgrees(s, s.RightEdge());
    case Tick(ms) => TickAgrees(s, ms, c);
    case Receive(m) => ReceiveAgrees(s, m, c);
    case _ =>
  }

  /** Over every run of a fresh sender, resets included: the retransmissions are those for an open
      window since an acknowledgment last removed a segment, the timeout is the initial one
      doubled once for each, modulo 2^64, and the clock shows the ticks since it last started. */
  lemma {:induction false} TimerExact(states: seq<Sender>, events: seq<Event>, i: nat,
                                      capacity: nat, isn: U32, rtoMs: nat)
    requires IsRun(states, events) && states[0] == NewSender(capacity, isn, rtoMs) && i <= |events|
    requires rtoMs < 0x1_0000_0000_0000_0000
    ensures states[i].input.Valid() && TimerSound(states[i]) && Agrees(states[i], CountOf(states, events, i))
    ensures states[i].timer.clock.timeoutMs
         == (rtoMs * Pow2(CountOf(states, events, i).expiries)) % 0x1_0000_0000_0000_0000
  {
    hide Step, Counted;
    NewSenderSound(capacity, isn, rtoMs);
    TimerRun(states, events, i);
    InitialKept(states, events, i);
    if i > 0 {
      TimerExact(states, events, i - 1, capacity, isn, rtoMs);
      StepAgrees(states[i - 1], events[i - 1], CountOf(states, events, i - 1));
    }
  }

  lemma {:induction false} InitialKept(states: seq<Sender>, events: seq<Event>, i: nat)
    requires IsRun(states, events) && i <= |events|
    ensures states[i].timer.initialMs == states[0].timer.initialMs
  {
    hide Step;
    if i > 0 {
      InitialKept(states, events, i - 1);
      StepInitial(states[i - 1], events[i - 1]);
    }
  }

  lemma StepInitial(s: Sender, e: Event)
    requires s.input.Valid()
    ensures Step(s, e).timer.initialMs == s.timer.initialMs
  {
    hide PushUpTo, RemoveAcked, Wrap32.Unwrap, Sender.RightEdge;
    match e
    case Push => PushInitial(s, s.RightEdge());
    case Receive(m) =>
      if !m.rst && m.ackno.Some? {
        RemoveAckedSuffix(s.(zeroWindow := m.windowSize == 0, windowSize := m.windowSize),
                          Wrap32.Unwrap(m.ackno.value, s.isn, s.next));
      }
    case _ =>
  }

  lemma {:induction false} PushInitial(s: Sender, rightEdge: nat)
    requires s.input.Valid()
    ensures PushUpTo(s, rightEdge).s.timer.initialMs == s.timer.initialMs
    decreases rightEdge - s.next
  {
    hide Sender.NextSegment;
    if s.next < rightEdge && !s.finSent {
      PushStep(s, rightEdge);
      var m := s.NextSegment(rightEdge - s.next);
      if m.Length() > 0 {
        PushInitial(s.Transmitted(m), rightEdge);
      }
    } else {
      PushEnd(s, rightEdge);
    }
  }

  /** When a tick sends, over every run of a fresh sender: the oldest segment, exactly if one is
      outstanding and the ticks since the clock last started reach the timeout. */
  lemma TickSendsExactly(states: seq<Sender>, events: seq<Event>, i: nat, ms: nat,
                         capacity: nat, isn: U32, rtoMs: nat)
    requires IsRun(states, events) && states[0] == NewSender(capacity, isn, rtoMs) && i <= |events|
    requires rtoMs < 0x1_0000_0000_0000_0000
    ensures var s, c := states[i], CountOf(states, events, i);
            var timeout := (rtoMs * Pow2(c.expiries)) % 0x1_0000_0000_0000_0000;
            && s.input.Valid()
            && SentBy(s, Tick(ms))
               == if s.outstanding != [] && (c.elapsed + ms) % 0x1_0000_0000_0000_0000 >= timeout
                  then [s.outstanding[0]] else []
  {
    hide IsRun, CountOf, Pow2;
    TimerExact(states, events, i, capacity, isn, rtoMs);
    AddModulo(CountOf(states, events, i).elapsed, ms);
  }
}
