/** What a sender keeps over any run: src/tcp_sender.cc. Acknowledgments may be arbitrary here. */
module TcpSenderRuns {
  import opened Common
  import opened Wrap32
  import opened ByteStreams
  import opened Timers
  import opened TcpMessages
  import opened TcpSending

  // ----- segments as slices of SYN ++ stream ++ FIN

  /** The stream index of the first payload byte of a segment starting at absolute `a`. */
  ghost function PayloadIndex(a: nat): nat { if a == 0 then 0 else a - 1 }

  /** `m` is the non-empty slice at absolute sequence number `a` of the SYN, the bytes `w` and,
      if `fin`, the FIN. */
  ghost predicate Slice(m: SenderMessage, a: nat, isn: U32, w: seq<Byte>, fin: bool)
  {
    var i := PayloadIndex(a);
    && m.seqno == Wrap(a, isn) && !m.rst && m.Length() > 0
    && (m.syn <==> a == 0)
    && i + |m.payload| <= |w| && m.payload == w[i..i + |m.payload|]
    && (m.fin ==> fin && i + |m.payload| == |w|)
  }

  /** `segments` cut [a, end) into contiguous non-empty slices. */
  ghost predicate Tiles(segments: seq<SenderMessage>, a: nat, end: nat, isn: U32, w: seq<Byte>, fin: bool)
  {
    if segments == [] then a == end
    else
      && Slice(segments[0], a, isn, w, fin)
      && Tiles(segments[1..], a + segments[0].Length(), end, isn, w, fin)
  }

  lemma TilesNil(a: nat, isn: U32, w: seq<Byte>, fin: bool)
    ensures Tiles([], a, a, isn, w, fin)
  {
  }

  lemma TilesCons(m: SenderMessage, x: seq<SenderMessage>, a: nat, end: nat, isn: U32, w: seq<Byte>, fin: bool)
    requires Slice(m, a, isn, w, fin) && Tiles(x, a + m.Length(), end, isn, w, fin)
    ensures Tiles([m] + x, a, end, isn, w, fin)
  {
    assert ([m] + x)[1..] == x;
  }

  lemma {:induction false} TilesConcat(x: seq<SenderMessage>, y: seq<SenderMessage>, a: nat, b: nat, c: nat,
                                       isn: U32, w: seq<Byte>, fin: bool)
    requires Tiles(x, a, b, isn, w, fin) && Tiles(y, b, c, isn, w, fin)
    ensures Tiles(x + y, a, c, isn, w, fin)
  {
    if x == [] {
      assert x + y == y;
    } else {
      assert (x + y)[1..] == x[1..] + y;
      TilesConcat(x[1..], y, a + x[0].Length(), b, c, isn, w, fin);
    }
  }

  /** Taking more bytes before the FIN, or sending the FIN, leaves every slice a slice. */
  lemma SliceGrow(m: SenderMessage, a: nat, isn: U32, w: seq<Byte>, fin: bool, w': seq<Byte>, fin': bool)
    requires Slice(m, a, isn, w, fin) && w <= w' && (fin ==> fin' && w == w')
    ensures Slice(m, a, isn, w', fin')
  {
    var i := PayloadIndex(a);
    assert w[i..i + |m.payload|] == w'[i..i + |m.payload|];
  }

  lemma {:induction false} TilesGrow(x: seq<SenderMessage>, a: nat, b: nat, isn: U32,
                                     w: seq<Byte>, fin: bool, w': seq<Byte>, fin': bool)
    requires Tiles(x, a, b, isn, w, fin)
    requires w <= w' && (fin ==> fin' && w == w')
    ensures Tiles(x, a, b, isn, w', fin')
  {
    if x != [] {
      SliceGrow(x[0], a, isn, w, fin, w', fin');
      TilesGrow(x[1..], a + x[0].Length(), b, isn, w, fin, w', fin');
    }
  }

  lemma {:induction false} TilesSpan(x: seq<SenderMessage>, a: nat, b: nat, isn: U32, w: seq<Byte>, fin: bool)
    requires Tiles(x, a, b, isn, w, fin)
    ensures a <= b && (x == [] <==> a == b)
  {
    if x != [] {
      TilesSpan(x[1..], a + x[0].Length(), b, isn, w, fin);
    }
  }

  // ----- the invariant

  /** Stream lengths for which the 64-bit counters of the code do not wrap. */
  ghost predicate Countable(n: nat) { n + 0x2_0000 < 0x1_0000_0000_0000_0000 }

  ghost function LeftEdge(s: Sender): int { s.next - s.inFlight }

  /** The bytes the sender has taken from its stream so far; what was written later is not part
      of any segment yet. */
  ghost function Taken(s: Sender): seq<Byte>
    requires s.input.Valid()
  {
    s.input.history[..s.input.popped]
  }

  ghost predicate Sound(s: Sender)
  {
    && s.input.Valid() && !s.input.error && Countable(|s.input.history|)
    && s.next == (if s.synSent then 1 else 0) + s.input.popped + (if s.finSent then 1 else 0)
    && (s.finSent ==> s.synSent && s.input.closed)
    && (!s.synSent ==> s.input.popped == 0)
    && (s.zeroWindow <==> s.windowSize == 0)
    && s.inFlight <= s.next && s.inFlight <= 0xffff
    && Tiles(s.outstanding, s.next - s.inFlight, s.next, s.isn, Taken(s), s.finSent)
  }

  /** A new segment respects the window and the payload limit and is the exact next slice. It is as
      long as it can be: it takes all that is buffered, a full payload, or all the room. It
      carries the FIN exactly if the stream is closed, everything written has been taken, and the
      room is not used up; and it is empty only if the SYN is out, the input is drained and still
      open. */
  lemma NextSegmentSlice(s: Sender, room: nat)
    requires Sound(s) && room > 0 && !s.finSent
    ensures var m := s.NextSegment(room);
            && m.Length() <= room && |m.payload| <= 1000
            && (m.syn <==> !s.synSent) && |m.payload| <= |s.input.Buffered()|
            && (|m.payload| == |s.input.Buffered()| || |m.payload| == 1000 || m.Length() == room)
            && (m.fin <==> s.input.closed && |m.payload| == |s.input.Buffered()|
                           && (if m.syn then 1 else 0) + |m.payload| < room)
            && (if m.Length() == 0 then s.synSent && !s.input.closed && s.input.Buffered() == []
                else Slice(m, s.next, s.isn, Taken(s) + m.payload, m.fin))
  {
    var m := s.NextSegment(room);
    assert m.payload == (Taken(s) + m.payload)[s.input.popped..];
  }

  /** First transmission takes the payload from the stream. */
  lemma TransmittedTakes(s: Sender, m: SenderMessage)
    requires s.input.Valid() && |m.payload| <= |s.input.Buffered()| && m.payload == s.input.Buffered()[..|m.payload|]
    ensures Taken(s.Transmitted(m)) == Taken(s) + m.payload
  {
    var p, n := s.input.popped, |m.payload|;
    assert s.input.history[..p + n] == s.input.history[..p] + s.input.history[p..][..n];
  }

  lemma TransmittedSound(s: Sender, room: nat)
    requires Sound(s) && room > 0 && !s.finSent && s.inFlight + room <= 0xffff
    requires s.NextSegment(room).Length() > 0
    ensures var m := s.NextSegment(room);
            && Sound(s.Transmitted(m)) && Taken(s.Transmitted(m)) == Taken(s) + m.payload
  {
    hide Tiles, Slice, Taken;
    NextSegmentSlice(s, room);
    var m := s.NextSegment(room);
    TransmittedTakes(s, m);
    hide Sender.NextSegment;
    var w := Taken(s) + m.payload;
    TilesNil(s.next + m.Length(), s.isn, w, m.fin);
    TilesCons(m, [], s.next, s.next + m.Length(), s.isn, w, m.fin);
    assert [m] + [] == [m];
    TilesGrow(s.outstanding, LeftEdge(s), s.next, s.isn, Taken(s), false, w, m.fin);
    TilesConcat(s.outstanding, [m], LeftEdge(s), s.next, s.next + m.Length(), s.isn, w, m.fin);
  }

  /** Nothing more can go out: the window is full, the FIN is out, or the SYN is out and the
      open input is drained. */
  ghost predicate Exhausted(s: Sender, rightEdge: nat)
    requires s.input.Valid()
  {
    s.next >= rightEdge || s.finSent || (s.synSent && !s.input.closed && s.input.Buffered() == [])
  }

  /** What a run of segments up to `rightEdge` leads to: contiguous slices from the old next
      sequence number on, none beyond the right edge or the payload limit, queued in order.
      Nothing follows a FIN, and a FIN goes out only behind everything written. */
  ghost predicate PushedUpTo(s: Sender, rightEdge: nat, r: Sent)
  {
    && Sound(r.s) && Exhausted(r.s, rightEdge)
    && r.s.next <= Max(rightEdge, s.next) && LeftEdge(r.s) == LeftEdge(s)
    && r.s.outstanding == s.outstanding + r.sent
    && Tiles(r.sent, s.next, r.s.next, s.isn, Taken(r.s), r.s.finSent)
    && (forall i :: 0 <= i < |r.sent| ==> |r.sent[i].payload| <= 1000)
    && r.s.input == s.input.(popped := r.s.input.popped) && r.s.isn == s.isn && r.s.windowSize == s.windowSize
    && r.s.input.popped >= s.input.popped && (s.synSent ==> r.s.synSent)
    && (s.finSent ==> r == Sent(s, []))
    && (r.s.finSent && !s.finSent ==> r.s.input.popped == |s.input.history|)
  }

  lemma PushedOne(s: Sender, m: SenderMessage, rightEdge: nat, rest: Sent)
    requires Sound(s) && !s.finSent && Sound(s.Transmitted(m))
    requires Slice(m, s.next, s.isn, Taken(s.Transmitted(m)), s.Transmitted(m).finSent)
    requires s.next + m.Length() <= rightEdge && |m.payload| <= 1000 && |m.payload| <= |s.input.Buffered()|
    requires m.fin ==> |m.payload| == |s.input.Buffered()|
    requires PushedUpTo(s.Transmitted(m), rightEdge, rest)
    ensures PushedUpTo(s, rightEdge, Sent(rest.s, [m] + rest.sent))
  {
    hide Tiles, Slice;
    var t := s.Transmitted(m);
    assert t.finSent ==> Taken(t) == Taken(rest.s);
    assert Taken(t) <= Taken(rest.s);
    SliceGrow(m, s.next, s.isn, Taken(t), t.finSent, Taken(rest.s), rest.s.finSent);
    TilesCons(m, rest.sent, s.next, rest.s.next, s.isn, Taken(rest.s), rest.s.finSent);
    assert s.outstanding + [m] + rest.sent == s.outstanding + ([m] + rest.sent);
  }

  /** push is window-respecting and work-conserving: it stops only when nothing more can go out. */
  lemma {:induction false} PushSound(s: Sender, rightEdge: nat)
    requires Sound(s) && rightEdge <= LeftEdge(s) + 0xffff
    ensures PushedUpTo(s, rightEdge, PushUpTo(s, rightEdge))
    decreases rightEdge - s.next
  {
    hide PushUpTo, Tiles, Slice, Sender.NextSegment;
    TilesNil(s.next, s.isn, Taken(s), s.finSent);
    if s.next < rightEdge && !s.finSent {
      var room := rightEdge - s.next;
      PushStep(s, rightEdge);
      NextSegmentSlice(s, room);
      var m := s.NextSegment(room);
      if m.Length() > 0 {
        TransmittedSound(s, room);
        PushSound(s.Transmitted(m), rightEdge);
        hide PushedUpTo;
        PushedOne(s, m, rightEdge, PushUpTo(s.Transmitted(m), rightEdge));
      }
    } else {
      PushEnd(s, rightEdge);
    }
  }

  lemma RightEdgeBound(s: Sender)
    requires Sound(s)
    ensures s.RightEdge() == LeftEdge(s) + Max(1, s.windowSize) <= LeftEdge(s) + 0xffff
  {
  }

  /** A call of push: no segment goes beyond the left edge plus the advertised window, a closed
      window counting as one, and the call ends only when nothing more can go out. */
  lemma PushRespectsWindow(s: Sender)
    requires Sound(s)
    ensures var r, rightEdge := s.Push(), LeftEdge(s) + Max(1, s.windowSize);
            && Sound(r.s) && s.next <= r.s.next <= Max(rightEdge, s.next) && Exhausted(r.s, rightEdge)
            && LeftEdge(r.s) == LeftEdge(s) && r.s.windowSize == s.windowSize
            && Tiles(r.sent, s.next, r.s.next, s.isn, Taken(r.s), r.s.finSent)
            && forall i :: 0 <= i < |r.sent| ==> 0 < r.sent[i].Length() && |r.sent[i].payload| <= 1000
  {
    hide PushUpTo, Tiles, Slice;
    RightEdgeBound(s);
    PushSound(s, s.RightEdge());
    var r := s.Push();
    TilesNonEmpty(r.sent, s.next, r.s.next, s.isn, Taken(r.s), r.s.finSent);
    TilesSpan(r.sent, s.next, r.s.next, s.isn, Taken(r.s), r.s.finSent);
  }

  lemma {:induction false} TilesNonEmpty(x: seq<SenderMessage>, a: nat, b: nat, isn: U32, w: seq<Byte>, fin: bool)
    requires Tiles(x, a, b, isn, w, fin)
    ensures forall i :: 0 <= i < |x| ==> 0 < x[i].Length()
  {
    if x != [] {
      TilesNonEmpty(x[1..], a + x[0].Length(), b, isn, w, fin);
      assert forall i :: 0 < i < |x| ==> x[i] == x[1..][i - 1];
    }
  }

  // ----- acknowledgments

  ghost function Total(segments: seq<SenderMessage>): nat
  {
    if segments == [] then 0 else segments[0].Length() + Total(segments[1..])
  }

  /** How many leading segments end at or before `ack`, in absolute terms. */
  ghost function AckedCount(segments: seq<SenderMessage>, a: nat, ack: nat): (k: nat)
    ensures k <= |segments|
  {
    if segments == [] || a + segments[0].Length() > ack then 0
    else 1 + AckedCount(segments[1..], a + segments[0].Length(), ack)
  }

  /** Exactly the segments ending at or before the acknowledgment are counted. */
  lemma {:induction false} AckedExactly(segments: seq<SenderMessage>, a: nat, ack: nat, i: nat)
    requires i < |segments|
    ensures i < AckedCount(segments, a, ack) <==> a + Total(segments[..i + 1]) <= ack
  {
    if a + segments[0].Length() > ack {
      assert segments[..i + 1][0] == segments[0];
    } else if i == 0 {
      assert segments[..1][1..] == [];
    } else {
      AckedExactly(segments[1..], a + segments[0].Length(), ack, i - 1);
      assert segments[..i + 1][1..] == segments[1..][..i];
    }
  }

  /** The modular loop agrees with absolute arithmetic: unwrapping recovers every segment's
      true end, the in-flight count never underflows, and the left edge moves to the end of
      the last removed segment. */
  lemma {:induction false} RemoveAckedAbsolute(s: Sender, ack: nat)
    requires Sound(s) && ack <= s.next
    ensures var r, k := RemoveAcked(s, ack), AckedCount(s.outstanding, LeftEdge(s), ack);
            && Sound(r)
            && r.outstanding == s.outstanding[k..]
            && r.(outstanding := [], inFlight := 0) == s.(outstanding := [], inFlight := 0)
            && s.inFlight == r.inFlight + Total(s.outstanding[..k])
            && LeftEdge(s) <= LeftEdge(r) <= Max(LeftEdge(s), ack)
    decreases |s.outstanding|
  {
    hide Sound, Tiles, Slice, RemoveAcked, AckedCount, Total, Unwrap;
    if s.outstanding == [] || LeftEdge(s) + s.outstanding[0].Length() > ack {
      NoneRemoved(s, ack);
    } else {
      OneRemoved(s, ack);
      var s' := s.(inFlight := s.inFlight - s.outstanding[0].Length(), outstanding := s.outstanding[1..]);
      RemoveAckedAbsolute(s', ack);
      RemovedFront(s.outstanding, AckedCount(s'.outstanding, LeftEdge(s'), ack));
    }
  }

  lemma NoneRemoved(s: Sender, ack: nat)
    requires Sound(s) && ack <= s.next
    requires s.outstanding == [] || LeftEdge(s) + s.outstanding[0].Length() > ack
    ensures RemoveAcked(s, ack) == s && AckedCount(s.outstanding, LeftEdge(s), ack) == 0
    ensures s.outstanding[0..] == s.outstanding && Total(s.outstanding[..0]) == 0
    ensures s.inFlight <= s.next
  {
    hide Tiles, Slice, Unwrap, Add64;
    if s.outstanding != [] {
      FrontEnd(s);
    }
  }

  /** One turn of the loop, in the code's terms and in absolute terms. */
  lemma OneRemoved(s: Sender, ack: nat)
    requires Sound(s) && ack <= s.next && s.outstanding != []
    requires LeftEdge(s) + s.outstanding[0].Length() <= ack
    ensures var seg := s.outstanding[0];
            && 0 < seg.Length() <= s.inFlight <= s.next
            && var s' := s.(inFlight := s.inFlight - seg.Length(), outstanding := s.outstanding[1..]);
            && Sound(s')
            && RemoveAcked(s, ack) == RemoveAcked(s', ack)
            && AckedCount(s.outstanding, LeftEdge(s), ack) == 1 + AckedCount(s'.outstanding, LeftEdge(s'), ack)
  {
    hide Tiles, Slice, Unwrap, Add64;
    FrontEnd(s);
  }

  lemma RemovedFront(segments: seq<SenderMessage>, k: nat)
    requires k < |segments|
    ensures segments[1..][k..] == segments[k + 1..]
    ensures Total(segments[..k + 1]) == segments[0].Length() + Total(segments[1..][..k])
  {
    assert segments[..k + 1][1..] == segments[1..][..k];
  }

  lemma FrontEnd(s: Sender)
    requires Sound(s) && s.outstanding != []
    ensures var seg := s.outstanding[0];
            && seg.Length() <= s.inFlight
            && SegmentEnd(s, seg) == LeftEdge(s) + seg.Length() <= s.next
            && seg.Length() > 0
            && Sound(s.(inFlight := s.inFlight - seg.Length(), outstanding := s.outstanding[1..]))
  {
    var seg, a := s.outstanding[0], s.next - s.inFlight;
    TilesSpan(s.outstanding[1..], a + seg.Length(), s.next, s.isn, Taken(s), s.finSent);
    UnwrapWrap(a, s.isn, s.next);
  }

  /** Whatever is acknowledged, the sender stays sound, its left edge never moves back, and
      exactly the segments that end at or before an acceptable acknowledgment are removed. */
  lemma ReceiveSound(s: Sender, m: ReceiverMessage)
    requires Sound(s) && !m.rst
    ensures var r := s.Receive(m);
            && Sound(r)
            && r.next == s.next && r.input == s.input && r.isn == s.isn
            && r.finSent == s.finSent && r.synSent == s.synSent
            && LeftEdge(s) <= LeftEdge(r) <= Max(LeftEdge(s), AckOf(s, m))
            && r.outstanding == s.outstanding[AckedCount(s.outstanding, LeftEdge(s), AckOf(s, m))..]
  {
    hide Tiles, Slice, RemoveAcked, AckedCount, Total, Unwrap, Sender.Receive;
    var s' := s.(zeroWindow := m.windowSize == 0, windowSize := m.windowSize);
    ReceiveShape(s, m);
    if Acceptable(s, m) {
      RemoveAckedAbsolute(s', AckOf(s, m));
      NoneTotal(s.outstanding);
    } else {
      NothingAcked(s);
    }
  }

  ghost predicate Acceptable(s: Sender, m: ReceiverMessage)
  {
    m.ackno.Some? && Unwrap(m.ackno.value, s.isn, s.next) <= s.next
  }

  lemma ReceiveShape(s: Sender, m: ReceiverMessage)
    requires !m.rst
    ensures var r, s' := s.Receive(m), s.(zeroWindow := m.windowSize == 0, windowSize := m.windowSize);
            && (!Acceptable(s, m) ==> r == s')
            && (Acceptable(s, m) ==>
                  var acked := RemoveAcked(s', AckOf(s, m));
                  r == if acked.outstanding == s.outstanding then s' else acked.(timer := r.timer))
  {
    hide Unwrap, RemoveAcked;
  }

  lemma NoneTotal(segments: seq<SenderMessage>)
    ensures Total(segments[..0]) == 0 && segments[0..] == segments
  {
  }

  /** The absolute acknowledgment the code acts on: a missing one, or one for data never sent,
      acknowledges nothing. */
  ghost function AckOf(s: Sender, m: ReceiverMessage): nat
  {
    if Acceptable(s, m) then Unwrap(m.ackno.value, s.isn, s.next) else 0
  }

  lemma NothingAcked(s: Sender)
    requires Sound(s)
    ensures AckedCount(s.outstanding, LeftEdge(s), 0) == 0 && s.outstanding[0..] == s.outstanding
  {
  }

  /** A reset drops everything outstanding, stops the timer and puts the stream in error; nothing
      else changes, and from then on every message carries a reset. */
  lemma ResetReceived(s: Sender, m: ReceiverMessage, room: nat)
    requires s.input.Valid() && m.rst && room > 0
    ensures var r := s.Receive(m);
            && r.outstanding == [] && r.inFlight == 0 && !r.timer.clock.running
            && r.input == s.input.(error := true)
            && r == s.(outstanding := [], inFlight := 0, timer := r.timer, input := r.input)
            && r.timer.retransmissions == s.timer.retransmissions
            && r.EmptyMessage().rst && r.NextSegment(room).rst
  {
  }

  // ----- runs of a sender fed with arbitrary acknowledgments

  datatype Event = Write(data: seq<Byte>) | Close | Push | Tick(ms: nat) | Receive(m: ReceiverMessage)

  ghost function Step(s: Sender, e: Event): Sender
    requires s.input.Valid()
  {
    match e
    case Write(data) => s.(input := s.input.Push(data))
    case Close => s.(input := s.input.Close())
    case Push => s.Push().s
    case Tick(ms) => s.Tick(ms).s
    case Receive(m) => s.Receive(m)
  }

  /** No reset, and fewer bytes than the counters can hold; writing after close is allowed. */
  ghost predicate Legal(s: Sender, e: Event)
  {
    && (e.Write? ==> Countable(|s.input.history| + |e.data|))
    && (e.Receive? ==> !e.m.rst)
  }

  /** Writing and closing touch nothing that was taken. */
  lemma InputSound(s: Sender, input: Stream)
    requires Sound(s) && input.Valid() && !input.error && Countable(|input.history|)
    requires input.popped == s.input.popped && s.input.history <= input.history
    requires s.input.closed ==> input.closed
    ensures Sound(s.(input := input)) && Taken(s.(input := input)) == Taken(s)
  {
    assert Taken(s.(input := input)) == Taken(s);
  }

  lemma StepSound(s: Sender, e: Event)
    requires Sound(s) && Legal(s, e)
    ensures Sound(Step(s, e)) && s.next <= Step(s, e).next && LeftEdge(s) <= LeftEdge(Step(s, e))
  {
    hide Tiles, Slice, PushUpTo, Sender.Receive, Sender.RightEdge;
    match e
    case Write(data) => InputSound(s, s.input.Push(data));
    case Close => InputSound(s, s.input.Close());
    case Push => PushRespectsWindow(s);
    case Tick(ms) =>
    case Receive(m) => ReceiveSound(s, m);
  }

  /** `states` are the states a sender goes through under `events`. */
  ghost predicate IsRun(states: seq<Sender>, events: seq<Event>)
  {
    && |states| == |events| + 1
    && forall i :: 0 <= i < |events| ==> states[i].input.Valid() && states[i + 1] == Step(states[i], events[i])
  }

  /** In every legal run the queue tiles the bytes in flight with exact slices, at most 65535
      sequence numbers are in flight, neither edge ever moves back, and no call of push sends
      beyond the left edge plus the last advertised window, a closed one counting as one. */
  lemma {:induction false} SenderRunSound(states: seq<Sender>, events: seq<Event>, i: nat)
    requires IsRun(states, events) && Sound(states[0]) && i <= |events|
    requires forall k :: 0 <= k < |events| ==> Legal(states[k], events[k])
    ensures Sound(states[i]) && states[i].inFlight <= 0xffff
    ensures states[0].next <= states[i].next && LeftEdge(states[0]) <= LeftEdge(states[i])
    ensures i < |events| && events[i].Push? ==>
              states[i + 1].next <= Max(LeftEdge(states[i]) + Max(1, states[i].windowSize), states[i].next)
  {
    hide Tiles, Step;
    if i > 0 {
      SenderRunSound(states, events, i - 1);
      StepSound(states[i - 1], events[i - 1]);
    }
    if i < |events| && events[i].Push? {
      PushWithinWindow(states[i]);
    }
  }

  lemma PushWithinWindow(s: Sender)
    requires Sound(s)
    ensures s.input.Valid() && Step(s, Push).next <= Max(LeftEdge(s) + Max(1, s.windowSize), s.next)
  {
    PushRespectsWindow(s);
  }

  // ----- after the FIN, resets included

  ghost function SentBy(s: Sender, e: Event): seq<SenderMessage>
    requires s.input.Valid()
  {
    match e
    case Push => s.Push().sent
    case Tick(ms) => s.Tick(ms).sent
    case _ => []
  }

  lemma StepAfterFin(s: Sender, e: Event)
    requires s.input.Valid() && s.finSent
    ensures var s' := Step(s, e);
            && s'.input.Valid() && s'.finSent && s'.next == s.next && Taken(s') == Taken(s)
            && (forall m :: m in s'.outstanding ==> m in s.outstanding)
            && (forall m :: m in SentBy(s, e) ==> m in s.outstanding)
            && (e.Push? ==> SentBy(s, e) == [])
  {
    hide RemoveAcked, Unwrap, Sender.RightEdge;
    if e.Receive? && !e.m.rst && e.m.ackno.Some? {
      RemoveAckedSuffix(s.(zeroWindow := e.m.windowSize == 0, windowSize := e.m.windowSize),
                        Unwrap(e.m.ackno.value, s.isn, s.next));
    }
  }

  lemma {:induction false} RemoveAckedSuffix(s: Sender, ack: nat)
    ensures var r := RemoveAcked(s, ack);
            && r == s.(outstanding := r.outstanding, inFlight := r.inFlight)
            && |r.outstanding| <= |s.outstanding|
            && forall m :: m in r.outstanding ==> m in s.outstanding
    decreases |s.outstanding|
  {
    hide Unwrap;
    if s.outstanding != [] && SegmentEnd(s, s.outstanding[0]) <= ack {
      var inFlight := Sub64(s.inFlight, s.outstanding[0].Length());
      RemoveAckedSuffix(s.(inFlight := inFlight, outstanding := s.outstanding[1..]), ack);
    }
  }

  /** Bytes written after the FIN went out are never sent: in every run from there on the next
      sequence number and the bytes taken stay put, push sends nothing, and a tick resends only
      what was outstanding when the FIN had gone out. */
  lemma {:induction false} LateWriteIsNeverSent(states: seq<Sender>, events: seq<Event>, i: nat)
    requires IsRun(states, events) && i <= |events| && states[0].input.Valid() && states[0].finSent
    ensures var s := states[i];
            && s.input.Valid() && s.finSent && s.next == states[0].next && Taken(s) == Taken(states[0])
            && (forall m :: m in s.outstanding ==> m in states[0].outstanding)
            && (i < |events| ==> forall m :: m in SentBy(s, events[i]) ==> m in states[0].outstanding)
            && (i < |events| && events[i].Push? ==> SentBy(s, events[i]) == [])
  {
    hide Step, SentBy, Taken;
    if i > 0 {
      LateWriteIsNeverSent(states, events, i - 1);
      StepAfterFin(states[i - 1], events[i - 1]);
    }
    if i < |events| {
      StepAfterFin(states[i], events[i]);
    }
  }

  // ----- the retransmission timer, over every run, resets and illegal writes included

  ghost predicate TimerSound(s: Sender)
  {
    (s.timer.clock.running <==> s.outstanding != []) && s.timer.BackoffExact()
  }

  lemma {:induction false} PushTimer(s: Sender, rightEdge: nat)
    requires s.input.Valid() && TimerSound(s)
    ensures PushUpTo(s, rightEdge).s.input.Valid() && TimerSound(PushUpTo(s, rightEdge).s)
    decreases rightEdge - s.next
  {
    if s.next < rightEdge && !s.finSent {
      PushStep(s, rightEdge);
      var m := s.NextSegment(rightEdge - s.next);
      if m.Length() > 0 {
        BackoffKept(s.timer, 0);
        PushTimer(s.Transmitted(m), rightEdge);
      }
    }
  }

  lemma ReceiveTimer(s: Sender, m: ReceiverMessage)
    requires s.input.Valid() && TimerSound(s)
    ensures s.Receive(m).input.Valid() && TimerSound(s.Receive(m))
  {
    hide RemoveAcked, Unwrap, Rto.BackoffExact;
    BackoffKept(s.timer, 0);
    BackoffKept(s.timer.ResetBackoff(), 0);
    if !m.rst && m.ackno.Some? {
      RemoveAckedSuffix(s.(zeroWindow := m.windowSize == 0, windowSize := m.windowSize),
                        Unwrap(m.ackno.value, s.isn, s.next));
    }
  }

  lemma StepTimer(s: Sender, e: Event)
    requires s.input.Valid() && TimerSound(s)
    ensures Step(s, e).input.Valid() && TimerSound(Step(s, e))
  {
    match e
    case Write(data) =>
    case Close =>
    case Push => PushTimer(s, s.RightEdge());
    case Tick(ms) =>
      BackoffKept(s.timer, ms);
      BackoffKept(s.timer.Tick(ms), 0);
      BackoffKept(s.timer.Tick(ms).RecordRetransmission(), 0);
    case Receive(m) => ReceiveTimer(s, m);
  }

  /** In every run whatsoever the timer runs exactly while something is outstanding, and the
      timeout is the initial one doubled once per consecutive retransmission, modulo 2^64. */
  lemma {:induction false} TimerRun(states: seq<Sender>, events: seq<Event>, i: nat)
    requires IsRun(states, events) && states[0].input.Valid() && TimerSound(states[0]) && i <= |events|
    ensures states[i].input.Valid() && TimerSound(states[i])
  {
    if i > 0 {
      TimerRun(states, events, i - 1);
      StepTimer(states[i - 1], events[i - 1]);
    }
  }

  /** Rules 5.4 to 5.6 of RFC 6298: when the timeout has passed, and only then, the oldest
      outstanding segment -- the exact slice at the left edge -- goes out again, the timer
      restarts, and the timeout doubles unless the window is closed. */
  lemma ExpiryRetransmitsOldest(s: Sender, ms: nat)
    requires Sound(s) && TimerSound(s) && s.timer.clock.elapsedMs + ms < 0x1_0000_0000_0000_0000
    ensures var r := s.Tick(ms);
            if s.outstanding != [] && s.timer.clock.elapsedMs + ms >= s.timer.clock.timeoutMs then
              && |r.sent| == 1 && Slice(r.sent[0], LeftEdge(s), s.isn, Taken(s), s.finSent)
              && r.s.timer.clock.running && r.s.timer.clock.elapsedMs == 0
              && r.s.timer.retransmissions == s.timer.retransmissions + (if s.windowSize == 0 then 0 else 1)
              && r.s.timer.clock.timeoutMs
                 == (if s.windowSize == 0 then s.timer.clock.timeoutMs
                     else s.timer.clock.timeoutMs * 2 % 0x1_0000_0000_0000_0000)
            else
              && r.sent == [] && r.s.timer.retransmissions == s.timer.retransmissions
              && r.s.timer.clock.timeoutMs == s.timer.clock.timeoutMs
  {
    hide Pow2, Slice;
    var t := s.timer.clock.timeoutMs;
    assert Add64(t, t) == t * 2 % 0x1_0000_0000_0000_0000;
  }

  lemma NewSenderSound(capacity: nat, isn: U32, initialRtoMs: nat)
    requires initialRtoMs < 0x1_0000_0000_0000_0000
    ensures Sound(NewSender(capacity, isn, initialRtoMs)) && TimerSound(NewSender(capacity, isn, initialRtoMs))
  {
    assert Pow2(0) == 1;
  }
}
