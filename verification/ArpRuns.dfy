/** What address resolution keeps over any run, seen from one next hop: src/network_interface.cc. */
module ArpRuns {
  import opened Common
  import opened Timers
  import opened ArpTables
  import opened NetworkInterfaces

  /** A tick carries the frames it transmits: their order is not determined. */
  datatype Event =
    | Initialize | Send(dgram: Datagram, nextHop: U32) | Receive(frame: Frame) | Tick(ms: nat, frames: seq<Frame>)

  /** What happens to one next hop, with the total of the ticks so far: a datagram is
      submitted, sent to a MAC address or dropped by the timeout; an ARP message from it is
      accepted; a request for it is broadcast, by `send_datagram` or again by the timeout. */
  datatype Item =
    | Submitted(dgram: Datagram)
    | Sent(mac: EthernetAddress, dgram: Datagram, at: nat)
    | Dropped(dgrams: seq<Datagram>, at: nat)
    | Heard(mac: EthernetAddress, at: nat)
    | Requested(at: nat)
    | Renewed(at: nat)

  function Dgrams(queue: seq<PendingDatagram>): seq<Datagram>
  {
    if queue == [] then [] else [queue[0].dgram] + Dgrams(queue[1..])
  }

  /** The IPv4 frames and ARP requests a call has transmitted. */
  ghost function Transmitted(frames: seq<Frame>, at: nat): seq<Item>
  {
    if frames == [] then [] else
      var item :=
        match frames[0].payload
        case Ipv4(dgram) => [Sent(frames[0].dst, dgram, at)]
        case Arp(msg) => if msg.opcode == Request then [Requested(at)] else []
        case Other => [];
      item + Transmitted(frames[1..], at)
  }

  ghost predicate LearnsFrom(s: Interface, frame: Frame, ip: U32)
  {
    s.Accepts(frame) && frame.payload.Arp? && frame.payload.msg.senderIp == ip
  }

  /** An interface watched from next hop `ip`: the sum of its ticks and what has happened. */
  datatype World = World(s: Interface, now: nat, trace: seq<Item>)

  ghost predicate Step(w: World, e: Event, w': World, ip: U32)
  {
    match e
    case Initialize => w' == w.(s := w.s.(initialized := true))
    case Send(dgram, nextHop) =>
      var r := w.s.Send(dgram, nextHop);
      && w'.s == r.s && w'.now == w.now
      && w'.trace == w.trace + (if nextHop == ip then [Submitted(dgram)] + Transmitted(r.frames, w.now) else [])
    case Receive(frame) =>
      var r := w.s.Receive(frame);
      && w'.s == r.s && w'.now == w.now
      && w'.trace == w.trace + (if LearnsFrom(w.s, frame, ip)
                                then [Heard(frame.payload.msg.senderMac, w.now)] + Transmitted(r.frames, w.now) else [])
    case Tick(ms, frames) =>
      && w.s.Ticks(Output(w'.s, frames), ms) && w'.now == w.now + ms
      && w'.trace == w.trace
                     + (if HasPending(w.s.waiting, ip) && !HasPending(w'.s.waiting, ip)
                        then [Dropped(Dgrams(Queue(w.s.waiting, ip)), w'.now)] else [])
                     + (if w.s.RequestFrame(ip) in frames then [Renewed(w'.now)] else [])
  }

  // ----- the meaning of a trace

  /** What a trace has come to: the latest accepted ARP message, the latest request of
      `send_datagram` not yet followed by one, the latest renewal followed by neither, everything
      submitted, and everything sent or dropped, in order. */
  datatype Digest = Digest(
    latest: Option<(EthernetAddress, nat)>, unanswered: Option<nat>, renewed: Option<nat>,
    submitted: seq<Datagram>, resolved: seq<Datagram>)

  ghost function After(d: Digest, x: Item): Digest
  {
    match x
    case Submitted(dgram) => d.(submitted := d.submitted + [dgram])
    case Sent(mac, dgram, at) => d.(resolved := d.resolved + [dgram])
    case Dropped(dgrams, at) => d.(resolved := d.resolved + dgrams)
    case Heard(mac, at) => d.(latest := Some((mac, at)), unanswered := None, renewed := None)
    case Requested(at) => d.(unanswered := Some(at), renewed := None)
    case Renewed(at) => d.(renewed := Some(at))
  }

  ghost function DigestOf(trace: seq<Item>): Digest
  {
    if trace == [] then Digest(None, None, None, [], [])
    else After(DigestOf(trace[..|trace| - 1]), trace[|trace| - 1])
  }

  /** A frame goes to the MAC address last heard, less than 30000 ms ago; a request, renewed or
      not, comes 5000 ms or more after the last one of `send_datagram` still unanswered; a queue
      is dropped, and a request renewed, only as long after such a request, and a request is
      renewed once. */
  ghost predicate Timely(d: Digest, x: Item)
  {
    match x
    case Sent(mac, dgram, at) => d.latest.Some? && d.latest.value.0 == mac && at < d.latest.value.1 + 30000
    case Requested(at) =>
      && (d.unanswered.Some? ==> d.unanswered.value + 5000 <= at)
      && (d.renewed.Some? ==> d.renewed.value <= at)
    case Renewed(at) => d.renewed.None? && d.unanswered.Some? && d.unanswered.value + 5000 <= at
    case Dropped(dgrams, at) => d.unanswered.Some? && d.unanswered.value + 5000 <= at
    case _ => true
  }

  ghost predicate AllTimely(trace: seq<Item>)
  {
    trace != [] ==> AllTimely(trace[..|trace| - 1]) && Timely(DigestOf(trace[..|trace| - 1]), trace[|trace| - 1])
  }

  lemma Append(trace: seq<Item>, x: Item)
    ensures DigestOf(trace + [x]) == After(DigestOf(trace), x)
    ensures AllTimely(trace + [x]) <==> AllTimely(trace) && Timely(DigestOf(trace), x)
  {
    assert (trace + [x])[..|trace|] == trace;
  }

  lemma AppendTwo(trace: seq<Item>, x: Item, y: Item)
    ensures DigestOf(trace + [x, y]) == After(After(DigestOf(trace), x), y)
    ensures AllTimely(trace + [x, y]) <==>
            AllTimely(trace) && Timely(DigestOf(trace), x) && Timely(After(DigestOf(trace), x), y)
  {
    Append(trace, x);
    Append(trace + [x], y);
    assert trace + [x] + [y] == trace + [x, y];
  }

  /** Flushing a queue right after hearing from the next hop. */
  lemma {:induction false} AppendFlush(trace: seq<Item>, src: EthernetAddress, dst: EthernetAddress,
                                       queue: seq<PendingDatagram>, at: nat)
    requires DigestOf(trace).latest == Some((dst, at)) && AllTimely(trace)
    ensures var t := trace + Transmitted(Ipv4Frames(src, dst, queue), at);
            DigestOf(t) == DigestOf(trace).(resolved := DigestOf(trace).resolved + Dgrams(queue)) && AllTimely(t)
    decreases |queue|
  {
    if queue == [] {
      assert trace + [] == trace;
    } else {
      var x, rest := Sent(dst, queue[0].dgram, at), Transmitted(Ipv4Frames(src, dst, queue[1..]), at);
      var resolved := DigestOf(trace).resolved;
      FlushFirst(src, dst, queue, at);
      hide DigestOf, AllTimely, Transmitted, Ipv4Frames;
      Append(trace, x);
      AppendFlush(trace + [x], src, dst, queue[1..], at);
      Associative(trace, [x], rest);
      Associative(resolved, [queue[0].dgram], Dgrams(queue[1..]));
    }
  }

  lemma FlushFirst(src: EthernetAddress, dst: EthernetAddress, queue: seq<PendingDatagram>, at: nat)
    requires queue != []
    ensures Transmitted(Ipv4Frames(src, dst, queue), at) ==
            [Sent(dst, queue[0].dgram, at)] + Transmitted(Ipv4Frames(src, dst, queue[1..]), at)
  {
    assert Ipv4Frames(src, dst, queue)[1..] == Ipv4Frames(src, dst, queue[1..]);
  }

  /** A frame is answered with a reply exactly when it is an accepted request for this host's
      address, and the reply goes to the asker ahead of everything flushed. */
  lemma AnswersRequests(s: Interface, frame: Frame)
    ensures (exists f :: f in s.Receive(frame).frames && f.payload.Arp?) <==>
            && s.Accepts(frame) && frame.payload.Arp?
            && frame.payload.msg.opcode == Request && frame.payload.msg.targetIp == s.ip
    ensures forall f :: f in s.Receive(frame).frames && f.payload.Arp? ==>
              f == s.Receive(frame).frames[0] && f.dst == frame.payload.msg.senderMac
              && f.payload.msg.senderMac == s.mac && f.payload.msg.senderIp == s.ip
  {
    if s.Accepts(frame) && frame.payload.Arp? {
      var msg := frame.payload.msg;
      var learned := WithEntry(s.table, msg.senderIp, msg.senderMac);
      var cached := CachedMac(learned, msg.senderIp);
      FlushedFrom(s.mac, if cached.Some? then cached.value else [], Queue(s.waiting, msg.senderIp));
      if msg.opcode == Request && msg.targetIp == s.ip {
        assert s.Receive(frame).frames[0] == s.ReplyFrame(msg);
      }
    }
  }

  lemma {:induction false} FlushedFrom(src: EthernetAddress, dst: EthernetAddress, queue: seq<PendingDatagram>)
    ensures forall f :: f in Ipv4Frames(src, dst, queue) ==> f.src == src && f.dst == dst && f.payload.Ipv4?
  {
    if queue != [] {
      FlushedFrom(src, dst, queue[1..]);
    }
  }

  /** What a request is for: the host with the address asked for, and no other, answers; with
      the answer the asker knows that host's MAC address and everything waiting for it goes
      there, and the host asked knows the asker's. */
  lemma RequestIsAnswered(a: Interface, b: Interface, other: Interface)
    requires b.ip in a.table ==> a.table[b.ip].ttl.timeoutMs == 30000
    requires a.ip in b.table ==> b.table[a.ip].ttl.timeoutMs == 30000
    ensures var request := a.RequestFrame(b.ip);
            var answer := b.Receive(request);
            && CachedMac(answer.s.table, a.ip) == Some(a.mac)
            && answer.frames != []
            && (var r := a.Receive(answer.frames[0]);
                && CachedMac(r.s.table, b.ip) == Some(b.mac) && b.ip !in r.s.waiting
                && r.frames == Ipv4Frames(a.mac, b.mac, Queue(a.waiting, b.ip)))
            && (other.ip != b.ip ==> forall f :: f in other.Receive(request).frames ==> !f.payload.Arp?)
  {
    var request := a.RequestFrame(b.ip);
    assert b.Receive(request).frames[0] == b.ReplyFrame(request.payload.msg);
    AnswersRequests(other, request);
  }

  // ----- the invariant

  ghost predicate Inv(w: World, ip: U32)
  {
    var d := DigestOf(w.trace);
    && AllTimely(w.trace)
    // no next hop is both cached and waited for
    && !(ip in w.s.table && ip in w.s.waiting)
    && (ip in w.s.table ==>
          var e := w.s.table[ip];
          && e.ttl == Clock(30000, e.ttl.elapsedMs, true) && e.ttl.elapsedMs < 30000
          && d.latest.Some? && d.latest.value.0 == e.mac && w.now == d.latest.value.1 + e.ttl.elapsedMs)
    && (ip !in w.s.table && d.latest.Some? ==> d.latest.value.1 + 30000 <= w.now)
    && (ip in w.s.waiting ==>
          && w.s.waiting[ip] != [] && d.renewed.None?
          && var t := w.s.waiting[ip][0].timer;
          && t == Clock(5000, t.elapsedMs, true) && t.elapsedMs < 5000
          && d.unanswered.Some? && w.now == d.unanswered.value + t.elapsedMs)
    && (ip !in w.s.waiting && d.unanswered.Some? ==> d.unanswered.value + 5000 <= w.now)
    && (d.renewed.Some? ==> d.renewed.value <= w.now)
    // every datagram submitted is resolved or waiting, in order of submission
    && d.submitted == d.resolved + Dgrams(Queue(w.s.waiting, ip))
  }

  /** Ticks must not overflow the 64-bit elapsed time of a timer. */
  ghost predicate Enabled(e: Event)
  {
    e.Tick? ==> e.ms + 30000 <= 0x1_0000_0000_0000_0000
  }

  lemma {:induction false} DgramsSnoc(queue: seq<PendingDatagram>, p: PendingDatagram)
    ensures Dgrams(queue + [p]) == Dgrams(queue) + [p.dgram]
  {
    if queue == [] {
      assert ([] + [p])[1..] == [];
    } else {
      assert (queue + [p])[1..] == queue[1..] + [p];
      DgramsSnoc(queue[1..], p);
    }
  }

  lemma SendKeeps(w: World, e: Event, w': World, ip: U32)
    requires Inv(w, ip) && e.Send? && Step(w, e, w', ip)
    ensures Inv(w', ip)
  {
    hide DigestOf, AllTimely, Transmitted, Dgrams;
    if e.nextHop != ip {
      assert w.trace + [] == w.trace;
    } else {
      TransmittedOnSend(w.s, e.dgram, ip, w.now);
      Append(w.trace, Submitted(e.dgram));
      if ip in w.s.table {
        AppendTwo(w.trace, Submitted(e.dgram), Sent(w.s.table[ip].mac, e.dgram, w.now));
        NothingWaiting(w.s.waiting, ip);
      } else {
        DgramsSnoc(Queue(w.s.waiting, ip), PendingDatagram(e.dgram, ip, Clock(5000, 0, true)));
        AppendTwo(w.trace, Submitted(e.dgram), Requested(w.now));
      }
    }
  }

  lemma TransmittedOnSend(s: Interface, dgram: Datagram, ip: U32, at: nat)
    requires ip in s.table ==> !s.table[ip].ttl.Expired()
    ensures [Submitted(dgram)] + Transmitted(s.Send(dgram, ip).frames, at) ==
            if ip in s.table then [Submitted(dgram), Sent(s.table[ip].mac, dgram, at)]
            else if HasPending(s.waiting, ip) then [Submitted(dgram)]
            else [Submitted(dgram), Requested(at)]
  {
    var frames := s.Send(dgram, ip).frames;
    assert frames != [] ==> frames[1..] == [];
  }

  lemma ReceiveKeeps(w: World, e: Event, w': World, ip: U32)
    requires Inv(w, ip) && e.Receive? && Step(w, e, w', ip)
    ensures Inv(w', ip)
  {
    hide DigestOf, AllTimely, Transmitted, Ipv4Frames, Dgrams, Interface.Receive;
    if !LearnsFrom(w.s, e.frame, ip) {
      NotLearned(w.s, e.frame, ip);
      assert w.trace + [] == w.trace;
    } else {
      Learned(w.s, e.frame, ip, w.now);
      var mac, queue := e.frame.payload.msg.senderMac, Queue(w.s.waiting, ip);
      Append(w.trace, Heard(mac, w.now));
      AppendFlush(w.trace + [Heard(mac, w.now)], w.s.mac, mac, queue, w.now);
      var flushed := Transmitted(Ipv4Frames(w.s.mac, mac, queue), w.now);
      assert w'.trace == w.trace + [Heard(mac, w.now)] + flushed;
      NothingWaiting(w'.s.waiting, ip);
    }
  }

  lemma NothingWaiting(m: Waiting, ip: U32)
    requires ip !in m
    ensures Dgrams(Queue(m, ip)) == []
  {
  }

  /** A frame that teaches nothing about `ip` leaves its entry and its queue alone. */
  lemma NotLearned(s: Interface, frame: Frame, ip: U32)
    requires !LearnsFrom(s, frame, ip)
    ensures var s' := s.Receive(frame).s;
            && (ip in s'.table <==> ip in s.table) && (ip in s.table ==> s'.table[ip] == s.table[ip])
            && (ip in s'.waiting <==> ip in s.waiting) && (ip in s.waiting ==> s'.waiting[ip] == s.waiting[ip])
  {
  }

  /** An accepted ARP message renews the entry and flushes the whole queue to the address
      learned: the entry is found again at once, and a reply precedes the flush. */
  lemma Learned(s: Interface, frame: Frame, ip: U32, at: nat)
    requires LearnsFrom(s, frame, ip) && (ip in s.table ==> s.table[ip].ttl.timeoutMs == 30000)
    ensures var r, mac := s.Receive(frame), frame.payload.msg.senderMac;
            && ip in r.s.table && r.s.table[ip] == Entry(mac, Clock(30000, 0, true)) && ip !in r.s.waiting
            && Transmitted(r.frames, at) == Transmitted(Ipv4Frames(s.mac, mac, Queue(s.waiting, ip)), at)
  {
    var msg := frame.payload.msg;
    ReplyIsSilent(s.ReplyFrame(msg), Ipv4Frames(s.mac, msg.senderMac, Queue(s.waiting, ip)), at);
  }

  lemma ReplyIsSilent(reply: Frame, frames: seq<Frame>, at: nat)
    requires reply.payload.Arp? && reply.payload.msg.opcode == Reply
    ensures Transmitted([reply] + frames, at) == Transmitted(frames, at)
    ensures [] + frames == frames
  {
    assert ([reply] + frames)[1..] == frames;
  }

  lemma TickKeeps(w: World, e: Event, w': World, ip: U32)
    requires Inv(w, ip) && e.Tick? && Enabled(e) && Step(w, e, w', ip)
    ensures Inv(w', ip)
  {
    hide DigestOf, AllTimely, Dgrams;
    var queue, renewed := Queue(w.s.waiting, ip), w.s.RequestFrame(ip);
    assert renewed in e.frames <==> multiset(e.frames)[renewed] > 0;
    if ip in w.s.waiting && ip !in w'.s.waiting {
      var dropped, again := Dropped(Dgrams(queue), w'.now), Renewed(w'.now);
      Append(w.trace, dropped);
      AppendTwo(w.trace, dropped, again);
      assert w.trace + [dropped] + [again] == w.trace + [dropped, again];
      assert w.trace + [dropped] + [] == w.trace + [dropped];
      NothingWaiting(w'.s.waiting, ip);
    } else {
      TickedDgrams(queue, e.ms);
      assert w'.trace == w.trace;
    }
  }

  /** A queue that survives a tick holds the same datagrams. */
  lemma TickedDgrams(queue: seq<PendingDatagram>, ms: nat)
    ensures TickedQueue(queue, ms) != [] ==> Dgrams(TickedQueue(queue, ms)) == Dgrams(queue)
  {
  }

  // ----- whole runs

  /** The worlds a fresh interface goes through, watched from next hop `ip`. */
  ghost predicate IsRun(worlds: seq<World>, events: seq<Event>, mac: EthernetAddress, own: U32, ip: U32)
  {
    && |worlds| == |events| + 1
    && worlds[0] == World(Interface(mac, own, map[], map[], [], false), 0, [])
    && forall i :: 0 <= i < |events| ==> Enabled(events[i]) && Step(worlds[i], events[i], worlds[i + 1], ip)
  }

  lemma InitializeKeeps(w: World, w': World, ip: U32)
    requires Inv(w, ip) && Step(w, Initialize, w', ip)
    ensures Inv(w', ip)
  {
    hide DigestOf, AllTimely, Dgrams;
  }

  lemma {:induction false} RunInv(worlds: seq<World>, events: seq<Event>, i: nat,
                                  mac: EthernetAddress, own: U32, ip: U32)
    requires IsRun(worlds, events, mac, own, ip) && i <= |events|
    ensures Inv(worlds[i], ip)
  {
    if i > 0 {
      hide Inv, Step;
      RunInv(worlds, events, i - 1, mac, own, ip);
      match events[i - 1]
      case Initialize => InitializeKeeps(worlds[i - 1], worlds[i], ip);
      case Send(dgram, nextHop) => SendKeeps(worlds[i - 1], events[i - 1], worlds[i], ip);
      case Receive(frame) => ReceiveKeeps(worlds[i - 1], events[i - 1], worlds[i], ip);
      case Tick(ms, frames) => TickKeeps(worlds[i - 1], events[i - 1], worlds[i], ip);
    } else {
      assert Dgrams([]) == [];
    }
  }

  lemma {:induction false} LatestHeard(trace: seq<Item>) returns (h: nat)
    requires DigestOf(trace).latest.Some?
    ensures h < |trace| && trace[h] == Heard(DigestOf(trace).latest.value.0, DigestOf(trace).latest.value.1)
    ensures forall k :: h < k < |trace| ==> !trace[k].Heard?
  {
    h := |trace| - 1;
    if !trace[h].Heard? {
      h := LatestHeard(trace[..|trace| - 1]);
    }
  }

  lemma {:induction false} TimelyAt(trace: seq<Item>, i: nat)
    requires AllTimely(trace) && i < |trace|
    ensures AllTimely(trace[..i]) && Timely(DigestOf(trace[..i]), trace[i])
  {
    if i < |trace| - 1 {
      var front := trace[..|trace| - 1];
      TimelyAt(front, i);
      assert front[..i] == trace[..i];
    }
  }

  lemma {:induction false} Unanswered(trace: seq<Item>, i: nat) returns (r: nat)
    requires i < |trace| && trace[i].Requested? && forall k :: i < k < |trace| ==> !trace[k].Heard?
    ensures i <= r < |trace| && trace[r].Requested? && DigestOf(trace).unanswered == Some(trace[r].at)
  {
    r := |trace| - 1;
    if !trace[r].Requested? {
      r := Unanswered(trace[..|trace| - 1], i);
    }
  }

  /** The no-overlap and conservation results, over every run and for every next hop: it is
      never both cached and waited for, and the datagrams submitted to it are, in order, those
      already sent or dropped by the timeout followed by those still waiting. */
  lemma FifoConservation(worlds: seq<World>, events: seq<Event>, i: nat, mac: EthernetAddress, own: U32, ip: U32)
    requires IsRun(worlds, events, mac, own, ip) && i <= |events|
    ensures var w := worlds[i];
            && !(ip in w.s.table && HasPending(w.s.waiting, ip))
            && DigestOf(w.trace).submitted == DigestOf(w.trace).resolved + Dgrams(Queue(w.s.waiting, ip))
  {
    RunInv(worlds, events, i, mac, own, ip);
  }

  /** Over every run, each IPv4 frame to a next hop carries the address in the latest accepted
      ARP message from it, accepted less than 30000 ms of ticks before. */
  lemma SentToLatestAddress(worlds: seq<World>, events: seq<Event>, i: nat, mac: EthernetAddress, own: U32, ip: U32,
                            j: nat)
    requires IsRun(worlds, events, mac, own, ip) && i <= |events|
    requires j < |worlds[i].trace| && worlds[i].trace[j].Sent?
    ensures var trace := worlds[i].trace;
            exists h: nat :: h < j && trace[h].Heard? && trace[h].mac == trace[j].mac
                             && trace[j].at < trace[h].at + 30000 && forall k :: h < k < j ==> !trace[k].Heard?
  {
    RunInv(worlds, events, i, mac, own, ip);
    var trace := worlds[i].trace;
    TimelyAt(trace, j);
    var h := LatestHeard(trace[..j]);
    assert trace[h] == trace[..j][h];
    assert forall k :: h < k < j ==> trace[k] == trace[..j][k];
  }

  ghost predicate IsRequest(x: Item) { x.Requested? || x.Renewed? }

  /** Over every run, two requests for the next hop are 5000 ms of ticks or more apart, or an ARP
      message from it was accepted in between -- whatever their kind, except that a renewal may be
      followed by a request of `send_datagram`. */
  lemma RequestsApart(worlds: seq<World>, events: seq<Event>, i: nat, mac: EthernetAddress, own: U32, ip: U32,
                      j: nat, k: nat)
    requires IsRun(worlds, events, mac, own, ip) && i <= |events| && j < k < |worlds[i].trace|
    requires IsRequest(worlds[i].trace[j]) && IsRequest(worlds[i].trace[k])
    requires worlds[i].trace[j].Renewed? ==> worlds[i].trace[k].Renewed?
    ensures worlds[i].trace[j].at + 5000 <= worlds[i].trace[k].at
            || exists h :: j < h < k && worlds[i].trace[h].Heard?
  {
    RunInv(worlds, events, i, mac, own, ip);
    var trace := worlds[i].trace;
    if forall h :: j < h < k ==> !trace[h].Heard? {
      if trace[j].Requested? {
        UnansweredApart(trace, j, k);
      } else {
        TimelyAt(trace, k);
        var r := RequestedAfter(trace, j, k);
        UnansweredApart(trace, r.value, k);
      }
    }
  }

  /** Between a renewal and a later point with no renewal pending there is a request, no earlier
      than the renewal. */
  lemma {:induction false} RequestedAfter(trace: seq<Item>, j: nat, k: nat) returns (r: Option<nat>)
    requires AllTimely(trace) && j < k <= |trace| && trace[j].Renewed?
    requires forall h :: j < h < k ==> !trace[h].Heard?
    ensures var d := DigestOf(trace[..k]);
            if d.renewed.Some? then trace[j].at <= d.renewed.value
            else r.Some? && j < r.value < k && trace[r.value].Requested? && trace[j].at <= trace[r.value].at
    decreases k
  {
    hide DigestOf, AllTimely;
    r := None;
    var x, before := trace[k - 1], DigestOf(trace[..k - 1]);
    TimelyAt(trace, k - 1);
    assert trace[..k] == trace[..k - 1] + [x];
    Append(trace[..k - 1], x);
    if j < k - 1 {
      r := RequestedAfter(trace, j, k - 1);
      if x.Requested? && before.renewed.Some? {
        r := Some(k - 1);
      } else if x.Renewed? {
        UnansweredApart(trace, r.value, k - 1);
      }
    }
  }

  /** Over every run, datagrams are dropped only 5000 ms of ticks or more after a request that no
      ARP message from the next hop has followed, and none waits so long. */
  lemma DroppedOnTimeout(worlds: seq<World>, events: seq<Event>, i: nat, mac: EthernetAddress, own: U32, ip: U32,
                         j: nat)
    requires IsRun(worlds, events, mac, own, ip) && i <= |events|
    ensures var w := worlds[i];
            && (j < |w.trace| && w.trace[j].Dropped? ==>
                  exists r: nat :: r < j && w.trace[r].Requested? && w.trace[r].at + 5000 <= w.trace[j].at
                                   && forall k :: r < k < j ==> !w.trace[k].Heard?)
            && (HasPending(w.s.waiting, ip) ==>
                  DigestOf(w.trace).unanswered.Some? && w.now < DigestOf(w.trace).unanswered.value + 5000)
  {
    RunInv(worlds, events, i, mac, own, ip);
    var trace := worlds[i].trace;
    if j < |trace| && trace[j].Dropped? {
      TimelyAt(trace, j);
      var r := LatestUnanswered(trace[..j]);
      assert trace[r] == trace[..j][r];
      assert forall k :: r < k < j ==> trace[k] == trace[..j][k];
    }
  }

  /** Over every run: the address of a next hop is known exactly for 30000 ms of ticks after the
      latest ARP message accepted from it, and datagrams wait for it exactly for 5000 ms after the
      latest request that no such message has followed. */
  lemma KnownExactly(worlds: seq<World>, events: seq<Event>, i: nat, mac: EthernetAddress, own: U32, ip: U32)
    requires IsRun(worlds, events, mac, own, ip) && i <= |events|
    ensures var w := worlds[i];
            var d := DigestOf(w.trace);
            && CachedMac(w.s.table, ip)
               == (if d.latest.Some? && w.now < d.latest.value.1 + 30000 then Some(d.latest.value.0) else None)
            && (HasPending(w.s.waiting, ip) <==> d.unanswered.Some? && w.now < d.unanswered.value + 5000)
  {
    RunInv(worlds, events, i, mac, own, ip);
  }

  // ----- what is delivered, and what frames say

  /** The datagrams of the IPv4 frames to this host's address or to broadcast, in order of arrival. */
  ghost function Delivered(events: seq<Event>, mac: EthernetAddress): seq<Datagram>
  {
    if events == [] then [] else
      Delivered(events[..|events| - 1], mac) +
      match events[|events| - 1]
      case Receive(Frame(src, dst, Ipv4(dgram))) =>
        if dst == mac || dst == [255, 255, 255, 255, 255, 255] then [dgram] else []
      case _ => []
  }

  lemma StepReceived(w: World, e: Event, w': World, ip: U32)
    requires Step(w, e, w', ip)
    ensures w'.s.mac == w.s.mac && w'.s.ip == w.s.ip
    ensures w'.s.received == w.s.received +
            match e
            case Receive(Frame(src, dst, Ipv4(dgram))) =>
              if dst == w.s.mac || dst == [255, 255, 255, 255, 255, 255] then [dgram] else []
            case _ => []
  {
    hide Transmitted;
  }

  /** Over every run: what the interface has delivered is exactly the datagrams sent to it. */
  lemma {:induction false} ReceivedExactly(worlds: seq<World>, events: seq<Event>, i: nat,
                                           mac: EthernetAddress, own: U32, ip: U32)
    requires IsRun(worlds, events, mac, own, ip) && i <= |events|
    ensures worlds[i].s.received == Delivered(events[..i], mac)
    ensures worlds[i].s.mac == mac && worlds[i].s.ip == own
  {
    hide Step;
    if i > 0 {
      ReceivedExactly(worlds, events, i - 1, mac, own, ip);
      StepReceived(worlds[i - 1], events[i - 1], worlds[i], ip);
      assert events[..i][..i - 1] == events[..i - 1];
    }
  }

  /** A frame to another host changes nothing and is answered by nothing. */
  lemma ForeignFrameIgnored(s: Interface, frame: Frame)
    requires frame.dst != s.mac && frame.dst != [255, 255, 255, 255, 255, 255]
    ensures s.Receive(frame) == Output(s, [])
  {
  }

  /** Every frame names this host as its source, and so does every ARP message; a request goes to
      everyone and leaves the address it asks for blank, a reply goes to the host that asked. */
  ghost predicate FromHere(s: Interface, f: Frame)
  {
    && f.src == s.mac
    && (f.payload.Arp? ==>
          var m := f.payload.msg;
          && m.senderMac == s.mac && m.senderIp == s.ip
          && (m.opcode == Request ==> f.dst == [255, 255, 255, 255, 255, 255] && m.targetMac == [0, 0, 0, 0, 0, 0])
          && (m.opcode == Reply ==> f.dst == m.targetMac))
  }

  lemma SentFromHere(s: Interface, dgram: Datagram, nextHop: U32)
    ensures forall f :: f in s.Send(dgram, nextHop).frames ==>
              && FromHere(s, f)
              && !f.payload.Other?
              && (f.payload.Arp? ==> f.payload.msg.opcode == Request && f.payload.msg.targetIp == nextHop)
  {
  }

  lemma AnsweredFromHere(s: Interface, frame: Frame)
    ensures forall f :: f in s.Receive(frame).frames ==>
              && FromHere(s, f)
              && (f.payload.Arp? ==>
                    && frame.payload.Arp? && f.payload.msg.opcode == Reply
                    && f.payload.msg.targetMac == frame.payload.msg.senderMac
                    && f.payload.msg.targetIp == frame.payload.msg.senderIp)
  {
    if s.Accepts(frame) && frame.payload.Arp? {
      var msg := frame.payload.msg;
      var cached := CachedMac(WithEntry(s.table, msg.senderIp, msg.senderMac), msg.senderIp);
      FlushedFrom(s.mac, if cached.Some? then cached.value else [], Queue(s.waiting, msg.senderIp));
    }
  }

  lemma RenewedFromHere(s: Interface, r: Output, ms: nat)
    requires s.Ticks(r, ms)
    ensures forall f :: f in r.frames ==> FromHere(s, f) && f.payload.Arp? && f.payload.msg.opcode == Request
  {
  }

  lemma {:induction false} LatestUnanswered(trace: seq<Item>) returns (r: nat)
    requires DigestOf(trace).unanswered.Some?
    ensures r < |trace| && trace[r] == Requested(DigestOf(trace).unanswered.value)
    ensures forall k :: r < k < |trace| ==> !trace[k].Heard?
  {
    r := |trace| - 1;
    if !trace[r].Requested? {
      r := LatestUnanswered(trace[..|trace| - 1]);
    }
  }

  lemma {:induction false} UnansweredApart(trace: seq<Item>, j: nat, k: nat)
    requires AllTimely(trace) && j < k < |trace| && trace[j].Requested? && (trace[k].Requested? || trace[k].Renewed?)
    requires forall h :: j < h < k ==> !trace[h].Heard?
    ensures trace[j].at + 5000 <= trace[k].at
    decreases k
  {
    TimelyAt(trace, k);
    var r := Unanswered(trace[..k], j);
    if j < r {
      UnansweredApart(trace, j, r);
    }
  }

  /** When the latest request of either kind, not followed by an ARP message, went out. */
  ghost function LastAsked(d: Digest): Option<nat>
  {
    if d.renewed.Some? then d.renewed else d.unanswered
  }

  /** After a renewal the 5000 ms are not kept: in every reachable state `send_datagram` asks
      less than 5000 ms after the last request exactly when the next hop is neither cached nor
      waited for and that request was a renewal so recent -- the renewal drops the queue, and
      with it the memory of having asked. */
  lemma AsksTooSoonExactly(worlds: seq<World>, events: seq<Event>, i: nat, mac: EthernetAddress, own: U32, ip: U32,
                           dgram: Datagram)
    requires IsRun(worlds, events, mac, own, ip) && i <= |events|
    ensures var w := worlds[i];
            var d, asked := DigestOf(w.trace), LastAsked(DigestOf(w.trace));
            w.s.RequestFrame(ip) in w.s.Send(dgram, ip).frames && asked.Some? && w.now < asked.value + 5000
            <==> ip !in w.s.table && ip !in w.s.waiting && d.renewed.Some? && w.now < d.renewed.value + 5000
  {
    RunInv(worlds, events, i, mac, own, ip);
    var w := worlds[i];
    if ip in w.s.table {
      assert w.s.Send(dgram, ip).frames[0].payload.Ipv4?;
    } else if ip !in w.s.waiting {
      assert w.s.Send(dgram, ip).frames[0] == w.s.RequestFrame(ip);
    }
  }

  /** A run in which two requests go out in the same millisecond. */
  lemma RenewalForgets(mac: EthernetAddress, own: U32, ip: U32) returns (worlds: seq<World>, events: seq<Event>)
    ensures |worlds| == |events| + 1 && worlds[0] == World(Interface(mac, own, map[], map[], [], false), 0, [])
    ensures IsRun(worlds, events, mac, own, ip)
    ensures worlds[|events|].trace ==
            [Submitted([]), Requested(0), Dropped([[]], 5000), Renewed(5000), Submitted([]), Requested(5000)]
  {
    hide Step, Transmitted;
    var s0 := Interface(mac, own, map[], map[], [], false);
    var s1 := s0.(initialized := true);
    var s2 := s1.(waiting := map[ip := [PendingDatagram([], ip, Clock(5000, 0, true))]]);
    var w0, w1 := World(s0, 0, []), World(s1, 0, []);
    var asked := [Submitted([]), Requested(0)];
    var renewed := asked + [Dropped([[]], 5000), Renewed(5000)];
    var w2, w3 := World(s2, 0, asked), World(s1, 5000, renewed);
    var w4 := World(s2, 5000, renewed + [Submitted([]), Requested(5000)]);
    var tick := Tick(5000, [s0.RequestFrame(ip)]);
    AskAtOnce(w1, w2, ip);
    RenewAtOnce(w2, w3, ip);
    AskAtOnce(w3, w4, ip);
    InitializeAtOnce(w0, w1, ip);
    worlds, events := [w0, w1, w2, w3, w4], [Initialize, Send([], ip), tick, Send([], ip)];
  }

  lemma InitializeAtOnce(w: World, w': World, ip: U32)
    requires w' == w.(s := w.s.(initialized := true))
    ensures Step(w, Initialize, w', ip)
  {
  }

  lemma RenewAtOnce(w: World, w': World, ip: U32)
    requires w.s.initialized && w.s.table == map[]
    requires w.s.waiting == map[ip := [PendingDatagram([], ip, Clock(5000, 0, true))]]
    requires w' == World(w.s.(waiting := map[]), w.now + 5000,
                         w.trace + [Dropped([[]], w.now + 5000), Renewed(w.now + 5000)])
    ensures Step(w, Tick(5000, [w.s.RequestFrame(ip)]), w', ip)
  {
    assert Dgrams(Queue(w.s.waiting, ip)) == [[]];
    assert w'.trace == w.trace + [Dropped([[]], w'.now)] + [Renewed(w'.now)];
  }

  lemma AskAtOnce(w: World, w': World, ip: U32)
    requires w.s.table == map[] && w.s.waiting == map[]
    requires w' == World(w.s.(waiting := map[ip := [PendingDatagram([], ip, Clock(5000, 0, true))]]), w.now,
                         w.trace + [Submitted([]), Requested(w.now)])
    ensures Step(w, Send([], ip), w', ip)
  {
    TransmittedOnSend(w.s, [], ip, w.now);
    assert Queue(w.s.waiting, ip) + [PendingDatagram([], ip, Clock(5000, 0, true))] == w'.s.waiting[ip];
  }

  // ----- the bound on ticks

  /** A tick adds to the elapsed time of every live entry exactly if it is at most
      2^64 - 30000 ms; beyond that the 64-bit sum wraps for some entry. */
  lemma TickExact(ms: nat)
    requires ms < 0x1_0000_0000_0000_0000
    ensures (forall e: nat :: e < 30000 ==> Clock(30000, e, true).Tick(ms).elapsedMs == e + ms)
            <==> Enabled(Tick(ms, []))
  {
    if !Enabled(Tick(ms, [])) {
      assert Clock(30000, 29999, true).Tick(ms).elapsedMs == Add64(29999, ms) < 0x1_0000_0000_0000_0000;
    }
  }

  /** With a larger tick a frame goes to an address heard 2^64 ms ago. */
  lemma StaleAddressUsed(mac: EthernetAddress, own: U32, ip: U32, peer: EthernetAddress)
    returns (w1: World, w2: World, w3: World, w4: World)
    ensures var answer := Arp(ArpMessage(Reply, peer, ip, mac, own));
            && Step(World(Interface(mac, own, map[], map[], [], false), 0, []),
                    Receive(Frame(peer, mac, answer)), w1, ip)
            && Step(w1, Tick(1, []), w2, ip) && Step(w2, Tick(0xFFFF_FFFF_FFFF_FFFF, []), w3, ip)
            && Step(w3, Send([], ip), w4, ip)
    ensures w4.trace == [Heard(peer, 0), Submitted([]), Sent(peer, [], 0x1_0000_0000_0000_0000)]
  {
    hide Transmitted;
    var s0 := Interface(mac, own, map[], map[], [], false);
    var young := s0.(table := map[ip := Entry(peer, Clock(30000, 0, true))]);
    var aged := s0.(table := map[ip := Entry(peer, Clock(30000, 1, true))]);
    w1 := World(young, 0, [Heard(peer, 0)]);
    var frame := Frame(peer, mac, Arp(ArpMessage(Reply, peer, ip, mac, own)));
    Learned(s0, frame, ip, 0);
    assert s0.Receive(frame).s == young;
    assert Transmitted(Ipv4Frames(mac, peer, []), 0) == [] by { NothingTransmitted(mac, peer); }
    w2 := World(aged, 1, [Heard(peer, 0)]);
    w3 := World(young, 0x1_0000_0000_0000_0000, [Heard(peer, 0)]);
    assert Clock(30000, 1, true).Tick(0xFFFF_FFFF_FFFF_FFFF) == Clock(30000, 0, true);
    TransmittedOnSend(young, [], ip, w3.now);
    w4 := World(young, w3.now, [Heard(peer, 0), Submitted([]), Sent(peer, [], w3.now)]);
  }

  lemma NothingTransmitted(src: EthernetAddress, dst: EthernetAddress)
    ensures Transmitted(Ipv4Frames(src, dst, []), 0) == []
  {
  }
}
