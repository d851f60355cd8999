/** Sending IPv4 datagrams over Ethernet with address resolution: src/network_interface.cc. */
module NetworkInterfaces {
  import opened Common
  import opened ArpTables

  const BROADCAST: EthernetAddress := [255, 255, 255, 255, 255, 255]

  datatype Opcode = Request | Reply

  datatype ArpMessage = ArpMessage(
    opcode: Opcode, senderMac: EthernetAddress, senderIp: U32, targetMac: EthernetAddress, targetIp: U32)

  /** What the type field and the parser make of a frame's payload. */
  datatype Payload = Ipv4(dgram: Datagram) | Arp(msg: ArpMessage) | Other

  datatype Frame = Frame(src: EthernetAddress, dst: EthernetAddress, payload: Payload)

  /** The value of an interface. */
  datatype Interface = Interface(
    mac: EthernetAddress, ip: U32, table: Table, waiting: Waiting, received: seq<Datagram>, initialized: bool)
  {
    function RequestFrame(target: U32): Frame
    {
      Frame(mac, BROADCAST, Arp(ArpMessage(Request, mac, ip, [0, 0, 0, 0, 0, 0], target)))
    }

    function ReplyFrame(request: ArpMessage): Frame
    {
      Frame(mac, request.senderMac, Arp(ArpMessage(Reply, mac, ip, request.senderMac, request.senderIp)))
    }

    /** The frame is for this host. */
    predicate Accepts(frame: Frame) { frame.dst == mac || frame.dst == BROADCAST }

    function Send(dgram: Datagram, nextHop: U32): Output
    {
      var s := this.(table := Evict(table, nextHop));
      match CachedMac(table, nextHop)
      case Some(dst) => Output(s, [Frame(mac, dst, Ipv4(dgram))])
      case None =>
        Output(s.(waiting := WithPending(waiting, dgram, nextHop)),
               if HasPending(waiting, nextHop) then [] else [RequestFrame(nextHop)])
    }

    function Receive(frame: Frame): Output
    {
      if !Accepts(frame) then Output(this, [])
      else match frame.payload
        case Ipv4(dgram) => Output(this.(received := received + [dgram]), [])
        case Other => Output(this, [])
        case Arp(msg) =>
          var learned := WithEntry(table, msg.senderIp, msg.senderMac);
          var reply := if msg.opcode == Request && msg.targetIp == ip then [ReplyFrame(msg)] else [];
          var s := this.(table := Evict(learned, msg.senderIp));
          match CachedMac(learned, msg.senderIp)
          case None => Output(s, reply)
          case Some(dst) =>
            Output(s.(waiting := waiting - {msg.senderIp}),
                   reply + Ipv4Frames(mac, dst, ArpTables.Queue(waiting, msg.senderIp)))
    }

    /** Table and queues age; an initialized interface asks again, in no particular order, for
        each next hop whose queue times out. */
    ghost predicate Ticks(r: Output, ms: nat)
    {
      && r.s == this.(table := r.s.table, waiting := r.s.waiting)
      && TickedTable(table, r.s.table, ms) && TickedWaiting(waiting, r.s.waiting, ms)
      && (forall target :: multiset(r.frames)[RequestFrame(target)]
                           == if initialized && TimesOut(waiting, target, ms) then 1 else 0)
      && (forall f :: f in r.frames ==> f.payload.Arp? && f == RequestFrame(f.payload.msg.targetIp))
    }
  }

  /** An interface after a call, with the frames the call transmitted. */
  datatype Output = Output(s: Interface, frames: seq<Frame>)

  function Ipv4Frames(src: EthernetAddress, dst: EthernetAddress, queue: seq<PendingDatagram>): seq<Frame>
  {
    if queue == [] then [] else [Frame(src, dst, Ipv4(queue[0].dgram))] + Ipv4Frames(src, dst, queue[1..])
  }

  lemma {:induction false} Ipv4FramesSnoc(src: EthernetAddress, dst: EthernetAddress,
                                          queue: seq<PendingDatagram>, p: PendingDatagram)
    ensures Ipv4Frames(src, dst, queue + [p]) == Ipv4Frames(src, dst, queue) + [Frame(src, dst, Ipv4(p.dgram))]
  {
    if queue == [] {
      assert ([] + [p])[1..] == [];
    } else {
      assert (queue + [p])[1..] == queue[1..] + [p];
      Ipv4FramesSnoc(src, dst, queue[1..], p);
    }
  }

  lemma {:induction false} OneRequestEach(s: Interface, hops: seq<U32>, frames: seq<Frame>, target: U32)
    requires |frames| == |hops| && forall i :: 0 <= i < |hops| ==> frames[i] == s.RequestFrame(hops[i])
    ensures multiset(frames)[s.RequestFrame(target)] == multiset(hops)[target]
  {
    if hops != [] {
      var n := |hops| - 1;
      OneRequestEach(s, hops[..n], frames[..n], target);
      CountLast(hops, target);
      CountLast(frames, s.RequestFrame(target));
    }
  }

  class NetworkInterface {
    const ethernetAddress: EthernetAddress
    const ipAddress: U32
    const arpTable: ARPTable
    const arpQueue: ARPMessageQueue
    var datagramsReceived: seq<Datagram>
    var initialized: bool

    ghost predicate Valid()
      reads this, arpQueue
    {
      arpQueue.Valid()
    }

    ghost function State(): Interface
      reads this, arpTable, arpQueue
    {
      Interface(ethernetAddress, ipAddress, arpTable.entries, arpQueue.pending, datagramsReceived, initialized)
    }

    constructor (ethernetAddress: EthernetAddress, ipAddress: U32)
      ensures Valid() && State() == Interface(ethernetAddress, ipAddress, map[], map[], [], false)
      ensures fresh(arpTable) && fresh(arpQueue)
    {
      this.ethernetAddress, this.ipAddress := ethernetAddress, ipAddress;
      arpTable := new ARPTable();
      arpQueue := new ARPMessageQueue();
      datagramsReceived, initialized := [], false;
    }

    /** Registers the timeout callback; the first call counts. */
    method Initialize()
      requires Valid()
      modifies this
      ensures Valid() && State() == old(State()).(initialized := true)
    {
      if initialized {
        return;
      }
      initialized := true;
    }

    method SendDatagram(dgram: Datagram, nextHop: U32) returns (frames: seq<Frame>)
      requires Valid()
      modifies arpTable, arpQueue
      ensures Valid() && Output(State(), frames) == old(State()).Send(dgram, nextHop)
    {
      var mac := arpTable.Lookup(nextHop);
      if mac.Some? {
        return [Frame(ethernetAddress, mac.value, Ipv4(dgram))];
      }
      var alreadyQuerying := HasPending(arpQueue.pending, nextHop);
      arpQueue.AddPending(dgram, nextHop);
      frames := [];
      if !alreadyQuerying {
        var request := SendArpRequest(nextHop);
        frames := [request];
      }
    }

    method SendArpRequest(nextHop: U32) returns (frame: Frame)
      ensures frame == State().RequestFrame(nextHop)
    {
      frame := Frame(ethernetAddress, BROADCAST,
                     Arp(ArpMessage(Request, ethernetAddress, ipAddress, [0, 0, 0, 0, 0, 0], nextHop)));
    }

    method RecvFrame(frame: Frame) returns (frames: seq<Frame>)
      requires Valid()
      modifies this, arpTable, arpQueue
      ensures Valid() && Output(State(), frames) == old(State()).Receive(frame)
    {
      frames := [];
      if frame.dst != ethernetAddress && frame.dst != BROADCAST {
        return;
      }
      match frame.payload
      case Ipv4(dgram) => datagramsReceived := datagramsReceived + [dgram];
      case Other =>
      case Arp(msg) =>
        arpTable.AddEntry(msg.senderIp, msg.senderMac);
        if msg.opcode == Request && msg.targetIp == ipAddress {
          frames := [Frame(ethernetAddress, msg.senderMac,
                           Arp(ArpMessage(Reply, ethernetAddress, ipAddress, msg.senderMac, msg.senderIp)))];
        }
        var flushed := FlushPendingFor(msg.senderIp);
        frames := frames + flushed;
    }

    method FlushPendingFor(ip: U32) returns (frames: seq<Frame>)
      requires Valid()
      modifies arpTable, arpQueue
      ensures Valid() && arpTable.entries == Evict(old(arpTable.entries), ip)
      ensures match CachedMac(old(arpTable.entries), ip)
              case None => frames == [] && arpQueue.pending == old(arpQueue.pending)
              case Some(dst) => && frames == Ipv4Frames(ethernetAddress, dst, Queue(old(arpQueue.pending), ip))
                                && arpQueue.pending == old(arpQueue.pending) - {ip}
    {
      frames := [];
      var mac := arpTable.Lookup(ip);
      if mac.None? {
        return;
      }
      var queue := arpQueue.PopPending(ip);
      for i := 0 to |queue|
        modifies {}
        invariant frames == Ipv4Frames(ethernetAddress, mac.value, queue[..i])
      {
        Ipv4FramesSnoc(ethernetAddress, mac.value, queue[..i], queue[i]);
        assert queue[..i] + [queue[i]] == queue[..i + 1];
        frames := frames + [Frame(ethernetAddress, mac.value, Ipv4(queue[i].dgram))];
      }
      assert queue[..|queue|] == queue;
    }

    method Tick(ms: nat) returns (frames: seq<Frame>)
      requires Valid()
      modifies arpTable, arpQueue
      ensures Valid() && old(State()).Ticks(Output(State(), frames), ms)
    {
      arpTable.Tick(ms);
      var expired := arpQueue.Tick(ms);
      frames := [];
      if initialized {
        for i := 0 to |expired|
          modifies {}
          invariant |frames| == i && forall j :: 0 <= j < i ==> frames[j] == State().RequestFrame(expired[j])
        {
          var request := SendArpRequest(expired[i]);
          frames := frames + [request];
        }
        forall target
          ensures multiset(frames)[State().RequestFrame(target)] == multiset(expired)[target]
        {
          OneRequestEach(State(), expired, frames, target);
        }
      }
    }
  }
}
