/** TCP messages in IPv4 datagrams: util/tcp_over_ip.cc. */
module TcpOverIp {
  import opened Common
  import opened Buffers
  import opened Checksums
  import opened TcpSegments
  import Ipv4

  datatype Config = Config(sourceIp: U32, sourcePort: U16, destinationIp: U32, destinationPort: U16)
  {
    /** The configuration of the other end. */
    function Mirror(): Config { Config(destinationIp, destinationPort, sourceIp, sourcePort) }
  }

  datatype Adapter = Adapter(config: Config, listening: bool)

  /** An adapter after a datagram, with the message found in it, if any. */
  datatype Unwrapped = Unwrapped(adapter: Adapter, message: Option<TcpMessage>)

  function HeaderFor(config: Config, payloadSize: nat): Ipv4.Header
  {
    Ipv4.Header(4, 5, 0, (40 + payloadSize) % 0x1_0000, 0, true, false, 0, 128, Ipv4.PROTO_TCP, 0,
                config.sourceIp, config.destinationIp)
  }

  /** wrap_tcp_in_ip. */
  ghost function WrapTcp(config: Config, m: TcpMessage): Ipv4.Datagram
  {
    var header := HeaderFor(config, |m.sender.payload|);
    var segment := Segment(m, config.sourcePort, config.destinationPort, 0);
    Ipv4.Datagram(header.Checked(), segment.Checked(header.PseudoChecksum()).Bytes())
  }

  /** A TCP datagram whose addresses are those of the connection, or of any while listening. */
  predicate Addressed(a: Adapter, h: Ipv4.Header)
  {
    (a.listening || (h.dst == a.config.sourceIp && h.src == a.config.destinationIp)) && h.proto == Ipv4.PROTO_TCP
  }

  /** unwrap_tcp_in_ip: filter by address, protocol and port; a listening adapter adopts the
      addresses of the first SYN. */
  ghost function UnwrapTcp(a: Adapter, d: Ipv4.Datagram): Unwrapped
    requires d.header.Fits()
  {
    if !Addressed(a, d.header) then Unwrapped(a, None)
    else match TcpSegments.ParseBytes(d.payload, d.header.PseudoChecksum())
      case None => Unwrapped(a, None)
      case Some(segment) => Filter(a, d.header.src, d.header.dst, segment)
  }

  /** What happens to a valid segment. */
  function Filter(a: Adapter, src: U32, dst: U32, segment: Segment): Unwrapped
  {
    if segment.dstPort != a.config.sourcePort then Unwrapped(a, None)
    else if a.listening then
      if segment.message.sender.syn && !segment.message.sender.rst
      then Unwrapped(Adapter(Config(dst, a.config.sourcePort, src, segment.srcPort), false), Some(segment.message))
      else Unwrapped(a, None)
    else if segment.srcPort != a.config.destinationPort then Unwrapped(a, None)
    else Unwrapped(a, Some(segment.message))
  }

  lemma WrapFits(config: Config, m: TcpMessage)
    ensures var d := WrapTcp(config, m);
            && d.header.Fits() && d.header.ver == 4 && d.header.hlen == 5 && d.header.Checked() == d.header
            && d.header.src == config.sourceIp && d.header.dst == config.destinationIp
            && d.header.proto == Ipv4.PROTO_TCP
            && |d.payload| == 20 + |m.sender.payload| && d.header.PayloadLength() == |d.payload| % 0x1_0000
            && d.header.PseudoChecksum() == HeaderFor(config, |m.sender.payload|).PseudoChecksum() < 0x1_0000_0000
  {
    hide EncodeAll, Sum32, ValueOf, Ipv4.Header.PseudoChecksum;
    var header := HeaderFor(config, |m.sender.payload|);
    var segment := Segment(m, config.sourcePort, config.destinationPort, 0).Checked(header.PseudoChecksum());
    FieldsFit(segment);
    PseudoBound(header);
    PseudoIgnoresChecksum(header, header.Checked().cksum);
    PayloadLengthFor(config, |m.sender.payload|);
  }

  lemma PayloadLengthFor(config: Config, n: nat)
    ensures HeaderFor(config, n).PayloadLength() == (20 + n) % 0x1_0000
  {
  }

  lemma PseudoIgnoresChecksum(h: Ipv4.Header, c: nat)
    ensures h.(cksum := c).PseudoChecksum() == h.PseudoChecksum()
  {
  }

  /** The whole way: what was wrapped is a datagram whose bytes parse to itself, and the other
      end unwraps the message it carries, up to the RST flag the two directions share. A
      listening end takes a SYN and adopts the addresses. The length announced is right exactly
      for payloads of at most 65515 bytes; beyond, the 16-bit field has wrapped. */
  lemma WrapUnwrap(config: Config, m: TcpMessage)
    ensures var d := WrapTcp(config, m);
            && d.header.Fits()
            && Ipv4.ParseBytes(d.Bytes()) == Some(Ipv4.ParsedHeader(d.header, d.payload))
            && (d.header.PayloadLength() == |d.payload| <==> |m.sender.payload| <= 65515)
            && UnwrapTcp(Adapter(config.Mirror(), false), d)
               == Unwrapped(Adapter(config.Mirror(), false), Some(m.SharedReset()))
            && (m.sender.syn && !m.sender.rst && !m.receiver.rst ==>
                  forall ip: U32, ip': U32, port: U16 ::
                    UnwrapTcp(Adapter(Config(ip, config.destinationPort, ip', port), true), d)
                    == Unwrapped(Adapter(config.Mirror(), false), Some(m)))
  {
    hide Ipv4.Header.Checked, Segment.Bytes, TcpSegments.ParseBytes, Ipv4.ParseBytes, Ipv4.Header.PseudoChecksum;
    var d := WrapTcp(config, m);
    WrapFits(config, m);
    Ipv4.HeaderRoundTrip(d.header, d.payload);
    var segment := Segment(m, config.sourcePort, config.destinationPort, 0).Checked(d.header.PseudoChecksum());
    SegmentRoundTrip(segment, d.header.PseudoChecksum());
  }

  /** Where the parts of a wrapped message lie: an IPv4 header without options, the addresses and
      ports of this end first, and the TCP segment behind it. */
  lemma WrappedLayout(config: Config, m: TcpMessage)
    ensures var d := WrapTcp(config, m);
            var b := d.Bytes();
            && |b| == 40 + |m.sender.payload| && d.payload == b[20..] && b[40..] == m.sender.payload
            && b[0] == 0x45 && b[1] == 0 && Word(b[2], b[3]) == (40 + |m.sender.payload|) % 0x1_0000
            && Word(b[4], b[5]) == 0 && b[6] / 64 % 2 == 1 && b[6] / 32 % 2 == 0 && Word(b[6] % 32, b[7]) == 0
            && b[8] == 128 && b[9] == 6 && ValueOf(SumOf(d.header.Bytes(), false)) == 0
            && Long(b[12], b[13], b[14], b[15]) == config.sourceIp
            && Long(b[16], b[17], b[18], b[19]) == config.destinationIp
            && Word(b[20], b[21]) == config.sourcePort && Word(b[22], b[23]) == config.destinationPort
            && ValueOf(Sum32(d.header.PseudoChecksum(), b[20..], false)) == 0
  {
    hide EncodeAll, Sum32, SumOf, ValueOf, Word, Long, Ipv4.Header.PseudoChecksum, Ipv4.Header.Checked, Segment.Checked;
    hide Ipv4.Header.Bytes, Segment.Bytes, TcpSegments.ParseBytes;
    var d := WrapTcp(config, m);
    WrapFits(config, m);
    HeaderKept(HeaderFor(config, |m.sender.payload|));
    Ipv4.WireLayout(d.header, d.payload);
    Ipv4.ChecksumMeaning(d.header);
    var pseudo := d.header.PseudoChecksum();
    var segment := Segment(m, config.sourcePort, config.destinationPort, 0).Checked(pseudo);
    SegmentKept(Segment(m, config.sourcePort, config.destinationPort, 0), pseudo);
    WireLayout(segment);
    SegmentRoundTrip(segment, pseudo);
    ParsedLayout(segment.Bytes(), pseudo);
    var b := d.Bytes();
    assert b[20..] == d.payload == segment.Bytes();
    assert b[40..] == b[20..][20..];
  }

  lemma HeaderKept(h: Ipv4.Header)
    ensures h.Checked() == h.(cksum := h.Checked().cksum)
  {
  }

  lemma SegmentKept(s: Segment, pseudo: nat)
    ensures s.Checked(pseudo) == s.(cksum := s.Checked(pseudo).cksum)
    ensures s.Checked(pseudo).Checked(pseudo) == s.Checked(pseudo)
  {
  }

  /** What is taken, by the bytes: a connected end takes exactly the valid TCP segments from the
      addresses and ports of its peer to its own; a listening end exactly the valid SYNs without
      a reset to its port, and then adopts the addresses. Anything else is refused and changes
      nothing. */
  lemma UnwrapExactly(a: Adapter, d: Ipv4.Datagram)
    requires d.header.Fits()
    ensures var r, b, c, h := UnwrapTcp(a, d), d.payload, a.config, d.header;
            var valid := h.proto == 6 && TcpSegments.ParseBytes(b, h.PseudoChecksum()).Some?;
            && (valid ==> |b| >= 20)
            && (!a.listening ==>
                  && r.adapter == a
                  && (r.message.Some? <==>
                        && h.src == c.destinationIp && h.dst == c.sourceIp && valid
                        && Word(b[0], b[1]) == c.destinationPort && Word(b[2], b[3]) == c.sourcePort))
            && (a.listening ==>
                  && (r.message.Some? <==>
                        valid && Word(b[2], b[3]) == c.sourcePort && b[13] / 2 % 2 == 1 && b[13] / 4 % 2 == 0)
                  && r.adapter == (if r.message.None? then a
                                   else Adapter(Config(h.dst, c.sourcePort, h.src, Word(b[0], b[1])), false)))
            && (r.message.Some? ==>
                  r.message.value == TcpSegments.ParseBytes(b, h.PseudoChecksum()).value.message)
  {
    hide TcpSegments.ParseBytes, Word, Long, Ipv4.Header.PseudoChecksum;
    ParsedLayout(d.payload, d.header.PseudoChecksum());
  }

  class TCPOverIPv4Adapter {
    var config: Config
    var listening: bool

    ghost function State(): Adapter
      reads this
    {
      Adapter(config, listening)
    }

    constructor (config: Config, listening: bool)
      ensures State() == Adapter(config, listening)
    {
      this.config, this.listening := config, listening;
    }

    method WrapTcpInIp(m: TcpMessage) returns (header: Ipv4.Header, payload: seq<seq<Byte>>)
      ensures NonEmptyChunks(payload) && Ipv4.Datagram(header, Flatten(payload)) == WrapTcp(config, m)
    {
      WrapFits(config, m);
      var segment := Segment(m, config.sourcePort, config.destinationPort, 0);
      var h := HeaderFor(config, |m.sender.payload|);
      segment := TcpSegments.ComputeChecksum(segment, h.PseudoChecksum());
      header := Ipv4.ComputeChecksum(h);
      var serializer := new Serializer();
      TcpSegments.Serialize(segment, serializer);
      assert serializer.Bytes() == segment.Bytes();
      payload := serializer.Finish();
    }

    method UnwrapTcpInIp(header: Ipv4.Header, payload: seq<seq<Byte>>) returns (m: Option<TcpMessage>)
      requires header.Fits() && (Addressed(State(), header) ==> Readable(payload, header.PseudoChecksum()))
      modifies this
      ensures Unwrapped(State(), m) == UnwrapTcp(old(State()), Ipv4.Datagram(header, Flatten(payload)))
    {
      hide TcpSegments.ParseBytes, Ipv4.Header.Bytes;
      PseudoBound(header);
      if !listening && header.dst != config.sourceIp {
        return None;
      }
      if !listening && header.src != config.destinationIp {
        return None;
      }
      if header.proto != Ipv4.PROTO_TCP {
        return None;
      }
      var segment := TcpSegments.Parse(payload, header.PseudoChecksum());
      if segment.None? {
        return None;
      }
      var message := segment.value.message;
      if segment.value.dstPort != config.sourcePort {
        return None;
      }
      if listening {
        if message.sender.syn && !message.sender.rst {
          config := Config(header.dst, config.sourcePort, header.src, segment.value.srcPort);
          listening := false;
        } else {
          return None;
        }
      }
      if segment.value.srcPort != config.destinationPort {
        return None;
      }
      return Some(message);
    }
  }

  lemma PseudoBound(h: Ipv4.Header)
    requires h.Fits()
    ensures h.PseudoChecksum() <= 0x6_0000
  {
  }

  /** A datagram's bytes regrouped into any non-empty chunks on the way: parsing and unwrapping
      at the other end yields the message. */
  method Deliver(config: Config, m: TcpMessage, chunks: seq<seq<Byte>>) returns (r: Option<TcpMessage>)
    requires |m.sender.payload| <= 65515
    requires NonEmptyChunks(chunks) && Flatten(chunks) == WrapTcp(config, m).Bytes()
    ensures r == Some(m.SharedReset())
  {
    hide Ipv4.Datagram.Bytes, WrapTcp, UnwrapTcp, Ipv4.ParseBytes, Ipv4.Emptied, Readable;
    WrapUnwrap(config, m);
    WrapFits(config, m);
    NonEmptyAllReads(chunks, Fetch(Flatten(chunks), Ipv4.WIDTHS, Ipv4.DEFAULTS).length);
    var d := Ipv4.ParseDatagram(chunks);
    var adapter := new TCPOverIPv4Adapter(config.Mirror(), false);
    NonEmptyReadable(d.payload, d.header.PseudoChecksum());
    r := adapter.UnwrapTcpInIp(d.header, d.payload);
  }

  lemma NonEmptyReadable(chunks: seq<seq<Byte>>, pseudo: nat)
    requires NonEmptyChunks(chunks)
    ensures Readable(chunks, pseudo)
  {
    NonEmptyAllReads(chunks, Fetch(Flatten(chunks), WIDTHS, ZEROS).length);
  }
}
