/** The TCP segment on the wire: util/tcp_segment.cc. */
module TcpSegments {
  import opened Common
  import opened Buffers
  import opened Checksums
  import opened TcpMessages

  /** What the two ends of a connection exchange. */
  datatype TcpMessage = TcpMessage(sender: SenderMessage, receiver: ReceiverMessage)
  {
    /** The wire has one RST flag for both directions. */
    function SharedReset(): TcpMessage
    {
      var rst := sender.rst || receiver.rst;
      TcpMessage(sender.(rst := rst), receiver.(rst := rst))
    }
  }

  datatype Segment = Segment(message: TcpMessage, srcPort: U16, dstPort: U16, cksum: U16)
  {
    function Flags(): nat
    {
      (if message.receiver.ackno.Some? then 16 else 0) + (if message.sender.rst || message.receiver.rst then 4 else 0)
      + (if message.sender.syn then 2 else 0) + (if message.sender.fin then 1 else 0)
    }

    function Ackno(): U32 { if message.receiver.ackno.Some? then message.receiver.ackno.value else 0 }

    /** The header up to the checksum, the checksum, and the urgent pointer. */
    function Fields(): (f: seq<Field>)
      ensures |f| == 9
    {
      [Field(srcPort, 2), Field(dstPort, 2), Field(message.sender.seqno, 4), Field(Ackno(), 4), Field(0x50, 1),
       Field(Flags(), 1), Field(message.receiver.windowSize, 2), Field(cksum, 2), Field(0, 2)]
    }

    ghost function Bytes(): seq<Byte> { EncodeAll(Fields()) + message.sender.payload }

    /** The segment with its checksum field set, above the pseudo-header's contribution. */
    ghost function Checked(pseudo: nat): Segment
    {
      this.(cksum := ValueOf(Sum32(pseudo, this.(cksum := 0).Bytes(), false)))
    }
  }

  const WIDTHS: seq<nat> := [2, 2, 4, 4, 1, 1, 2, 2, 2]

  /** The words a parse starts from; a field that cannot be read leaves its word at zero. */
  const ZEROS: seq<nat> := [0, 0, 0, 0, 0, 0, 0, 0, 0]

  lemma WidthsTotal()
    ensures TotalWidth(WIDTHS) == 20
    ensures Pow256(1) == 0x100 && Pow256(2) == 0x1_0000 && Pow256(4) == 0x1_0000_0000
  {
    assert Pow256(0) == 1 && Pow256(3) == 256 * Pow256(2);
    assert TotalWidth([]) == 0;
    assert WIDTHS[1..] == [2, 4, 4, 1, 1, 2, 2, 2];
    assert [2, 4, 4, 1, 1, 2, 2, 2][1..] == [4, 4, 1, 1, 2, 2, 2];
    assert [4, 4, 1, 1, 2, 2, 2][1..] == [4, 1, 1, 2, 2, 2];
    assert [4, 1, 1, 2, 2, 2][1..] == [1, 1, 2, 2, 2];
    assert [1, 1, 2, 2, 2][1..] == [1, 2, 2, 2];
    assert [1, 2, 2, 2][1..] == [2, 2, 2];
    assert [2, 2, 2][1..] == [2, 2];
    assert [2, 2][1..] == [2];
    assert [2][1..] == [];
  }

  ghost predicate InRange(v: seq<nat>)
  {
    && |v| == 9 && v[0] < 0x1_0000 && v[1] < 0x1_0000 && v[2] < 0x1_0000_0000 && v[3] < 0x1_0000_0000
    && v[4] < 256 && v[5] < 256 && v[6] < 0x1_0000 && v[7] < 0x1_0000
  }

  function FromValues(v: seq<nat>, payload: seq<Byte>): Segment
    requires InRange(v)
  {
    var rst := v[5] / 4 % 2 == 1;
    Segment(
      TcpMessage(
        SenderMessage(v[2], v[5] / 2 % 2 == 1, payload, v[5] % 2 == 1, rst),
        ReceiverMessage(if v[5] / 16 % 2 == 1 then Some(v[3]) else None, v[6], rst)),
      v[0], v[1], v[7])
  }

  lemma ValuesInRange(b: seq<Byte>)
    requires |b| >= 20
    ensures TotalWidth(WIDTHS) == 20 && InRange(DecodeAll(b, WIDTHS))
  {
    hide DecodeAll, Pow256, TotalWidth;
    WidthsTotal();
    DecodedBound(b, WIDTHS, 0);
    DecodedBound(b, WIDTHS, 1);
    DecodedBound(b, WIDTHS, 2);
    DecodedBound(b, WIDTHS, 3);
    DecodedBound(b, WIDTHS, 4);
    DecodedBound(b, WIDTHS, 5);
    DecodedBound(b, WIDTHS, 6);
    DecodedBound(b, WIDTHS, 7);
  }

  ghost function Decoded(b: seq<Byte>): (v: seq<nat>)
    requires |b| >= 20
    ensures InRange(v)
  {
    ValuesInRange(b);
    DecodeAll(b, WIDTHS)
  }

  /** TCPSegment::parse: verify the checksum over everything, read the header, skip options. */
  ghost function ParseBytes(b: seq<Byte>, pseudo: nat): Option<Segment>
  {
    if ValueOf(Sum32(pseudo, b, false)) != 0 || |b| < 20 || Decoded(b)[4] / 16 < 5 then None
    else Some(FromValues(Decoded(b), Drop(b[20..], 4 * (Decoded(b)[4] / 16) - 20)))
  }

  lemma ParseMeaning(b: seq<Byte>, pseudo: nat)
    ensures ParseBytes(b, pseudo) ==
            if ValueOf(Sum32(pseudo, b, false)) != 0 || |b| < 20 || Decoded(b)[4] / 16 < 5 then None
            else Some(FromValues(Decoded(b), Drop(b[20..], 4 * (Decoded(b)[4] / 16) - 20)))
  {
  }

  lemma FieldsFit(s: Segment)
    ensures Fit(s.Fields(), WIDTHS) && |EncodeAll(s.Fields())| == 20
  {
    hide EncodeAll, DecodeAll, Pow256, TotalWidth;
    WidthsTotal();
    DecodeEncoded(s.Fields(), WIDTHS, []);
  }

  /** The checksum field is a whole word, so stamping it adds its value to the sum. */
  lemma StampSum(s: Segment)
    ensures SumOf(s.Bytes(), false) == SumOf(s.(cksum := 0).Bytes(), false) + s.cksum
  {
    var before, after := s.Fields()[..7], EncodeAll([Field(0, 2)]) + s.message.sender.payload;
    SplitAtChecksum(s);
    SplitAtChecksum(s.(cksum := 0));
    assert s.(cksum := 0).Fields()[..7] == before;
    SumAround(EncodeAll(before), s.cksum, after);
    SumAround(EncodeAll(before), 0, after);
  }

  lemma SplitAtChecksum(s: Segment)
    ensures |EncodeAll(s.Fields()[..7])| == 16
    ensures s.Bytes() == EncodeAll(s.Fields()[..7]) + Encoded(s.cksum, 2)
                         + (EncodeAll([Field(0, 2)]) + s.message.sender.payload)
  {
    hide Encoded;
    var before, tail := s.Fields()[..7], [Field(s.cksum, 2), Field(0, 2)];
    assert s.Fields() == before + tail;
    EncodeConcat(before, tail);
    FieldsFit(s);
    assert tail[1..] == [Field(0, 2)];
    assert EncodeAll([Field(0, 2)]) == Encoded(0, 2) + EncodeAll([]);
  }

  lemma FieldsBack(s: Segment, v: seq<nat>, payload: seq<Byte>)
    requires InRange(v) && payload == s.message.sender.payload
    requires forall i :: 0 <= i < 9 ==> v[i] == s.Fields()[i].val
    ensures FromValues(v, payload) == s.(message := s.message.SharedReset())
  {
    assert v[5] == s.Flags() && v[3] == s.Ackno() && v[2] == s.message.sender.seqno;
  }

  /** A stamped segment is accepted and read back, up to the shared RST flag. */
  lemma SegmentRoundTrip(s: Segment, pseudo: nat)
    requires s.Checked(pseudo) == s
    ensures ParseBytes(s.Bytes(), pseudo) == Some(s.(message := s.message.SharedReset()))
  {
    hide EncodeAll, DecodeAll, SumOf, ValueOf, TotalWidth, FromValues;
    var b, payload := s.Bytes(), s.message.sender.payload;
    FieldsFit(s);
    WidthsTotal();
    DecodeEncoded(s.Fields(), WIDTHS, payload);
    StampSum(s);
    var sum := pseudo + SumOf(s.(cksum := 0).Bytes(), false);
    AddModulo(sum, s.cksum);
    StampedIsZero(sum % 0x1_0000_0000);
    assert Decoded(b)[4] == 0x50;
    assert b[20..] == payload && payload[0..] == payload;
    FieldsBack(s, Decoded(b), payload);
  }

  lemma Offsets()
    ensures Offset(WIDTHS, 0) == 0 && Offset(WIDTHS, 1) == 2 && Offset(WIDTHS, 2) == 4 && Offset(WIDTHS, 3) == 8
    ensures Offset(WIDTHS, 4) == 12 && Offset(WIDTHS, 5) == 13 && Offset(WIDTHS, 6) == 14
    ensures Offset(WIDTHS, 7) == 16 && Offset(WIDTHS, 8) == 18
  {
    assert Offset(WIDTHS, 1) == Offset(WIDTHS, 0) + 2;
    assert Offset(WIDTHS, 2) == Offset(WIDTHS, 1) + 2;
    assert Offset(WIDTHS, 3) == Offset(WIDTHS, 2) + 4;
    assert Offset(WIDTHS, 4) == Offset(WIDTHS, 3) + 4;
    assert Offset(WIDTHS, 5) == Offset(WIDTHS, 4) + 1;
    assert Offset(WIDTHS, 6) == Offset(WIDTHS, 5) + 1;
    assert Offset(WIDTHS, 7) == Offset(WIDTHS, 6) + 2;
  }

  /** Where everything lies on the wire, most significant byte first: section 3.1 of RFC 9293. */
  lemma WireLayout(s: Segment)
    ensures var b, m := s.Bytes(), s.message;
            && |b| == 20 + |m.sender.payload| && b[20..] == m.sender.payload
            && Word(b[0], b[1]) == s.srcPort && Word(b[2], b[3]) == s.dstPort
            && Long(b[4], b[5], b[6], b[7]) == m.sender.seqno
            && Long(b[8], b[9], b[10], b[11]) == (if m.receiver.ackno.Some? then m.receiver.ackno.value else 0)
            && b[12] == 5 * 16
            && b[13] == (if m.receiver.ackno.Some? then 16 else 0) + (if m.sender.rst || m.receiver.rst then 4 else 0)
                        + (if m.sender.syn then 2 else 0) + (if m.sender.fin then 1 else 0)
            && Word(b[14], b[15]) == m.receiver.windowSize && Word(b[16], b[17]) == s.cksum
            && b[18] == 0 && b[19] == 0
  {
    hide EncodeAll, Number, Offset, Encoded, Word, Long;
    var b, payload := s.Bytes(), s.message.sender.payload;
    FieldsFit(s);
    Offsets();
    assert b[20..] == payload;
    FieldAt(s.Fields(), WIDTHS, 0, payload);
    FieldAt(s.Fields(), WIDTHS, 1, payload);
    FieldAt(s.Fields(), WIDTHS, 2, payload);
    FieldAt(s.Fields(), WIDTHS, 3, payload);
    FieldAt(s.Fields(), WIDTHS, 4, payload);
    FieldAt(s.Fields(), WIDTHS, 5, payload);
    FieldAt(s.Fields(), WIDTHS, 6, payload);
    FieldAt(s.Fields(), WIDTHS, 7, payload);
    FieldAt(s.Fields(), WIDTHS, 8, payload);
    ReadHeader(b);
    ZeroWord(b[18], b[19]);
  }

  lemma ZeroWord(high: Byte, low: Byte)
    ensures Word(high, low) == 0 ==> high == 0 && low == 0
  {
  }

  lemma ReadHeader(b: seq<Byte>)
    requires |b| >= 20
    ensures Number(b[0..2]) == Word(b[0], b[1]) && Number(b[2..4]) == Word(b[2], b[3])
    ensures Number(b[4..8]) == Long(b[4], b[5], b[6], b[7]) && Number(b[8..12]) == Long(b[8], b[9], b[10], b[11])
    ensures Number(b[12..13]) == b[12] && Number(b[13..14]) == b[13]
    ensures Number(b[14..16]) == Word(b[14], b[15]) && Number(b[16..18]) == Word(b[16], b[17])
    ensures Number(b[18..20]) == Word(b[18], b[19])
  {
    hide Number, Word, Long;
    ReadWord(b, 0);
    ReadWord(b, 2);
    ReadLong(b, 4);
    ReadLong(b, 8);
    ReadByte(b, 12);
    ReadByte(b, 13);
    ReadWord(b, 14);
    ReadWord(b, 16);
    ReadWord(b, 18);
  }

  lemma DecodedFields(b: seq<Byte>)
    requires |b| >= 20
    ensures var v := Decoded(b);
            && v[0] == Word(b[0], b[1]) && v[1] == Word(b[2], b[3])
            && v[2] == Long(b[4], b[5], b[6], b[7]) && v[3] == Long(b[8], b[9], b[10], b[11])
            && v[4] == b[12] && v[5] == b[13] && v[6] == Word(b[14], b[15]) && v[7] == Word(b[16], b[17])
  {
    hide DecodeAll, Number, Offset, Word, Long, TotalWidth, InRange;
    WidthsTotal();
    Offsets();
    DecodedAt(b, WIDTHS, 0);
    DecodedAt(b, WIDTHS, 1);
    DecodedAt(b, WIDTHS, 2);
    DecodedAt(b, WIDTHS, 3);
    DecodedAt(b, WIDTHS, 4);
    DecodedAt(b, WIDTHS, 5);
    DecodedAt(b, WIDTHS, 6);
    DecodedAt(b, WIDTHS, 7);
    ReadHeader(b);
  }

  /** A segment is accepted exactly if the words of the bytes and the pseudo-header sum to zero in
      one's complement, there are 20 bytes, and the header is at least that long; each part of
      what is read lies where section 3.1 of RFC 9293 puts it, and the payload behind the header. */
  lemma ParsedLayout(b: seq<Byte>, pseudo: nat)
    ensures ParseBytes(b, pseudo).Some? <==> ValueOf(Sum32(pseudo, b, false)) == 0 && |b| >= 20 && b[12] / 16 >= 5
    ensures ParseBytes(b, pseudo).Some? ==>
              var s, start := ParseBytes(b, pseudo).value, 4 * (b[12] / 16);
              var m := s.message;
              && s.srcPort == Word(b[0], b[1]) && s.dstPort == Word(b[2], b[3])
              && m.sender.seqno == Long(b[4], b[5], b[6], b[7])
              && m.receiver.ackno
                 == (if b[13] / 16 % 2 == 1 then Some(Long(b[8], b[9], b[10], b[11])) else None)
              && (m.sender.rst <==> b[13] / 4 % 2 == 1) && (m.receiver.rst <==> b[13] / 4 % 2 == 1)
              && (m.sender.syn <==> b[13] / 2 % 2 == 1) && (m.sender.fin <==> b[13] % 2 == 1)
              && m.receiver.windowSize == Word(b[14], b[15]) && s.cksum == Word(b[16], b[17])
              && m.sender.payload == (if start <= |b| then b[start..] else [])
  {
    hide Sum32, ValueOf, Word, Long, DecodeAll;
    if |b| >= 20 {
      DecodedFields(b);
      if b[12] / 16 >= 5 {
        BehindHeader(b, 4 * (b[12] / 16));
      }
    }
  }

  lemma BehindHeader(b: seq<Byte>, start: nat)
    requires 20 <= |b| && 20 <= start
    ensures Drop(b[20..], start - 20) == if start <= |b| then b[start..] else []
  {
    if start <= |b| {
      DropTwice(b, 20, start - 20);
    }
  }

  method Serialize(s: Segment, serializer: Serializer)
    requires serializer.Valid()
    modifies serializer
    ensures serializer.Valid() && serializer.Bytes() == old(serializer.Bytes()) + s.Bytes()
  {
    WriteFields(serializer, s.Fields());
    serializer.Buffer(s.message.sender.payload);
    Associative(old(serializer.Bytes()), EncodeAll(s.Fields()), s.message.sender.payload);
  }

  method ComputeChecksum(s: Segment, pseudo: U32) returns (r: Segment)
    ensures r == s.Checked(pseudo)
  {
    var zeroed := s.(cksum := 0);
    FieldsFit(zeroed);
    var serializer := new Serializer();
    Serialize(zeroed, serializer);
    assert serializer.Bytes() == zeroed.Bytes();
    var check := new InternetChecksum(pseudo);
    var chunks := serializer.Finish();
    check.AddAll(chunks);
    var v := check.Value();
    r := s.(cksum := v);
  }

  /** The bytes a parse looks at can be read one by one; it looks at none if the checksum fails. */
  ghost predicate Readable(chunks: seq<seq<Byte>>, pseudo: nat)
  {
    var b := Flatten(chunks);
    ValueOf(Sum32(pseudo, b, false)) == 0 ==> Reads(chunks, 0, Fetch(b, WIDTHS, ZEROS).length)
  }

  /** Parsing depends on the bytes only, not on how they are cut into chunks. */
  method Parse(chunks: seq<seq<Byte>>, pseudo: U32) returns (r: Option<Segment>)
    requires Readable(chunks, pseudo)
    ensures r == ParseBytes(Flatten(chunks), pseudo)
  {
    hide DecodeAll, Fetch, TotalWidth, Sum32, ValueOf, FromValues, Flatten, At, InRange, ParseBytes;
    hide Rest, Cursor, Reads;
    ghost var b := Flatten(chunks);
    ParseMeaning(b, pseudo);
    WholeRest(chunks);
    var input := new BufferList(chunks);
    var parser := new Parser(input);
    var check := new InternetChecksum(pseudo);
    var views := input.Views();
    check.AddAll(views);
    var v := check.Value();
    if v != 0 {
      return None;
    }
    WidthsTotal();
    var values := ReadFields(parser, WIDTHS, ZEROS);
    if parser.error {
      return None;
    }
    FetchAll(b, WIDTHS, ZEROS);
    ValuesInRange(b);
    var dataOffset := values[4] / 16;
    if dataOffset < 5 {
      return None;
    }
    input.RemovePrefix(4 * dataOffset - 20);
    var payload := parser.ConcatenateAllRemaining();
    return Some(FromValues(values, payload));
  }
}
