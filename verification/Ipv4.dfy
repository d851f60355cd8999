/** The IPv4 header and datagram: util/ipv4_header.cc, util/ipv4_datagram.hh. */
module Ipv4 {
  import opened Common
  import opened Buffers
  import opened Checksums

  datatype Header = Header(
    ver: nat, hlen: nat, tos: nat, len: nat, id: nat, df: bool, mf: bool, offset: nat,
    ttl: nat, proto: nat, cksum: nat, src: nat, dst: nat)
  {
    /** Every field is in the range of its type. */
    predicate Fits()
    {
      && ver < 16 && hlen < 16 && tos < 256 && len < 0x1_0000 && id < 0x1_0000 && offset < 0x2000
      && ttl < 256 && proto < 256 && cksum < 0x1_0000 && src < 0x1_0000_0000 && dst < 0x1_0000_0000
    }

    function FragmentWord(): nat
    {
      (if df then 0x4000 else 0) + (if mf then 0x2000 else 0) + offset % 0x2000
    }

    function Fields(): (f: seq<Field>)
      ensures |f| == 10
    {
      [Field(16 * ver + hlen % 16, 1), Field(tos, 1), Field(len, 2), Field(id, 2), Field(FragmentWord(), 2),
       Field(ttl, 1), Field(proto, 1), Field(cksum, 2), Field(src, 4), Field(dst, 4)]
    }

    ghost function Bytes(): seq<Byte> { EncodeAll(Fields()) }

    /** The length of the payload, in 16 bits. */
    function PayloadLength(): U16 { (len - 4 * hlen) % 0x1_0000 }

    /** The pseudo-header's contribution to the TCP checksum. */
    function PseudoChecksum(): nat
    {
      src / 0x1_0000 + src % 0x1_0000 + dst / 0x1_0000 + dst % 0x1_0000 + proto + PayloadLength()
    }

    /** The header with its checksum field set: the checksum of the header with that field zero. */
    ghost function Checked(): Header { this.(cksum := ValueOf(Sum32(0, this.(cksum := 0).Bytes(), false))) }
  }

  const WIDTHS: seq<nat> := [1, 1, 2, 2, 2, 1, 1, 2, 4, 4]

  function FromValues(v: seq<nat>): Header
    requires |v| == 10
  {
    Header(v[0] / 16, v[0] % 16, v[1], v[2], v[3], v[4] / 0x4000 % 2 == 1, v[4] / 0x2000 % 2 == 1, v[4] % 0x2000,
           v[5], v[6], v[7], v[8], v[9])
  }

  lemma WidthsTotal()
    ensures TotalWidth(WIDTHS) == 20
    ensures Pow256(1) == 0x100 && Pow256(2) == 0x1_0000 && Pow256(4) == 0x1_0000_0000
  {
    assert Pow256(0) == 1 && Pow256(3) == 256 * Pow256(2);
    assert TotalWidth([]) == 0;
    assert WIDTHS[1..] == [1, 2, 2, 2, 1, 1, 2, 4, 4];
    assert [1, 2, 2, 2, 1, 1, 2, 4, 4][1..] == [2, 2, 2, 1, 1, 2, 4, 4];
    assert [2, 2, 2, 1, 1, 2, 4, 4][1..] == [2, 2, 1, 1, 2, 4, 4];
    assert [2, 2, 1, 1, 2, 4, 4][1..] == [2, 1, 1, 2, 4, 4];
    assert [2, 1, 1, 2, 4, 4][1..] == [1, 1, 2, 4, 4];
    assert [1, 1, 2, 4, 4][1..] == [1, 2, 4, 4];
    assert [1, 2, 4, 4][1..] == [2, 4, 4];
    assert [2, 4, 4][1..] == [4, 4];
    assert [4, 4][1..] == [4];
    assert [4][1..] == [];
  }

  datatype ParsedHeader = ParsedHeader(header: Header, rest: seq<Byte>)

  /** The fields of a fresh header, in the order of reading; the words read first are zero. */
  const DEFAULTS: seq<nat> := [0, 0, 0, 0, 0, 128, PROTO_TCP, 0, 0, 0]

  const PROTO_TCP := 6

  /** The fields as far as there are bytes for them. */
  ghost function DecodeHeader(b: seq<Byte>): Header { FromValues(Fetch(b, WIDTHS, DEFAULTS).values) }

  /** The header is long enough, of version 4 and long enough by its own account. */
  ghost predicate Plausible(b: seq<Byte>)
  {
    |b| >= 20 && DecodeHeader(b).ver == 4 && DecodeHeader(b).hlen >= 5
  }

  /** How many bytes IPv4Header::parse consumes, if there are so many: the fields there are bytes
      for, and the options of a plausible header. */
  ghost function Consumed(b: seq<Byte>): nat
  {
    if Plausible(b) then 4 * DecodeHeader(b).hlen else Fetch(b, WIDTHS, DEFAULTS).length
  }

  /** IPv4Header::parse on the bytes at hand: the fields, the version and length checks, the
      options skipped, and the checksum recomputed from the fields. */
  ghost function ParseBytes(b: seq<Byte>): Option<ParsedHeader>
  {
    if !Plausible(b) || DecodeHeader(b).Checked().cksum != DecodeHeader(b).cksum then None
    else Some(ParsedHeader(DecodeHeader(b), Drop(b, Consumed(b))))
  }

  lemma DecodeLong(b: seq<Byte>)
    requires |b| >= 20
    ensures TotalWidth(WIDTHS) == 20 && Fetch(b, WIDTHS, DEFAULTS) == Fetched(DecodeAll(b, WIDTHS), 20)
    ensures DecodeHeader(b) == FromValues(DecodeAll(b, WIDTHS))
  {
    hide Fetch, DecodeAll;
    WidthsTotal();
    FetchAll(b, WIDTHS, DEFAULTS);
  }

  lemma FieldsFit(h: Header)
    requires h.Fits()
    ensures Fit(h.Fields(), WIDTHS) && |h.Bytes()| == 20
  {
    hide EncodeAll, DecodeAll, Pow256, TotalWidth;
    WidthsTotal();
    DecodeEncoded(h.Fields(), WIDTHS, []);
  }

  /** A serialized header with a correct checksum and no options is read back, whatever follows. */
  lemma HeaderRoundTrip(h: Header, rest: seq<Byte>)
    requires h.Fits() && h.ver == 4 && h.hlen == 5 && h.Checked() == h
    ensures ParseBytes(h.Bytes() + rest) == Some(ParsedHeader(h, rest))
  {
    hide Fetch, DecodeAll, EncodeAll, Header.Fields, Header.Checked;
    var b := h.Bytes() + rest;
    FieldsFit(h);
    WidthsTotal();
    DecodeEncoded(h.Fields(), WIDTHS, rest);
    DecodeLong(b);
    FieldsBack(h, DecodeAll(b, WIDTHS));
    assert b[20..] == rest;
  }

  lemma FieldsBack(h: Header, v: seq<nat>)
    requires h.Fits() && |v| == 10 && forall i :: 0 <= i < 10 ==> v[i] == h.Fields()[i].val
    ensures FromValues(v) == h
  {
    assert v[0] == 16 * h.ver + h.hlen && v[4] == h.FragmentWord();
  }

  lemma Offsets()
    ensures Offset(WIDTHS, 0) == 0 && Offset(WIDTHS, 1) == 1 && Offset(WIDTHS, 2) == 2 && Offset(WIDTHS, 3) == 4
    ensures Offset(WIDTHS, 4) == 6 && Offset(WIDTHS, 5) == 8 && Offset(WIDTHS, 6) == 9
    ensures Offset(WIDTHS, 7) == 10 && Offset(WIDTHS, 8) == 12 && Offset(WIDTHS, 9) == 16
  {
    assert Offset(WIDTHS, 1) == Offset(WIDTHS, 0) + 1;
    assert Offset(WIDTHS, 2) == Offset(WIDTHS, 1) + 1;
    assert Offset(WIDTHS, 3) == Offset(WIDTHS, 2) + 2;
    assert Offset(WIDTHS, 4) == Offset(WIDTHS, 3) + 2;
    assert Offset(WIDTHS, 5) == Offset(WIDTHS, 4) + 2;
    assert Offset(WIDTHS, 6) == Offset(WIDTHS, 5) + 1;
    assert Offset(WIDTHS, 7) == Offset(WIDTHS, 6) + 1;
    assert Offset(WIDTHS, 8) == Offset(WIDTHS, 7) + 2;
  }

  lemma ReadHeader(b: seq<Byte>)
    requires |b| >= 20
    ensures Number(b[0..1]) == b[0] && Number(b[1..2]) == b[1] && Number(b[2..4]) == Word(b[2], b[3])
    ensures Number(b[4..6]) == Word(b[4], b[5]) && Number(b[6..8]) == Word(b[6], b[7])
    ensures Number(b[8..9]) == b[8] && Number(b[9..10]) == b[9] && Number(b[10..12]) == Word(b[10], b[11])
    ensures Number(b[12..16]) == Long(b[12], b[13], b[14], b[15])
    ensures Number(b[16..20]) == Long(b[16], b[17], b[18], b[19])
  {
    hide Number, Word, Long;
    ReadByte(b, 0);
    ReadByte(b, 1);
    ReadWord(b, 2);
    ReadWord(b, 4);
    ReadWord(b, 6);
    ReadByte(b, 8);
    ReadByte(b, 9);
    ReadWord(b, 10);
    ReadLong(b, 12);
    ReadLong(b, 16);
  }

  /** The bits of the word with the flags: bit 15 unused, then DF, then MF, then the offset. */
  lemma FragmentBits(high: Byte, low: Byte)
    ensures Word(high, low) / 0x4000 % 2 == high / 64 % 2 && Word(high, low) / 0x2000 % 2 == high / 32 % 2
    ensures Word(high, low) % 0x2000 == Word(high % 32, low)
  {
    var q, r := high / 32, high % 32;
    assert high == 32 * q + r && Word(high, low) == 0x2000 * q + Word(r, low) && Word(r, low) < 0x2000;
    assert Word(high, low) / 0x2000 == q && Word(high, low) % 0x2000 == Word(r, low);
    assert Word(high, low) / 0x4000 == q / 2 && high / 64 == q / 2;
  }

  lemma FragmentFlags(h: Header, high: Byte, low: Byte)
    requires h.Fits() && Word(high, low) == h.FragmentWord()
    ensures (high / 128 == 0) && (h.df <==> high / 64 % 2 == 1) && (h.mf <==> high / 32 % 2 == 1)
    ensures h.offset == Word(high % 32, low)
  {
    FragmentBits(high, low);
    FlagBits(h);
    hide Header.FragmentWord;
    assert high >= 128 ==> Word(high, low) >= 0x8000;
  }

  lemma FlagBits(h: Header)
    requires h.Fits()
    ensures var w := h.FragmentWord();
            w < 0x8000 && w / 0x4000 % 2 == (if h.df then 1 else 0) && w / 0x2000 % 2 == (if h.mf then 1 else 0)
            && w % 0x2000 == h.offset
  {
  }

  /** Where everything lies on the wire, most significant byte first: section 3.1 of RFC 791. */
  lemma WireLayout(h: Header, rest: seq<Byte>)
    requires h.Fits()
    ensures var b := h.Bytes() + rest;
            && |h.Bytes()| == 20 && b[20..] == rest
            && b[0] == 16 * h.ver + h.hlen && b[1] == h.tos
            && Word(b[2], b[3]) == h.len && Word(b[4], b[5]) == h.id
            && b[6] / 128 == 0 && (h.df <==> b[6] / 64 % 2 == 1) && (h.mf <==> b[6] / 32 % 2 == 1)
            && h.offset == Word(b[6] % 32, b[7])
            && b[8] == h.ttl && b[9] == h.proto && Word(b[10], b[11]) == h.cksum
            && Long(b[12], b[13], b[14], b[15]) == h.src && Long(b[16], b[17], b[18], b[19]) == h.dst
  {
    hide EncodeAll, Number, Offset, Encoded, Word, Long, Header.FragmentWord;
    var b := h.Bytes() + rest;
    FieldsFit(h);
    Offsets();
    assert b[20..] == rest;
    FieldAt(h.Fields(), WIDTHS, 0, rest);
    FieldAt(h.Fields(), WIDTHS, 1, rest);
    FieldAt(h.Fields(), WIDTHS, 2, rest);
    FieldAt(h.Fields(), WIDTHS, 3, rest);
    FieldAt(h.Fields(), WIDTHS, 4, rest);
    FieldAt(h.Fields(), WIDTHS, 5, rest);
    FieldAt(h.Fields(), WIDTHS, 6, rest);
    FieldAt(h.Fields(), WIDTHS, 7, rest);
    FieldAt(h.Fields(), WIDTHS, 8, rest);
    FieldAt(h.Fields(), WIDTHS, 9, rest);
    ReadHeader(b);
    FragmentFlags(h, b[6], b[7]);
  }

  lemma DecodedFields(b: seq<Byte>)
    requires |b| >= 20
    ensures var v := Fetch(b, WIDTHS, DEFAULTS).values;
            && v[0] == b[0] && v[1] == b[1] && v[2] == Word(b[2], b[3]) && v[3] == Word(b[4], b[5])
            && v[4] == Word(b[6], b[7]) && v[5] == b[8] && v[6] == b[9] && v[7] == Word(b[10], b[11])
            && v[8] == Long(b[12], b[13], b[14], b[15]) && v[9] == Long(b[16], b[17], b[18], b[19])
  {
    hide DecodeAll, Fetch, Number, Offset, Word, Long, TotalWidth;
    DecodeLong(b);
    Offsets();
    DecodedAt(b, WIDTHS, 0);
    DecodedAt(b, WIDTHS, 1);
    DecodedAt(b, WIDTHS, 2);
    DecodedAt(b, WIDTHS, 3);
    DecodedAt(b, WIDTHS, 4);
    DecodedAt(b, WIDTHS, 5);
    DecodedAt(b, WIDTHS, 6);
    DecodedAt(b, WIDTHS, 7);
    DecodedAt(b, WIDTHS, 8);
    DecodedAt(b, WIDTHS, 9);
    ReadHeader(b);
  }

  /** Each part of an accepted header lies where section 3.1 of RFC 791 puts it, and what is carried
      lies behind the header. */
  lemma ParsedLayout(b: seq<Byte>)
    requires ParseBytes(b).Some?
    ensures var h, rest := ParseBytes(b).value.header, ParseBytes(b).value.rest;
            && |b| >= 20 && h.ver == b[0] / 16 == 4 && h.hlen == b[0] % 16 >= 5 && h.tos == b[1]
            && h.len == Word(b[2], b[3]) && h.id == Word(b[4], b[5])
            && (h.df <==> b[6] / 64 % 2 == 1) && (h.mf <==> b[6] / 32 % 2 == 1)
            && h.offset == Word(b[6] % 32, b[7])
            && h.ttl == b[8] && h.proto == b[9] && h.cksum == Word(b[10], b[11])
            && h.src == Long(b[12], b[13], b[14], b[15]) && h.dst == Long(b[16], b[17], b[18], b[19])
            && rest == (if 4 * h.hlen <= |b| then b[4 * h.hlen..] else [])
  {
    hide Fetch, Word, Long, Header.Checked;
    DecodedFields(b);
    FragmentBits(b[6], b[7]);
  }

  /** What the checksum of a header says: the ten words of its bytes, the checksum included, sum to
      zero in one's complement, and the checksum is the smaller of the two that achieve it. */
  lemma ChecksumMeaning(h: Header)
    requires h.Fits() && h.ver == 4
    ensures h.Checked() == h <==> ValueOf(SumOf(h.Bytes(), false)) == 0 && h.cksum != 0xffff
  {
    hide EncodeAll, SumOf, ValueOf;
    var zeroed := h.(cksum := 0);
    FieldsFit(zeroed);
    FieldsFit(h);
    SumBound(zeroed.Bytes(), false);
    StampSum(h);
    FirstWord(zeroed);
    ChecksumUnique(SumOf(zeroed.Bytes(), false), h.cksum);
  }

  lemma FirstWord(h: Header)
    requires h.Fits() && h.ver == 4
    ensures SumOf(h.Bytes(), false) > 0
  {
    hide EncodeAll, Number, Encoded, Word, Long;
    WireLayout(h, []);
    assert h.Bytes() + [] == h.Bytes();
  }

  /** Of the values that complete a positive sum to zero all but 0xffff are the checksum. */
  lemma ChecksumUnique(sum: nat, c: U16)
    requires 0 < sum
    ensures ValueOf(sum + c) == 0 && c != 0xffff <==> c == ValueOf(sum)
  {
    var q, r := (sum - 1) / 65535, (sum - 1) % 65535;
    assert sum - 1 == 65535 * q + r && ValueOf(sum) == 65534 - r;
    if r + c < 65535 {
      Residue(sum + c - 1, q, r + c);
    } else if r + c < 131070 {
      Residue(sum + c - 1, q + 1, r + c - 65535);
    }
  }

  /** The checksum field is a whole word of the sum. */
  lemma StampSum(h: Header)
    requires h.Fits()
    ensures SumOf(h.Bytes(), false) == SumOf(h.(cksum := 0).Bytes(), false) + h.cksum
  {
    hide EncodeAll, SumOf, Encoded;
    SplitAtChecksum(h);
    SplitAtChecksum(h.(cksum := 0));
    var before, after := h.Fields()[..7], EncodeAll(h.Fields()[8..]);
    assert h.(cksum := 0).Fields()[..7] == before && h.(cksum := 0).Fields()[8..] == h.Fields()[8..];
    SumAround(EncodeAll(before), h.cksum, after);
    SumAround(EncodeAll(before), 0, after);
  }

  lemma SplitAtChecksum(h: Header)
    requires h.Fits()
    ensures |EncodeAll(h.Fields()[..7])| == 10
    ensures h.Bytes() == EncodeAll(h.Fields()[..7]) + Encoded(h.cksum, 2) + EncodeAll(h.Fields()[8..])
  {
    hide Encoded, Header.FragmentWord;
    var f := h.Fields();
    assert f == f[..7] + ([f[7]] + f[8..]);
    EncodeConcat(f[..7], [f[7]] + f[8..]);
    EncodeConcat([f[7]], f[8..]);
    EncodeOne(f[7]);
    Associative(EncodeAll(f[..7]), Encoded(h.cksum, 2), EncodeAll(f[8..]));
    FieldsFit(h);
    assert f[8..] == [f[8]] + [f[9]];
    EncodeConcat([f[8]], [f[9]]);
    EncodeOne(f[8]);
    EncodeOne(f[9]);
  }

  /** The announced payload is what the total length leaves behind the header, in 16 bits. */
  lemma PayloadLengthMeaning(h: Header)
    requires h.Fits()
    ensures h.PayloadLength() == if 4 * h.hlen <= h.len then h.len - 4 * h.hlen else h.len + 0x1_0000 - 4 * h.hlen
  {
  }

  /** The pseudo-header counts like its twelve bytes: both addresses, a zero byte, the protocol and
      the payload length (section 3.1 of RFC 9293). */
  lemma PseudoMeaning(h: Header, b: seq<Byte>)
    requires h.Fits() && |b| == 12
    requires Long(b[0], b[1], b[2], b[3]) == h.src && Long(b[4], b[5], b[6], b[7]) == h.dst
    requires b[8] == 0 && b[9] == h.proto && Word(b[10], b[11]) == h.PayloadLength()
    ensures h.PseudoChecksum() == SumOf(b, false)
  {
    TwelveBytes(b);
    LongHalves(b[0], b[1], b[2], b[3]);
    LongHalves(b[4], b[5], b[6], b[7]);
  }

  lemma LongHalves(a: Byte, b: Byte, c: Byte, d: Byte)
    ensures Long(a, b, c, d) / 0x1_0000 == Word(a, b) && Long(a, b, c, d) % 0x1_0000 == Word(c, d)
  {
    assert Long(a, b, c, d) == 0x1_0000 * Word(a, b) + Word(c, d) && 0 <= Word(c, d) < 0x1_0000;
  }

  lemma TwelveBytes(b: seq<Byte>)
    requires |b| == 12
    ensures SumOf(b, false) == Word(b[0], b[1]) + Word(b[2], b[3]) + Word(b[4], b[5]) + Word(b[6], b[7])
                               + Word(b[8], b[9]) + Word(b[10], b[11])
  {
    NextWord(b, 0);
    NextWord(b, 2);
    NextWord(b, 4);
    NextWord(b, 6);
    NextWord(b, 8);
    NextWord(b, 10);
    assert b[0..] == b && SumOf(b[12..], false) == 0;
  }

  lemma NextWord(b: seq<Byte>, i: nat)
    requires i + 2 <= |b|
    ensures SumOf(b[i..], false) == Word(b[i], b[i + 1]) + SumOf(b[i + 2..], false)
  {
    assert b[i..][1..] == b[i + 1..] && b[i + 1..][1..] == b[i + 2..];
  }

  method Serialize(h: Header, serializer: Serializer)
    requires h.ver == 4 && serializer.Valid()
    modifies serializer
    ensures serializer.Valid() && serializer.Bytes() == old(serializer.Bytes()) + h.Bytes()
  {
    WriteFields(serializer, h.Fields());
  }

  method ComputeChecksum(h: Header) returns (r: Header)
    requires h.ver == 4 && h.Fits()
    ensures r == h.Checked()
  {
    var zeroed := h.(cksum := 0);
    FieldsFit(zeroed);
    var s := new Serializer();
    Serialize(zeroed, s);
    assert s.Bytes() == zeroed.Bytes();
    var check := new InternetChecksum(0);
    var chunks := s.Finish();
    check.AddAll(chunks);
    var v := check.Value();
    r := h.(cksum := v);
  }

  /** A rejected header keeps its fields and the position behind what was read. */
  method Parse(parser: Parser) returns (h: Header)
    requires parser.Valid() && !parser.error
    requires Reads(parser.input.buffer, parser.input.skip, Fetch(parser.input.Contents(), WIDTHS, DEFAULTS).length)
    modifies parser, parser.input
    ensures parser.Valid()
    ensures parser.error <==> ParseBytes(old(parser.input.Contents())).None?
    ensures var b := old(parser.input.Contents());
            && h == (if Plausible(b) then DecodeHeader(b).Checked() else DecodeHeader(b))
            && parser.input.Contents() == Drop(b, Consumed(b))
            && (parser.input.buffer, parser.input.skip)
               == At(old(parser.input.buffer), old(parser.input.skip) + Consumed(b))
  {
    hide Fetch, DecodeAll, TotalWidth, Cursor, Rest, At, FromValues, Header.Fits, Header.Checked, Reads;
    ghost var b, buffer, skip := parser.input.Contents(), parser.input.buffer, parser.input.skip;
    WidthsTotal();
    var v := ReadFields(parser, WIDTHS, DEFAULTS);
    h := FromValues(v);
    if h.ver != 4 {
      parser.SetError();
    }
    if h.hlen < 5 {
      parser.SetError();
    }
    if parser.error {
      return;
    }
    DecodeLong(b);
    ValuesFit(b);
    DropTwice(b, 20, Min(4 * h.hlen - 20, |b| - 20));
    AtAt(buffer, skip + 20, 4 * h.hlen - 20);
    parser.input.RemovePrefix(4 * h.hlen - 20);
    var given := h.cksum;
    h := ComputeChecksum(h);
    if h.cksum != given {
      parser.SetError();
    }
  }

  lemma ValuesFit(b: seq<Byte>)
    requires |b| >= 20
    ensures DecodeHeader(b).Fits()
  {
    hide Fetch, DecodeAll, Pow256, TotalWidth;
    WidthsTotal();
    DecodeLong(b);
    var v := DecodeAll(b, WIDTHS);
    DecodedBound(b, WIDTHS, 0);
    DecodedBound(b, WIDTHS, 1);
    DecodedBound(b, WIDTHS, 2);
    DecodedBound(b, WIDTHS, 3);
    DecodedBound(b, WIDTHS, 5);
    DecodedBound(b, WIDTHS, 6);
    DecodedBound(b, WIDTHS, 7);
    DecodedBound(b, WIDTHS, 8);
    DecodedBound(b, WIDTHS, 9);
  }

  /** A header and the bytes it carries. */
  datatype Datagram = Datagram(header: Header, payload: seq<Byte>)
  {
    ghost function Bytes(): seq<Byte> { header.Bytes() + payload }
  }

  /** What parsing a datagram comes to. The payload of an accepted one is still a chain of
      chunks; `Undefined` stands for taking the front of an empty list. */
  datatype Outcome = Accepted(header: Header, payload: seq<seq<Byte>>) | Rejected | Undefined

  /** What truncation to the announced length should leave: as many bytes as announced, or all
      of a shorter rest. */
  ghost function Announced(p: ParsedHeader): seq<Byte>
  {
    p.rest[..Min(p.header.PayloadLength(), |p.rest|)]
  }

  /** The bytes beyond an announced payload start within the first chunk behind the header:
      truncation then erases every chunk, while the size stays positive. */
  ghost predicate Emptied(chunks: seq<seq<Byte>>)
  {
    var b := Flatten(chunks);
    var length, left := DecodeHeader(b).PayloadLength(), At(chunks, Consumed(b)).0;
    0 < length < |Drop(b, Consumed(b))| && KeptChunks(left, length) == 0
  }

  /** IPv4Datagram::parse, over any chunking. Rejected headers are truncated and dumped like
      accepted ones. The payload is right exactly when nothing is left beyond the announced
      length, none is announced, or both the header and the announced payload end where a chunk
      does. */
  method ParseDatagram(chunks: seq<seq<Byte>>) returns (r: Outcome)
    requires Reads(chunks, 0, Fetch(Flatten(chunks), WIDTHS, DEFAULTS).length)
    ensures r.Undefined? <==> Emptied(chunks)
    ensures r.Rejected? <==> !Emptied(chunks) && ParseBytes(Flatten(chunks)).None?
    ensures ParseBytes(Flatten(chunks)).Some? ==>
              var p := ParseBytes(Flatten(chunks)).value;
              var length, start := p.header.PayloadLength(), 4 * p.header.hlen;
              && (r.Accepted? ==> r.header == p.header)
              && (r.Accepted? && Flatten(r.payload) == Announced(p)
                  <==> || |p.rest| <= length || length == 0
                       || (OnBoundary(chunks, start) && OnBoundary(chunks, start + length)))
              && (|p.rest| <= length ==>
                    r.Accepted? && Announced(p) == p.rest && (NonEmptyChunks(chunks) ==> NonEmptyChunks(r.payload)))
  {
    hide ParseBytes, At, Header.PayloadLength, OnBoundary, NonEmptyChunks, Fetch, Plausible, Consumed, Emptied, KeptBy;
    var input := new BufferList(chunks);
    var parser := new Parser(input);
    WholeRest(chunks);
    var h := Parse(parser);
    ghost var b, buffer, skip, length := Flatten(chunks), input.buffer, input.skip, h.PayloadLength();
    ParsedLength(b, h);
    TruncatedEmpty(chunks, buffer, skip, length);
    if ParseBytes(b).Some? {
      TruncatedRight(chunks, buffer, skip, ParseBytes(b).value);
      AllAnnounced(ParseBytes(b).value);
    }
    if NonEmptyChunks(chunks) {
      NonEmptyReads(chunks, Consumed(b));
    }
    hide Cursor, Rest, Drop, Announced;
    var payload := TruncateAndDump(input, h.PayloadLength());
    if payload.None? {
      return Undefined;
    }
    return if parser.error then Rejected else Accepted(h, payload.value);
  }

  lemma AllAnnounced(p: ParsedHeader)
    ensures |p.rest| <= p.header.PayloadLength() ==> Announced(p) == p.rest
  {
  }

  /** Parser::truncate and Parser::all_remaining; `None` if there is no front chunk to take. */
  method TruncateAndDump(input: BufferList, len: nat) returns (payload: Option<seq<seq<Byte>>>)
    requires input.Valid()
    modifies input
    ensures payload.Some? <==> KeptBy(old(input.buffer), old(input.skip), len).Some?
    ensures payload.Some? ==> Some(Flatten(payload.value)) == KeptBy(old(input.buffer), old(input.skip), len)
    ensures |old(input.Contents())| <= len ==>
              payload.Some? && (NonEmptyChunks(old(input.buffer)) ==> NonEmptyChunks(payload.value))
  {
    hide KeptBy, NonEmptyChunks, Flatten;
    FrontKept(input.buffer, input.skip, len);
    KeptAll(input.buffer, input.skip, len);
    input.Truncate(len);
    if input.size != 0 && input.buffer == [] {
      return None;
    }
    var chunks := input.DumpAll();
    NothingFlat();
    return Some(chunks);
  }

  lemma NothingFlat()
    ensures Flatten([]) == []
  {
  }

  lemma KeptAll(buffer: seq<seq<Byte>>, skip: nat, len: nat)
    requires Cursor(buffer, skip)
    ensures |Rest(buffer, skip)| <= len ==> KeptBy(buffer, skip, len) == Some(Rest(buffer, skip))
  {
  }

  /** Recomputing the checksum changes neither the length announced nor an accepted header. */
  lemma ParsedLength(b: seq<Byte>, h: Header)
    requires h == if Plausible(b) then DecodeHeader(b).Checked() else DecodeHeader(b)
    ensures h.PayloadLength() == DecodeHeader(b).PayloadLength()
    ensures ParseBytes(b).Some? ==> ParseBytes(b).value == ParsedHeader(h, Drop(b, Consumed(b)))
    ensures ParseBytes(b).Some? ==> Consumed(b) == 4 * h.hlen
  {
    hide Fetch, EncodeAll, Sum32, ValueOf;
  }

  lemma FrontKept(buffer: seq<seq<Byte>>, skip: nat, len: nat)
    requires Cursor(buffer, skip)
    ensures Rest(buffer, skip) != [] ==> buffer != [] && skip <= |buffer[0]|
    ensures var kept := buffer[..KeptChunks(buffer, len)];
            kept != [] ==> skip <= |kept[0]|
  {
    KeptFits(buffer, skip, len);
  }

  lemma TruncatedEmpty(chunks: seq<seq<Byte>>, buffer: seq<seq<Byte>>, skip: nat, length: nat)
    requires (buffer, skip) == At(chunks, Consumed(Flatten(chunks))) && Cursor(buffer, skip)
    requires Rest(buffer, skip) == Drop(Flatten(chunks), Consumed(Flatten(chunks)))
    requires length == DecodeHeader(Flatten(chunks)).PayloadLength()
    ensures Emptied(chunks) <==> KeptBy(buffer, skip, length).None?
  {
    hide Fetch, Plausible, Header.PayloadLength;
  }

  /** When truncation behind the header of a datagram keeps what was announced. */
  lemma TruncatedRight(chunks: seq<seq<Byte>>, buffer: seq<seq<Byte>>, skip: nat, p: ParsedHeader)
    requires ParseBytes(Flatten(chunks)) == Some(p)
    requires (buffer, skip) == At(chunks, 4 * p.header.hlen)
    requires Cursor(buffer, skip) && Rest(buffer, skip) == p.rest
    ensures var length, start := p.header.PayloadLength(), 4 * p.header.hlen;
            KeptBy(buffer, skip, length) == Some(Announced(p))
            <==> || |p.rest| <= length || length == 0
                 || (OnBoundary(chunks, start) && OnBoundary(chunks, start + length))
  {
    hide OnBoundary, At, Header.PayloadLength, Header.Checked, KeptBy, Fetch;
    TruncateExact(buffer, skip, p.header.PayloadLength());
    if p.rest != [] {
      AtBoundary(chunks, 4 * p.header.hlen, p.header.PayloadLength());
    }
  }

  /** A padded datagram that arrives in one chunk, as from the network, leaves no chunk to dump,
      whether its header is accepted or not: cut at the announced length, the only chunk is
      erased, while the size stays positive. */
  lemma PaddedChunkIsErased(b: seq<Byte>)
    requires 0 < DecodeHeader(b).PayloadLength() < |Drop(b, Consumed(b))|
    ensures Flatten([b]) == b && Emptied([b])
  {
    hide Consumed, DecodeHeader, Header.PayloadLength;
    assert Flatten([b]) == b + Flatten([]);
    var pos := Consumed(b);
    assert At([b], pos).0 == [b];
  }
}
