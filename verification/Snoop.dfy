/** The HCI snoop log parser (tools/parse_snoop.py) and the encoders it inverts. */
module Snoop {
  import opened Bytes
  import opened Common

  // ---------------------------------------------------------------- btsnoop records

  const MAGIC: seq<byte> := [0x62, 0x74, 0x73, 0x6E, 0x6F, 0x6F, 0x70, 0x00]
  const FILE_HEADER := 16
  const RECORD_HEADER := 24

  datatype Record = Record(flags: nat, packet: seq<byte>)

  /** The records from offset `off` on: stop at the first header or packet that does not fit. */
  function RecordsFrom(data: seq<byte>, off: nat): seq<Record>
    decreases |data| - off
  {
    if off + RECORD_HEADER > |data| then []
    else
      var inclLen := FromBigEndian(data[off + 4..off + 8]);
      var flags := FromBigEndian(data[off + 8..off + 12]);
      var at := off + RECORD_HEADER;
      if at + inclLen > |data| then []
      else [Record(flags, data[at..at + inclLen])] + RecordsFrom(data, at + inclLen)
  }

  /** None stands for the ValueError on a bad magic number. */
  function Records(data: seq<byte>): Option<seq<Record>> {
    if MAGIC <= data then Some(RecordsFrom(data, FILE_HEADER)) else None
  }

  method IterRecords(data: seq<byte>) returns (r: Option<seq<Record>>)
    ensures r == Records(data)
  {
    hide FromBigEndian;
    if !(MAGIC <= data) {
      return None;
    }
    var out := [];
    var off := 16;
    var n := |data|;
    while off + 24 <= n
      invariant 0 <= off
      invariant out + RecordsFrom(data, off) == RecordsFrom(data, FILE_HEADER)
      decreases n - off
    {
      var inclLen := FromBigEndian(data[off + 4..off + 8]);
      var flags := FromBigEndian(data[off + 8..off + 12]);
      if off + 24 + inclLen > n {
        assert RecordsFrom(data, off) == [];
        break;
      }
      ghost var before := RecordsFrom(data, off);
      off := off + 24;
      out := out + [Record(flags, data[off..off + inclLen])];
      off := off + inclLen;
      assert before == [Record(flags, data[off - inclLen..off])] + RecordsFrom(data, off);
    }
    assert RecordsFrom(data, off) == [] && out + [] == out;
    return Some(out);
  }

  /** A captured packet with the header fields the parser ignores. */
  datatype Capture = Capture(origLen: nat, flags: nat, drops: nat, timestamp: seq<byte>, packet: seq<byte>)

  predicate Encodable(c: Capture) {
    |c.packet| < 0x1_0000_0000 && c.flags < 0x1_0000_0000 && |c.timestamp| == 8
  }

  function EncodeCapture(c: Capture): seq<byte> {
    BigEndian(c.origLen, 4) + BigEndian(|c.packet|, 4) + BigEndian(c.flags, 4) +
    BigEndian(c.drops, 4) + c.timestamp + c.packet
  }

  function EncodeAll(cs: seq<Capture>): seq<byte> {
    if cs == [] then [] else EncodeCapture(cs[0]) + EncodeAll(cs[1..])
  }

  function RecordsOf(cs: seq<Capture>): seq<Record> {
    if cs == [] then [] else [Record(cs[0].flags, cs[0].packet)] + RecordsOf(cs[1..])
  }

  lemma CaptureAt(data: seq<byte>, off: nat, c: Capture, rest: seq<byte>)
    requires Encodable(c) && off <= |data| && data[off..] == EncodeCapture(c) + rest
    ensures RecordsFrom(data, off) ==
      [Record(c.flags, c.packet)] + RecordsFrom(data, off + RECORD_HEADER + |c.packet|)
    ensures off + RECORD_HEADER + |c.packet| <= |data|
    ensures data[off + RECORD_HEADER + |c.packet|..] == rest
  {
    hide FromBigEndian, BigEndian;
    var e := EncodeCapture(c);
    assert e[4..8] == BigEndian(|c.packet|, 4) && e[8..12] == BigEndian(c.flags, 4);
    var tail := data[off..];
    assert |tail| == RECORD_HEADER + |c.packet| + |rest|;
    assert data[off + 4..off + 8] == tail[4..8] == e[4..8];
    assert data[off + 8..off + 12] == tail[8..12] == e[8..12];
    Pow256Widths();
    BigEndianRoundTrip(|c.packet|, 4);
    BigEndianRoundTrip(c.flags, 4);
    var at := off + RECORD_HEADER;
    assert data[at..at + |c.packet|] == tail[24..24 + |c.packet|] == c.packet;
    assert data[at + |c.packet|..] == tail[24 + |c.packet|..] == rest;
  }

  lemma {:induction false} RecordsOfEncoding(data: seq<byte>, off: nat, cs: seq<Capture>)
    requires forall i :: 0 <= i < |cs| ==> Encodable(cs[i])
    requires off <= |data| && data[off..] == EncodeAll(cs)
    ensures RecordsFrom(data, off) == RecordsOf(cs)
    decreases |cs|
  {
    hide EncodeCapture, FromBigEndian;
    if cs == [] {
    } else {
      CaptureAt(data, off, cs[0], EncodeAll(cs[1..]));
      RecordsOfEncoding(data, off + RECORD_HEADER + |cs[0].packet|, cs[1..]);
    }
  }

  /** Parsing inverts encoding: a capture file yields exactly the records written to it. */
  lemma ParsingInvertsEncoding(versionAndLink: seq<byte>, cs: seq<Capture>)
    requires |versionAndLink| == 8
    requires forall i :: 0 <= i < |cs| ==> Encodable(cs[i])
    ensures Records(MAGIC + versionAndLink + EncodeAll(cs)) == Some(RecordsOf(cs))
  {
    var data := MAGIC + versionAndLink + EncodeAll(cs);
    assert MAGIC <= data;
    assert data[FILE_HEADER..] == EncodeAll(cs);
    RecordsOfEncoding(data, FILE_HEADER, cs);
  }

  lemma {:induction false} RecordsFromExtension(data: seq<byte>, more: seq<byte>, off: nat)
    ensures RecordsFrom(data, off) <= RecordsFrom(data + more, off)
    decreases |data| - off
  {
    if off + RECORD_HEADER <= |data| {
      assert (data + more)[off + 4..off + 8] == data[off + 4..off + 8];
      assert (data + more)[off + 8..off + 12] == data[off + 8..off + 12];
      var next := off + RECORD_HEADER + FromBigEndian(data[off + 4..off + 8]);
      if next <= |data| {
        assert (data + more)[off + RECORD_HEADER..next] == data[off + RECORD_HEADER..next];
        RecordsFromExtension(data, more, next);
      }
    }
  }

  /** A capture cut short anywhere after its magic number yields a prefix of the records. */
  lemma TruncationYieldsPrefix(data: seq<byte>, more: seq<byte>)
    requires Records(data).Some?
    ensures Records(data + more).Some? && Records(data).value <= Records(data + more).value
  {
    RecordsFromExtension(data, more, FILE_HEADER);
  }

  /** A file is read exactly when it starts with the text "btsnoop" and a zero byte. */
  lemma ReadableIff(data: seq<byte>)
    ensures Records(data).Some? <==>
      |data| >= 8 && data[7] == 0 && forall i :: 0 <= i < 7 ==> data[i] == "btsnoop"[i] as int
  {
    var text := "btsnoop";
    assert |MAGIC| == 8 && MAGIC[7] == 0 && forall i :: 0 <= i < 7 ==> MAGIC[i] == text[i] as int;
    assert |data| >= 8 ==> (MAGIC <= data <==> forall i :: 0 <= i < 8 ==> MAGIC[i] == data[i]);
  }

  lemma CutRecordStops(data: seq<byte>, off: nat, c: Capture, j: nat)
    requires Encodable(c) && j < |EncodeCapture(c)| && off <= |data| && data[off..] == EncodeCapture(c)[..j]
    ensures RecordsFrom(data, off) == []
  {
    if off + RECORD_HEADER <= |data| {
      hide FromBigEndian, BigEndian;
      assert data[off + 4..off + 8] == data[off..][4..8] == EncodeCapture(c)[4..8] == BigEndian(|c.packet|, 4);
      Pow256Widths();
      BigEndianRoundTrip(|c.packet|, 4);
    }
  }

  /** A capture cut inside a record yields exactly the records before it. */
  lemma {:induction false} CutYieldsRecordsBefore(data: seq<byte>, off: nat, cs: seq<Capture>, c: Capture, j: nat)
    requires Encodable(c) && forall i :: 0 <= i < |cs| ==> Encodable(cs[i])
    requires j < |EncodeCapture(c)| && off <= |data| && data[off..] == EncodeAll(cs) + EncodeCapture(c)[..j]
    ensures RecordsFrom(data, off) == RecordsOf(cs)
    decreases |cs|
  {
    hide EncodeCapture, FromBigEndian;
    if cs == [] {
      assert [] + EncodeCapture(c)[..j] == EncodeCapture(c)[..j];
      CutRecordStops(data, off, c, j);
    } else {
      var rest := EncodeAll(cs[1..]) + EncodeCapture(c)[..j];
      assert data[off..] == EncodeCapture(cs[0]) + rest;
      CaptureAt(data, off, cs[0], rest);
      CutYieldsRecordsBefore(data, off + RECORD_HEADER + |cs[0].packet|, cs[1..], c, j);
    }
  }

  // ---------------------------------------------------------------- ATT writes

  datatype Opcode = WriteReq | WriteCmd | PrepareWriteReq | SignedWriteCmd

  function OpcodeOf(b: byte): Option<Opcode> {
    if b == 0x12 then Some(WriteReq)
    else if b == 0x52 then Some(WriteCmd)
    else if b == 0x16 then Some(PrepareWriteReq)
    else if b == 0xD2 then Some(SignedWriteCmd)
    else None
  }

  function OpcodeByte(op: Opcode): byte {
    match op
    case WriteReq => 0x12
    case WriteCmd => 0x52
    case PrepareWriteReq => 0x16
    case SignedWriteCmd => 0xD2
  }

  datatype GattWrite = GattWrite(opcode: Opcode, handle: nat, payload: seq<byte>)

  /** A Python slice `b[lo:hi]` with non-negative bounds. */
  function Slice(b: seq<byte>, lo: nat, hi: nat): seq<byte> {
    if lo >= |b| || hi <= lo then [] else b[lo..Min(hi, |b|)]
  }

  function ParseAtt(att: seq<byte>): Option<GattWrite> {
    if |att| < 3 then None
    else
      match OpcodeOf(att[0])
      case None => None
      case Some(op) =>
        var payload := att[3..];
        Some(GattWrite(op, FromLittleEndian(att[1..3]),
                       if op.PrepareWriteReq? && |payload| >= 2 then payload[2..] else payload))
  }

  function ParseAclAtt(pkt: seq<byte>): Option<GattWrite> {
    if |pkt| < 9 || pkt[0] != 0x02 then None
    else if FromLittleEndian(pkt[1..3]) / 4096 % 4 != 2 then None
    else
      var body := Slice(pkt, 5, 5 + FromLittleEndian(pkt[3..5]));
      if |body| < 4 || FromLittleEndian(body[2..4]) != 0x0004 then None
      else ParseAtt(Slice(body, 4, 4 + FromLittleEndian(body[0..2])))
  }

  /** The ATT write PDUs of the Bluetooth Core Specification, Vol 3 Part F, sections 3.4.5 and
      3.4.6. A signed command ends in a 12-byte signature, a prepare request carries an offset. */
  datatype AttWrite =
    | Request(handle: nat, value: seq<byte>)
    | Command(handle: nat, value: seq<byte>)
    | SignedCommand(handle: nat, value: seq<byte>, signature: seq<byte>)
    | Prepare(handle: nat, offset: nat, value: seq<byte>)

  function OpcodeFor(w: AttWrite): Opcode {
    match w
    case Request(_, _) => WriteReq
    case Command(_, _) => WriteCmd
    case SignedCommand(_, _, _) => SignedWriteCmd
    case Prepare(_, _, _) => PrepareWriteReq
  }

  function Parameters(w: AttWrite): seq<byte> {
    match w
    case Request(_, value) => value
    case Command(_, value) => value
    case SignedCommand(_, value, signature) => value + signature
    case Prepare(_, offset, value) => LittleEndian(offset, 2) + value
  }

  function Pdu(w: AttWrite): seq<byte> {
    [OpcodeByte(OpcodeFor(w))] + LittleEndian(w.handle, 2) + Parameters(w)
  }

  /** What the parser should recover: the value, and for a signed command its signature too. */
  function WriteOf(w: AttWrite): GattWrite {
    GattWrite(OpcodeFor(w), w.handle,
              if w.SignedCommand? then w.value + w.signature else w.value)
  }

  predicate ValidWrite(w: AttWrite) {
    w.handle <= U16_MAX && |Pdu(w)| + 4 <= U16_MAX
  }

  /** One H4 ACL packet: connection handle, PB = 0b10, broadcast flag, then the first `m` bytes
      of the ATT PDU behind an L2CAP header that announces all of it. */
  function AclPacket(conn: nat, broadcast: nat, pdu: seq<byte>, m: nat): seq<byte>
    requires conn < 4096 && broadcast < 4 && m <= |pdu| && |pdu| + 4 <= U16_MAX
  {
    [0x02] + LittleEndian(conn + 0x2000 + 0x4000 * broadcast, 2) + LittleEndian(4 + m, 2) +
    (LittleEndian(|pdu|, 2) + LittleEndian(0x0004, 2) + pdu[..m])
  }

  lemma PacketHeader(conn: nat, broadcast: nat)
    requires conn < 4096 && broadcast < 4
    ensures (conn + 0x2000 + 0x4000 * broadcast) / 4096 % 4 == 2
    ensures conn + 0x2000 + 0x4000 * broadcast <= U16_MAX
  {
  }

  lemma U16RoundTrip(v: nat)
    requires v <= U16_MAX
    ensures FromLittleEndian(LittleEndian(v, 2)) == v
  {
    Pow256Widths();
    LittleEndianRoundTrip(v, 2);
  }

  /** The framing always yields the first `m` bytes of the PDU, complete or not. */
  lemma FramingYieldsFragment(conn: nat, broadcast: nat, pdu: seq<byte>, m: nat)
    requires conn < 4096 && broadcast < 4 && m <= |pdu| && |pdu| + 4 <= U16_MAX
    ensures ParseAclAtt(AclPacket(conn, broadcast, pdu, m)) == ParseAtt(pdu[..m])
  {
    var pkt := AclPacket(conn, broadcast, pdu, m);
    var payload := LittleEndian(|pdu|, 2) + LittleEndian(0x0004, 2) + pdu[..m];
    PacketHeader(conn, broadcast);
    U16RoundTrip(conn + 0x2000 + 0x4000 * broadcast);
    U16RoundTrip(4 + m);
    U16RoundTrip(|pdu|);
    U16RoundTrip(0x0004);
    assert pkt[1..3] == LittleEndian(conn + 0x2000 + 0x4000 * broadcast, 2);
    assert pkt[3..5] == LittleEndian(4 + m, 2);
    assert Slice(pkt, 5, 5 + (4 + m)) == payload;
    assert payload[0..2] == LittleEndian(|pdu|, 2);
    assert payload[2..4] == LittleEndian(0x0004, 2);
    assert Slice(payload, 4, 4 + |pdu|) == pdu[..m];
  }

  lemma ParsePdu(w: AttWrite)
    requires ValidWrite(w)
    ensures ParseAtt(Pdu(w)) == Some(WriteOf(w))
  {
    var att := Pdu(w);
    assert att[1..3] == LittleEndian(w.handle, 2);
    assert att[3..] == Parameters(w);
    U16RoundTrip(w.handle);
    if w.Prepare? {
      assert Parameters(w)[2..] == w.value;
    }
  }

  /** Parsing inverts encoding for every write in an unfragmented frame. */
  lemma ParseInvertsWrite(conn: nat, broadcast: nat, w: AttWrite)
    requires conn < 4096 && broadcast < 4 && ValidWrite(w)
    ensures ParseAclAtt(AclPacket(conn, broadcast, Pdu(w), |Pdu(w)|)) == Some(WriteOf(w))
  {
    FramingYieldsFragment(conn, broadcast, Pdu(w), |Pdu(w)|);
    assert Pdu(w)[..|Pdu(w)|] == Pdu(w);
    ParsePdu(w);
  }

  lemma ParseCutPdu(w: AttWrite, m: nat)
    requires ValidWrite(w) && 3 <= m <= |Pdu(w)|
    ensures ParseAtt(Pdu(w)[..m]) == Some(GattWrite(OpcodeFor(w), w.handle,
      if w.Prepare? && m >= 5 then Pdu(w)[5..m] else Pdu(w)[3..m]))
  {
    var cut := Pdu(w)[..m];
    assert cut[0] == Pdu(w)[0];
    assert cut[1..3] == LittleEndian(w.handle, 2);
    U16RoundTrip(w.handle);
    assert cut[3..] == Pdu(w)[3..m];
    assert m >= 5 ==> cut[3..][2..] == Pdu(w)[5..m];
  }

  /** The parser does not check that the ATT PDU is complete: the first packet of a fragmented
      write passes with whatever it holds. The write is recovered exactly when the packet carries
      all of it, or when a prepare request is cut inside its offset and the offset bytes that did
      arrive, which are then not stripped, equal its value. */
  lemma FirstFragmentIff(conn: nat, broadcast: nat, w: AttWrite, m: nat)
    requires conn < 4096 && broadcast < 4 && ValidWrite(w) && m <= |Pdu(w)|
    ensures ParseAclAtt(AclPacket(conn, broadcast, Pdu(w), m)) == Some(WriteOf(w)) <==>
      m == |Pdu(w)| || (w.Prepare? && 3 <= m < 5 && w.value == Pdu(w)[3..m])
    ensures ParseAclAtt(AclPacket(conn, broadcast, Pdu(w), m)).Some? <==> m >= 3
  {
    FramingYieldsFragment(conn, broadcast, Pdu(w), m);
    if m >= 3 {
      hide ParseAclAtt, ParseAtt, LittleEndian;
      ParseCutPdu(w, m);
      ParsePdu(w);
      ParseCutPdu(w, |Pdu(w)|);
      assert Pdu(w)[..|Pdu(w)|] == Pdu(w);
    }
  }

  /** An instance: a prepare request with no value, cut right after its handle, is recovered. */
  lemma CutPrepareRecovered(conn: nat, broadcast: nat, handle: nat, offset: nat)
    requires conn < 4096 && broadcast < 4 && handle <= U16_MAX
    ensures var w := Prepare(handle, offset, []);
      |Pdu(w)| == 5 && ParseAclAtt(AclPacket(conn, broadcast, Pdu(w), 3)) == Some(WriteOf(w))
  {
    var w := Prepare(handle, offset, []);
    assert Pdu(w)[3..3] == [];
    FirstFragmentIff(conn, broadcast, w, 3);
  }

  /** The two bytes at `i`, the low one first. */
  function U16At(b: seq<byte>, i: nat): nat
    requires i + 1 < |b|
  {
    b[i] as int + 256 * b[i + 1] as int
  }

  lemma U16Read(b: seq<byte>, i: nat)
    requires i + 1 < |b|
    ensures FromLittleEndian(b[i..i + 2]) == U16At(b, i)
  {
    var two := b[i..i + 2];
    assert two[1..] == [b[i + 1]] && two[1..][1..] == [];
    assert FromLittleEndian(two[1..]) == b[i + 1] as int + 256 * FromLittleEndian([]);
  }

  lemma SliceAt(b: seq<byte>, lo: nat, hi: nat)
    ensures |Slice(b, lo, hi)| == Max(0, Min(hi, |b|) - lo)
    ensures forall i :: 0 <= i < |Slice(b, lo, hi)| ==> Slice(b, lo, hi)[i] == b[lo + i]
  {
  }

  lemma AttReportedIff(att: seq<byte>)
    ensures ParseAtt(att).Some? <==> |att| >= 3 && att[0] in [0x12, 0x52, 0x16, 0xD2]
    ensures ParseAtt(att).Some? ==>
      var w := ParseAtt(att).value;
      && (w.opcode.WriteReq? <==> att[0] == 0x12) && (w.opcode.WriteCmd? <==> att[0] == 0x52)
      && (w.opcode.PrepareWriteReq? <==> att[0] == 0x16) && (w.opcode.SignedWriteCmd? <==> att[0] == 0xD2)
      && w.handle == U16At(att, 1)
      && w.payload == att[if att[0] == 0x16 && |att| >= 5 then 5 else 3..]
  {
    if |att| >= 3 {
      U16Read(att, 1);
      hide FromLittleEndian;
      assert |att| >= 5 ==> att[3..][2..] == att[5..];
    }
  }

  /** The L2CAP frame of a packet, by the announced length. */
  function BodyOf(pkt: seq<byte>): (body: seq<byte>)
    requires |pkt| >= 9
    ensures |body| == Min(U16At(pkt, 3), |pkt| - 5)
    ensures forall i :: 0 <= i < |body| ==> body[i] == pkt[5 + i]
  {
    pkt[5..5 + Min(U16At(pkt, 3), |pkt| - 5)]
  }

  lemma FlagBits(a: byte, b: byte)
    ensures (a as int + 256 * b as int) / 4096 == b / 16
  {
    DivUnique(a as int + 256 * b as int, 4096, b / 16, 256 * (b as int % 16) + a as int);
  }

  lemma PacketBody(pkt: seq<byte>)
    requires |pkt| >= 9
    ensures ParseAclAtt(pkt) ==
      if pkt[0] != 0x02 || pkt[2] / 16 % 4 != 2 then None
      else if |BodyOf(pkt)| < 4 || U16At(BodyOf(pkt), 2) != 4 then None
      else ParseAtt(Slice(BodyOf(pkt), 4, 4 + U16At(BodyOf(pkt), 0)))
  {
    U16Read(pkt, 1);
    U16Read(pkt, 3);
    SliceAt(pkt, 5, 5 + U16At(pkt, 3));
    FlagBits(pkt[1], pkt[2]);
    var body := BodyOf(pkt);
    assert Slice(pkt, 5, 5 + U16At(pkt, 3)) == body;
    if |body| >= 4 {
      U16Read(body, 0);
      U16Read(body, 2);
    }
    hide FromLittleEndian, Slice, ParseAtt, BodyOf, U16At;
  }

  lemma AttBytes(pkt: seq<byte>)
    requires |pkt| >= 9 && |BodyOf(pkt)| >= 4
    ensures U16At(BodyOf(pkt), 0) == U16At(pkt, 5) && U16At(BodyOf(pkt), 2) == U16At(pkt, 7)
    ensures var n := Min(Min(|pkt| - 9, U16At(pkt, 3) - 4), U16At(pkt, 5));
      n >= 0 && Slice(BodyOf(pkt), 4, 4 + U16At(pkt, 5)) == pkt[9..9 + n]
  {
    var body := BodyOf(pkt);
    SliceAt(body, 4, 4 + U16At(pkt, 5));
    hide Slice, BodyOf;
    var n := Min(Min(|pkt| - 9, U16At(pkt, 3) - 4), U16At(pkt, 5));
    assert Slice(body, 4, 4 + U16At(pkt, 5)) == pkt[9..9 + n];
  }

  /** The ATT bytes of a packet, by both announced lengths, when the packet is one to look into. */
  lemma AttOf(pkt: seq<byte>)
    ensures var framed := |pkt| >= 9 && pkt[0] == 0x02 && pkt[2] / 16 % 4 == 2 && U16At(pkt, 3) >= 4 &&
                          pkt[7] == 4 && pkt[8] == 0;
      if !framed then ParseAclAtt(pkt) == None
      else
        var n := Min(Min(|pkt| - 9, U16At(pkt, 3) - 4), U16At(pkt, 5));
        ParseAclAtt(pkt) == ParseAtt(pkt[9..9 + n])
  {
    if |pkt| >= 9 {
      PacketBody(pkt);
      hide ParseAclAtt, ParseAtt, Slice, BodyOf;
      if |BodyOf(pkt)| >= 4 {
        AttBytes(pkt);
      }
    }
  }

  /** Byte for byte: a packet is reported exactly when it is an H4 ACL packet with PB = 0b10 on the ATT
      channel whose first three ATT bytes, by both announced lengths, are there, and the first of them
      is one of the four write opcodes. */
  lemma ReportedIff(pkt: seq<byte>)
    ensures ParseAclAtt(pkt).Some? <==>
      && |pkt| >= 12 && pkt[0] == 0x02 && pkt[2] / 16 % 4 == 2
      && U16At(pkt, 3) >= 7 && U16At(pkt, 5) >= 3
      && pkt[7] == 4 && pkt[8] == 0 && pkt[9] in [0x12, 0x52, 0x16, 0xD2]
    ensures ParseAclAtt(pkt).Some? ==>
      var w := ParseAclAtt(pkt).value;
      var n := Min(Min(|pkt| - 9, U16At(pkt, 3) - 4), U16At(pkt, 5));
      && (w.opcode.WriteReq? <==> pkt[9] == 0x12) && (w.opcode.WriteCmd? <==> pkt[9] == 0x52)
      && (w.opcode.PrepareWriteReq? <==> pkt[9] == 0x16) && (w.opcode.SignedWriteCmd? <==> pkt[9] == 0xD2)
      && w.handle == U16At(pkt, 10)
      && w.payload == pkt[if pkt[9] == 0x16 && n >= 5 then 14 else 12..9 + n]
  {
    AttOf(pkt);
    hide ParseAclAtt, ParseAtt;
    if |pkt| >= 9 && U16At(pkt, 3) >= 4 {
      var n := Min(Min(|pkt| - 9, U16At(pkt, 3) - 4), U16At(pkt, 5));
      var att := pkt[9..9 + n];
      AttReportedIff(att);
      assert |att| == n;
      assert n >= 3 ==> U16At(att, 1) == U16At(pkt, 10) && att[3..] == pkt[12..9 + n];
      assert n >= 5 ==> att[5..] == pkt[14..9 + n];
    }
  }

  // ---------------------------------------------------------------- grouping

  datatype GroupKey = GroupKey(opcode: Opcode, handle: nat, prefix: seq<byte>)

  /** `payload[:n]`, where a negative `n` counts from the end. */
  function Head(payload: seq<byte>, n: int): seq<byte> {
    if n >= 0 then payload[..Min(n, |payload|)] else payload[..Max(0, |payload| + n)]
  }

  function KeyFor(w: GattWrite, prefixLen: int): GroupKey {
    GroupKey(w.opcode, w.handle, Head(w.payload, prefixLen))
  }

  /** A group is one opcode, one handle and one start of payload: the first `n` bytes or, when `n` is
      negative, all but the last `-n`. */
  lemma GroupKeyHolds(w: GattWrite, n: int)
    ensures var key := KeyFor(w, n);
      && key.opcode == w.opcode && key.handle == w.handle && key.prefix <= w.payload
      && |key.prefix| == if n >= 0 then Min(n, |w.payload|) else Max(0, |w.payload| + n)
  {
  }

  /** The group keys of the records that parse, in file order. */
  function ParsedKeys(records: seq<Record>, prefixLen: int): seq<GroupKey> {
    if records == [] then []
    else
      var w := ParseAclAtt(records[|records| - 1].packet);
      ParsedKeys(records[..|records| - 1], prefixLen) +
      if w.None? then [] else [KeyFor(w.value, prefixLen)]
  }

  function CountParsing(records: seq<Record>): nat {
    if records == [] then 0
    else
      CountParsing(records[..|records| - 1]) +
      if ParseAclAtt(records[|records| - 1].packet).Some? then 1 else 0
  }

  lemma ParsedKeysSnoc(records: seq<Record>, i: nat, prefixLen: int)
    requires i < |records|
    ensures var w := ParseAclAtt(records[i].packet);
      var before := multiset(ParsedKeys(records[..i], prefixLen));
      multiset(ParsedKeys(records[..i + 1], prefixLen)) ==
        if w.None? then before
        else before[KeyFor(w.value, prefixLen) := before[KeyFor(w.value, prefixLen)] + 1]
  {
    hide ParseAclAtt, KeyFor;
    assert records[..i + 1][..i] == records[..i];
    assert records[..i + 1][i] == records[i];
    assert ParsedKeys(records[..i + 1], prefixLen) == ParsedKeys(records[..i], prefixLen) +
      if ParseAclAtt(records[i].packet).None? then []
      else [KeyFor(ParseAclAtt(records[i].packet).value, prefixLen)];
  }

  /** A `Counter` is a multiset of keys. */
  method Collect(data: seq<byte>, prefixLen: int) returns (groups: Option<multiset<GroupKey>>)
    ensures groups.Some? <==> Records(data).Some?
    ensures groups.Some? ==> groups.value == multiset(ParsedKeys(Records(data).value, prefixLen))
  {
    var records := IterRecords(data);
    if records.None? {
      return None;
    }
    hide ParseAclAtt;
    var rs := records.value;
    var counts: multiset<GroupKey> := multiset{};
    var i := 0;
    while i < |rs|
      invariant 0 <= i <= |rs|
      invariant counts == multiset(ParsedKeys(rs[..i], prefixLen))
    {
      ParsedKeysSnoc(rs, i, prefixLen);
      var w := ParseAclAtt(rs[i].packet);
      i := i + 1;
      if w.None? {
        continue;
      }
      var key := KeyFor(w.value, prefixLen);
      counts := counts[key := counts[key] + 1];
    }
    assert rs[..|rs|] == rs;
    return Some(counts);
  }

  /** The group counts add up to the number of records that parse. */
  lemma {:induction false} GroupsTotalParsed(records: seq<Record>, prefixLen: int)
    ensures |multiset(ParsedKeys(records, prefixLen))| == CountParsing(records)
  {
    if records == [] {
    } else {
      GroupsTotalParsed(records[..|records| - 1], prefixLen);
    }
  }
}
