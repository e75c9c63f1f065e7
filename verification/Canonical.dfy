/** The canonical byte form of a report, built three times: by the gateway
    (gateway/signer.py), by the backend (backend/models.py) and by the firmware
    (firmware/esp32/signer.cpp). */
module Canonical {
  import opened Bytes
  import opened Common
  import Utf8

  /** What a signature covers. Windows are whole unix seconds. */
  datatype ReportTuple = ReportTuple(
    deviceId: string, count: int, sequence: int, windowStart: int, windowEnd: int)

  /** A Python exception raised while encoding. */
  datatype EncodeError = DeviceIdTooLong | NumberOutOfRange

  function Ascii(s: string): (b: seq<byte>)
    requires forall i :: 0 <= i < |s| ==> s[i] < 128 as char
    ensures |b| == |s|
  {
    seq(|s|, i requires 0 <= i < |s| => s[i] as int)
  }

  const DOMAIN: seq<byte> := Ascii("ble-usage-meter/report/v1")
  const FORMAT_VERSION: byte := 1

  predicate NumbersFit(t: ReportTuple) {
    IsU64(t.count) && IsU64(t.sequence) && IsU64(t.windowStart) && IsU64(t.windowEnd)
  }

  predicate Encodable(t: ReportTuple) {
    |Utf8.Encode(t.deviceId)| <= U16_MAX && NumbersFit(t)
  }

  /** The documented layout with the length field given: domain tag, version, 2-byte length,
      identifier bytes, four 8-byte numbers. */
  function Layout(t: ReportTuple, lengthField: nat): seq<byte>
    requires NumbersFit(t)
  {
    DOMAIN + [FORMAT_VERSION] + BigEndian(lengthField, 2) + Utf8.Encode(t.deviceId) +
    BigEndian(t.count, 8) + BigEndian(t.sequence, 8) +
    BigEndian(t.windowStart, 8) + BigEndian(t.windowEnd, 8)
  }

  function Encoding(t: ReportTuple): seq<byte>
    requires Encodable(t)
  {
    Layout(t, |Utf8.Encode(t.deviceId)|)
  }

  // ---------------------------------------------------------------- gateway/signer.py

  /** `struct.pack(">Q", v)`, or `struct.error`. */
  function PackQ(v: int): Result<seq<byte>, EncodeError> {
    if IsU64(v) then Ok(BigEndian(v, 8)) else Err(NumberOutOfRange)
  }

  function PackQQQQ(a: int, b: int, c: int, d: int): Result<seq<byte>, EncodeError> {
    match (PackQ(a), PackQ(b), PackQ(c), PackQ(d))
    case (Ok(w), Ok(x), Ok(y), Ok(z)) => Ok(w + x + y + z)
    case _ => Err(NumberOutOfRange)
  }

  function GatewayBytes(t: ReportTuple): (r: Result<seq<byte>, EncodeError>)
  {
    var dev := Utf8.Encode(t.deviceId);
    if |dev| > U16_MAX then Err(DeviceIdTooLong)
    else
      match PackQQQQ(t.count, t.sequence, t.windowStart, t.windowEnd)
      case Err(e) => Err(e)
      case Ok(numbers) =>
        Ok(Concat([DOMAIN, [FORMAT_VERSION], BigEndian(|dev|, 2), dev, numbers]))
  }

  // ---------------------------------------------------------------- backend/models.py

  /** `int(value.timestamp())`: whole seconds of a time in microseconds, toward zero. */
  function UnixSeconds(micros: int): int {
    if micros >= 0 then micros / 1_000_000 else -((-micros) / 1_000_000)
  }

  /** The tuple a backend report stands for, at whole-second resolution. */
  function TupleOf(deviceId: string, count: int, sequence: int, startMicros: int, endMicros: int)
    : ReportTuple
  {
    ReportTuple(deviceId, count, sequence, UnixSeconds(startMicros), UnixSeconds(endMicros))
  }

  function BackendBytes(t: ReportTuple): Result<seq<byte>, EncodeError> {
    if |Utf8.Encode(t.deviceId)| > U16_MAX then Err(DeviceIdTooLong)
    else if !NumbersFit(t) then Err(NumberOutOfRange)
    else Ok(Encoding(t))
  }

  lemma TwoBytes(n: nat)
    ensures BigEndian(n, 2) == [(n / 256) % 256] + [n % 256]
  {
    BigEndianSnoc(n, 2);
    BigEndianSnoc(n / 256, 1);
  }

  /** A `bytearray` or `std::vector<uint8_t>` that an encoder grows in place. */
  class ByteBuffer {
    var data: seq<byte>

    constructor (initial: seq<byte>)
      ensures data == initial
    {
      data := initial;
    }

    method Append(bytes: seq<byte>)
      modifies this
      ensures data == old(data) + bytes
    {
      data := data + bytes;
    }

    /** `out += v.to_bytes(8, "big")`, or `OverflowError`. */
    method AppendToBytes8(v: int) returns (ok: bool)
      modifies this
      ensures ok == IsU64(v)
      ensures ok ==> data == old(data) + BigEndian(v, 8)
      ensures !ok ==> data == old(data)
    {
      ok := IsU64(v);
      if ok {
        data := data + BigEndian(v, 8);
      }
    }

    /** The firmware's shift loop: push `(v >> 8 * i) & 0xFF` for `i` from 7 down to 0. */
    method PutU64Be(v: nat)
      requires IsU64(v)
      modifies this
      ensures data == old(data) + BigEndian(v, 8)
    {
      var i := 7;
      ghost var pushed: seq<byte> := [];
      while i >= 0
        invariant -1 <= i <= 7
        invariant |pushed| == 7 - i && data == old(data) + pushed
        invariant forall j :: 0 <= j < |pushed| ==> pushed[j] == BigEndian(v, 8)[j]
        decreases i
      {
        var b: byte := (v / Pow256(i)) % 256;
        data := data + [b];
        pushed := pushed + [b];
        i := i - 1;
      }
      assert pushed == BigEndian(v, 8);
    }

    /** The length goes through a `uint16_t`, so it is taken modulo 65536; the bytes are not. */
    method PutLpString(s: seq<byte>)
      modifies this
      ensures data == old(data) + BigEndian(|s| % 0x1_0000, 2) + s
    {
      var n := |s| % 0x1_0000;
      var hi: byte := (n / 256) % 256;
      var lo: byte := n % 256;
      data := data + [hi];
      data := data + [lo];
      data := data + s;
      TwoBytes(n);
      assert data == old(data) + ([hi] + [lo]) + s;
    }
  }

  method BackendCanonicalMessage(deviceId: string, count: int, sequence: int,
                                 startMicros: int, endMicros: int)
    returns (r: Result<seq<byte>, EncodeError>)
    ensures r == BackendBytes(TupleOf(deviceId, count, sequence, startMicros, endMicros))
  {
    var did := Utf8.Encode(deviceId);
    if |did| > U16_MAX {
      return Err(DeviceIdTooLong);
    }
    var out := new ByteBuffer(DOMAIN);
    out.Append([FORMAT_VERSION]);
    out.Append(BigEndian(|did|, 2));
    out.Append(did);
    var ok := out.AppendToBytes8(count);
    if !ok { return Err(NumberOutOfRange); }
    ok := out.AppendToBytes8(sequence);
    if !ok { return Err(NumberOutOfRange); }
    ok := out.AppendToBytes8(UnixSeconds(startMicros));
    if !ok { return Err(NumberOutOfRange); }
    ok := out.AppendToBytes8(UnixSeconds(endMicros));
    if !ok { return Err(NumberOutOfRange); }
    return Ok(out.data);
  }

  // ---------------------------------------------------------------- firmware/esp32/signer.cpp

  method FirmwareCanonicalBytes(t: ReportTuple) returns (out: seq<byte>)
    requires NumbersFit(t)  // the struct's fields are uint64_t
    ensures out == Layout(t, |Utf8.Encode(t.deviceId)| % 0x1_0000)
  {
    var v := new ByteBuffer([]);
    v.Append(DOMAIN);
    v.Append([FORMAT_VERSION]);
    v.PutLpString(Utf8.Encode(t.deviceId));
    v.PutU64Be(t.count);
    v.PutU64Be(t.sequence);
    v.PutU64Be(t.windowStart);
    v.PutU64Be(t.windowEnd);
    out := v.data;
    assert [] + DOMAIN == DOMAIN;
  }

  // ---------------------------------------------------------------- agreement

  lemma JoinOfFive<T>(a: seq<T>, b: seq<T>, c: seq<T>, d: seq<T>, e: seq<T>)
    ensures Concat([a, b, c, d, e]) == a + b + c + d + e
  {
    assert [a, b, c, d, e] == [a, b, c, d] + [e];
    ConcatSnoc([a, b, c, d], e);
    assert [a, b, c, d] == [a, b, c] + [d];
    ConcatSnoc([a, b, c], d);
    assert [a, b, c] == [a, b] + [c];
    ConcatSnoc([a, b], c);
    assert [a, b] == [a] + [b];
    ConcatSnoc([a], b);
    ConcatSnoc([], a);
  }

  /** The Python encoders raise on the same tuples and otherwise give the same bytes. */
  lemma PythonEncodersAgree(t: ReportTuple)
    ensures GatewayBytes(t).Ok? <==> Encodable(t)
    ensures BackendBytes(t).Ok? <==> Encodable(t)
    ensures GatewayBytes(t) == BackendBytes(t)
  {
    if Encodable(t) {
      var dev := Utf8.Encode(t.deviceId);
      var numbers := PackQQQQ(t.count, t.sequence, t.windowStart, t.windowEnd).value;
      JoinOfFive(DOMAIN, [FORMAT_VERSION], BigEndian(|dev|, 2), dev, numbers);
      assert GatewayBytes(t).value == Encoding(t);
    }
  }

  /** Among tuples a firmware can hold, all three encoders agree exactly when the identifier
      takes at most 65535 bytes: above that the gateway and the backend raise. */
  lemma ThreeEncodersAgree(t: ReportTuple)
    requires NumbersFit(t)
    ensures var firmware := Layout(t, |Utf8.Encode(t.deviceId)| % 0x1_0000);
      (GatewayBytes(t) == Ok(firmware) && BackendBytes(t) == Ok(firmware))
      <==> |Utf8.Encode(t.deviceId)| <= U16_MAX
  {
    PythonEncodersAgree(t);
  }

  // ---------------------------------------------------------------- decoding

  datatype Fields = Fields(
    deviceId: seq<byte>, count: nat, sequence: nat, windowStart: nat, windowEnd: nat)

  /** A parser for the documented layout; it also returns the bytes after the message. */
  function Decode(b: seq<byte>): Option<(Fields, seq<byte>)> {
    var head := |DOMAIN| + 1;
    if |b| < head + 2 || b[..head] != DOMAIN + [FORMAT_VERSION] then None
    else
      var n := FromBigEndian(b[head..head + 2]);
      var at := head + 2 + n;
      if |b| < at + 32 then None
      else
        Some((Fields(b[head + 2..at], FromBigEndian(b[at..at + 8]),
                     FromBigEndian(b[at + 8..at + 16]), FromBigEndian(b[at + 16..at + 24]),
                     FromBigEndian(b[at + 24..at + 32])),
              b[at + 32..]))
  }

  function FieldsOf(t: ReportTuple): Fields
    requires NumbersFit(t)
  {
    Fields(Utf8.Encode(t.deviceId), t.count, t.sequence, t.windowStart, t.windowEnd)
  }

  lemma DecodeInvertsEncoding(t: ReportTuple, rest: seq<byte>)
    requires Encodable(t)
    ensures Decode(Encoding(t) + rest) == Some((FieldsOf(t), rest))
  {
    var b := Encoding(t) + rest;
    var dev := Utf8.Encode(t.deviceId);
    var head := |DOMAIN| + 1;
    var at := head + 2 + |dev|;
    assert b[..head] == DOMAIN + [FORMAT_VERSION];
    assert b[head..head + 2] == BigEndian(|dev|, 2);
    assert b[head + 2..at] == dev;
    assert b[at..at + 8] == BigEndian(t.count, 8);
    assert b[at + 8..at + 16] == BigEndian(t.sequence, 8);
    assert b[at + 16..at + 24] == BigEndian(t.windowStart, 8);
    assert b[at + 24..at + 32] == BigEndian(t.windowEnd, 8);
    assert b[at + 32..] == rest;
    Pow256Widths();
    BigEndianRoundTrip(|dev|, 2);
    BigEndianRoundTrip(t.count, 8);
    BigEndianRoundTrip(t.sequence, 8);
    BigEndianRoundTrip(t.windowStart, 8);
    BigEndianRoundTrip(t.windowEnd, 8);
  }

  /** Canonical messages are injective and prefix-free: if one message starts another, both
      encode the same tuple and nothing follows. */
  lemma EncodingPrefixFree(t: ReportTuple, u: ReportTuple, rest: seq<byte>)
    requires Encodable(t) && Encodable(u)
    requires Encoding(t) + rest == Encoding(u)
    ensures t == u && rest == []
  {
    DecodeInvertsEncoding(t, rest);
    DecodeInvertsEncoding(u, []);
    assert Encoding(u) + [] == Encoding(u);
    Utf8.EncodeInjective(t.deviceId, u.deviceId);
  }

  lemma EncodingInjective(t: ReportTuple, u: ReportTuple)
    requires Encodable(t) && Encodable(u)
    requires Encoding(t) == Encoding(u)
    ensures t == u
  {
    assert Encoding(t) + [] == Encoding(u);
    EncodingPrefixFree(t, u, []);
  }

  // ---------------------------------------------------------------- reading messages

  /** Read a message back as a report: the layout, and the identifier's bytes as UTF-8. */
  function Read(b: seq<byte>): Option<(ReportTuple, seq<byte>)> {
    match Decode(b)
    case None => None
    case Some((f, rest)) =>
      match Utf8.Decode(f.deviceId)
      case None => None
      case Some(id) => Some((ReportTuple(id, f.count, f.sequence, f.windowStart, f.windowEnd), rest))
  }

  /** Every message is read back as the report it was built from, whatever follows it. */
  lemma ReadInvertsEncoding(t: ReportTuple, rest: seq<byte>)
    requires Encodable(t)
    ensures Read(Encoding(t) + rest) == Some((t, rest))
  {
    DecodeInvertsEncoding(t, rest);
    Utf8.DecodeInvertsEncode(t.deviceId);
    hide Decode, Utf8.Decode, Utf8.Encode, Encoding;
  }

  lemma U64OfBytes(s: seq<byte>)
    requires |s| == 8
    ensures IsU64(FromBigEndian(s)) && BigEndian(FromBigEndian(s), 8) == s
  {
    Pow256Widths();
    FromBigEndianBound(s);
    BigEndianOfFrom(s);
  }

  lemma HeadOf(b: seq<byte>)
    requires Decode(b).Some?
    ensures var f := Decode(b).value.0; var head := |DOMAIN| + 1; var at := head + 2 + |f.deviceId|;
      && |f.deviceId| <= U16_MAX && at + 32 <= |b|
      && b[..at] == DOMAIN + [FORMAT_VERSION] + BigEndian(|f.deviceId|, 2) + f.deviceId
  {
    var head := |DOMAIN| + 1;
    var at := head + 2 + |Decode(b).value.0.deviceId|;
    Pow256Widths();
    FromBigEndianBound(b[head..head + 2]);
    BigEndianOfFrom(b[head..head + 2]);
    hide BigEndian, FromBigEndian;
    assert b[..at] == b[..head] + b[head..head + 2] + b[head + 2..at];
  }

  lemma NumbersOf(b: seq<byte>)
    requires Decode(b).Some?
    ensures var (f, rest) := Decode(b).value; var at := |DOMAIN| + 3 + |f.deviceId|;
      && IsU64(f.count) && IsU64(f.sequence) && IsU64(f.windowStart) && IsU64(f.windowEnd)
      && at <= |b| && b[at..] == BigEndian(f.count, 8) + BigEndian(f.sequence, 8) +
                                 BigEndian(f.windowStart, 8) + BigEndian(f.windowEnd, 8) + rest
  {
    hide BigEndian, FromBigEndian;
    var at := |DOMAIN| + 3 + |Decode(b).value.0.deviceId|;
    U64OfBytes(b[at..at + 8]);
    U64OfBytes(b[at + 8..at + 16]);
    U64OfBytes(b[at + 16..at + 24]);
    U64OfBytes(b[at + 24..at + 32]);
    assert b[at..] == b[at..at + 8] + b[at + 8..at + 16] + b[at + 16..at + 24] + b[at + 24..at + 32] + b[at + 32..];
  }

  lemma ReadFields(b: seq<byte>)
    requires Read(b).Some?
    ensures Decode(b).Some?
    ensures var (f, rest) := Decode(b).value; var (t, more) := Read(b).value;
      && Utf8.Encode(t.deviceId) == f.deviceId && more == rest
      && t == ReportTuple(t.deviceId, f.count, f.sequence, f.windowStart, f.windowEnd)
  {
    hide Decode, Utf8.Encode, Utf8.Decode;
    Utf8.EncodeInvertsDecode(Decode(b).value.0.deviceId);
  }

  lemma Regroup<T>(head: seq<T>, a: seq<T>, b: seq<T>, c: seq<T>, d: seq<T>, rest: seq<T>)
    ensures head + a + b + c + d + rest == head + (a + b + c + d + rest)
  {
  }

  /** Whatever can be read is the one message of the report read from it: the layout has no second
      form for a report. */
  lemma EncodingInvertsRead(b: seq<byte>)
    requires Read(b).Some?
    ensures var (t, rest) := Read(b).value; Encodable(t) && Encoding(t) + rest == b
  {
    ReadFields(b);
    var (t, rest) := Read(b).value;
    var at := |DOMAIN| + 3 + |Decode(b).value.0.deviceId|;
    HeadOf(b);
    NumbersOf(b);
    hide Read, Decode, DOMAIN, Utf8.Encode, Utf8.Decode, BigEndian;
    assert b == b[..at] + b[at..];
    Regroup(b[..at], BigEndian(t.count, 8), BigEndian(t.sequence, 8),
            BigEndian(t.windowStart, 8), BigEndian(t.windowEnd, 8), rest);
  }

  /** For ASCII text the encoding is the characters' codes. */
  lemma {:induction false} AsciiEncoding(s: string)
    requires forall i :: 0 <= i < |s| ==> s[i] < 128 as char
    ensures Utf8.Encode(s) == Ascii(s)
  {
    if s == [] {
    } else {
      AsciiEncoding(s[1..]);
      assert Ascii(s) == [s[0] as int] + Ascii(s[1..]);
    }
  }

  /** A time in microseconds lies in the second counted from 1970, rounding toward zero. */
  predicate InSecond(micros: int, seconds: int) {
    if micros >= 0 then seconds * 1_000_000 <= micros < (seconds + 1) * 1_000_000
    else (seconds - 1) * 1_000_000 < micros <= seconds * 1_000_000
  }

  lemma SecondsIff(micros: int, seconds: int)
    ensures UnixSeconds(micros) == seconds <==> InSecond(micros, seconds)
  {
  }

  lemma {:induction false} ZeroBytes(n: nat)
    ensures BigEndian(0, n) == seq(n, i => 0)
  {
    if n == 0 {
    } else {
      BigEndianSnoc(0, n);
      ZeroBytes(n - 1);
    }
  }

  lemma SmallU64(v: nat, hi: byte, mid: byte, lo: byte)
    requires v == 65536 * hi + 256 * mid + lo
    ensures BigEndian(v, 8) == [0, 0, 0, 0, 0, hi, mid, lo]
  {
    BigEndianSnoc(v, 8);
    BigEndianSnoc(256 * hi + mid, 7);
    BigEndianSnoc(hi, 6);
    ZeroBytes(5);
    hide BigEndian;
    assert v / 256 == 256 * hi + mid && (256 * hi + mid) / 256 == hi;
  }

  lemma DomainBytes()
    ensures DOMAIN == [0x62, 0x6C, 0x65, 0x2D, 0x75, 0x73, 0x61, 0x67, 0x65, 0x2D, 0x6D, 0x65, 0x74, 0x65, 0x72,
                       0x2F, 0x72, 0x65, 0x70, 0x6F, 0x72, 0x74, 0x2F, 0x76, 0x31]
  {
  }

  lemma SampleId()
    ensures Utf8.Encode("A\U{00e9}") == [0x41, 0xC3, 0xA9]
  {
    var id := "A\U{00e9}";
    assert id[1..] == "\U{00e9}" && id[1..][1..] == "";
    assert Utf8.Encode(id[1..]) == [0xC3, 0xA9];
  }

  /** One message byte for byte, for an identifier of one plain and one accented letter. */
  lemma SampleMessage()
    ensures var t := ReportTuple("A\U{00e9}", 258, 3, 4, 65536);
      && Encodable(t)
      && Encoding(t) ==
           [0x62, 0x6C, 0x65, 0x2D, 0x75, 0x73, 0x61, 0x67, 0x65, 0x2D, 0x6D, 0x65, 0x74, 0x65, 0x72,
            0x2F, 0x72, 0x65, 0x70, 0x6F, 0x72, 0x74, 0x2F, 0x76, 0x31] +
           [1] + [0, 3] + [0x41, 0xC3, 0xA9] +
           [0, 0, 0, 0, 0, 0, 1, 2] + [0, 0, 0, 0, 0, 0, 0, 3] +
           [0, 0, 0, 0, 0, 0, 0, 4] + [0, 0, 0, 0, 0, 1, 0, 0]
  {
    DomainBytes();
    SampleId();
    TwoBytes(3);
    SmallU64(258, 0, 1, 2);
    SmallU64(3, 0, 0, 3);
    SmallU64(4, 0, 0, 4);
    SmallU64(65536, 1, 0, 0);
    hide BigEndian, Ascii, DOMAIN, Utf8.Encode;
  }

  /** The length the firmware writes for an identifier. */
  function FirmwareLength(t: ReportTuple): nat {
    |Utf8.Encode(t.deviceId)| % 0x1_0000
  }

  lemma DecodeLayout(t: ReportTuple)
    requires NumbersFit(t)
    ensures var m := FirmwareLength(t); var head := |DOMAIN| + 1;
      var b := Layout(t, m);
      && Decode(b).Some?
      && Decode(b).value.0.deviceId == b[head + 2..head + 2 + m]
      && |Decode(b).value.1| == |Utf8.Encode(t.deviceId)| - m
  {
    var m := FirmwareLength(t);
    var b := Layout(t, m);
    var head := |DOMAIN| + 1;
    assert b[..head] == DOMAIN + [FORMAT_VERSION];
    assert b[head..head + 2] == BigEndian(m, 2);
    Pow256Widths();
    BigEndianRoundTrip(m, 2);
  }

  /** The firmware's message is read back as the tuple it was built from exactly when the
      identifier takes at most 65535 bytes; above that its length field has wrapped. */
  lemma FirmwareReadBackIff(t: ReportTuple)
    requires NumbersFit(t)
    ensures Read(Layout(t, FirmwareLength(t))) == Some((t, [])) <==> |Utf8.Encode(t.deviceId)| <= 65535
  {
    hide Decode, Layout, Utf8.Encode, Utf8.Decode;
    if |Utf8.Encode(t.deviceId)| <= U16_MAX {
      ReadInvertsEncoding(t, []);
      assert Encoding(t) + [] == Layout(t, FirmwareLength(t));
    } else {
      DecodeLayout(t);
    }
  }

  /** Some other tuple's message is a proper prefix of the firmware's message for `t`. */
  ghost predicate StartsWithAnother(t: ReportTuple)
    requires NumbersFit(t)
  {
    exists u, rest :: Encodable(u) && rest != [] && Encoding(u) + rest == Layout(t, FirmwareLength(t))
  }

  /** The wrapped length falls between two characters of the identifier. */
  ghost predicate WrapsAtCharacter(deviceId: string) {
    exists j :: 0 <= j <= |deviceId| && |Utf8.Encode(deviceId[..j])| == |Utf8.Encode(deviceId)| % 0x1_0000
  }

  lemma FourNumbers(s: seq<byte>) returns (a: nat, b: nat, c: nat, d: nat)
    requires |s| == 32
    ensures IsU64(a) && IsU64(b) && IsU64(c) && IsU64(d)
    ensures BigEndian(a, 8) + BigEndian(b, 8) + BigEndian(c, 8) + BigEndian(d, 8) == s
  {
    hide BigEndian, FromBigEndian;
    a, b := FromBigEndian(s[..8]), FromBigEndian(s[8..16]);
    c, d := FromBigEndian(s[16..24]), FromBigEndian(s[24..]);
    U64OfBytes(s[..8]);
    U64OfBytes(s[8..16]);
    U64OfBytes(s[16..24]);
    U64OfBytes(s[24..]);
    assert s == s[..8] + s[8..16] + s[16..24] + s[24..];
  }

  lemma CutLayout<T>(head: seq<T>, dev: seq<T>, m: nat, a: seq<T>, b: seq<T>, c: seq<T>, d: seq<T>,
                     w: seq<T>, x: seq<T>, y: seq<T>, z: seq<T>)
    requires m + 32 <= |dev| && a + b + c + d == dev[m..m + 32]
    ensures head + dev[..m] + a + b + c + d + (dev[m + 32..] + (w + x + y + z)) == head + dev + w + x + y + z
  {
    assert dev == dev[..m] + dev[m..m + 32] + dev[m + 32..];
    assert head + dev[..m] + a + b + c + d == head + dev[..m] + (a + b + c + d);
  }

  lemma FirstBytes(deviceId: string, j: nat)
    requires j <= |deviceId|
    ensures Utf8.Encode(deviceId[..j]) <= Utf8.Encode(deviceId)
  {
    assert deviceId == deviceId[..j] + deviceId[j..];
    Utf8.EncodeConcat(deviceId[..j], deviceId[j..]);
  }

  /** A long identifier's message starts with that of its first `j` characters, the next 32
      identifier bytes being taken for the numbers. */
  lemma MisreadStarts(t: ReportTuple, j: nat)
    requires NumbersFit(t) && |Utf8.Encode(t.deviceId)| > U16_MAX
    requires j <= |t.deviceId| && |Utf8.Encode(t.deviceId[..j])| == FirmwareLength(t)
    ensures StartsWithAnother(t)
  {
    var dev, m := Utf8.Encode(t.deviceId), FirmwareLength(t);
    FirstBytes(t.deviceId, j);
    hide BigEndian, FromBigEndian, Utf8.Encode;
    var a, b, c, d := FourNumbers(dev[m..m + 32]);
    var u := ReportTuple(t.deviceId[..j], a, b, c, d);
    assert Utf8.Encode(u.deviceId) == dev[..m];
    CutLayout(DOMAIN + [FORMAT_VERSION] + BigEndian(m, 2), dev, m,
              BigEndian(a, 8), BigEndian(b, 8), BigEndian(c, 8), BigEndian(d, 8), BigEndian(t.count, 8),
              BigEndian(t.sequence, 8), BigEndian(t.windowStart, 8), BigEndian(t.windowEnd, 8));
    var rest := dev[m + 32..] + (BigEndian(t.count, 8) + BigEndian(t.sequence, 8) +
                                 BigEndian(t.windowStart, 8) + BigEndian(t.windowEnd, 8));
    assert Encoding(u) + rest == Layout(t, m);
  }

  lemma LayoutIdentifier(t: ReportTuple, m: nat)
    requires NumbersFit(t) && m <= |Utf8.Encode(t.deviceId)|
    ensures var head := |DOMAIN| + 1;
      |Layout(t, m)| >= head + 2 + m && Layout(t, m)[head + 2..head + 2 + m] == Utf8.Encode(t.deviceId)[..m]
  {
    hide BigEndian, Utf8.Encode;
  }

  lemma StartImpliesWrap(t: ReportTuple, u: ReportTuple, rest: seq<byte>)
    requires NumbersFit(t) && Encodable(u) && rest != []
    requires Encoding(u) + rest == Layout(t, FirmwareLength(t))
    ensures |Utf8.Encode(t.deviceId)| > U16_MAX && WrapsAtCharacter(t.deviceId)
  {
    hide Decode, Layout, Utf8.Encode;
    var dev, m := Utf8.Encode(t.deviceId), FirmwareLength(t);
    DecodeInvertsEncoding(u, rest);
    DecodeLayout(t);
    LayoutIdentifier(t, m);
    assert Utf8.Encode(u.deviceId) == dev[..m];
    Utf8.EncodePrefix(u.deviceId, t.deviceId, dev[m..]);
    assert t.deviceId[..|u.deviceId|] == u.deviceId;
  }

  /** The firmware's messages stop being prefix-free exactly for identifiers over 65535 bytes
      whose wrapped length falls between two characters; the message then starts with that of a
      tuple with a shorter identifier. */
  lemma FirmwareStartsWithAnotherIff(t: ReportTuple)
    requires NumbersFit(t)
    ensures StartsWithAnother(t) <==> |Utf8.Encode(t.deviceId)| > U16_MAX && WrapsAtCharacter(t.deviceId)
  {
    if StartsWithAnother(t) {
      var u, rest :| Encodable(u) && rest != [] && Encoding(u) + rest == Layout(t, FirmwareLength(t));
      StartImpliesWrap(t, u, rest);
    }
    if |Utf8.Encode(t.deviceId)| > U16_MAX && WrapsAtCharacter(t.deviceId) {
      var j :| 0 <= j <= |t.deviceId| && |Utf8.Encode(t.deviceId[..j])| == |Utf8.Encode(t.deviceId)| % 0x1_0000;
      MisreadStarts(t, j);
    }
  }

  /** In particular every ASCII identifier of more than 65535 characters breaks it. */
  lemma LongAsciiIdBreaksPrefixFreedom(t: ReportTuple)
    requires NumbersFit(t) && |t.deviceId| > U16_MAX
    requires forall i :: 0 <= i < |t.deviceId| ==> t.deviceId[i] < 128 as char
    ensures StartsWithAnother(t)
  {
    Utf8.AsciiLength(t.deviceId);
    var j := |t.deviceId| % 0x1_0000;
    Utf8.AsciiLength(t.deviceId[..j]);
    MisreadStarts(t, j);
  }
}
