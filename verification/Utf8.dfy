/** UTF-8 encoding of text, as `str.encode("utf-8")` produces it. */
module Utf8 {
  import opened Bytes
  import opened Common

  function EncodeChar(c: char): (s: seq<byte>)
    ensures 1 <= |s| <= 4
  {
    var v := c as int;
    if v < 0x80 then [v]
    else if v < 0x800 then [0xC0 + v / 64, 0x80 + v % 64]
    else if v < 0x1_0000 then [0xE0 + v / 4096, 0x80 + v / 64 % 64, 0x80 + v % 64]
    else [0xF0 + v / 262144, 0x80 + v / 4096 % 64, 0x80 + v / 64 % 64, 0x80 + v % 64]
  }

  function Encode(s: string): seq<byte> {
    if s == [] then [] else EncodeChar(s[0]) + Encode(s[1..])
  }

  lemma Digits64(v: nat)
    ensures v == v / 64 * 64 + v % 64
    ensures v / 64 == v / 4096 * 64 + v / 64 % 64
    ensures v / 4096 == v / 262144 * 64 + v / 4096 % 64
  {
  }

  // ---------------------------------------------------------------- decoding

  predicate Continuation(b: byte) {
    0x80 <= b < 0xC0
  }

  /** The Unicode scalar values: code points that are not surrogates. */
  predicate Scalar(v: int) {
    0 <= v < 0xD800 || 0xE000 <= v < 0x11_0000
  }

  /** The first character of a byte string and the number of bytes it takes, by RFC 3629, section 4:
      the shortest form only, no surrogates, nothing above U+10FFFF. */
  function DecodeFirst(b: seq<byte>): (r: Option<(char, nat)>)
    ensures r.Some? ==> 1 <= r.value.1 <= |b|
  {
    if b == [] then None
    else if b[0] < 0x80 then Some((b[0] as char, 1))
    else if |b| >= 2 && 0xC0 <= b[0] < 0xE0 && Continuation(b[1]) then
      var v := (b[0] as int - 0xC0) * 64 + (b[1] as int - 0x80);
      if v >= 0x80 then Some((v as char, 2)) else None
    else if |b| >= 3 && 0xE0 <= b[0] < 0xF0 && Continuation(b[1]) && Continuation(b[2]) then
      var v := (b[0] as int - 0xE0) * 4096 + (b[1] as int - 0x80) * 64 + (b[2] as int - 0x80);
      if v >= 0x800 && Scalar(v) then Some((v as char, 3)) else None
    else if |b| >= 4 && 0xF0 <= b[0] && Continuation(b[1]) && Continuation(b[2]) && Continuation(b[3]) then
      var v := (b[0] as int - 0xF0) * 262144 + (b[1] as int - 0x80) * 4096 +
               (b[2] as int - 0x80) * 64 + (b[3] as int - 0x80);
      if v >= 0x1_0000 && Scalar(v) then Some((v as char, 4)) else None
    else None
  }

  /** A strict decoder: None when some byte is not part of a well-formed character. */
  function Decode(b: seq<byte>): Option<string> {
    if b == [] then Some("")
    else
      match DecodeFirst(b)
      case None => None
      case Some((c, n)) =>
        match Decode(b[n..])
        case None => None
        case Some(rest) => Some([c] + rest)
  }

  lemma Base64(v: nat, d: nat, r: nat)
    requires v == d * 64 + r && r < 64
    ensures v / 64 == d && v % 64 == r
  {
  }

  /** The bytes of a character spell its code point in base 64, in the shortest form. */
  lemma EncodeCharSpells(c: char)
    ensures var b := EncodeChar(c); var v := c as int;
      && (forall i :: 1 <= i < |b| ==> Continuation(b[i]))
      && (|b| == 1 <==> v < 0x80) && (|b| <= 2 <==> v < 0x800) && (|b| <= 3 <==> v < 0x1_0000)
      && (|b| == 1 ==> v == b[0])
      && (|b| == 2 ==> 0xC0 <= b[0] < 0xE0 && v == (b[0] as int - 0xC0) * 64 + (b[1] as int - 0x80))
      && (|b| == 3 ==>
            && 0xE0 <= b[0] < 0xF0
            && v == (b[0] as int - 0xE0) * 4096 + (b[1] as int - 0x80) * 64 + (b[2] as int - 0x80))
      && (|b| == 4 ==>
            && 0xF0 <= b[0] < 0xF8
            && v == (b[0] as int - 0xF0) * 262144 + (b[1] as int - 0x80) * 4096 +
                    (b[2] as int - 0x80) * 64 + (b[3] as int - 0x80))
  {
    Digits64(c as int);
  }

  lemma DecodeFirstInverts(c: char, rest: seq<byte>)
    ensures DecodeFirst(EncodeChar(c) + rest) == Some((c, |EncodeChar(c)|))
  {
    EncodeCharSpells(c);
    var b := EncodeChar(c);
    assert forall i :: 0 <= i < |b| ==> (b + rest)[i] == b[i];
    hide EncodeChar;
  }

  /** The decoder recovers every text from its encoding. */
  lemma {:induction false} DecodeInvertsEncode(s: string)
    ensures Decode(Encode(s)) == Some(s)
  {
    if s == [] {
    } else {
      var b, rest := EncodeChar(s[0]), Encode(s[1..]);
      DecodeInvertsEncode(s[1..]);
      DecodeFirstInverts(s[0], rest);
      hide EncodeChar, DecodeFirst;
      assert (b + rest)[|b|..] == rest;
      assert s == [s[0]] + s[1..];
    }
  }

  lemma EncodeOne(v: nat)
    requires v < 0x80
    ensures EncodeChar(v as char) == [v]
  {
  }

  lemma EncodeTwo(v: nat, a: nat, b: nat)
    requires v == a * 64 + b && a < 32 && b < 64 && v >= 0x80
    ensures EncodeChar(v as char) == [0xC0 + a, 0x80 + b]
  {
    Base64(v, a, b);
  }

  lemma EncodeThree(v: nat, a: nat, b: nat, c: nat)
    requires v == a * 4096 + b * 64 + c && a < 16 && b < 64 && c < 64 && v >= 0x800 && Scalar(v)
    ensures EncodeChar(v as char) == [0xE0 + a, 0x80 + b, 0x80 + c]
  {
    Digits64(v);
    Base64(v, a * 64 + b, c);
    Base64(v / 64, a, b);
  }

  lemma EncodeFour(v: nat, a: nat, b: nat, c: nat, d: nat)
    requires v == a * 262144 + b * 4096 + c * 64 + d && b < 64 && c < 64 && d < 64 && v >= 0x1_0000 && Scalar(v)
    ensures a < 16 && EncodeChar(v as char) == [0xF0 + a, 0x80 + b, 0x80 + c, 0x80 + d]
  {
    Digits64(v);
    Base64(v, a * 4096 + b * 64 + c, d);
    Base64(v / 64, a * 64 + b, c);
    Base64(v / 4096, a, b);
  }

  lemma EncodeFirstInverts(b: seq<byte>)
    requires DecodeFirst(b).Some?
    ensures var (c, n) := DecodeFirst(b).value; EncodeChar(c) == b[..n]
  {
    hide EncodeChar;
    var (c, n) := DecodeFirst(b).value;
    var v := c as int;
    if n == 1 {
      EncodeOne(v);
    } else if n == 2 {
      EncodeTwo(v, b[0] as int - 0xC0, b[1] as int - 0x80);
    } else if n == 3 {
      EncodeThree(v, b[0] as int - 0xE0, b[1] as int - 0x80, b[2] as int - 0x80);
    } else {
      EncodeFour(v, b[0] as int - 0xF0, b[1] as int - 0x80, b[2] as int - 0x80, b[3] as int - 0x80);
    }
  }

  /** Whatever the decoder accepts is the encoding of what it returns: there is no second form. */
  lemma {:induction false} EncodeInvertsDecode(b: seq<byte>)
    requires Decode(b).Some?
    ensures Encode(Decode(b).value) == b
  {
    hide EncodeChar, DecodeFirst;
    if b == [] {
    } else {
      var (c, n) := DecodeFirst(b).value;
      EncodeFirstInverts(b);
      EncodeInvertsDecode(b[n..]);
      var rest := Decode(b[n..]).value;
      assert ([c] + rest)[1..] == rest;
      assert b == b[..n] + b[n..];
    }
  }

  // ---------------------------------------------------------------- injectivity

  /** No encoded character is a proper prefix of another. */
  lemma EncodeCharPrefixFree(c: char, d: char, x: seq<byte>, y: seq<byte>)
    requires EncodeChar(c) + x == EncodeChar(d) + y
    ensures c == d && x == y
  {
    DecodeFirstInverts(c, x);
    DecodeFirstInverts(d, y);
    hide EncodeChar, DecodeFirst;
    assert x == (EncodeChar(c) + x)[|EncodeChar(c)|..] == y;
  }

  lemma EncodeInjective(s: string, t: string)
    requires Encode(s) == Encode(t)
    ensures s == t
  {
    DecodeInvertsEncode(s);
    DecodeInvertsEncode(t);
  }

  /** A text of `n` characters takes between `n` and `4 * n` bytes. */
  lemma {:induction false} EncodeLength(s: string)
    ensures |s| <= |Encode(s)| <= 4 * |s|
  {
    if s == [] {
    } else {
      EncodeLength(s[1..]);
    }
  }

  lemma {:induction false} EncodeConcat(s: string, t: string)
    ensures Encode(s + t) == Encode(s) + Encode(t)
  {
    if s == [] {
      assert s + t == t;
    } else {
      assert (s + t)[1..] == s[1..] + t;
      EncodeConcat(s[1..], t);
    }
  }

  /** A text whose encoding starts another's starts that text. */
  lemma {:induction false} EncodePrefix(p: string, s: string, rest: seq<byte>)
    requires Encode(p) + rest == Encode(s)
    ensures p <= s
  {
    if p == [] {
    } else {
      hide EncodeChar;
      assert Encode(p) + rest == EncodeChar(p[0]) + (Encode(p[1..]) + rest);
      EncodeCharPrefixFree(p[0], s[0], Encode(p[1..]) + rest, Encode(s[1..]));
      EncodePrefix(p[1..], s[1..], rest);
      assert p == [p[0]] + p[1..] && s == [s[0]] + s[1..];
    }
  }

  lemma {:induction false} AsciiLength(s: string)
    requires forall i :: 0 <= i < |s| ==> s[i] < 128 as char
    ensures |Encode(s)| == |s|
  {
    if s == [] {
    } else {
      AsciiLength(s[1..]);
    }
  }
}
