/** UUIDs as the firmware parses them (firmware/esp32/event_matcher.cpp) and as the gateway
    compares them (gateway/config.py, gateway/matcher.py). */
module Uuid {
  import opened Bytes
  import opened Common

  type Nibble = n: int | 0 <= n < 16

  /** `hex_nibble`, with None for its -1. */
  function HexNibble(c: char): Option<Nibble> {
    if '0' <= c <= '9' then Some(c as int - '0' as int)
    else if 'a' <= c <= 'f' then Some(c as int - 'a' as int + 10)
    else if 'A' <= c <= 'F' then Some(c as int - 'A' as int + 10)
    else None
  }

  function LowerChar(c: char): char {
    if 'A' <= c <= 'Z' then (c as int + 32) as char else c
  }

  /** `str.lower()` on ASCII text. */
  function Lower(s: string): (t: string)
    ensures |t| == |s|
  {
    seq(|s|, i requires 0 <= i < |s| => LowerChar(s[i]))
  }

  const UPPER := "ABCDEFGHIJKLMNOPQRSTUVWXYZ"
  const LOWER := "abcdefghijklmnopqrstuvwxyz"

  /** Lower-casing moves the 26 letters and nothing else. */
  lemma LowerLetters(s: string, i: nat)
    requires i < |s|
    ensures forall k :: 0 <= k < 26 && s[i] == UPPER[k] ==> Lower(s)[i] == LOWER[k]
    ensures s[i] !in UPPER ==> Lower(s)[i] == s[i]
  {
    assert forall k :: 0 <= k < 26 ==> UPPER[k] as int == 'A' as int + k && LOWER[k] as int == 'a' as int + k;
    if 'A' <= s[i] <= 'Z' {
      assert UPPER[s[i] as int - 'A' as int] == s[i];
    }
  }

  predicate HexOrDash(s: string) {
    forall i :: 0 <= i < |s| ==> s[i] == '-' || HexNibble(s[i]).Some?
  }

  /** The digits of `s` without its dashes; None when some other character occurs. */
  function Nibbles(s: string): Option<seq<Nibble>> {
    if s == [] then Some([])
    else
      var c := s[|s| - 1];
      match Nibbles(s[..|s| - 1])
      case None => None
      case Some(n) =>
        if c == '-' then Some(n)
        else
          match HexNibble(c)
          case None => None
          case Some(d) => Some(n + [d])
  }

  function Pair(hi: int, lo: int): byte
    requires 0 <= hi < 16 && 0 <= lo < 16
  {
    16 * hi + lo
  }

  function Pairs(n: seq<Nibble>): (b: seq<byte>)
    requires |n| % 2 == 0
    ensures |b| == |n| / 2
  {
    seq(|n| / 2, i requires 0 <= i < |n| / 2 => Pair(n[2 * i], n[2 * i + 1]))
  }

  const BASE_UUID: seq<byte> := [0x00, 0x00, 0x00, 0x00, 0x00, 0x00, 0x10, 0x00,
                                 0x80, 0x00, 0x00, 0x80, 0x5F, 0x9B, 0x34, 0xFB]

  function FromShort(v: nat): (b: seq<byte>)
    requires v <= U16_MAX
    ensures |b| == 16
  {
    BASE_UUID[2 := v / 256][3 := v % 256]
  }

  function ShortValue(n: seq<Nibble>): nat {
    if n == [] then 0 else 16 * ShortValue(n[..|n| - 1]) + n[|n| - 1]
  }

  lemma {:induction false} ShortValueBound(n: seq<Nibble>)
    requires |n| <= 4
    ensures ShortValue(n) < if |n| == 0 then 1 else if |n| == 1 then 16 else if |n| == 2 then 256
      else if |n| == 3 then 4096 else 65536
  {
    if n == [] {
    } else {
      ShortValueBound(n[..|n| - 1]);
    }
  }

  /** What `uuid_from_string` accepts, and the sixteen bytes it writes. */
  function Parse(s: string): (r: Option<seq<byte>>)
    ensures r.Some? ==> |r.value| == 16
  {
    match Nibbles(s)
    case None => None
    case Some(n) =>
      if |s| == 4 then
        if |n| == 4 then ShortValueBound(n); Some(FromShort(ShortValue(n))) else None
      else if |n| == 32 then Some(Pairs(n)) else None
  }

  lemma {:induction false} NibblesOfPrefix(s: string, i: nat)
    requires i <= |s| && Nibbles(s).Some?
    ensures Nibbles(s[..i]).Some? && Nibbles(s[..i]).value <= Nibbles(s).value
  {
    if i < |s| {
      NibblesOfPrefix(s[..|s| - 1], i);
      assert s[..|s| - 1][..i] == s[..i];
    } else {
      assert s[..i] == s;
    }
  }

  lemma NibblesStep(s: string, i: nat)
    requires i < |s| && Nibbles(s[..i]).Some?
    ensures Nibbles(s[..i + 1]) ==
      if s[i] == '-' then Nibbles(s[..i])
      else if HexNibble(s[i]).None? then None
      else Some(Nibbles(s[..i]).value + [HexNibble(s[i]).value])
  {
    assert s[..i + 1][..i] == s[..i];
  }

  /** `uuid_from_16`. */
  method UuidFrom16(v: nat, out: array<byte>)
    requires v <= U16_MAX && out.Length == 16
    modifies out
    ensures out[..] == FromShort(v)
  {
    var k := 0;
    while k < 16
      invariant 0 <= k <= 16
      invariant forall j :: 0 <= j < k ==> out[j] == BASE_UUID[j]
    {
      out[k] := BASE_UUID[k];
      k := k + 1;
    }
    out[2] := v / 256 % 256;
    out[3] := v % 256;
  }

  lemma {:induction false} DigitsAtMostLength(s: string)
    requires Nibbles(s).Some?
    ensures |Nibbles(s).value| <= |s|
    ensures |Nibbles(s).value| == |s| ==> forall i :: 0 <= i < |s| ==> HexNibble(s[i]).Some?
  {
    if s == [] {
    } else {
      DigitsAtMostLength(s[..|s| - 1]);
    }
  }

  lemma NoFourDigits(s: string, i: nat)
    requires i < |s| && HexNibble(s[i]).None?
    ensures Nibbles(s).Some? ==> |Nibbles(s).value| != |s|
  {
    if Nibbles(s).Some? {
      DigitsAtMostLength(s);
    }
  }

  /** The four-digit branch of `uuid_from_string`. */
  method ParseShort(s: string) returns (r: Option<nat>)
    requires |s| == 4
    ensures r.Some? <==> Nibbles(s).Some? && |Nibbles(s).value| == 4
    ensures r.Some? ==> r.value == ShortValue(Nibbles(s).value) <= U16_MAX
  {
    var v: nat := 0;
    var i := 0;
    while i < 4
      invariant 0 <= i <= 4
      invariant Nibbles(s[..i]).Some? && |Nibbles(s[..i]).value| == i
      invariant v == ShortValue(Nibbles(s[..i]).value)
    {
      NibblesStep(s, i);
      if HexNibble(s[i]).None? {
        NoFourDigits(s, i);
        return None;
      }
      ShortValueBound(Nibbles(s[..i]).value);
      v := 16 * v + HexNibble(s[i]).value;
      i := i + 1;
    }
    assert s[..4] == s;
    ShortValueBound(Nibbles(s).value);
    return Some(v);
  }

  method UuidFromString(s: string, out: array<byte>) returns (ok: bool)
    requires out.Length == 16
    modifies out
    ensures ok <==> Parse(s).Some?
    ensures ok ==> out[..] == Parse(s).value
  {
    if |s| == 4 {
      var v := ParseShort(s);
      if v.None? {
        return false;
      }
      UuidFrom16(v.value, out);
      return true;
    }
    var written := 0;
    var hi: int := -1;
    var i := 0;
    while i < |s|
      invariant 0 <= i <= |s| && 0 <= written <= 16
      invariant Nibbles(s[..i]).Some?
      invariant |Nibbles(s[..i]).value| == 2 * written + if hi < 0 then 0 else 1
      invariant hi < 0 || (hi < 16 && hi == Nibbles(s[..i]).value[2 * written])
      invariant forall j :: 0 <= j < written ==>
        out[j] == Pair(Nibbles(s[..i]).value[2 * j], Nibbles(s[..i]).value[2 * j + 1])
    {
      NibblesStep(s, i);
      if s[i] != '-' {
        var d := HexNibble(s[i]);
        if d.None? {
          if Nibbles(s).Some? {
            NibblesOfPrefix(s, i + 1);
          }
          return false;
        }
        if hi < 0 {
          hi := d.value;
        } else {
          if written >= 16 {
            if Nibbles(s).Some? {
              NibblesOfPrefix(s, i + 1);
            }
            return false;
          }
          out[written] := Pair(hi, d.value);
          written := written + 1;
          hi := -1;
        }
      }
      i := i + 1;
    }
    assert s[..|s|] == s;
    ok := hi < 0 && written == 16;
    if ok {
      assert out[..] == Pairs(Nibbles(s).value);
    }
  }

  // ---------------------------------------------------------------- comparison

  function Dashes(s: string): nat {
    if s == [] then 0 else Dashes(s[..|s| - 1]) + if s[|s| - 1] == '-' then 1 else 0
  }

  /** What `_normalise_uuid` accepts as a full UUID, in either case. */
  predicate FullUuid(s: string) {
    |s| == 36 && Dashes(s) == 4 && HexOrDash(s)
  }

  /** Groups of 8, 4, 4, 4 and 12 hexadecimal digits. */
  predicate Grouped(s: string) {
    |s| == 36 && forall i :: 0 <= i < 36 ==>
      if i == 8 || i == 13 || i == 18 || i == 23 then s[i] == '-' else HexNibble(s[i]).Some?
  }

  predicate SameDashes(s: string, t: string) {
    |s| == |t| && forall i :: 0 <= i < |s| ==> (s[i] == '-' <==> t[i] == '-')
  }

  lemma {:induction false} GroupedDashes(s: string, k: nat)
    requires Grouped(s) && k <= 36
    ensures Dashes(s[..k]) == (if k > 8 then 1 else 0) + (if k > 13 then 1 else 0) +
                              (if k > 18 then 1 else 0) + (if k > 23 then 1 else 0)
  {
    if k == 0 {
    } else {
      assert s[..k][..k - 1] == s[..k - 1];
      GroupedDashes(s, k - 1);
    }
  }

  lemma GroupedIsFull(s: string)
    requires Grouped(s)
    ensures FullUuid(s)
  {
    GroupedDashes(s, 36);
    assert s[..36] == s;
  }

  lemma {:induction false} NibbleCount(s: string)
    requires HexOrDash(s)
    ensures Nibbles(s).Some? && |Nibbles(s).value| + Dashes(s) == |s|
  {
    if s == [] {
    } else {
      assert HexNibble('-').None?;
      NibbleCount(s[..|s| - 1]);
    }
  }

  lemma LowerCharVsNibble(c: char, d: char)
    requires HexNibble(c).Some? && HexNibble(d).Some?
    ensures HexNibble(c) == HexNibble(d) <==> LowerChar(c) == LowerChar(d)
  {
  }

  lemma SnocInjective<T>(a: seq<T>, x: T, b: seq<T>, y: T)
    ensures a + [x] == b + [y] <==> a == b && x == y
  {
    if a + [x] == b + [y] {
      assert (a + [x])[|a|] == x && (b + [y])[|b|] == y;
      assert a == (a + [x])[..|a|] == (b + [y])[..|b|] == b;
    }
  }

  lemma {:induction false} LowerVsNibbles(s: string, t: string)
    requires HexOrDash(s) && HexOrDash(t) && SameDashes(s, t)
    ensures Nibbles(s).Some? && Nibbles(t).Some?
    ensures Nibbles(s) == Nibbles(t) <==> Lower(s) == Lower(t)
  {
    NibbleCount(s);
    NibbleCount(t);
    if s == [] {
    } else {
      var k := |s| - 1;
      LowerVsNibbles(s[..k], t[..k]);
      assert Lower(s) == Lower(s[..k]) + [LowerChar(s[k])];
      assert Lower(t) == Lower(t[..k]) + [LowerChar(t[k])];
      if s[k] != '-' {
        LowerCharVsNibble(s[k], t[k]);
        SnocInjective(Nibbles(s[..k]).value, HexNibble(s[k]).value, Nibbles(t[..k]).value, HexNibble(t[k]).value);
      }
      SnocInjective(Lower(s[..k]), LowerChar(s[k]), Lower(t[..k]), LowerChar(t[k]));
    }
  }

  lemma PairsInjective(m: seq<Nibble>, n: seq<Nibble>)
    requires |m| == |n| && |m| % 2 == 0
    requires Pairs(m) == Pairs(n)
    ensures m == n
  {
    forall i | 0 <= i < |m|
      ensures m[i] == n[i]
    {
      var k := i / 2;
      assert Pairs(m)[k] == Pair(m[2 * k], m[2 * k + 1]);
      assert Pairs(n)[k] == Pair(n[2 * k], n[2 * k + 1]);
    }
  }

  lemma {:induction false} LowerKeepsDashes(s: string, t: string)
    requires HexOrDash(s) && HexOrDash(t) && Lower(s) == Lower(t)
    ensures SameDashes(s, t)
  {
    assert |s| == |t|;
    forall i | 0 <= i < |s|
      ensures s[i] == '-' <==> t[i] == '-'
    {
      assert Lower(s)[i] == LowerChar(s[i]) && Lower(t)[i] == LowerChar(t[i]);
    }
  }

  /** On every UUID the gateway accepts, the firmware parses it too; the gateway's comparison
      of lower-cased text agrees with the firmware's comparison of bytes exactly when the two
      texts have their dashes in the same places or differ as bytes. */
  lemma ComparisonsAgreeIff(s: string, t: string)
    requires FullUuid(s) && FullUuid(t)
    ensures Parse(s).Some? && Parse(t).Some?
    ensures Lower(s) == Lower(t) <==> Parse(s) == Parse(t) && SameDashes(s, t)
  {
    NibbleCount(s);
    NibbleCount(t);
    if SameDashes(s, t) {
      LowerVsNibbles(s, t);
      if Parse(s) == Parse(t) {
        PairsInjective(Nibbles(s).value, Nibbles(t).value);
      }
    } else if Lower(s) == Lower(t) {
      LowerKeepsDashes(s, t);
    }
  }

  /** For UUIDs in 8-4-4-4-12 form the two comparisons are the same relation. */
  lemma GroupedComparisonsAgree(s: string, t: string)
    requires Grouped(s) && Grouped(t)
    ensures Parse(s).Some? && Parse(t).Some?
    ensures Lower(s) == Lower(t) <==> Parse(s) == Parse(t)
  {
    GroupedIsFull(s);
    GroupedIsFull(t);
    assert SameDashes(s, t) by {
      assert HexNibble('-').None?;
    }
    ComparisonsAgreeIff(s, t);
  }

  lemma {:induction false} NibblesConcat(s: string, t: string)
    requires Nibbles(s).Some? && Nibbles(t).Some?
    ensures Nibbles(s + t) == Some(Nibbles(s).value + Nibbles(t).value)
    ensures Dashes(s + t) == Dashes(s) + Dashes(t)
  {
    if t == [] {
      assert s + t == s && Nibbles(s).value + [] == Nibbles(s).value;
    } else {
      assert (s + t)[..|s + t| - 1] == s + t[..|t| - 1];
      NibblesConcat(s, t[..|t| - 1]);
      var c, n := t[|t| - 1], Nibbles(t[..|t| - 1]).value;
      assert (s + t)[|s + t| - 1] == c;
      if c != '-' {
        var d := HexNibble(c).value;
        assert Nibbles(s).value + n + [d] == Nibbles(s).value + (n + [d]);
      }
    }
  }

  lemma FirstGroupSplit(s: string)
    requires Grouped(s)
    ensures var head, tail := s[..8], s[9..]; s == head + ("-" + tail) && HexOrDash(head) && HexOrDash(tail)
    ensures |s[9..]| == 27 && s[0] != '-' && HexNibble(s[0]).Some?
  {
    assert HexNibble('-').None?;
  }

  lemma DashOnly()
    ensures Nibbles("-") == Some([]) && Dashes("-") == 1
  {
    assert "-"[..0] == "";
  }

  /** Outside that form they differ: moving a UUID's first dash to the front gives a text the
      gateway still accepts, the same UUID to the firmware and another one to the gateway. */
  lemma MovedDashDisagrees(s: string)
    requires Grouped(s)
    ensures var t := "-" + (s[..8] + s[9..]);
      FullUuid(t) && Lower(t) != Lower(s) && Parse(t) == Parse(s)
  {
    FirstGroupSplit(s);
    GroupedIsFull(s);
    var head, tail := s[..8], s[9..];
    var t := "-" + (head + tail);
    NibbleCount(head);
    NibbleCount(tail);
    DashOnly();
    hide Nibbles, Dashes, Grouped;
    NibblesConcat("-", tail);
    NibblesConcat(head, "-" + tail);
    NibblesConcat(head, tail);
    NibblesConcat("-", head + tail);
    assert [] + Nibbles(tail).value == Nibbles(tail).value;
    assert [] + Nibbles(head + tail).value == Nibbles(head + tail).value;
    assert Nibbles(s) == Nibbles(t) && Dashes(s) == Dashes(t);
    assert Lower(t)[0] == '-' && Lower(s)[0] == LowerChar(s[0]);
    forall i | 0 <= i < 36
      ensures t[i] == '-' || HexNibble(t[i]).Some?
    {
      assert t[i] == if i == 0 then '-' else if i <= 8 then head[i - 1] else tail[i - 9];
    }
  }

  lemma SameDashesGrouped(s: string, t: string)
    requires FullUuid(s) && Grouped(t) && SameDashes(s, t)
    ensures Grouped(s)
  {
    assert HexNibble('-').None?;
  }

  /** `s` without its dashes. */
  function Strip(s: string): string {
    if s == [] then []
    else Strip(s[..|s| - 1]) + if s[|s| - 1] == '-' then [] else [s[|s| - 1]]
  }

  lemma {:induction false} StripKeepsNibbles(s: string)
    requires HexOrDash(s)
    ensures |Strip(s)| + Dashes(s) == |s|
    ensures forall i :: 0 <= i < |Strip(s)| ==> HexNibble(Strip(s)[i]).Some?
    ensures Nibbles(Strip(s)) == Nibbles(s)
  {
    if s == [] {
    } else {
      var init, c := s[..|s| - 1], s[|s| - 1];
      StripKeepsNibbles(init);
      if c != '-' {
        assert (Strip(init) + [c])[..|Strip(init)|] == Strip(init);
      } else {
        assert Strip(s) == Strip(init);
      }
    }
  }

  /** 32 digits in groups of 8, 4, 4, 4 and 12. */
  function Group(d: string): string
    requires |d| == 32
  {
    d[..8] + "-" + d[8..12] + "-" + d[12..16] + "-" + d[16..20] + "-" + d[20..]
  }

  lemma AddGroup(a: string, g: string)
    requires HexOrDash(a) && HexOrDash(g)
    ensures HexOrDash(a + "-" + g) && Nibbles(a + "-" + g).Some? && Nibbles(a).Some? && Nibbles(g).Some?
    ensures Nibbles(a + "-" + g).value == Nibbles(a).value + Nibbles(g).value
  {
    NibbleCount(a);
    NibbleCount(g);
    DashOnly();
    hide Nibbles;
    NibblesConcat(a, "-");
    assert Nibbles(a).value + [] == Nibbles(a).value;
    NibblesConcat(a + "-", g);
  }

  lemma JoinDigits(a: string, b: string)
    requires HexOrDash(a + b)
    ensures Nibbles(a).Some? && Nibbles(b).Some? && Nibbles(a + b) == Some(Nibbles(a).value + Nibbles(b).value)
  {
    assert forall i :: 0 <= i < |a| ==> a[i] == (a + b)[i];
    assert forall i :: 0 <= i < |b| ==> b[i] == (a + b)[|a| + i];
    NibbleCount(a);
    NibbleCount(b);
    NibblesConcat(a, b);
  }

  lemma GroupKeepsNibbles(d: string)
    requires |d| == 32 && forall i :: 0 <= i < 32 ==> HexNibble(d[i]).Some?
    ensures Nibbles(Group(d)) == Nibbles(d)
  {
    hide Nibbles;
    assert d[..12] == d[..8] + d[8..12];
    assert d[..16] == d[..12] + d[12..16];
    assert d[..20] == d[..16] + d[16..20];
    assert d == d[..20] + d[20..];
    JoinDigits(d[..8], d[8..12]);
    JoinDigits(d[..12], d[12..16]);
    JoinDigits(d[..16], d[16..20]);
    JoinDigits(d[..20], d[20..]);
    AddGroup(d[..8], d[8..12]);
    AddGroup(d[..8] + "-" + d[8..12], d[12..16]);
    AddGroup(d[..8] + "-" + d[8..12] + "-" + d[12..16], d[16..20]);
    AddGroup(d[..8] + "-" + d[8..12] + "-" + d[12..16] + "-" + d[16..20], d[20..]);
  }

  lemma GroupIsGrouped(d: string)
    requires |d| == 32 && forall i :: 0 <= i < 32 ==> HexNibble(d[i]).Some?
    ensures Grouped(Group(d))
  {
    var g := Group(d);
    forall i | 0 <= i < 36
      ensures if i == 8 || i == 13 || i == 18 || i == 23 then g[i] == '-' else HexNibble(g[i]).Some?
    {
      assert g[i] == if i < 8 then d[i] else if i == 8 then '-' else if i < 13 then d[i - 1]
        else if i == 13 then '-' else if i < 18 then d[i - 2] else if i == 18 then '-'
        else if i < 23 then d[i - 3] else if i == 23 then '-' else d[i - 4];
    }
  }

  /** Every full UUID has the bytes of one in 8-4-4-4-12 form. */
  lemma GroupedTwin(s: string) returns (t: string)
    requires FullUuid(s)
    ensures Grouped(t) && FullUuid(t) && Parse(t) == Parse(s)
  {
    StripKeepsNibbles(s);
    t := Group(Strip(s));
    GroupKeepsNibbles(Strip(s));
    GroupIsGrouped(Strip(s));
    GroupedIsFull(t);
  }

  // ---------------------------------------------------------------- what the bytes are

  /** The sixteen digits in both cases, and no other character, have a value. */
  lemma HexDigits(c: char)
    ensures forall k :: 0 <= k < 16 && (c == "0123456789abcdef"[k] || c == "0123456789ABCDEF"[k]) ==>
      HexNibble(c) == Some(k)
    ensures HexNibble(c).Some? <==> c in "0123456789abcdef" || c in "0123456789ABCDEF"
  {
    var lower, upper := "0123456789abcdef", "0123456789ABCDEF";
    assert forall k :: 0 <= k < 10 ==> lower[k] as int == '0' as int + k && upper[k] == lower[k];
    assert forall k :: 10 <= k < 16 ==> lower[k] as int == 'a' as int + k - 10;
    assert forall k :: 10 <= k < 16 ==> upper[k] as int == 'A' as int + k - 10;
    if HexNibble(c).Some? {
      var k := HexNibble(c).value;
      assert c == lower[k] || c == upper[k];
    }
  }

  lemma {:induction false} NibblesAreHex(s: string)
    requires Nibbles(s).Some?
    ensures HexOrDash(s)
  {
    if s == [] {
    } else {
      NibblesAreHex(s[..|s| - 1]);
    }
  }

  /** The parser accepts exactly the texts of 32 hexadecimal digits with dashes anywhere, other than at
      four characters in all, and those of four digits. */
  lemma ParseAcceptsIff(s: string)
    ensures Parse(s).Some? <==>
      HexOrDash(s) && if |s| == 4 then Dashes(s) == 0 else |s| - Dashes(s) == 32
  {
    if HexOrDash(s) {
      NibbleCount(s);
    } else if Nibbles(s).Some? {
      NibblesAreHex(s);
    }
  }

  lemma NibbleAt(s: string, i: nat)
    requires HexOrDash(s) && i < |s| && s[i] != '-'
    ensures Nibbles(s).Some? && var j := i - Dashes(s[..i]);
      0 <= j < |Nibbles(s).value| && Nibbles(s).value[j] == HexNibble(s[i]).value
  {
    NibbleCount(s);
    NibbleCount(s[..i]);
    NibblesStep(s, i);
    NibblesOfPrefix(s, i + 1);
  }

  /** The byte that the two digits at `i` spell, the high one first. */
  function PairAt(s: string, i: nat): byte
    requires i + 1 < |s| && HexNibble(s[i]).Some? && HexNibble(s[i + 1]).Some?
  {
    16 * HexNibble(s[i]).value as int + HexNibble(s[i + 1]).value as int
  }

  /** Byte `k` of a UUID in 8-4-4-4-12 form is its `k`-th pair of digits, the high one first. */
  lemma GroupedBytes(s: string, k: nat)
    requires Grouped(s) && k < 16
    ensures var p := 2 * k + if k < 4 then 0 else if k < 6 then 1 else if k < 8 then 2 else if k < 10 then 3 else 4;
      && HexNibble(s[p]).Some? && HexNibble(s[p + 1]).Some?
      && Parse(s).Some? && Parse(s).value[k] == PairAt(s, p)
  {
    var p := 2 * k + if k < 4 then 0 else if k < 6 then 1 else if k < 8 then 2 else if k < 10 then 3 else 4;
    GroupedIsFull(s);
    NibbleCount(s);
    GroupedDashes(s, p);
    GroupedDashes(s, p + 1);
    assert HexNibble('-').None?;
    NibbleAt(s, p);
    NibbleAt(s, p + 1);
  }

  lemma {:induction false} NoDashes(s: string, i: nat)
    requires i <= |s| && forall j :: 0 <= j < |s| ==> HexNibble(s[j]).Some?
    ensures Dashes(s[..i]) == 0
  {
    if i == 0 {
    } else {
      NoDashes(s, i - 1);
      assert s[..i][..i - 1] == s[..i - 1];
    }
  }

  /** The same for any full UUID, by the digits without their dashes. */
  lemma FullBytes(s: string, k: nat)
    requires FullUuid(s) && k < 16
    ensures |Strip(s)| == 32 && HexNibble(Strip(s)[2 * k]).Some? && HexNibble(Strip(s)[2 * k + 1]).Some?
    ensures Parse(s).Some? &&
      Parse(s).value[k] == PairAt(Strip(s), 2 * k)
  {
    StripKeepsNibbles(s);
    NibbleCount(s);
    var digits := Strip(s);
    NoDashes(digits, 2 * k);
    NoDashes(digits, 2 * k + 1);
    assert HexNibble('-').None?;
    NibbleAt(digits, 2 * k);
    NibbleAt(digits, 2 * k + 1);
  }

  lemma FourDigits(n: seq<Nibble>)
    requires |n| == 4
    ensures ShortValue(n) == 4096 * n[0] as int + 256 * n[1] as int + 16 * n[2] as int + n[3] as int
  {
    assert n[..3][..2] == n[..2] && n[..2][..1] == n[..1] && n[..1][..0] == [];
    assert ShortValue(n[..1]) == n[0];
    assert ShortValue(n[..2]) == 16 * n[0] as int + n[1] as int;
    assert ShortValue(n[..3]) == 16 * ShortValue(n[..2]) + n[2];
  }

  /** The short form is the Bluetooth Base UUID, 00000000-0000-1000-8000-00805F9B34FB, with the four
      digits in its third and fourth byte. */
  lemma ShortFormBytes(d: string)
    requires |d| == 4 && forall i :: 0 <= i < 4 ==> HexNibble(d[i]).Some?
    ensures Parse(d).Some? && |Parse(d).value| == 16
    ensures Parse(d).value ==
            [0, 0, PairAt(d, 0), PairAt(d, 2), 0, 0, 0x10, 0, 0x80, 0, 0, 0x80, 0x5F, 0x9B, 0x34, 0xFB]
  {
    NoDashes(d, 4);
    assert d[..4] == d && HexNibble('-').None?;
    NibbleCount(d);
    NoDashes(d, 0);
    NoDashes(d, 1);
    NoDashes(d, 2);
    NoDashes(d, 3);
    NibbleAt(d, 0);
    NibbleAt(d, 1);
    NibbleAt(d, 2);
    NibbleAt(d, 3);
    hide Nibbles, Dashes, HexNibble;
    FourDigits(Nibbles(d).value);
  }
}
