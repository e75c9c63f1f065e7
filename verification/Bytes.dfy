/** Bytes and fixed-width integers, as `struct`, `int.to_bytes`, `int.from_bytes` and the
    firmware's shifts see them. */
module Bytes {

  type byte = b: int | 0 <= b < 256

  const U16_MAX := 0xFFFF
  const U64_MAX := 0xFFFF_FFFF_FFFF_FFFF

  predicate IsU64(v: int) {
    0 <= v <= U64_MAX
  }

  function Pow256(n: nat): (p: nat)
    ensures p > 0
  {
    if n == 0 then 1 else 256 * Pow256(n - 1)
  }

  lemma Pow256Widths()
    ensures Pow256(2) == U16_MAX + 1
    ensures Pow256(4) == 0x1_0000_0000
    ensures Pow256(8) == U64_MAX + 1
  {
    assert Pow256(4) == 256 * (256 * (256 * (256 * Pow256(0))));
    assert Pow256(8) == 256 * (256 * (256 * (256 * Pow256(4))));
  }

  /** The `n`-byte big-endian form of `v`, truncated to its low `8 * n` bits: byte `j` is
      `v >> 8 * (n - 1 - j)` masked to eight bits. */
  function BigEndian(v: nat, n: nat): (s: seq<byte>)
    ensures |s| == n
  {
    seq(n, j requires 0 <= j < n => (v / Pow256(n - 1 - j)) % 256)
  }

  function FromBigEndian(s: seq<byte>): nat {
    if s == [] then 0 else 256 * FromBigEndian(s[..|s| - 1]) + s[|s| - 1]
  }

  function LittleEndian(v: nat, n: nat): (s: seq<byte>)
    ensures |s| == n
  {
    seq(n, j requires 0 <= j < n => (v / Pow256(j)) % 256)
  }

  function FromLittleEndian(s: seq<byte>): nat {
    if s == [] then 0 else s[0] + 256 * FromLittleEndian(s[1..])
  }

  lemma MultipleBounds(k: int, d: nat)
    ensures k >= 1 ==> k * d >= d
    ensures k <= -1 ==> k * d <= 0 - d
  {
    assert k * d == d + (k - 1) * d;
    assert k * d == (k + 1) * d - d;
  }

  lemma DivUnique(v: nat, d: nat, q: nat, r: nat)
    requires v == q * d + r && r < d
    ensures v / d == q
  {
    var k := q - v / d;
    assert k * d == q * d - (v / d) * d;
    assert 0 - d < k * d < d;
    MultipleBounds(k, d);
  }

  lemma DivDiv(v: nat, p: nat)
    requires p > 0
    ensures (v / 256) / p == v / (256 * p)
  {
    var q := (v / 256) / p;
    var b := (v / 256) % p;
    var r := v % 256;
    assert v == 256 * (q * p + b) + r;
    assert 256 * (q * p + b) + r == q * (256 * p) + (256 * b + r);
    DivUnique(v, 256 * p, q, 256 * b + r);
  }

  lemma DropByte(v: nat, k: nat)
    ensures (v / 256) / Pow256(k) == v / Pow256(k + 1)
  {
    DivDiv(v, Pow256(k));
  }

  lemma LowByte(v: nat)
    ensures (v / Pow256(0)) % 256 == v % 256
  {
  }

  lemma BigEndianSnoc(v: nat, n: nat)
    requires n > 0
    ensures BigEndian(v, n) == BigEndian(v / 256, n - 1) + [v % 256]
  {
    forall j | 0 <= j < n - 1
      ensures BigEndian(v, n)[j] == BigEndian(v / 256, n - 1)[j]
    {
      DropByte(v, n - 2 - j);
    }
    LowByte(v);
  }

  lemma LittleEndianCons(v: nat, n: nat)
    requires n > 0
    ensures LittleEndian(v, n) == [v % 256] + LittleEndian(v / 256, n - 1)
  {
    forall j | 1 <= j < n
      ensures LittleEndian(v, n)[j] == LittleEndian(v / 256, n - 1)[j - 1]
    {
      DropByte(v, j - 1);
    }
    LowByte(v);
  }

  lemma {:induction false} BigEndianRoundTrip(v: nat, n: nat)
    requires v < Pow256(n)
    ensures FromBigEndian(BigEndian(v, n)) == v
  {
    if n == 0 {
    } else {
      BigEndianSnoc(v, n);
      assert BigEndian(v, n)[..n - 1] == BigEndian(v / 256, n - 1);
      BigEndianRoundTrip(v / 256, n - 1);
    }
  }

  lemma {:induction false} LittleEndianRoundTrip(v: nat, n: nat)
    requires v < Pow256(n)
    ensures FromLittleEndian(LittleEndian(v, n)) == v
  {
    if n == 0 {
    } else {
      LittleEndianCons(v, n);
      assert LittleEndian(v, n)[1..] == LittleEndian(v / 256, n - 1);
      LittleEndianRoundTrip(v / 256, n - 1);
    }
  }

  lemma {:induction false} FromBigEndianBound(s: seq<byte>)
    ensures FromBigEndian(s) < Pow256(|s|)
  {
    if s == [] {
    } else {
      FromBigEndianBound(s[..|s| - 1]);
    }
  }

  /** Every byte string is the big-endian form of the number it stands for. */
  lemma {:induction false} BigEndianOfFrom(s: seq<byte>)
    ensures BigEndian(FromBigEndian(s), |s|) == s
  {
    if s == [] {
    } else {
      var init, last := s[..|s| - 1], s[|s| - 1];
      var v := FromBigEndian(s);
      BigEndianSnoc(v, |s|);
      assert v / 256 == FromBigEndian(init) && v % 256 == last;
      BigEndianOfFrom(init);
      assert s == init + [last];
    }
  }
}
