// Byte strings and the little-endian integer arithmetic on row buffers.
//
// A Go string or byte slice is a sequence of bytes.  Shifts and bitwise-or of
// disjoint bit ranges are written as multiplication, division and addition by
// powers of 256.

module ByteStrings {

  type Byte = x: int | 0 <= x < 256
  type Bytes = seq<Byte>

  const TWO_64: nat := 0x1_0000_0000_0000_0000
  const TWO_63: nat := 0x8000_0000_0000_0000
  type U64 = x: int | 0 <= x < 0x1_0000_0000_0000_0000
  type I64 = x: int | -0x8000_0000_0000_0000 <= x < 0x8000_0000_0000_0000

  const COLON: Byte := 58

  function Zeros(n: nat): (s: Bytes)
    ensures |s| == n
  {
    seq(n, _ => 0)
  }

  function Min(a: int, b: int): int {
    if a <= b then a else b
  }

  /** The reinterpretation `int64(u)` of a 64-bit pattern. */
  function ToI64(u: U64): I64 {
    if u < TWO_63 then u else u - TWO_64
  }

  /** The reinterpretation `uint64(i)`. */
  function ToU64(i: I64): U64 {
    if i < 0 then i + TWO_64 else i
  }

  function Pow256(n: nat): (p: nat)
    ensures p > 0
  {
    if n == 0 then 1 else 256 * Pow256(n - 1)
  }

  lemma Pow256Values()
    ensures Pow256(1) == 0x100
    ensures Pow256(2) == 0x1_0000
    ensures Pow256(3) == 0x100_0000
    ensures Pow256(4) == 0x1_0000_0000
    ensures Pow256(5) == 0x100_0000_0000
    ensures Pow256(6) == 0x1_0000_0000_0000
    ensures Pow256(7) == 0x100_0000_0000_0000
    ensures Pow256(8) == TWO_64
  {
    assert Pow256(1) == 256 * Pow256(0);
    assert Pow256(2) == 256 * Pow256(1);
    assert Pow256(3) == 256 * Pow256(2);
    assert Pow256(4) == 256 * Pow256(3);
    assert Pow256(5) == 256 * Pow256(4);
    assert Pow256(6) == 256 * Pow256(5);
    assert Pow256(7) == 256 * Pow256(6);
    assert Pow256(8) == 256 * Pow256(7);
  }

  // ----- division and remainder by a positive modulus

  lemma MulAtLeast(m: nat, d: int)
    requires d >= 1
    ensures m * d >= m
  {
    assert m * (d - 1) >= 0;
  }

  lemma SmallMultiple(m: nat, d: int)
    requires 0 < m * d + m && m * d < m
    ensures d == 0
  {
    if d >= 1 {
      MulAtLeast(m, d);
    } else if d <= -1 {
      MulAtLeast(m, -d);
    }
  }

  lemma {:induction false} DivModUnique(z: int, m: int, k: int, r: int)
    requires m > 0 && 0 <= r < m && z == m * k + r
    ensures z / m == k && z % m == r
  {
    var q := z / m;
    assert z % m == z - m * q;
    assert m * (k - q) == m * k - m * q;
    SmallMultiple(m, k - q);
  }

  lemma {:induction false} ModAddMultiple(x: int, m: int, q: int)
    requires m > 0
    ensures (x + m * q) % m == x % m
  {
    assert x + m * q == m * (x / m + q) + x % m;
    DivModUnique(x + m * q, m, x / m + q, x % m);
  }

  /** Reducing one summand first does not change a sum modulo m. */
  lemma {:induction false} ModAdd(a: int, b: int, m: int)
    requires m > 0
    ensures (a % m + b) % m == (a + b) % m
  {
    assert a + b == a % m + b + m * (a / m);
    ModAddMultiple(a % m + b, m, a / m);
  }

  lemma {:induction false} ModAddBoth(a: int, b: int, m: int)
    requires m > 0
    ensures (a % m + b % m) % m == (a + b) % m
  {
    ModAdd(a, b % m, m);
    ModAdd(b, a, m);
  }

  lemma ModSmall(a: int, m: int)
    requires 0 <= a < m
    ensures a % m == a
  {
    DivModUnique(a, m, 0, a);
  }

  // ----- little-endian values

  /** The number whose base-256 digits are `s`, least significant first. */
  function LeValue(s: Bytes): nat {
    if s == [] then 0 else s[0] + 256 * LeValue(s[1..])
  }

  /** The low `n` base-256 digits of `v`, least significant first. */
  function LeBytes(v: nat, n: nat): (s: Bytes)
    ensures |s| == n
  {
    if n == 0 then [] else [v % 256] + LeBytes(v / 256, n - 1)
  }

  lemma {:induction false} LeValueBound(s: Bytes)
    ensures LeValue(s) < Pow256(|s|)
  {
    if s != [] {
      LeValueBound(s[1..]);
    }
  }

  lemma {:induction false} LeValueSnoc(s: Bytes, x: Byte)
    ensures LeValue(s + [x]) == LeValue(s) + x * Pow256(|s|)
  {
    if s == [] {
      assert s + [x] == [x];
      assert LeValue([x][1..]) == 0;
    } else {
      assert (s + [x])[1..] == s[1..] + [x];
      LeValueSnoc(s[1..], x);
      var p := Pow256(|s| - 1);
      assert 256 * (LeValue(s[1..]) + x * p) == 256 * LeValue(s[1..]) + x * (256 * p);
    }
  }

  /** The low digit and the digits above it. */
  lemma {:induction false} ModSplit(v: nat, p: nat)
    requires p > 0
    ensures v % (256 * p) == v % 256 + 256 * ((v / 256) % p)
  {
    var h := v / 256;
    var q, r := h / p, h % p;
    assert h == p * q + r;
    assert 256 * (p * q) == (256 * p) * q;
    DivModUnique(v, 256 * p, q, v % 256 + 256 * r);
  }

  /** Writing and reading back keeps the value modulo 256^n. */
  lemma {:induction false} LeValueOfLeBytes(v: nat, n: nat)
    ensures LeValue(LeBytes(v, n)) == v % Pow256(n)
  {
    if n == 0 {
      DivModUnique(v, 1, v, 0);
    } else {
      LeValueOfLeBytes(v / 256, n - 1);
      assert LeBytes(v, n)[1..] == LeBytes(v / 256, n - 1);
      ModSplit(v, Pow256(n - 1));
    }
  }

  /** Reading and writing back keeps the bytes. */
  lemma {:induction false} LeBytesOfLeValue(s: Bytes)
    ensures LeBytes(LeValue(s), |s|) == s
  {
    if s != [] {
      LeBytesOfLeValue(s[1..]);
      DivModUnique(LeValue(s), 256, LeValue(s[1..]), s[0]);
    }
  }

  lemma {:induction false} DivDiv(v: nat, p: nat)
    requires p > 0
    ensures (v / 256) / p == v / (256 * p)
  {
    var h := v / 256;
    var q, r := h / p, h % p;
    assert h == p * q + r;
    assert v == 256 * h + v % 256;
    assert v == (256 * p) * q + (256 * r + v % 256);
    assert 256 * r + v % 256 < 256 * p;
    DivModUnique(v, 256 * p, q, 256 * r + v % 256);
  }

  /** Digit `i` of the written value is `byte(v >> (8 * i))`. */
  lemma {:induction false} LeBytesAt(v: nat, n: nat, i: nat)
    requires i < n
    ensures LeBytes(v, n)[i] == (v / Pow256(i)) % 256
  {
    if i > 0 {
      LeBytesAt(v / 256, n - 1, i - 1);
      DivDiv(v, Pow256(i - 1));
    }
  }

  // ----- separators

  /** The first position of `c`, or the length when it does not occur. */
  function FirstIndex(s: Bytes, c: Byte): (k: nat)
    ensures k <= |s|
    ensures k < |s| ==> s[k] == c
    ensures forall j :: 0 <= j < k ==> s[j] != c
  {
    if s == [] || s[0] == c then 0 else 1 + FirstIndex(s[1..], c)
  }

  lemma {:induction false} FirstIndexIs(s: Bytes, c: Byte, rest: Bytes)
    requires c !in s
    ensures FirstIndex(s + [c] + rest, c) == |s|
  {
    var all := s + [c] + rest;
    if s != [] {
      assert s[0] in s && all[0] == s[0];
      assert all[1..] == s[1..] + [c] + rest;
      FirstIndexIs(s[1..], c, rest);
    }
  }

  /** A string is cut at its first separator in one way only. */
  lemma CutIsUnique(x: Bytes, r: Bytes, y: Bytes, s: Bytes, c: Byte)
    requires c !in x && c !in y
    requires x + [c] + r == y + [c] + s
    ensures x == y && r == s
  {
    var l := x + [c] + r;
    FirstIndexIs(x, c, r);
    FirstIndexIs(y, c, s);
    assert x == l[..|x|] && y == l[..|y|];
    assert r == l[|x| + 1..] && s == l[|y| + 1..];
  }
}
