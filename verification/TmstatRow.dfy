// Columns, and reading, writing and rendering the columns of one row buffer.
//
// A byte slice that the callee only reads is passed as its contents; the one
// slice that is written, in SetUint, is an array.

module TmstatRow {
  import opened ByteStrings
  import opened Wrappers
  import Decimal

  const TYPE_SIGNED: nat := 1
  const TYPE_UNSIGNED: nat := 2
  const TYPE_STRING: nat := 3
  const TYPE_ADDRESS: nat := 6

  const RULE_KEY: nat := 0
  const RULE_COUNTER: nat := 2

  datatype Column = Column(name: Bytes, offset: nat, size: nat, typ: nat, rule: nat, dropped: bool) {
    predicate IsKey() {
      rule == RULE_KEY && !dropped
    }

    predicate IsNumeric() {
      typ == TYPE_SIGNED || typ == TYPE_UNSIGNED
    }

    predicate IsAddress() {
      typ == TYPE_ADDRESS
    }

    /** A column whose values are added up when rows are merged. */
    predicate IsSummed() {
      rule == RULE_COUNTER && typ != TYPE_STRING && typ != TYPE_ADDRESS
    }

    predicate FitsIn(raw: Bytes) {
      offset + size <= |raw|
    }

    /** The row offset `j` belongs to this column. */
    predicate Covers(j: int) {
      offset <= j < offset + size
    }
  }

  // ----- integers

  lemma {:induction false} Pow256AtMost(n: nat)
    requires n <= 8
    ensures Pow256(n) <= TWO_64
    decreases 8 - n
  {
    if n == 8 {
      Pow256Values();
    } else {
      Pow256AtMost(n + 1);
    }
  }

  /** The unsigned value at `off`; 0 when the range is outside the row, and
      only the low eight bytes count. */
  function UintAt(b: Bytes, off: nat, size: nat): U64 {
    if off + size > |b| then
      0
    else
      var s := b[off..off + Min(size, 8)];
      LeValueBound(s);
      Pow256AtMost(|s|);
      LeValue(s)
  }

  /** The row with `v` written at `off`; unchanged when the range is outside it. */
  function PutUint(b: Bytes, off: nat, size: nat, v: U64): (r: Bytes)
    ensures |r| == |b|
  {
    if off + size > |b| then b else b[..off] + LeBytes(v, size) + b[off + size..]
  }

  method LeUint(b: Bytes, off: nat, size: nat) returns (v: U64)
    ensures v == UintAt(b, off, size)
  {
    if off + size > |b| {
      return 0;
    }
    v := 0;
    for i := 0 to size
      invariant v == LeValue(b[off..off + Min(i, 8)])
    {
      // A shift by 64 or more leaves nothing of the byte.
      if i < 8 {
        var s := b[off..off + i];
        assert b[off..off + i + 1] == s + [b[off + i]];
        LeValueSnoc(s, b[off + i]);
        LeValueBound(s + [b[off + i]]);
        Pow256AtMost(i + 1);
        v := v + b[off + i] * Pow256(i);
      }
    }
  }

  method SetUint(b: array<Byte>, off: nat, size: nat, v: U64)
    modifies b
    ensures b[..] == PutUint(old(b[..]), off, size, v)
  {
    if off + size > b.Length {
      return;
    }
    ghost var was := b[..];
    for i := 0 to size
      invariant b[..] == was[..off] + LeBytes(v, size)[..i] + was[off + i..]
    {
      LeBytesAt(v, size, i);
      b[off + i] := (v / Pow256(i)) % 256;
    }
    assert LeBytes(v, size)[..size] == LeBytes(v, size);
  }

  /** `int64(u << shift) >> shift` with shift = 64 - 8*size. */
  function SignExtend(u: U64, size: nat): int
    requires 0 < size < 8
  {
    var p := Pow256(8 - size);
    ToI64((u * p) % TWO_64) / p
  }

  function IntAt(b: Bytes, off: nat, size: nat): int {
    var u := UintAt(b, off, size);
    if 0 < size < 8 then SignExtend(u, size) else ToI64(u)
  }

  /** The two's-complement reading of an `8*size`-bit pattern. */
  function TwosComplement(u: nat, size: nat): int {
    if 2 * u < Pow256(size) then u else u - Pow256(size)
  }

  lemma {:induction false} Pow256Add(m: nat, n: nat)
    ensures Pow256(m) * Pow256(n) == Pow256(m + n)
  {
    if m > 0 {
      Pow256Add(m - 1, n);
      assert (256 * Pow256(m - 1)) * Pow256(n) == 256 * (Pow256(m - 1) * Pow256(n));
    }
  }

  lemma MulKeepsOrder(a: int, b: int, p: nat)
    requires p > 0
    ensures a < b ==> a * p < b * p
    ensures a >= b ==> a * p >= b * p
  {
    assert p * (b - a) == b * p - a * p;
    if a < b {
      MulAtLeast(p, b - a);
    } else if a > b {
      MulAtLeast(p, a - b);
      assert p * (a - b) == a * p - b * p;
    }
  }

  lemma ShiftUpAndDown(u: nat, m: nat, p: nat)
    requires p > 0 && m * p == TWO_64 && u < m
    ensures 0 <= u * p < TWO_64
    ensures ToI64(u * p) / p == if 2 * u < m then u else u - m
  {
    MulKeepsOrder(u, m, p);
    MulKeepsOrder(2 * u, m, p);
    assert (2 * u) * p == 2 * (u * p);
    var i := if 2 * u < m then u else u - m;
    assert p * (u - m) == u * p - m * p;
    DivModUnique(p * i, p, i, 0);
  }

  lemma {:induction false} SignExtendIsTwosComplement(u: U64, size: nat)
    requires 0 < size < 8 && u < Pow256(size)
    ensures SignExtend(u, size) == TwosComplement(u, size)
  {
    var m, p := Pow256(size), Pow256(8 - size);
    assert m * p == TWO_64 by {
      Pow256Add(size, 8 - size);
      Pow256Values();
    }
    ShiftUpAndDown(u, m, p);
    ModSmall(u * p, TWO_64);
  }

  /** The shift pair in leInt reads a column of 1 to 8 bytes as two's complement. */
  lemma {:induction false} IntAtIsTwosComplement(b: Bytes, off: nat, size: nat)
    requires 1 <= size <= 8
    ensures UintAt(b, off, size) < Pow256(size)
    ensures IntAt(b, off, size) == TwosComplement(UintAt(b, off, size), size)
  {
    if off + size <= |b| {
      LeValueBound(b[off..off + size]);
    }
    if size < 8 {
      SignExtendIsTwosComplement(UintAt(b, off, size), size);
    } else {
      Pow256Values();
    }
  }

  /** Reading what was written gives the value modulo the column width, and
      every byte outside the column keeps its value. */
  lemma UintAtOfPutUint(b: Bytes, off: nat, size: nat, v: U64)
    ensures off + size <= |b| ==> UintAt(PutUint(b, off, size, v), off, size) == v % Pow256(Min(size, 8))
    ensures forall j :: 0 <= j < |b| && !(off <= j < off + size) ==> PutUint(b, off, size, v)[j] == b[j]
  {
    if off + size <= |b| {
      var r := PutUint(b, off, size, v);
      assert r[off..off + size] == LeBytes(v, size);
      if size <= 8 {
        LeValueOfLeBytes(v, size);
      } else {
        LeBytesPrefix(v, size, 8);
        assert r[off..off + 8] == LeBytes(v, size)[..8];
        LeValueOfLeBytes(v, 8);
      }
    }
  }

  lemma {:induction false} LeBytesPrefix(v: nat, n: nat, k: nat)
    requires k <= n
    ensures LeBytes(v, n)[..k] == LeBytes(v, k)
  {
    if k > 0 {
      LeBytesPrefix(v / 256, n - 1, k - 1);
      assert LeBytes(v, n)[..k] == [v % 256] + LeBytes(v / 256, n - 1)[..k - 1];
    }
  }

  /** A write leaves every column that it does not overlap alone. */
  lemma PutUintElsewhere(b: Bytes, off: nat, size: nat, v: U64, c: Column)
    requires c.offset + c.size <= off || off + size <= c.offset
    ensures c.FitsIn(b) ==>
              b[c.offset..c.offset + c.size] == PutUint(b, off, size, v)[c.offset..c.offset + c.size]
  {
    UintAtOfPutUint(b, off, size, v);
  }

  // ----- strings

  /** The bytes before the first NUL. */
  function UpToNul(s: Bytes): Bytes {
    s[..FirstIndex(s, 0)]
  }

  lemma UpToNulIs(s: Bytes, k: nat)
    requires k <= |s| && (k < |s| ==> s[k] == 0)
    requires forall j :: 0 <= j < k ==> s[j] != 0
    ensures UpToNul(s) == s[..k]
  {
  }

  predicate NulFree(s: Bytes) {
    0 !in s
  }

  /** The range of a string column, cut at the end of the row. */
  function StrRange(b: Bytes, off: nat, size: nat): Bytes
    requires off <= |b|
  {
    b[off..Min(off + size, |b|)]
  }

  method IndexByte(s: Bytes, c: Byte) returns (k: int)
    ensures -1 <= k < |s|
    ensures k >= 0 ==> s[k] == c && forall j :: 0 <= j < k ==> s[j] != c
    ensures k == -1 ==> c !in s
  {
    for i := 0 to |s|
      invariant c !in s[..i]
    {
      if s[i] == c {
        return i;
      }
    }
    return -1;
  }

  method CStr(b: Bytes, off: nat, size: nat) returns (s: Bytes)
    requires off <= |b|
    ensures s == UpToNul(StrRange(b, off, size))
  {
    var n := size;
    if off + n > |b| {
      n := |b| - off;
    }
    s := b[off..off + n];
    var i := IndexByte(s, 0);
    UpToNulIs(s, if i >= 0 then i else |s|);
    if i >= 0 {
      s := s[..i];
    }
  }

  // ----- addresses

  function HexDigit(n: int): Byte
    requires 0 <= n < 16
  {
    if n < 10 then 48 + n else 55 + n
  }

  function HexPair(x: Byte): Bytes {
    [HexDigit(x / 16), HexDigit(x % 16)]
  }

  /** Upper-case hex pairs separated by colons. */
  function AddrHexOf(b: Bytes): Bytes {
    if b == [] then []
    else if |b| == 1 then HexPair(b[0])
    else HexPair(b[0]) + [COLON] + AddrHexOf(b[1..])
  }

  lemma {:induction false} AddrHexSnoc(b: Bytes, x: Byte)
    ensures AddrHexOf(b + [x]) == if b == [] then HexPair(x) else AddrHexOf(b) + [COLON] + HexPair(x)
  {
    if b == [] {
      assert b + [x] == [x];
    } else {
      AddrHexSnoc(b[1..], x);
      assert (b + [x])[1..] == b[1..] + [x];
      if |b| > 1 {
        calc {
          AddrHexOf(b + [x]);
          HexPair(b[0]) + [COLON] + (AddrHexOf(b[1..]) + [COLON] + HexPair(x));
          AddrHexOf(b) + [COLON] + HexPair(x);
        }
      } else {
        assert b[1..] == [];
      }
    }
  }

  method AddrHex(b: Bytes) returns (s: Bytes)
    ensures s == AddrHexOf(b)
  {
    s := [];
    for i := 0 to |b|
      invariant s == AddrHexOf(b[..i])
      invariant i == 0 <==> s == []
    {
      AddrHexSnoc(b[..i], b[i]);
      assert b[..i + 1] == b[..i] + [b[i]];
      if i > 0 {
        s := s + [COLON];
      }
      s := s + [HexDigit(b[i] / 16), HexDigit(b[i] % 16)];
    }
    assert b[..|b|] == b;
  }

  lemma {:induction false} AddrHexIsNulFree(b: Bytes)
    ensures NulFree(AddrHexOf(b))
  {
    if |b| > 1 {
      AddrHexIsNulFree(b[1..]);
    }
  }

  // ----- rendering a column

  function Render(b: Bytes, c: Column): Bytes {
    if !c.FitsIn(b) then []
    else if c.typ == TYPE_STRING then UpToNul(StrRange(b, c.offset, c.size))
    else if c.typ == TYPE_ADDRESS then AddrHexOf(b[c.offset..c.offset + c.size])
    else if c.typ == TYPE_SIGNED then Decimal.FormatInt(IntAt(b, c.offset, c.size))
    else Decimal.FormatUint(UintAt(b, c.offset, c.size))
  }

  method LeInt(b: Bytes, off: nat, size: nat) returns (i: int)
    ensures i == IntAt(b, off, size)
  {
    var u := LeUint(b, off, size);
    if size < 8 && size > 0 {
      var p := Pow256(8 - size);
      var shifted: U64 := (u * p) % TWO_64;
      i := ToI64(shifted) / p;
    } else {
      i := ToI64(u);
    }
  }

  method Value(b: Bytes, c: Column) returns (s: Bytes)
    ensures s == Render(b, c)
  {
    if c.offset + c.size > |b| {
      return [];
    }
    if c.typ == TYPE_STRING {
      s := CStr(b, c.offset, c.size);
    } else if c.typ == TYPE_ADDRESS {
      s := AddrHex(b[c.offset..c.offset + c.size]);
    } else if c.typ == TYPE_SIGNED {
      var i := LeInt(b, c.offset, c.size);
      s := Decimal.FormatInt(i);
    } else {
      var u := LeUint(b, c.offset, c.size);
      s := Decimal.FormatUint(u);
    }
  }

  /** No rendering contains the NUL that separates the parts of a key. */
  lemma RenderIsNulFree(b: Bytes, c: Column)
    ensures NulFree(Render(b, c))
  {
    if c.FitsIn(b) {
      if c.typ == TYPE_STRING {
        assert NulFree(UpToNul(StrRange(b, c.offset, c.size)));
      } else if c.typ == TYPE_ADDRESS {
        AddrHexIsNulFree(b[c.offset..c.offset + c.size]);
      } else if c.typ == TYPE_SIGNED {
        Decimal.FormatIntBytes(IntAt(b, c.offset, c.size));
      } else {
        assert Decimal.AllDigits(Decimal.FormatUint(UintAt(b, c.offset, c.size)));
      }
    }
  }

  /** A rendering depends only on the column's own bytes and whether they exist. */
  lemma RenderDependsOnRange(a: Bytes, b: Bytes, c: Column)
    requires c.FitsIn(a) == c.FitsIn(b)
    requires c.FitsIn(a) ==> a[c.offset..c.offset + c.size] == b[c.offset..c.offset + c.size]
    ensures Render(a, c) == Render(b, c)
    ensures UintAt(a, c.offset, c.size) == UintAt(b, c.offset, c.size)
  {
    hide LeValue, UpToNul, AddrHexOf;
    if c.FitsIn(a) {
      var n := Min(c.size, 8);
      assert a[c.offset..c.offset + n] == a[c.offset..c.offset + c.size][..n];
      assert b[c.offset..c.offset + n] == b[c.offset..c.offset + c.size][..n];
    }
  }

  // ----- what a rendering says, in terms of the column's bytes

  /** A column that leaves the row renders as nothing. */
  lemma NothingOutside(b: Bytes, c: Column)
    requires c.offset + c.size > |b|
    ensures Render(b, c) == []
  {
  }

  /** Text (type 3) is shown up to its first NUL. */
  lemma TextOf(b: Bytes, c: Column)
    requires c.typ == 3 && c.offset + c.size <= |b|
    ensures var s, v := b[c.offset..c.offset + c.size], Render(b, c);
            |v| <= |s| && v == s[..|v|] && 0 !in v && (|v| < |s| ==> s[|v|] == 0)
  {
  }

  lemma {:induction false} AddrHexAt(b: Bytes, i: nat)
    requires i < |b|
    ensures var hex, t := [48, 49, 50, 51, 52, 53, 54, 55, 56, 57, 65, 66, 67, 68, 69, 70], AddrHexOf(b);
            && |t| == 3 * |b| - 1
            && t[3 * i] == hex[b[i] / 16] && t[3 * i + 1] == hex[b[i] % 16]
            && (i + 1 < |b| ==> t[3 * i + 2] == 58)
  {
    if |b| > 1 {
      var rest := AddrHexOf(b[1..]);
      AddrHexAt(b[1..], if i > 0 then i - 1 else 0);
      assert AddrHexOf(b) == HexPair(b[0]) + [COLON] + rest;
      if i > 0 {
        assert AddrHexOf(b)[3 * i] == rest[3 * (i - 1)] && AddrHexOf(b)[3 * i + 1] == rest[3 * (i - 1) + 1];
        assert i + 1 < |b| ==> AddrHexOf(b)[3 * i + 2] == rest[3 * (i - 1) + 2];
      }
    }
  }

  /** An address (type 6) is shown as upper-case hex pairs with colons between them. */
  lemma {:induction false} AddressOf(b: Bytes, c: Column, i: nat)
    requires c.typ == 6 && c.offset + c.size <= |b| && i < c.size
    ensures var hex, t := [48, 49, 50, 51, 52, 53, 54, 55, 56, 57, 65, 66, 67, 68, 69, 70], Render(b, c);
            && |t| == 3 * c.size - 1
            && t[3 * i] == hex[b[c.offset + i] / 16] && t[3 * i + 1] == hex[b[c.offset + i] % 16]
            && (i + 1 < c.size ==> t[3 * i + 2] == 58)
  {
    hide AddrHexOf;
    AddrHexAt(b[c.offset..c.offset + c.size], i);
  }

  /** A two's-complement value is congruent to its pattern and in the signed range. */
  lemma TwosComplementIs(u: nat, size: nat)
    requires size >= 1 && u < Pow256(size)
    ensures var i := TwosComplement(u, size);
            i % Pow256(size) == u && 0 <= 2 * i + Pow256(size) < 2 * Pow256(size)
  {
    hide Pow256;
    var i := TwosComplement(u, size);
    if i == u {
      ModSmall(u, Pow256(size));
    } else {
      DivModUnique(i, Pow256(size), -1, u);
    }
  }

  /** The signed reading of any column inside the row: the two's-complement value of its
      bytes, or of the low eight of a wider one. */
  lemma {:induction false} SignedReading(b: Bytes, c: Column)
    requires c.offset + c.size <= |b|
    ensures var n := if 1 <= c.size <= 8 then c.size else 8;
            var u := LeValue(b[c.offset..c.offset + Min(c.size, 8)]);
            && u < Pow256(n) && IntAt(b, c.offset, c.size) == TwosComplement(u, n)
            && -0x8000_0000_0000_0000 <= IntAt(b, c.offset, c.size) < 0x8000_0000_0000_0000
  {
    var s := b[c.offset..c.offset + Min(c.size, 8)];
    LeValueBound(s);
    Pow256Values();
    if 1 <= c.size <= 8 {
      IntAtIsTwosComplement(b, c.offset, c.size);
    } else {
      Pow256AtMost(|s|);
    }
  }

  /** A signed column (type 1) is shown as the decimal text of that value. */
  lemma {:induction false} SignedText(b: Bytes, c: Column)
    requires c.typ == 1 && c.offset + c.size <= |b|
    ensures var n := if 1 <= c.size <= 8 then c.size else 8;
            Decimal.ParseInt(Render(b, c)) == Some(TwosComplement(LeValue(b[c.offset..c.offset + Min(c.size, 8)]), n))
  {
    hide IntAt, LeValue, TwosComplement, Decimal.ParseInt, Decimal.FormatInt;
    SignedReading(b, c);
    Decimal.ParseIntOfFormatInt(IntAt(b, c.offset, c.size));
  }

  /** Any other column is shown as the decimal text of its unsigned value. */
  lemma UnsignedText(b: Bytes, c: Column)
    requires c.typ != 1 && c.typ != 3 && c.typ != 6 && c.offset + c.size <= |b|
    ensures Decimal.AllDigits(Render(b, c))
    ensures Decimal.DigitsValue(Render(b, c)) == LeValue(b[c.offset..c.offset + Min(c.size, 8)])
    ensures |Render(b, c)| == 1 || Render(b, c)[0] != 48
  {
    Decimal.DigitsValueOfFormatUint(UintAt(b, c.offset, c.size));
    Decimal.NoLeadingZero(UintAt(b, c.offset, c.size));
  }

  // ----- columns by name

  predicate IsFirstNamed(cols: seq<Column>, name: Bytes, i: nat) {
    i < |cols| && cols[i].name == name && forall j :: 0 <= j < i ==> cols[j].name != name
  }

  /** The first column called `name`. */
  function ColumnNamed(cols: seq<Column>, name: Bytes): (r: Option<Column>)
    ensures r.None? ==> forall i :: 0 <= i < |cols| ==> cols[i].name != name
    ensures r.Some? ==> exists i: nat :: IsFirstNamed(cols, name, i) && r.value == cols[i]
  {
    if cols == [] then None
    else if cols[0].name == name then
      assert IsFirstNamed(cols, name, 0);
      Some(cols[0])
    else
      assert forall i :: 0 <= i < |cols| - 1 ==> cols[1..][i] == cols[i + 1];
      var r := ColumnNamed(cols[1..], name);
      assert r.Some? ==> exists i: nat :: IsFirstNamed(cols, name, i) && r.value == cols[i] by {
        if r.Some? {
          var i: nat :| IsFirstNamed(cols[1..], name, i) && r.value == cols[1..][i];
          assert IsFirstNamed(cols, name, i + 1);
        }
      }
      r
  }

  method FindColumn(cols: seq<Column>, name: Bytes) returns (r: Option<Column>)
    ensures r == ColumnNamed(cols, name)
  {
    for i := 0 to |cols|
      invariant ColumnNamed(cols, name) == ColumnNamed(cols[i..], name)
    {
      if cols[i].name == name {
        return Some(cols[i]);
      }
    }
    return None;
  }

  function UintNamed(cols: seq<Column>, b: Bytes, name: Bytes): U64 {
    match ColumnNamed(cols, name)
    case None => 0
    case Some(c) => UintAt(b, c.offset, c.size)
  }

  method Uint(cols: seq<Column>, b: Bytes, name: Bytes) returns (v: U64)
    ensures v == UintNamed(cols, b, name)
  {
    var c := FindColumn(cols, name);
    if c.None? {
      return 0;
    }
    v := LeUint(b, c.value.offset, c.value.size);
  }

  predicate DistinctNames(cols: seq<Column>) {
    forall i, j :: 0 <= i < j < |cols| ==> cols[i].name != cols[j].name
  }

  lemma {:induction false} ColumnNamedIs(cols: seq<Column>, k: nat)
    requires k < |cols| && DistinctNames(cols)
    ensures ColumnNamed(cols, cols[k].name) == Some(cols[k])
  {
    if k > 0 {
      ColumnNamedIs(cols[1..], k - 1);
    }
  }
}
