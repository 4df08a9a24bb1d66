// Decimal numbers as the Go standard library prints and parses them:
// strconv.FormatUint, strconv.FormatInt and fmt's %d on the printing side,
// strconv.ParseInt (base 10, 64 bits) and strconv.Atoi on the parsing side.

module Decimal {
  import opened ByteStrings
  import opened Wrappers

  const MINUS: Byte := 45
  const PLUS: Byte := 43

  predicate IsDigit(c: Byte) {
    48 <= c <= 57
  }

  predicate AllDigits(s: Bytes) {
    forall i :: 0 <= i < |s| ==> IsDigit(s[i])
  }

  function FormatUint(n: nat): (s: Bytes)
    ensures s != [] && AllDigits(s)
  {
    if n < 10 then [48 + n] else FormatUint(n / 10) + [48 + n % 10]
  }

  function FormatInt(i: int): (s: Bytes) {
    if i < 0 then [MINUS] + FormatUint(-i) else FormatUint(i)
  }

  /** The number a digit string denotes, leading zeros allowed. */
  function DigitsValue(s: Bytes): nat
    requires AllDigits(s)
  {
    if s == [] then 0 else 10 * DigitsValue(s[..|s| - 1]) + (s[|s| - 1] - 48)
  }

  /** An optional sign, at least one digit, and a value that fits an int64. */
  function ParseInt(s: Bytes): Option<I64> {
    if s == [] then
      None
    else
      var signed := s[0] == MINUS || s[0] == PLUS;
      var digits := if signed then s[1..] else s;
      if digits == [] || !AllDigits(digits) then
        None
      else
        var v := DigitsValue(digits);
        if s[0] == MINUS then
          if v <= TWO_63 then Some(-(v as int)) else None
        else
          if v < TWO_63 then Some(v) else None
  }

  lemma {:induction false} DigitsValueOfFormatUint(n: nat)
    ensures DigitsValue(FormatUint(n)) == n
  {
    var s := FormatUint(n);
    if n < 10 {
      assert s[..|s| - 1] == [];
    } else {
      DigitsValueOfFormatUint(n / 10);
      assert s[..|s| - 1] == FormatUint(n / 10);
    }
  }

  /** Parsing undoes printing on the whole int64 range. */
  lemma ParseIntOfFormatInt(i: I64)
    ensures ParseInt(FormatInt(i)) == Some(i)
  {
    var n: int := if i < 0 then -(i as int) else i;
    DigitsValueOfFormatUint(n);
    var d := FormatUint(n);
    assert IsDigit(d[0]);
    if i < 0 {
      assert FormatInt(i)[1..] == d;
    }
  }

  lemma FormatUintInjective(m: nat, n: nat)
    requires FormatUint(m) == FormatUint(n)
    ensures m == n
  {
    DigitsValueOfFormatUint(m);
    DigitsValueOfFormatUint(n);
  }

  /** No byte of a printed integer is outside the sign and the digits. */
  lemma FormatIntBytes(i: int)
    ensures FormatInt(i) != []
    ensures forall j :: 0 <= j < |FormatInt(i)| ==> FormatInt(i)[j] == MINUS || IsDigit(FormatInt(i)[j])
  {
    assert AllDigits(FormatUint(if i < 0 then -i else i));
  }

  /** No printed number has a leading zero. */
  lemma {:induction false} NoLeadingZero(n: nat)
    ensures n < 10 ==> FormatUint(n) == [48 + n]
    ensures n >= 10 ==> |FormatUint(n)| >= 2 && FormatUint(n)[0] != 48
  {
    if n >= 10 {
      NoLeadingZero(n / 10);
      assert FormatUint(n)[0] == FormatUint(n / 10)[0];
    }
  }

  function Pow10(n: nat): nat {
    if n == 0 then 1 else 10 * Pow10(n - 1)
  }

  /** The first digit counts by its place. */
  lemma {:induction false} DigitsValueIs(x: Byte, s: Bytes)
    requires IsDigit(x) && AllDigits(s)
    ensures AllDigits([x] + s)
    ensures DigitsValue([x] + s) == (x - 48) * Pow10(|s|) + DigitsValue(s)
  {
    if s == [] {
      assert [x] + s == [x] && [x][..0] == [];
    } else {
      var n := |s| - 1;
      DigitsValueIs(x, s[..n]);
      assert ([x] + s)[..n + 1] == [x] + s[..n];
      assert 10 * ((x - 48) * Pow10(n)) == (x - 48) * Pow10(n + 1);
    }
  }

  /** Which strings parse, and to what: digits behind an optional sign, leading zeros
      included, whose value fits an int64. */
  lemma {:induction false} ParseIntIs(s: Bytes)
    ensures var signed := s != [] && (s[0] == 43 || s[0] == 45);
            var digits := if signed then s[1..] else s;
            if digits == [] || exists i :: 0 <= i < |digits| && !(48 <= digits[i] <= 57) then ParseInt(s) == None
            else
              AllDigits(digits) &&
              var v: int := if s[0] == 45 then -(DigitsValue(digits) as int) else DigitsValue(digits);
              if -0x8000_0000_0000_0000 <= v < 0x8000_0000_0000_0000 then ParseInt(s) == Some(v)
              else ParseInt(s) == None
  {
    hide DigitsValue;
    if s != [] {
      var digits := if s[0] == 43 || s[0] == 45 then s[1..] else s;
      assert AllDigits(digits) <==> !exists i :: 0 <= i < |digits| && !(48 <= digits[i] <= 57);
    }
  }
}
