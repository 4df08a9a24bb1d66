// Label sets in the Prometheus text-based exposition format: sanitizing names,
// escaping values, printing, and an independent parser that reads them back.

module TextFormat {
  import opened ByteStrings
  import opened Wrappers
  import opened Labels
  import opened Decimal

  const NEWLINE: Byte := 10
  const QUOTE: Byte := 34
  const COMMA: Byte := 44
  const EQUALS: Byte := 61
  const BACKSLASH: Byte := 92
  const UNDERSCORE: Byte := 95
  const LOWER_N: Byte := 110
  const OPEN: Byte := 123
  const CLOSE: Byte := 125

  // ----- names

  predicate IsLetter(c: Byte) {
    97 <= c <= 122 || 65 <= c <= 90 || c == UNDERSCORE
  }

  /** A byte of a name; metric names may have colons, label names may not. */
  predicate IsNameByte(c: Byte, colons: bool) {
    IsLetter(c) || IsDigit(c) || (colons && c == COLON)
  }

  predicate IsName(s: Bytes, colons: bool) {
    s != [] && !IsDigit(s[0]) && forall i :: 0 <= i < |s| ==> IsNameByte(s[i], colons)
  }

  function SanitizeByte(c: Byte, first: bool): Bytes {
    if IsLetter(c) || c == COLON then [c]
    else if IsDigit(c) then if first then [UNDERSCORE, c] else [c]
    else [UNDERSCORE]
  }

  function SanitizeOf(s: Bytes): Bytes {
    if s == [] then [] else SanitizeOf(s[..|s| - 1]) + SanitizeByte(s[|s| - 1], |s| == 1)
  }

  method Sanitize(s: Bytes) returns (r: Bytes)
    ensures r == SanitizeOf(s)
  {
    r := [];
    for i := 0 to |s|
      invariant r == SanitizeOf(s[..i])
    {
      assert s[..i + 1][..i] == s[..i];
      var c := s[i];
      if (97 <= c <= 122) || (65 <= c <= 90) || c == UNDERSCORE || c == COLON {
        r := r + [c];
      } else if 48 <= c <= 57 {
        if i == 0 {
          r := r + [UNDERSCORE];
        }
        r := r + [c];
      } else {
        r := r + [UNDERSCORE];
      }
    }
    assert s[..|s|] == s;
  }

  /** Sanitizing makes a name of any non-empty string. */
  lemma {:induction false} SanitizedIsName(s: Bytes)
    requires s != []
    ensures IsName(SanitizeOf(s), true)
  {
    var n := |s| - 1;
    if n > 0 {
      SanitizedIsName(s[..n]);
    } else {
      assert s[..n] == [];
    }
  }

  lemma NameByteIsKept(c: Byte, first: bool)
    requires IsNameByte(c, true) && (first ==> !IsDigit(c))
    ensures SanitizeByte(c, first) == [c]
  {
  }

  /** Names stay as they are, so sanitizing twice is sanitizing once. */
  lemma {:induction false} SanitizeKeepsNames(s: Bytes)
    requires IsName(s, true)
    ensures SanitizeOf(s) == s
  {
    hide SanitizeByte, IsNameByte;
    var n := |s| - 1;
    assert s == s[..n] + [s[n]];
    NameByteIsKept(s[n], n == 0);
    if n > 0 {
      SanitizeKeepsNames(s[..n]);
    } else {
      assert s[..n] == [];
    }
  }

  lemma {:induction false} SanitizedLength(s: Bytes)
    ensures |SanitizeOf(s)| == |s| + if s != [] && 48 <= s[0] <= 57 then 1 else 0
    ensures s != [] && 48 <= s[0] <= 57 ==> SanitizeOf(s)[0] == 95
  {
    if s != [] {
      SanitizedLength(s[..|s| - 1]);
    }
  }

  /** Letters, digits, underscores and colons are kept, every other byte becomes an
      underscore, and an underscore is put before a leading digit. */
  lemma {:induction false} SanitizedBytes(s: Bytes, i: nat)
    requires i < |s|
    ensures var r, k, c := SanitizeOf(s), if 48 <= s[0] <= 57 then 1 else 0, s[i];
            && |r| == |s| + k && (k == 1 ==> r[0] == 95)
            && r[k + i] == if 97 <= c <= 122 || 65 <= c <= 90 || 48 <= c <= 57 || c == 95 || c == 58 then c else 95
  {
    SanitizedLength(s);
    var n := |s| - 1;
    SanitizedLength(s[..n]);
    if i < n {
      SanitizedBytes(s[..n], i);
    }
  }

  // ----- printing

  function EscapeByte(c: Byte): Bytes {
    if c == BACKSLASH then [BACKSLASH, BACKSLASH]
    else if c == QUOTE then [BACKSLASH, QUOTE]
    else if c == NEWLINE then [BACKSLASH, LOWER_N]
    else [c]
  }

  function Escaped(s: Bytes): Bytes {
    if s == [] then [] else EscapeByte(s[0]) + Escaped(s[1..])
  }

  predicate NeedsEscape(s: Bytes) {
    exists i :: 0 <= i < |s| && s[i] in [BACKSLASH, QUOTE, NEWLINE]
  }

  lemma {:induction false} NothingToEscape(s: Bytes)
    requires !NeedsEscape(s)
    ensures Escaped(s) == s
  {
    if s != [] {
      assert s[0] !in [BACKSLASH, QUOTE, NEWLINE];
      assert forall i :: 0 <= i < |s| - 1 ==> s[1..][i] == s[i + 1];
      NothingToEscape(s[1..]);
    }
  }

  method EscapeLabel(s: Bytes) returns (r: Bytes)
    ensures r == Escaped(s)
  {
    if !NeedsEscape(s) {
      NothingToEscape(s);
      return s;
    }
    r := [];
    for i := 0 to |s|
      invariant r + Escaped(s[i..]) == Escaped(s)
    {
      assert s[i..][1..] == s[i + 1..];
      assert r + (EscapeByte(s[i]) + Escaped(s[i + 1..])) == r + EscapeByte(s[i]) + Escaped(s[i + 1..]);
      r := r + EscapeByte(s[i]);
    }
  }

  function PairText(l: Label): Bytes {
    l.name + [EQUALS, QUOTE] + Escaped(l.value) + [QUOTE]
  }

  /** The pairs of a label set, separated by commas. */
  function PairsText(labels: seq<Label>): Bytes {
    if labels == [] then []
    else if |labels| == 1 then PairText(labels[0])
    else PairText(labels[0]) + [COMMA] + PairsText(labels[1..])
  }

  function LabelsText(labels: seq<Label>): Bytes {
    if labels == [] then [] else [OPEN] + PairsText(labels) + [CLOSE]
  }

  lemma {:induction false} PairsTextSnoc(labels: seq<Label>, l: Label)
    ensures PairsText(labels + [l])
         == PairsText(labels) + (if labels == [] then [] else [COMMA]) + PairText(l)
  {
    hide PairText;
    if labels == [] {
      assert labels + [l] == [l];
    } else {
      PairsTextSnoc(labels[1..], l);
      assert (labels + [l])[1..] == labels[1..] + [l];
      if |labels| == 1 {
        assert labels[1..] == [];
      } else {
        assert PairText(labels[0]) + [COMMA] + (PairsText(labels[1..]) + [COMMA] + PairText(l))
            == PairsText(labels) + [COMMA] + PairText(l);
      }
    }
  }

  lemma NoPairs()
    ensures PairsText([]) == []
  {
  }

  method WritePair(b: Bytes, l: Label) returns (r: Bytes)
    ensures r == b + PairText(l)
  {
    hide Escaped;
    r := b + l.name;
    r := r + [EQUALS, QUOTE];
    var v := EscapeLabel(l.value);
    r := r + v;
    r := r + [QUOTE];
  }

  /** Prints a label set; an empty one prints nothing. */
  method WriteTextLabels(b: Bytes, labels: seq<Label>) returns (r: Bytes)
    ensures r == b + LabelsText(labels)
  {
    hide PairText, PairsText;
    if |labels| == 0 {
      return b;
    }
    r := b + [OPEN];
    NoPairs();
    for i := 0 to |labels|
      invariant r == b + [OPEN] + PairsText(labels[..i])
    {
      PairsTextSnoc(labels[..i], labels[i]);
      assert labels[..i + 1] == labels[..i] + [labels[i]];
      if i > 0 {
        r := r + [COMMA];
      }
      r := WritePair(r, labels[i]);
    }
    assert labels[..|labels|] == labels;
    r := r + [CLOSE];
  }

  // ----- the printed form, in bytes

  /** Backslash, quote and newline are the bytes that are escaped. */
  lemma EscapedIs(c: Byte, s: Bytes)
    ensures Escaped([]) == []
    ensures Escaped([c] + s)
         == (if c == 92 then [92, 92] else if c == 34 then [92, 34] else if c == 10 then [92, 110] else [c])
            + Escaped(s)
  {
    assert ([c] + s)[1..] == s;
  }

  /** One pair, in braces. */
  function Braced(l: Label): Bytes {
    [123] + l.name + [61, 34] + Escaped(l.value) + [34, 125]
  }

  /** A printed set is braces around `name="value"` pairs with commas between them. */
  lemma LabelsTextOfOne(l: Label)
    ensures LabelsText([]) == [] && LabelsText([l]) == Braced(l)
  {
    hide Escaped;
  }

  lemma BracedTail(l: Label)
    ensures Braced(l)[1..] == PairText(l) + [CLOSE]
  {
    hide Escaped;
  }

  lemma OnePairMore(p: Bytes, t: Bytes)
    ensures [OPEN] + (p + [COMMA] + t) + [CLOSE] == ([OPEN] + p + [CLOSE])[..|p| + 1] + [44] + (t + [CLOSE])
  {
    assert ([OPEN] + p + [CLOSE])[..|p| + 1] == [OPEN] + p;
  }

  lemma {:induction false} LabelsTextSnoc(labels: seq<Label>, l: Label)
    requires labels != []
    ensures var front := LabelsText(labels);
            front != [] && LabelsText(labels + [l]) == front[..|front| - 1] + [44] + Braced(l)[1..]
  {
    hide PairText, PairsText, Braced;
    PairsTextSnoc(labels, l);
    BracedTail(l);
    OnePairMore(PairsText(labels), PairText(l));
  }

  // ----- an independent parser

  datatype Parsed<T> = Parsed(value: T, rest: Bytes)

  function NameLength(s: Bytes, colons: bool): (n: nat)
    ensures n <= |s|
  {
    if s == [] || !IsNameByte(s[0], colons) then 0 else 1 + NameLength(s[1..], colons)
  }

  /** The longest run of name bytes, if it is a name. */
  function ParseName(s: Bytes, colons: bool): (r: Option<Parsed<Bytes>>)
    ensures r.Some? ==> |r.value.rest| < |s|
  {
    var n := NameLength(s, colons);
    if n == 0 || IsDigit(s[0]) then None else Some(Parsed(s[..n], s[n..]))
  }

  /** A quoted value behind its opening quote. */
  function ParseQuoted(s: Bytes): (r: Option<Parsed<Bytes>>)
    ensures r.Some? ==> |r.value.rest| < |s|
  {
    if s == [] || s[0] == NEWLINE then None
    else if s[0] == QUOTE then Some(Parsed([], s[1..]))
    else if s[0] == BACKSLASH then
      if |s| < 2 then None
      else if s[1] == BACKSLASH || s[1] == QUOTE then Prepend(s[1], ParseQuoted(s[2..]))
      else if s[1] == LOWER_N then Prepend(NEWLINE, ParseQuoted(s[2..]))
      else None
    else Prepend(s[0], ParseQuoted(s[1..]))
  }

  function Prepend(c: Byte, p: Option<Parsed<Bytes>>): Option<Parsed<Bytes>> {
    match p
    case None => None
    case Some(Parsed(value, rest)) => Some(Parsed([c] + value, rest))
  }

  function ParsePair(s: Bytes, colons: bool): (r: Option<Parsed<Label>>)
    ensures r.Some? ==> |r.value.rest| < |s|
  {
    match ParseName(s, colons)
    case None => None
    case Some(Parsed(name, after)) =>
      if |after| < 2 || after[0] != EQUALS || after[1] != QUOTE then None
      else
        match ParseQuoted(after[2..])
        case None => None
        case Some(Parsed(value, rest)) => Some(Parsed(Label(name, value), rest))
  }

  /** The pairs up to the closing brace; a comma may precede the brace. */
  function ParsePairs(s: Bytes, colons: bool): Option<Parsed<seq<Label>>>
    decreases |s|
  {
    if s != [] && s[0] == CLOSE then Some(Parsed([], s[1..]))
    else
      match ParsePair(s, colons)
      case None => None
      case Some(Parsed(l, after)) =>
        if after == [] then None
        else if after[0] == CLOSE then Some(Parsed([l], after[1..]))
        else if after[0] != COMMA then None
        else
          match ParsePairs(after[1..], colons)
          case None => None
          case Some(Parsed(ls, rest)) => Some(Parsed([l] + ls, rest))
  }

  /** An optional label set in braces. */
  function ParseLabels(s: Bytes, colons: bool): Option<Parsed<seq<Label>>> {
    if s == [] || s[0] != OPEN then Some(Parsed([], s)) else ParsePairs(s[1..], colons)
  }

  // ----- printed label sets read back

  lemma EscapedByteReads(c: Byte, tail: Bytes)
    ensures ParseQuoted(EscapeByte(c) + tail) == Prepend(c, ParseQuoted(tail))
  {
    hide Prepend;
    var e := EscapeByte(c);
    assert (e + tail)[|e|..] == tail;
  }

  lemma {:induction false} QuotedRoundTrip(v: Bytes, rest: Bytes)
    ensures ParseQuoted(Escaped(v) + [QUOTE] + rest) == Some(Parsed(v, rest))
  {
    hide EscapeByte;
    if v == [] {
      var s := [QUOTE] + rest;
      assert Escaped(v) + [QUOTE] + rest == s && s[1..] == rest;
    } else {
      hide ParseQuoted;
      var tail := Escaped(v[1..]) + [QUOTE] + rest;
      QuotedRoundTrip(v[1..], rest);
      EscapedByteReads(v[0], tail);
      assert Escaped(v) + [QUOTE] + rest == EscapeByte(v[0]) + tail;
      assert v == [v[0]] + v[1..];
    }
  }

  lemma {:induction false} NameLengthIs(s: Bytes, rest: Bytes, colons: bool)
    requires forall i :: 0 <= i < |s| ==> IsNameByte(s[i], colons)
    requires rest != [] && !IsNameByte(rest[0], colons)
    ensures NameLength(s + rest, colons) == |s|
  {
    if s == [] {
      assert s + rest == rest;
    } else {
      assert (s + rest)[1..] == s[1..] + rest;
      NameLengthIs(s[1..], rest, colons);
    }
  }

  lemma PairRoundTrip(l: Label, rest: Bytes, colons: bool)
    requires IsName(l.name, colons)
    ensures ParsePair(PairText(l) + rest, colons) == Some(Parsed(l, rest))
  {
    hide Escaped, ParseQuoted, NameLength;
    var quoted := Escaped(l.value) + [QUOTE] + rest;
    var after := [EQUALS, QUOTE] + quoted;
    var s := PairText(l) + rest;
    assert s == l.name + after;
    NameLengthIs(l.name, after, colons);
    assert s[..|l.name|] == l.name && s[|l.name|..] == after && s[0] == l.name[0];
    assert after[2..] == quoted;
    QuotedRoundTrip(l.value, rest);
  }

  predicate HasColon(s: Bytes) {
    COLON in s
  }

  lemma {:induction false} NameStopsAtColon(s: Bytes, rest: Bytes)
    requires HasColon(s) && forall i :: 0 <= i < |s| ==> IsNameByte(s[i], true)
    ensures NameLength(s + rest, false) < |s| && s[NameLength(s + rest, false)] == COLON
  {
    assert (s + rest)[0] == s[0];
    if s[0] != COLON {
      assert (s + rest)[1..] == s[1..] + rest;
      assert s == [s[0]] + s[1..];
      NameStopsAtColon(s[1..], rest);
    }
  }

  /** A strict reader rejects a label whose name has a colon. */
  lemma ColonIsRejected(l: Label, rest: Bytes)
    requires IsName(l.name, true) && HasColon(l.name)
    ensures ParsePair(PairText(l) + rest, false) == None
  {
    hide Escaped, ParseQuoted, NameLength;
    var tail := [EQUALS, QUOTE] + Escaped(l.value) + [QUOTE] + rest;
    var s := PairText(l) + rest;
    assert s == l.name + tail;
    NameStopsAtColon(l.name, tail);
    var n := NameLength(s, false);
    assert s[n..][0] == s[n] == l.name[n] == COLON;
  }

  /** No name has a colon. */
  predicate ColonFree(labels: seq<Label>) {
    forall i :: 0 <= i < |labels| ==> !HasColon(labels[i].name)
  }

  predicate Named(labels: seq<Label>) {
    forall i :: 0 <= i < |labels| ==> IsName(labels[i].name, true)
  }

  lemma StrictName(s: Bytes)
    requires IsName(s, true) && !HasColon(s)
    ensures IsName(s, false)
  {
    forall i | 0 <= i < |s| ensures IsNameByte(s[i], false) {
      assert s[i] in s;
    }
  }

  lemma {:induction false} PairsRoundTrip(labels: seq<Label>, rest: Bytes, colons: bool)
    requires labels != [] && Named(labels)
    ensures ParsePairs(PairsText(labels) + [CLOSE] + rest, colons)
         == if colons || ColonFree(labels) then Some(Parsed(labels, rest)) else None
    decreases |labels|
  {
    hide PairText, ParsePair, IsName, HasColon;
    var l, ls := labels[0], labels[1..];
    var tail := if ls == [] then [CLOSE] + rest else [COMMA] + (PairsText(ls) + [CLOSE] + rest);
    var s := PairsText(labels) + [CLOSE] + rest;
    assert s == PairText(l) + tail;
    PairDoesNotClose(l, tail);
    assert labels == [l] + ls;
    if !colons && HasColon(l.name) {
      ColonIsRejected(l, tail);
    } else {
      if !colons {
        StrictName(l.name);
      }
      PairRoundTrip(l, tail, colons);
      if ls == [] {
        assert tail[1..] == rest && labels == [l];
        assert ColonFree(labels) <==> !HasColon(l.name);
      } else {
        assert tail[1..] == PairsText(ls) + [CLOSE] + rest;
        PairsRoundTrip(ls, rest, colons);
        assert ColonFree(labels) <==> !HasColon(l.name) && ColonFree(ls);
      }
    }
  }

  lemma PairDoesNotClose(l: Label, tail: Bytes)
    requires IsName(l.name, true)
    ensures (PairText(l) + tail)[0] != CLOSE
  {
  }

  /** Printed label sets read back, whatever the values: backslashes, quotes and
      newlines included.  A reader that knows the strict label grammar, without
      colons, reads them back exactly when no name has a colon. */
  lemma {:induction false} LabelsReadBack(labels: seq<Label>, rest: Bytes, colons: bool)
    requires Named(labels)
    requires rest == [] || rest[0] != OPEN
    ensures ParseLabels(LabelsText(labels) + rest, colons) == Some(Parsed(labels, rest))
            <==> colons || ColonFree(labels)
  {
    hide PairsText, ParsePairs, IsName, HasColon;
    if labels == [] {
      assert LabelsText(labels) + rest == rest;
    } else {
      var s := LabelsText(labels) + rest;
      assert s[1..] == PairsText(labels) + [CLOSE] + rest;
      PairsRoundTrip(labels, rest, colons);
    }
  }

  /** Such names do come out of sanitizing: `a:b` is kept, and a strict reader rejects
      the label set. */
  lemma {:induction false} SanitizedColonIsRejected(value: Bytes)
    ensures var name: Bytes := [97, COLON, 98];
            && SanitizeOf(name) == name
            && ParseLabels(LabelsText([Label(SanitizeOf(name), value)]), false).None?
  {
    hide PairText, ParsePairs;
    var name: Bytes := [97, COLON, 98];
    SanitizeKeepsNames(name);
    var labels := [Label(name, value)];
    assert HasColon(name) by {
      assert name[1] == COLON;
    }
    assert !ColonFree(labels) by {
      assert labels[0].name == name;
    }
    PairsRoundTrip(labels, [], false);
    assert LabelsText(labels)[1..] == PairsText(labels) + [CLOSE] + [];
  }

  lemma {:induction false} EscapedHasNoNewline(s: Bytes)
    ensures NEWLINE !in Escaped(s)
  {
    if s != [] {
      EscapedHasNoNewline(s[1..]);
    }
  }

  lemma {:induction false} PairsHaveNoNewline(labels: seq<Label>)
    requires Named(labels)
    ensures NEWLINE !in PairsText(labels)
  {
    if labels != [] {
      EscapedHasNoNewline(labels[0].value);
      assert IsName(labels[0].name, true);
      assert NEWLINE !in PairText(labels[0]);
      PairsHaveNoNewline(labels[1..]);
    }
  }

  /** A printed label set stays on one line. */
  lemma {:induction false} LabelsStayOnOneLine(labels: seq<Label>)
    requires Named(labels)
    ensures NEWLINE !in LabelsText(labels)
  {
    PairsHaveNoNewline(labels);
  }
}
