// Decoding tmstat addresses from colon-hex text to IP text, and the link-local
// test on that text.
//
// The text of an IPv6 address is left to the network library: it is a parameter
// of every function that needs it.

module Addresses {
  import opened ByteStrings
  import opened Wrappers
  import opened Decimal
  import opened TmstatRow

  const DOT: Byte := 46
  const ADDRESS_LENGTH: nat := 20
  const V4_PREFIX: Bytes := [49, 54, 57, 46, 50, 53, 52, 46] // "169.254."
  const V6_PREFIX: Bytes := [102, 101, 56, 48, 58]           // "fe80:"

  // ----- splitting and hex parsing

  /** The parts between colons; one part when there is none. */
  function SplitColon(s: Bytes): (parts: seq<Bytes>)
    ensures parts != []
  {
    var k := FirstIndex(s, COLON);
    if k == |s| then [s] else [s[..k]] + SplitColon(s[k + 1..])
  }

  function HexValue(c: Byte): Option<nat> {
    if 48 <= c <= 57 then Some(c - 48)
    else if 65 <= c <= 70 then Some(c - 55)
    else if 97 <= c <= 102 then Some(c - 87)
    else None
  }

  function HexNumber(s: Bytes): Option<nat> {
    if s == [] then Some(0)
    else
      var high, low := HexNumber(s[..|s| - 1]), HexValue(s[|s| - 1]);
      if high.None? || low.None? then None else Some(16 * high.value + low.value)
  }

  /** An unsigned hex number of at least one digit that fits a byte. */
  function ParseHexByte(s: Bytes): Option<Byte> {
    var v := HexNumber(s);
    if s == [] || v.None? || v.value > 255 then None else Some(v.value)
  }

  function ParseParts(parts: seq<Bytes>): Option<Bytes> {
    if parts == [] then Some([])
    else
      var front, last := ParseParts(parts[..|parts| - 1]), ParseHexByte(parts[|parts| - 1]);
      if front.None? || last.None? then None else Some(front.value + [last.value])
  }

  // ----- decoding

  function DottedQuad(b: Bytes): Bytes
    requires |b| == 4
  {
    FormatUint(b[0]) + [DOT] + FormatUint(b[1]) + [DOT] + FormatUint(b[2]) + [DOT] + FormatUint(b[3])
  }

  /** Bytes 10 and 11 mark an IPv4 address. */
  predicate IsMapped(b: Bytes)
    requires |b| >= 16
  {
    b[10] == 0xff && b[11] == 0xff
  }

  /** The text of the 16-byte IP in an address; the route domain is dropped. */
  function IpText(b: Bytes, ip6: Bytes -> Bytes): Bytes
    requires |b| >= 16
  {
    if IsMapped(b) then DottedQuad(b[12..16]) else ip6(b[..16])
  }

  function DecodeAddrOf(s: Bytes, ip6: Bytes -> Bytes): Option<Bytes> {
    var parts := SplitColon(s);
    if |parts| != ADDRESS_LENGTH then None
    else
      match ParseParts(parts)
      case None => None
      case Some(b) => if |b| == ADDRESS_LENGTH then Some(IpText(b, ip6)) else None
  }

  method DecodeAddr(s: Bytes, ip6: Bytes -> Bytes) returns (r: Option<Bytes>)
    ensures r == DecodeAddrOf(s, ip6)
  {
    var parts := SplitColon(s);
    if |parts| != ADDRESS_LENGTH {
      return None;
    }
    var b := new Byte[ADDRESS_LENGTH];
    for i := 0 to |parts|
      invariant ParseParts(parts[..i]) == Some(b[..i])
    {
      assert parts[..i + 1][..i] == parts[..i];
      var v := ParseHexByte(parts[i]);
      if v.None? {
        PartsFail(parts, i);
        return None;
      }
      b[i] := v.value;
      assert b[..i + 1] == b[..i] + [v.value];
    }
    assert parts[..|parts|] == parts && b[..] == b[..|parts|];
    if b[10] == 0xff && b[11] == 0xff {
      return Some(DottedQuad(b[12..16]));
    }
    return Some(ip6(b[..16]));
  }

  lemma {:induction false} PartsFail(parts: seq<Bytes>, i: nat)
    requires i < |parts| && ParseHexByte(parts[i]).None?
    ensures ParseParts(parts).None?
  {
    if i < |parts| - 1 {
      PartsFail(parts[..|parts| - 1], i);
    }
  }

  // ----- the decoder undoes the rendering

  function HexPairs(b: Bytes): (parts: seq<Bytes>)
    ensures |parts| == |b|
  {
    if b == [] then [] else [HexPair(b[0])] + HexPairs(b[1..])
  }

  lemma HexPairReads(x: Byte)
    ensures ParseHexByte(HexPair(x)) == Some(x)
    ensures FirstIndex(HexPair(x), COLON) == 2 && HexPair(x)[0] != COLON && HexPair(x)[1] != COLON
  {
    var p := HexPair(x);
    assert p[..1] == [p[0]] && p[..1][..0] == [] && p[1..] == [p[1]] && p[1..][1..] == [];
    assert HexValue(p[0]) == Some(x / 16) && HexValue(p[1]) == Some(x % 16);
    assert HexNumber(p[..1]) == Some(x / 16);
    assert HexNumber(p) == Some(16 * (x / 16) + x % 16);
  }

  lemma {:induction false} RenderedSplits(b: Bytes)
    requires b != []
    ensures SplitColon(AddrHexOf(b)) == HexPairs(b)
  {
    var p := HexPair(b[0]);
    HexPairReads(b[0]);
    if |b| == 1 {
      assert HexPairs(b[1..]) == [];
    } else {
      var s := AddrHexOf(b);
      assert s == p + [COLON] + AddrHexOf(b[1..]);
      FirstIndexIs(p, COLON, AddrHexOf(b[1..]));
      assert s[..2] == p && s[3..] == AddrHexOf(b[1..]);
      RenderedSplits(b[1..]);
    }
  }

  lemma {:induction false} HexPairsSnoc(b: Bytes, x: Byte)
    ensures HexPairs(b + [x]) == HexPairs(b) + [HexPair(x)]
  {
    hide HexPair;
    if b == [] {
      assert b + [x] == [x] && [x][1..] == [];
    } else {
      assert (b + [x])[1..] == b[1..] + [x];
      HexPairsSnoc(b[1..], x);
    }
  }

  lemma {:induction false} HexPairsParse(b: Bytes)
    ensures ParseParts(HexPairs(b)) == Some(b)
  {
    hide HexPair, ParseHexByte;
    if b != [] {
      var n := |b| - 1;
      assert b == b[..n] + [b[n]];
      HexPairsSnoc(b[..n], b[n]);
      HexPairsParse(b[..n]);
      HexPairReads(b[n]);
      assert HexPairs(b)[..n] == HexPairs(b[..n]);
    }
  }

  /** Decoding a rendered address gives its IP text; addresses of any other length
      than 20 bytes are left alone. */
  lemma {:induction false} DecodeOfRendered(b: Bytes, ip6: Bytes -> Bytes)
    ensures DecodeAddrOf(AddrHexOf(b), ip6) == if |b| == ADDRESS_LENGTH then Some(IpText(b, ip6)) else None
  {
    hide AddrHexOf, ParseParts, HexPairs, IpText, FirstIndex;
    if b == [] {
      EmptySplits();
    } else {
      RenderedSplits(b);
      HexPairsParse(b);
    }
  }

  lemma EmptySplits()
    ensures AddrHexOf([]) == [] && SplitColon([]) == [[]]
  {
  }

  // ----- dotted quads

  lemma DotSplit(m: nat, r: Bytes, n: nat, s: Bytes)
    requires FormatUint(m) + [DOT] + r == FormatUint(n) + [DOT] + s
    ensures m == n && r == s
  {
    assert AllDigits(FormatUint(m)) && AllDigits(FormatUint(n));
    CutIsUnique(FormatUint(m), r, FormatUint(n), s, DOT);
    FormatUintInjective(m, n);
  }

  function QuadTail(b: Bytes): Bytes
    requires |b| == 4
  {
    FormatUint(b[2]) + [DOT] + FormatUint(b[3])
  }

  lemma QuadSplits(b: Bytes)
    requires |b| == 4
    ensures DottedQuad(b) == FormatUint(b[0]) + [DOT] + (FormatUint(b[1]) + [DOT] + QuadTail(b))
  {
    hide FormatUint;
  }

  /** Different IPv4 addresses have different texts. */
  lemma DottedQuadInjective(a: Bytes, b: Bytes)
    requires |a| == |b| == 4 && DottedQuad(a) == DottedQuad(b)
    ensures a == b
  {
    hide FormatUint, DottedQuad;
    QuadSplits(a);
    QuadSplits(b);
    DotSplit(a[0], FormatUint(a[1]) + [DOT] + QuadTail(a), b[0], FormatUint(b[1]) + [DOT] + QuadTail(b));
    DotSplit(a[1], QuadTail(a), b[1], QuadTail(b));
    DotSplit(a[2], FormatUint(a[3]), b[2], FormatUint(b[3]));
    FormatUintInjective(a[3], b[3]);
  }

  lemma QuadHasNoColon(b: Bytes)
    requires |b| == 4
    ensures COLON !in DottedQuad(b)
  {
    hide FormatUint, DottedQuad;
    QuadSplits(b);
    DigitsHaveNoColon(b[0]);
    DigitsHaveNoColon(b[1]);
    DigitsHaveNoColon(b[2]);
    DigitsHaveNoColon(b[3]);
  }

  lemma QuadIsNotEmpty(b: Bytes)
    requires |b| == 4
    ensures DottedQuad(b) != []
  {
  }

  lemma DigitsHaveNoColon(n: nat)
    ensures COLON !in FormatUint(n)
  {
    assert AllDigits(FormatUint(n));
  }

  // ----- what decoding keeps

  predicate HasPrefix(s: Bytes, p: Bytes) {
    |p| <= |s| && s[..|p|] == p
  }

  function LowerHex(n: int): Byte
    requires 0 <= n < 16
  {
    if n < 10 then 48 + n else 87 + n
  }

  /** Lower-case hex without leading zeros. */
  function HexText(v: nat): (s: Bytes)
    ensures s != []
  {
    if v < 16 then [LowerHex(v)] else HexText(v / 16) + [LowerHex(v % 16)]
  }

  lemma {:induction false} HexTextReads(v: nat)
    ensures HexNumber(HexText(v)) == Some(v)
    ensures forall i :: 0 <= i < |HexText(v)| ==> HexValue(HexText(v)[i]).Some?
  {
    var s := HexText(v);
    var n := |s| - 1;
    if v < 16 {
      assert s[..n] == [] && HexValue(s[n]) == Some(v);
    } else {
      HexTextReads(v / 16);
      assert s[..n] == HexText(v / 16) && HexValue(s[n]) == Some(v % 16);
    }
  }

  /** The first 16-bit group of an IPv6 address. */
  function FirstGroup(b: Bytes): nat
    requires |b| >= 2
  {
    var hi: int, lo: int := b[0], b[1];
    256 * hi + lo
  }

  /** A 16-byte IP that is not an IPv4 address. */
  predicate IsIp6(a: Bytes) {
    |a| == 16 && !IsMapped(a)
  }

  /** What the library promises of the text of an IPv6 address (section 4 of RFC
      5952): different addresses have different texts, every text has a colon, and it
      starts with the first group and a colon, or with a zero or a colon when that
      group is zero.  Nothing is said of IPv4 addresses, which it prints differently
      and which are never passed to it. */
  ghost predicate Ip6Text(ip6: Bytes -> Bytes) {
    && (forall a, b :: IsIp6(a) && IsIp6(b) && ip6(a) == ip6(b) ==> a == b)
    && (forall a :: IsIp6(a) ==> COLON in ip6(a))
    && (forall a :: IsIp6(a) && FirstGroup(a) > 0 ==> HasPrefix(ip6(a), HexText(FirstGroup(a)) + [COLON]))
    && (forall a :: IsIp6(a) && FirstGroup(a) == 0 ==> ip6(a)[0] == 48 || ip6(a)[0] == COLON)
  }

  /** The groups in hex, separated by colons, none left out. */
  function Groups(b: Bytes): Bytes {
    if |b| < 2 then []
    else if |b| < 4 then HexText(FirstGroup(b))
    else HexText(FirstGroup(b)) + [COLON] + Groups(b[2..])
  }

  lemma HexTextHasNoColon(v: nat)
    ensures COLON !in HexText(v)
  {
    HexTextReads(v);
    forall i | 0 <= i < |HexText(v)|
      ensures HexText(v)[i] != COLON
    {
      assert HexValue(HexText(v)[i]).Some?;
    }
  }

  lemma FirstGroupInjective(a: Bytes, b: Bytes)
    requires |a| >= 2 && |b| >= 2 && HexText(FirstGroup(a)) == HexText(FirstGroup(b))
    ensures a[..2] == b[..2]
  {
    HexTextReads(FirstGroup(a));
    HexTextReads(FirstGroup(b));
  }

  lemma {:induction false} GroupsInjective(a: Bytes, b: Bytes)
    requires |a| == |b| && |a| % 2 == 0 && Groups(a) == Groups(b)
    ensures a == b
  {
    hide HexText, FirstGroup;
    if |a| >= 2 {
      assert a == a[..2] + a[2..] && b == b[..2] + b[2..];
      if |a| >= 4 {
        var x, y := HexText(FirstGroup(a)), HexText(FirstGroup(b));
        HexTextHasNoColon(FirstGroup(a));
        HexTextHasNoColon(FirstGroup(b));
        CutIsUnique(x, Groups(a[2..]), y, Groups(b[2..]), COLON);
        GroupsInjective(a[2..], b[2..]);
      }
      FirstGroupInjective(a, b);
    }
  }

  /** The promise can be kept: printing all eight groups keeps it. */
  lemma GroupsAreIp6Text()
    ensures Ip6Text(b => Groups(b))
  {
    hide HexText, Groups;
    forall a, b | IsIp6(a) && IsIp6(b) && Groups(a) == Groups(b)
      ensures a == b
    {
      GroupsInjective(a, b);
    }
    forall a | IsIp6(a)
      ensures HasPrefix(Groups(a), HexText(FirstGroup(a)) + [COLON]) && COLON in Groups(a)
      ensures FirstGroup(a) == 0 ==> Groups(a)[0] == 48
    {
      GroupsStart(a);
    }
  }

  lemma GroupsStart(a: Bytes)
    requires |a| >= 4
    ensures HasPrefix(Groups(a), HexText(FirstGroup(a)) + [COLON]) && COLON in Groups(a)
    ensures FirstGroup(a) == 0 ==> Groups(a)[0] == 48
  {
    var x := HexText(FirstGroup(a));
    assert Groups(a) == (x + [COLON]) + Groups(a[2..]);
    assert Groups(a)[|x|] == COLON;
  }

  /** The two addresses agree on the bytes that decoding keeps. */
  predicate SameKept(a: Bytes, b: Bytes)
    requires |a| == |b| == ADDRESS_LENGTH
  {
    IsMapped(a) == IsMapped(b) && if IsMapped(a) then a[12..16] == b[12..16] else a[..16] == b[..16]
  }

  /** Two addresses decode to the same text exactly when they are both IPv4 with the
      same four bytes, or both IPv6 with the same sixteen.  The route domain never
      matters, nor do the first ten bytes of an IPv4 address. */
  lemma {:induction false} DecodeAlikeIff(a: Bytes, b: Bytes, ip6: Bytes -> Bytes)
    requires |a| == |b| == ADDRESS_LENGTH && Ip6Text(ip6)
    ensures IpText(a, ip6) == IpText(b, ip6) <==> SameKept(a, b)
    ensures IpText(a, ip6) != []
  {
    hide DottedQuad;
    QuadIsNotEmpty(a[12..16]);
    if IsMapped(a) {
      QuadHasNoColon(a[12..16]);
    }
    if IsMapped(b) {
      QuadHasNoColon(b[12..16]);
    }
    if IsMapped(a) && IsMapped(b) && IpText(a, ip6) == IpText(b, ip6) {
      DottedQuadInjective(a[12..16], b[12..16]);
    }
  }

  // ----- which strings decode, and to what

  /** The IP text of an address, said of its bytes: four decimal numbers with dots
      between them when bytes 10 and 11 are 255, else the library's text of the first
      16 bytes. */
  lemma {:induction false} IpTextIs(b: Bytes, ip6: Bytes -> Bytes) returns (p: seq<Bytes>)
    requires |b| == 20
    ensures b[10] == 255 && b[11] == 255 ==>
              && |p| == 4 && IpText(b, ip6) == p[0] + [46] + p[1] + [46] + p[2] + [46] + p[3]
              && forall i :: 0 <= i < 4 ==>
                   p[i] != [] && AllDigits(p[i]) && DigitsValue(p[i]) == b[12 + i] && (|p[i]| == 1 || p[i][0] != 48)
    ensures b[10] != 255 || b[11] != 255 ==> IpText(b, ip6) == ip6(b[..16])
  {
    var q := b[12..16];
    assert forall i :: 0 <= i < 4 ==> q[i] == b[12 + i];
    p := [FormatUint(q[0]), FormatUint(q[1]), FormatUint(q[2]), FormatUint(q[3])];
    forall i | 0 <= i < 4
      ensures p[i] != [] && AllDigits(p[i]) && DigitsValue(p[i]) == b[12 + i] && (|p[i]| == 1 || p[i][0] != 48)
    {
      assert p[i] == FormatUint(b[12 + i]);
      DigitsValueOfFormatUint(b[12 + i]);
      NoLeadingZero(b[12 + i]);
    }
  }

  /** The parts with colons between them. */
  function Joined(parts: seq<Bytes>): Bytes {
    if parts == [] then []
    else if |parts| == 1 then parts[0]
    else parts[0] + [58] + Joined(parts[1..])
  }

  lemma {:induction false} SplitJoins(s: Bytes)
    ensures Joined(SplitColon(s)) == s
    ensures forall i :: 0 <= i < |SplitColon(s)| ==> 58 !in SplitColon(s)[i]
  {
    var k := FirstIndex(s, COLON);
    assert 58 !in s[..k];
    if k < |s| {
      SplitJoins(s[k + 1..]);
      assert s == s[..k] + [58] + s[k + 1..];
      assert SplitColon(s)[1..] == SplitColon(s[k + 1..]);
    } else {
      assert s[..k] == s;
    }
  }

  lemma {:induction false} JoinedSplits(parts: seq<Bytes>)
    requires parts != [] && forall i :: 0 <= i < |parts| ==> 58 !in parts[i]
    ensures SplitColon(Joined(parts)) == parts
  {
    var s := Joined(parts);
    if |parts| == 1 {
      assert s == parts[0] && parts == [s];
    } else {
      var rest := Joined(parts[1..]);
      FirstIndexIs(parts[0], COLON, rest);
      JoinedSplits(parts[1..]);
      assert s[..|parts[0]|] == parts[0] && s[|parts[0]| + 1..] == rest;
    }
  }

  /** The value of a hex digit, of either case. */
  predicate IsHexDigit(c: Byte, v: nat) {
    (v < 10 && c == 48 + v) || (10 <= v < 16 && (c == 55 + v || c == 87 + v))
  }

  /** Hex numbers: no digit more or less, the last one counts once, the others 16 times. */
  lemma HexNumberIs(s: Bytes, c: Byte)
    ensures HexNumber([]) == Some(0)
    ensures (exists v: nat :: IsHexDigit(c, v)) <==> HexValue(c).Some?
    ensures forall v: nat :: IsHexDigit(c, v) ==>
              HexNumber(s + [c]) == match HexNumber(s)
                                    case None => None
                                    case Some(n) => Some(16 * n + v)
    ensures HexValue(c).None? ==> HexNumber(s + [c]) == None
  {
    assert (s + [c])[..|s|] == s;
    if HexValue(c).Some? {
      assert IsHexDigit(c, HexValue(c).value);
    }
  }

  /** The part reads as byte `x`. */
  predicate HexByte(part: Bytes, x: Byte) {
    part != [] && HexNumber(part) == Some(x)
  }

  lemma {:induction false} PartsParse(parts: seq<Bytes>)
    ensures ParseParts(parts).Some? <==> forall i :: 0 <= i < |parts| ==> ParseHexByte(parts[i]).Some?
    ensures ParseParts(parts).Some? ==>
              && |ParseParts(parts).value| == |parts|
              && forall i :: 0 <= i < |parts| ==> ParseHexByte(parts[i]) == Some(ParseParts(parts).value[i])
  {
    hide ParseHexByte;
    if parts != [] {
      var n := |parts| - 1;
      PartsParse(parts[..n]);
      assert forall i :: 0 <= i < n ==> parts[..n][i] == parts[i];
    }
  }

  lemma {:induction false} HexHasNoColon(s: Bytes)
    requires HexNumber(s).Some?
    ensures 58 !in s
  {
    if s != [] {
      HexHasNoColon(s[..|s| - 1]);
      assert s == s[..|s| - 1] + [s[|s| - 1]];
    }
  }

  /** A string decodes if and only if it is twenty hex numbers of one byte with colons
      between them, in either case and with any number of leading zeros; it then decodes to
      the IP text of those bytes. */
  lemma {:induction false} JoinedDecodes(parts: seq<Bytes>, b: Bytes, ip6: Bytes -> Bytes)
    requires |parts| == |b| == 20 && forall i :: 0 <= i < 20 ==> HexByte(parts[i], b[i])
    ensures DecodeAddrOf(Joined(parts), ip6) == Some(IpText(b, ip6))
  {
    hide IpText, Joined, HexNumber;
    forall i | 0 <= i < 20 ensures 58 !in parts[i] {
      HexHasNoColon(parts[i]);
    }
    JoinedSplits(parts);
    PartsParse(parts);
    assert ParseParts(parts).value == b;
  }

  lemma {:induction false} DecodedIsJoined(s: Bytes, ip6: Bytes -> Bytes) returns (parts: seq<Bytes>, b: Bytes)
    requires DecodeAddrOf(s, ip6).Some?
    ensures |parts| == |b| == 20 && s == Joined(parts) && forall i :: 0 <= i < 20 ==> HexByte(parts[i], b[i])
  {
    hide IpText, Joined, HexNumber;
    SplitJoins(s);
    parts := SplitColon(s);
    PartsParse(parts);
    b := ParseParts(parts).value;
  }

  // ----- link-local addresses

  predicate IsLinkLocal(ip: Bytes) {
    HasPrefix(ip, V4_PREFIX) || HasPrefix(ip, V6_PREFIX)
  }

  lemma V6PrefixHasColon(text: Bytes)
    ensures HasPrefix(text, V6_PREFIX) ==> COLON in text
  {
    if HasPrefix(text, V6_PREFIX) {
      assert text[..5][4] == text[4] == COLON;
    }
  }

  lemma SmallNumbers()
    ensures FormatUint(169) == [49, 54, 57] && FormatUint(254) == [50, 53, 52]
  {
    assert FormatUint(16) == FormatUint(1) + [54];
    assert FormatUint(169) == FormatUint(16) + [57];
    assert FormatUint(25) == FormatUint(2) + [53];
    assert FormatUint(254) == FormatUint(25) + [52];
  }

  /** The string-prefix test holds of an IPv4 address exactly in 169.254.0.0/16. */
  lemma LinkLocalIff(b: Bytes, ip6: Bytes -> Bytes)
    requires |b| == ADDRESS_LENGTH && IsMapped(b)
    ensures IsLinkLocal(IpText(b, ip6)) <==> b[12] == 169 && b[13] == 254
  {
    hide FormatUint, DottedQuad;
    var q := b[12..16];
    var text := DottedQuad(q);
    QuadSplits(q);
    SmallNumbers();
    var inner := FormatUint(q[1]) + [DOT] + QuadTail(q);
    assert V4_PREFIX == FormatUint(169) + [DOT] + (FormatUint(254) + [DOT]);
    QuadHasNoColon(q);
    V6PrefixHasColon(text);
    if HasPrefix(text, V4_PREFIX) {
      var rest := text[8..];
      assert text == V4_PREFIX + rest;
      assert text == FormatUint(169) + [DOT] + (FormatUint(254) + [DOT] + rest);
      DotSplit(q[0], inner, 169, FormatUint(254) + [DOT] + rest);
      DotSplit(q[1], QuadTail(q), 254, rest);
    }
    if q[0] == 169 && q[1] == 254 {
      assert text == V4_PREFIX + QuadTail(q);
    }
  }

  lemma NoDottedPrefix(text: Bytes, g: Bytes)
    requires HasPrefix(text, g + [COLON]) && forall i :: 0 <= i < |g| ==> HexValue(g[i]).Some?
    ensures !HasPrefix(text, V4_PREFIX)
  {
    var p := g + [COLON];
    assert forall i :: 0 <= i < |p| ==> text[i] == p[i] && p[i] != DOT;
    if |g| < 3 {
      assert text[|g|] == COLON;
    } else {
      assert text[3] != DOT;
    }
  }

  /** The prefix test holds of an IPv6 address exactly when its first group is fe80:
      of fe80::/10 it sees the addresses in fe80::/16 and no others. */
  lemma LinkLocal6Iff(b: Bytes, ip6: Bytes -> Bytes)
    requires |b| == ADDRESS_LENGTH && !IsMapped(b) && Ip6Text(ip6)
    ensures IsLinkLocal(IpText(b, ip6)) <==> b[0] == 0xfe && b[1] == 0x80
  {
    hide HexText;
    var a := b[..16];
    var text, v := ip6(a), FirstGroup(a);
    if v > 0 {
      var g := HexText(v);
      HexTextReads(v);
      NoDottedPrefix(text, g);
      Fe80Text();
      var rest := text[|g| + 1..];
      assert text == g + [COLON] + rest;
      assert COLON !in g by {
        assert forall i :: 0 <= i < |g| ==> HexValue(g[i]).Some?;
      }
      if HasPrefix(text, V6_PREFIX) {
        assert text == HexText(0xfe80) + [COLON] + text[5..];
        CutIsUnique(g, rest, HexText(0xfe80), text[5..], COLON);
        HexTextReads(0xfe80);
      }
      if v == 0xfe80 {
        assert text[..5] == V6_PREFIX;
      }
    } else {
      assert text[0] == 48 || text[0] == COLON;
      assert !HasPrefix(text, V4_PREFIX) && !HasPrefix(text, V6_PREFIX) by {
        assert V4_PREFIX[0] == 49 && V6_PREFIX[0] == 102;
      }
    }
  }

  /** The range that the documentation of the test names: fe80::/10. */
  predicate InLinkLocalRange(b: Bytes)
    requires |b| >= 16
  {
    !IsMapped(b) && b[0] == 0xfe && b[1] / 64 == 2
  }

  /** The test is wrong on the rest of that range: febf:: is in it and is missed. */
  lemma FebfIsMissed(ip6: Bytes -> Bytes)
    requires Ip6Text(ip6)
    ensures var febf := [0xfe, 0xbf] + Zeros(18);
            InLinkLocalRange(febf) && !IsLinkLocal(IpText(febf, ip6))
  {
    hide IsLinkLocal, IpText, Ip6Text;
    LinkLocal6Iff([0xfe, 0xbf] + Zeros(18), ip6);
  }

  lemma Fe80Text()
    ensures HexText(0xfe80) == [102, 101, 56, 48] && COLON !in HexText(0xfe80)
  {
    assert HexText(0xfe) == HexText(0xf) + [101];
    assert HexText(0xfe8) == HexText(0xfe) + [56];
    assert HexText(0xfe80) == HexText(0xfe8) + [48];
  }
}
