// The Protocol Buffers wire format ("Encoding": Base 128 Varints, Message
// Structure): an encoder of field lists, and an independent decoder.

module Wire {
  import opened ByteStrings
  import opened Wrappers

  /** A field of a message: its number and its payload. */
  datatype Field =
    | Varint(num: nat, value: nat)
    | Fixed64(num: nat, bits: nat)
    | Delimited(num: nat, data: Bytes)
    | Fixed32(num: nat, word: nat)

  // ----- encoding

  /** Groups of seven bits, least significant first, all but the last marked. */
  function Uvarint(v: nat): (b: Bytes)
    ensures b != []
  {
    if v < 128 then [v] else [v % 128 + 128] + Uvarint(v / 128)
  }

  function WireType(f: Field): nat {
    match f
    case Varint(_, _) => 0
    case Fixed64(_, _) => 1
    case Delimited(_, _) => 2
    case Fixed32(_, _) => 5
  }

  function Payload(f: Field): Bytes {
    match f
    case Varint(_, v) => Uvarint(v)
    case Fixed64(_, bits) => LeBytes(bits, 8)
    case Delimited(_, data) => Uvarint(|data|) + data
    case Fixed32(_, word) => LeBytes(word, 4)
  }

  function FieldBytes(f: Field): Bytes {
    Uvarint(f.num * 8 + WireType(f)) + Payload(f)
  }

  function MessageBytes(fs: seq<Field>): Bytes {
    if fs == [] then [] else MessageBytes(fs[..|fs| - 1]) + FieldBytes(fs[|fs| - 1])
  }

  // ----- the format, in numbers

  /** The number that seven-bit groups denote, least significant first. */
  function Base128(b: Bytes): nat {
    if b == [] then 0 else b[0] % 128 + 128 * Base128(b[1..])
  }

  /** A varint holds the number in groups of seven bits; the top bit is set in all bytes
      but the last. */
  lemma {:induction false} UvarintIs(v: nat)
    ensures var b := Uvarint(v);
            Base128(b) == v && b[|b| - 1] < 128 && forall i :: 0 <= i < |b| - 1 ==> b[i] >= 128
  {
    if v < 128 {
      assert Uvarint(v)[1..] == [];
    } else {
      UvarintIs(v / 128);
      var b, rest := Uvarint(v), Uvarint(v / 128);
      assert b[1..] == rest && forall i :: 1 <= i < |b| ==> b[i] == rest[i - 1];
    }
  }

  /** A field is its number and wire type, 0, 1, 2 or 5, and its payload. */
  lemma FieldIs(num: nat, v: nat, data: Bytes)
    ensures FieldBytes(Varint(num, v)) == Uvarint(8 * num) + Uvarint(v)
    ensures FieldBytes(Fixed64(num, v)) == Uvarint(8 * num + 1) + LeBytes(v, 8)
    ensures FieldBytes(Delimited(num, data)) == Uvarint(8 * num + 2) + Uvarint(|data|) + data
    ensures FieldBytes(Fixed32(num, v)) == Uvarint(8 * num + 5) + LeBytes(v, 4)
  {
    hide Uvarint;
  }

  // ----- decoding

  datatype Read<T> = Read(value: T, rest: Bytes)

  /** A varint of at most `n` bytes. */
  function ReadVarint(b: Bytes, n: nat): (r: Option<Read<nat>>)
    ensures r.Some? ==> |r.value.rest| < |b|
  {
    if b == [] || n == 0 then None
    else if b[0] < 128 then Some(Read(b[0], b[1..]))
    else
      match ReadVarint(b[1..], n - 1)
      case None => None
      case Some(Read(v, rest)) => Some(Read(b[0] - 128 + 128 * v, rest))
  }

  /** A varint of at most ten bytes that fits 64 bits. */
  function ReadU64(b: Bytes): (r: Option<Read<nat>>)
    ensures r.Some? ==> |r.value.rest| < |b| && r.value.value < TWO_64
  {
    match ReadVarint(b, 10)
    case None => None
    case Some(Read(v, rest)) => if v < TWO_64 then Some(Read(v, rest)) else None
  }

  function ReadField(b: Bytes): (r: Option<Read<Field>>)
    ensures r.Some? ==> |r.value.rest| < |b|
  {
    match ReadU64(b)
    case None => None
    case Some(Read(tag, after)) =>
      var num, wire := tag / 8, tag % 8;
      if num == 0 then None
      else if wire == 0 then
        match ReadU64(after)
        case None => None
        case Some(Read(v, rest)) => Some(Read(Varint(num, v), rest))
      else if wire == 1 then
        if |after| < 8 then None else Some(Read(Fixed64(num, LeValue(after[..8])), after[8..]))
      else if wire == 2 then
        match ReadU64(after)
        case None => None
        case Some(Read(n, rest)) => if |rest| < n then None else Some(Read(Delimited(num, rest[..n]), rest[n..]))
      else if wire == 5 then
        if |after| < 4 then None else Some(Read(Fixed32(num, LeValue(after[..4])), after[4..]))
      else None
  }

  /** The fields of a message, or None when the bytes are not a message. */
  function Decode(b: Bytes): Option<seq<Field>>
    decreases |b|
  {
    if b == [] then Some([])
    else
      match ReadField(b)
      case None => None
      case Some(Read(f, rest)) =>
        match Decode(rest)
        case None => None
        case Some(fs) => Some([f] + fs)
  }

  // ----- the decoder undoes the encoder

  function Pow128(n: nat): nat {
    if n == 0 then 1 else 128 * Pow128(n - 1)
  }

  lemma {:induction false} VarintRoundTrip(v: nat, n: nat, rest: Bytes)
    requires n > 0 && v < Pow128(n)
    ensures ReadVarint(Uvarint(v) + rest, n) == Some(Read(v, rest))
    decreases n
  {
    var b := Uvarint(v) + rest;
    if v < 128 {
      assert b[1..] == rest;
    } else {
      assert Pow128(n) == 128 * Pow128(n - 1) && Pow128(0) == 1;
      VarintRoundTrip(v / 128, n - 1, rest);
      assert b[1..] == Uvarint(v / 128) + rest;
    }
  }

  /** Every 64-bit value survives in at most ten bytes. */
  lemma U64RoundTrip(v: nat, rest: Bytes)
    requires v < TWO_64
    ensures ReadU64(Uvarint(v) + rest) == Some(Read(v, rest))
  {
    assert TWO_64 <= Pow128(10) by {
      assert Pow128(2) == 128 * 128 * Pow128(0);
      assert Pow128(4) == 128 * 128 * Pow128(2);
      assert Pow128(6) == 128 * 128 * Pow128(4);
      assert Pow128(8) == 128 * 128 * Pow128(6);
      assert Pow128(10) == 128 * 128 * Pow128(8);
    }
    VarintRoundTrip(v, 10, rest);
  }

  /** The field number and the payload fit the format. */
  predicate Encodable(f: Field) {
    && 1 <= f.num < 0x2000_0000
    && match f
       case Varint(_, v) => v < TWO_64
       case Fixed64(_, bits) => bits < TWO_64
       case Delimited(_, data) => |data| < TWO_64
       case Fixed32(_, word) => word < 0x1_0000_0000
  }

  lemma FieldRoundTrip(f: Field, rest: Bytes)
    requires Encodable(f)
    ensures ReadField(FieldBytes(f) + rest) == Some(Read(f, rest))
  {
    hide Uvarint, ReadU64, LeValue, LeBytes, Pow256;
    var tag := f.num * 8 + WireType(f);
    var p := Payload(f);
    assert FieldBytes(f) + rest == Uvarint(tag) + (p + rest);
    U64RoundTrip(tag, p + rest);
    match f
    case Varint(_, v) =>
      U64RoundTrip(v, rest);
    case Fixed64(_, bits) =>
      FixedRoundTrip(bits, 8, rest);
    case Delimited(_, data) =>
      assert p + rest == Uvarint(|data|) + (data + rest);
      U64RoundTrip(|data|, data + rest);
      assert (data + rest)[..|data|] == data && (data + rest)[|data|..] == rest;
    case Fixed32(_, word) =>
      FixedRoundTrip(word, 4, rest);
  }

  lemma FixedRoundTrip(v: nat, n: nat, rest: Bytes)
    requires (n == 8 && v < TWO_64) || (n == 4 && v < 0x1_0000_0000)
    ensures |LeBytes(v, n) + rest| >= n
    ensures LeValue((LeBytes(v, n) + rest)[..n]) == v && (LeBytes(v, n) + rest)[n..] == rest
  {
    assert (LeBytes(v, n) + rest)[..n] == LeBytes(v, n);
    Pow256Values();
    LeValueOfLeBytes(v, n);
    ModSmall(v, Pow256(n));
  }

  lemma {:induction false} MessageCons(f: Field, fs: seq<Field>)
    ensures MessageBytes([f] + fs) == FieldBytes(f) + MessageBytes(fs)
  {
    hide FieldBytes;
    var n := |fs|;
    if n == 0 {
      assert [f] + fs == [f] && [f][..0] == [];
    } else {
      assert ([f] + fs)[..n] == [f] + fs[..n - 1];
      MessageCons(f, fs[..n - 1]);
    }
  }

  /** Decoding an encoded message gives its fields back, in order. */
  lemma {:induction false} MessageRoundTrip(fs: seq<Field>)
    requires forall i :: 0 <= i < |fs| ==> Encodable(fs[i])
    ensures Decode(MessageBytes(fs)) == Some(fs)
  {
    hide FieldBytes, ReadField, Encodable;
    if fs != [] {
      assert fs == [fs[0]] + fs[1..];
      MessageCons(fs[0], fs[1..]);
      FieldRoundTrip(fs[0], MessageBytes(fs[1..]));
      FieldNotEmpty(fs[0]);
      MessageRoundTrip(fs[1..]);
    }
  }

  lemma FieldNotEmpty(f: Field)
    ensures FieldBytes(f) != []
  {
  }

  /** A field, and the data in it, are no longer than the message. */
  lemma {:induction false} FieldWithinMessage(fs: seq<Field>, i: nat)
    requires i < |fs|
    ensures |FieldBytes(fs[i])| <= |MessageBytes(fs)|
    ensures fs[i].Delimited? ==> |fs[i].data| < |MessageBytes(fs)|
  {
    if i < |fs| - 1 {
      FieldWithinMessage(fs[..|fs| - 1], i);
    }
  }
}
