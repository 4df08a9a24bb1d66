// The remote-write encoder: every sample becomes one time series, whose labels
// are sorted by name.  The bytes are those before compression; a double is its
// 64-bit pattern.

module PromWrite {
  import opened ByteStrings
  import opened Wrappers
  import opened Wire
  import opened Labels
  import opened Selection

  /** A sample to publish; `global` marks a series shared by the whole cluster. */
  datatype Sample = Sample(metric: Bytes, labels: seq<Label>, bits: U64, global: bool)

  const METRIC_NAME: Bytes := [95, 95, 110, 97, 109, 101, 95, 95] // "__name__"
  const POD: Bytes := [112, 111, 100]
  const NODE: Bytes := [110, 111, 100, 101]

  // ----- label sets

  /** The external labels without the per-instance ones. */
  function Shared(extra: seq<Label>): seq<Label> {
    if extra == [] then []
    else
      var l := extra[|extra| - 1];
      if l.name == POD || l.name == NODE then Shared(extra[..|extra| - 1])
      else Shared(extra[..|extra| - 1]) + [l]
  }

  /** Every label of a sample's series, before sorting. */
  function LabelSet(s: Sample, extra: seq<Label>): seq<Label> {
    [Label(METRIC_NAME, s.metric)] + (if s.global then Shared(extra) else extra) + s.labels
  }

  // ----- the order of names

  /** Byte-wise lexicographic order. */
  predicate Less(a: Bytes, b: Bytes) {
    b != [] && (a == [] || a[0] < b[0] || (a[0] == b[0] && Less(a[1..], b[1..])))
  }

  lemma {:induction false} LessTotal(a: Bytes, b: Bytes)
    ensures Less(a, b) || Less(b, a) || a == b
  {
    if a != [] && b != [] && a[0] == b[0] {
      LessTotal(a[1..], b[1..]);
      if a[1..] == b[1..] {
        assert a == [a[0]] + a[1..] && b == [b[0]] + b[1..];
      }
    }
  }

  lemma {:induction false} LessTransitive(a: Bytes, b: Bytes, c: Bytes)
    requires !Less(b, a) && !Less(c, b)
    ensures !Less(c, a)
  {
    if a != [] && b != [] && c != [] && a[0] == b[0] == c[0] {
      LessTransitive(a[1..], b[1..], c[1..]);
    }
  }

  /** `a` comes before `b`: behind a common start, `a` ends or has the smaller byte. */
  predicate Before(a: Bytes, b: Bytes, k: nat) {
    && k <= |a| && k < |b| && a[..k] == b[..k]
    && (k == |a| || a[k] < b[k])
  }

  lemma {:induction false} LessIff(a: Bytes, b: Bytes)
    ensures Less(a, b) <==> exists k: nat :: Before(a, b, k)
  {
    if b == [] {
    } else if a == [] || a[0] < b[0] {
      assert Before(a, b, 0);
    } else if a[0] == b[0] {
      LessIff(a[1..], b[1..]);
      if Less(a, b) {
        var k: nat :| Before(a[1..], b[1..], k);
        assert a[..k + 1] == [a[0]] + a[1..][..k] && b[..k + 1] == [b[0]] + b[1..][..k];
        assert Before(a, b, k + 1);
      }
      if k: nat :| Before(a, b, k) {
        assert k > 0;
        assert a[1..][..k - 1] == a[..k][1..] && b[1..][..k - 1] == b[..k][1..];
        assert Before(a[1..], b[1..], k - 1);
      }
    } else {
      forall k: nat ensures !Before(a, b, k) {
        BeforeStart(a, b, k);
      }
    }
  }

  lemma BeforeStart(a: Bytes, b: Bytes, k: nat)
    ensures Before(a, b, k) && k > 0 ==> a[0] == b[0]
  {
    if Before(a, b, k) && k > 0 {
      assert a[..k][0] == b[..k][0];
    }
  }

  predicate SortedByName(labels: seq<Label>) {
    forall i, j :: 0 <= i < j < |labels| ==> !Less(labels[j].name, labels[i].name)
  }

  /** Of two labels with different names, the one whose name comes before comes first. */
  ghost predicate InByteOrder(labels: seq<Label>) {
    forall i, j :: 0 <= i < j < |labels| && labels[i].name != labels[j].name ==>
      exists k: nat :: Before(labels[i].name, labels[j].name, k)
  }

  lemma SortedIsInByteOrder(labels: seq<Label>)
    requires SortedByName(labels)
    ensures InByteOrder(labels)
  {
    hide Less, Before;
    forall i, j | 0 <= i < j < |labels| && labels[i].name != labels[j].name
      ensures exists k: nat :: Before(labels[i].name, labels[j].name, k)
    {
      LessTotal(labels[i].name, labels[j].name);
      LessIff(labels[i].name, labels[j].name);
    }
  }

  /** A sorted order of the labels, any one when names are equal. */
  predicate SortedOrder(order: seq<Label>, labels: seq<Label>) {
    SortedByName(order) && multiset(order) == multiset(labels)
  }

  // ----- what is written

  function LabelBytes(l: Label): Bytes {
    MessageBytes([Delimited(1, l.name), Delimited(2, l.value)])
  }

  function SampleBytes(bits: U64, ts: I64): Bytes {
    MessageBytes([Fixed64(1, bits), Varint(2, ToU64(ts))])
  }

  function LabelFields(labels: seq<Label>): (fs: seq<Field>)
    ensures |fs| == |labels|
  {
    seq(|labels|, i requires 0 <= i < |labels| => Delimited(1, LabelBytes(labels[i])))
  }

  function SeriesBytes(labels: seq<Label>, bits: U64, ts: I64): Bytes {
    MessageBytes(LabelFields(labels) + [Delimited(2, SampleBytes(bits, ts))])
  }

  function RequestFields(orders: seq<seq<Label>>, samples: seq<Sample>, ts: I64): (fs: seq<Field>)
    requires |orders| == |samples|
    ensures |fs| == |samples|
  {
    seq(|samples|, i requires 0 <= i < |samples| => Delimited(1, SeriesBytes(orders[i], samples[i].bits, ts)))
  }

  /** `req` writes the samples in order, each with its labels in the given order. */
  predicate Writes(req: Bytes, orders: seq<seq<Label>>, samples: seq<Sample>, extra: seq<Label>, ts: I64) {
    && |orders| == |samples|
    && (forall i :: 0 <= i < |samples| ==> SortedOrder(orders[i], LabelSet(samples[i], extra)))
    && req == MessageBytes(RequestFields(orders, samples, ts))
  }

  // ----- the bytes of a request

  lemma SmallUvarint(v: nat)
    requires v < 128
    ensures Uvarint(v) == [v]
  {
  }

  /** A label: field 1 is the name, field 2 the value. */
  lemma LabelIs(l: Label)
    ensures LabelBytes(l) == [0x0A] + Uvarint(|l.name|) + l.name + [0x12] + Uvarint(|l.value|) + l.value
  {
    hide FieldBytes, MessageBytes, Uvarint;
    MessageOfTwo(Delimited(1, l.name), Delimited(2, l.value));
    FieldIs(1, 0, l.name);
    FieldIs(2, 0, l.value);
    SmallUvarint(10);
    SmallUvarint(18);
  }

  /** A point: field 1 is the double, field 2 the time as a 64-bit pattern. */
  lemma SampleIs(bits: U64, ts: I64)
    ensures SampleBytes(bits, ts)
         == [0x09] + LeBytes(bits, 8) + [0x10] + Uvarint(if ts < 0 then ts + 0x1_0000_0000_0000_0000 else ts)
  {
    hide FieldBytes, MessageBytes, Uvarint, LeBytes;
    MessageOfTwo(Fixed64(1, bits), Varint(2, ToU64(ts)));
    FieldIs(1, bits, []);
    FieldIs(2, ToU64(ts), []);
    SmallUvarint(9);
    SmallUvarint(16);
  }

  /** `body` as field 1 or 2 of a message. */
  function Wrapped(tag: Byte, body: Bytes): Bytes {
    [tag] + Uvarint(|body|) + body
  }

  function AllWrapped(tag: Byte, bodies: seq<Bytes>): Bytes {
    if bodies == [] then [] else AllWrapped(tag, bodies[..|bodies| - 1]) + Wrapped(tag, bodies[|bodies| - 1])
  }

  lemma WrappedFields(fs: seq<Field>, bodies: seq<Bytes>)
    requires |fs| == |bodies| && forall i :: 0 <= i < |fs| ==> fs[i] == Delimited(1, bodies[i])
    ensures MessageBytes(fs) == AllWrapped(0x0A, bodies)
  {
    hide FieldBytes, Uvarint;
    if fs != [] {
      var n := |fs| - 1;
      WrappedFields(fs[..n], bodies[..n]);
      FieldIs(1, 0, bodies[n]);
      SmallUvarint(10);
    }
  }

  /** A series: its labels in order as fields 1, then its point as field 2. */
  lemma SeriesIs(labels: seq<Label>, bits: U64, ts: I64)
    ensures var bodies := seq(|labels|, i requires 0 <= i < |labels| => LabelBytes(labels[i]));
            SeriesBytes(labels, bits, ts) == AllWrapped(0x0A, bodies) + Wrapped(0x12, SampleBytes(bits, ts))
  {
    hide FieldBytes, MessageBytes, Uvarint, LabelBytes, SampleBytes, AllWrapped;
    var bodies := seq(|labels|, i requires 0 <= i < |labels| => LabelBytes(labels[i]));
    MessageSnoc(LabelFields(labels), Delimited(2, SampleBytes(bits, ts)));
    WrappedFields(LabelFields(labels), bodies);
    FieldIs(2, 0, SampleBytes(bits, ts));
    SmallUvarint(18);
  }

  /** A request: its series in order as fields 1. */
  lemma RequestIs(req: Bytes, orders: seq<seq<Label>>, samples: seq<Sample>, extra: seq<Label>, ts: I64)
    requires Writes(req, orders, samples, extra, ts)
    ensures var bodies := seq(|samples|, i requires 0 <= i < |samples| =>
                                SeriesBytes(orders[i], samples[i].bits, ts));
            req == AllWrapped(0x0A, bodies)
  {
    hide FieldBytes, MessageBytes, Uvarint, SeriesBytes, SortedOrder, AllWrapped;
    var bodies := seq(|samples|, i requires 0 <= i < |samples| => SeriesBytes(orders[i], samples[i].bits, ts));
    WrappedFields(RequestFields(orders, samples, ts), bodies);
  }

  // ----- the encoder

  method AppendUvarint(b: Bytes, v: nat) returns (r: Bytes)
    ensures r == b + Uvarint(v)
  {
    r := b;
    var w := v;
    while w >= 0x80
      invariant r + Uvarint(w) == b + Uvarint(v)
    {
      assert r + ([w % 128 + 128] + Uvarint(w / 128)) == r + [w % 128 + 128] + Uvarint(w / 128);
      r := r + [w % 128 + 128];
      w := w / 128;
    }
    r := r + [w];
  }

  method AppendTag(b: Bytes, field: nat, wire: nat) returns (r: Bytes)
    requires wire < 8
    ensures r == b + Uvarint(field * 8 + wire)
  {
    r := AppendUvarint(b, field * 8 + wire);
  }

  method AppendBytesField(b: Bytes, field: nat, data: Bytes) returns (r: Bytes)
    ensures r == b + FieldBytes(Delimited(field, data))
  {
    hide Uvarint;
    r := AppendTag(b, field, 2);
    r := AppendUvarint(r, |data|);
    r := r + data;
  }

  method AppendVarintField(b: Bytes, field: nat, v: I64) returns (r: Bytes)
    ensures r == b + FieldBytes(Varint(field, ToU64(v)))
  {
    hide Uvarint;
    r := AppendTag(b, field, 0);
    r := AppendUvarint(r, ToU64(v));
  }

  method AppendDoubleField(b: Bytes, field: nat, bits: U64) returns (r: Bytes)
    ensures r == b + FieldBytes(Fixed64(field, bits))
  {
    hide Uvarint, LeBytes;
    r := AppendTag(b, field, 1);
    var buf := LeBytes(bits, 8);
    r := r + buf;
  }

  lemma MessageOfTwo(f: Field, g: Field)
    ensures MessageBytes([f, g]) == FieldBytes(f) + FieldBytes(g)
  {
    hide FieldBytes;
    assert [f, g][..1] == [f] && [f][..0] == [];
    assert MessageBytes([f]) == FieldBytes(f) by {
      assert [] + FieldBytes(f) == FieldBytes(f);
    }
  }

  lemma MessageSnoc(fs: seq<Field>, f: Field)
    ensures MessageBytes(fs + [f]) == MessageBytes(fs) + FieldBytes(f)
  {
    assert (fs + [f])[..|fs|] == fs;
  }

  method EncodeLabel(l: Label) returns (b: Bytes)
    ensures b == LabelBytes(l)
  {
    b := [];
    b := AppendBytesField(b, 1, l.name);
    b := AppendBytesField(b, 2, l.value);
    MessageOfTwo(Delimited(1, l.name), Delimited(2, l.value));
  }

  method EncodeSample(bits: U64, ts: I64) returns (b: Bytes)
    ensures b == SampleBytes(bits, ts)
  {
    b := [];
    b := AppendDoubleField(b, 1, bits);
    b := AppendVarintField(b, 2, ts);
    MessageOfTwo(Fixed64(1, bits), Varint(2, ToU64(ts)));
  }

  method DropPerInstance(extra: seq<Label>) returns (out: seq<Label>)
    ensures out == Shared(extra)
  {
    out := [];
    for i := 0 to |extra|
      invariant out == Shared(extra[..i])
    {
      assert extra[..i + 1][..i] == extra[..i];
      var l := extra[i];
      if l.name == POD || l.name == NODE {
        continue;
      }
      out := out + [l];
    }
    assert extra[..|extra|] == extra;
  }

  /** One pair of labels after `l` is put behind the names that are not larger and
      before those that are. */
  lemma InsertedPair(l: Label, sorted: seq<Label>, k: nat, i: nat, j: nat)
    requires SortedByName(sorted) && k <= |sorted| && i < j <= |sorted|
    requires k > 0 ==> !Less(l.name, sorted[k - 1].name)
    requires forall j :: k <= j < |sorted| ==> Less(l.name, sorted[j].name)
    ensures var r := sorted[..k] + [l] + sorted[k..];
            !Less(r[j].name, r[i].name)
  {
    hide Less;
    if j == k {
      if i < k - 1 {
        LessTransitive(sorted[i].name, sorted[k - 1].name, l.name);
      }
    } else if i == k {
      LessAsymmetric(l.name, sorted[j - 1].name);
    }
  }

  lemma InsertKeepsAll(l: Label, sorted: seq<Label>, k: nat)
    requires k <= |sorted|
    ensures multiset(sorted[..k] + [l] + sorted[k..]) == multiset(sorted + [l])
  {
    assert sorted == sorted[..k] + sorted[k..];
  }

  /** `k` is where `l` belongs: behind the names that are not larger, before those
      that are. */
  lemma InsertedInOrder(l: Label, sorted: seq<Label>, k: nat)
    requires SortedByName(sorted) && k <= |sorted|
    requires k > 0 ==> !Less(l.name, sorted[k - 1].name)
    requires forall j :: k <= j < |sorted| ==> Less(l.name, sorted[j].name)
    ensures SortedOrder(sorted[..k] + [l] + sorted[k..], sorted + [l])
  {
    hide Less;
    var r := sorted[..k] + [l] + sorted[k..];
    InsertKeepsAll(l, sorted, k);
    forall i, j | 0 <= i < j < |r|
      ensures !Less(r[j].name, r[i].name)
    {
      InsertedPair(l, sorted, k, i, j);
    }
  }

  method Insert(l: Label, sorted: seq<Label>) returns (r: seq<Label>)
    requires SortedByName(sorted)
    ensures SortedOrder(r, sorted + [l])
  {
    hide Less;
    var k := |sorted|;
    while k > 0 && Less(l.name, sorted[k - 1].name)
      invariant 0 <= k <= |sorted|
      invariant forall j :: k <= j < |sorted| ==> Less(l.name, sorted[j].name)
    {
      k := k - 1;
    }
    InsertedInOrder(l, sorted, k);
    r := sorted[..k] + [l] + sorted[k..];
  }

  lemma {:induction false} LessAsymmetric(a: Bytes, b: Bytes)
    requires Less(a, b)
    ensures !Less(b, a)
  {
    if a != [] && a[0] == b[0] {
      LessAsymmetric(a[1..], b[1..]);
    }
  }

  /** The library sort: some sorted permutation, not necessarily a stable one. */
  method SortLabels(labels: seq<Label>) returns (order: seq<Label>)
    ensures SortedOrder(order, labels) && InByteOrder(order)
  {
    hide SortedByName, InByteOrder, Less;
    NothingIsSorted();
    order := [];
    for i := 0 to |labels|
      invariant SortedOrder(order, labels[..i])
    {
      assert labels[..i + 1] == labels[..i] + [labels[i]];
      order := Insert(labels[i], order);
    }
    assert labels[..|labels|] == labels;
    SortedIsInByteOrder(order);
  }

  lemma NothingIsSorted()
    ensures SortedByName([])
  {
  }

  method EncodeSeries(labels: seq<Label>, bits: U64, ts: I64) returns (series: Bytes)
    ensures series == SeriesBytes(labels, bits, ts)
  {
    hide FieldBytes, MessageBytes, LabelBytes, SampleBytes;
    series := [];
    EmptyMessage();
    for i := 0 to |labels|
      invariant series == MessageBytes(LabelFields(labels[..i]))
    {
      MessageSnoc(LabelFields(labels[..i]), Delimited(1, LabelBytes(labels[i])));
      assert LabelFields(labels[..i + 1]) == LabelFields(labels[..i]) + [Delimited(1, LabelBytes(labels[i]))];
      var b := EncodeLabel(labels[i]);
      series := AppendBytesField(series, 1, b);
    }
    assert labels[..|labels|] == labels;
    var b := EncodeSample(bits, ts);
    series := AppendBytesField(series, 2, b);
    MessageSnoc(LabelFields(labels), Delimited(2, SampleBytes(bits, ts)));
  }

  lemma EmptyMessage()
    ensures MessageBytes([]) == []
  {
  }

  /** The request body, and the label order chosen for each series. */
  method BuildWriteRequest(samples: seq<Sample>, extra: seq<Label>, ts: I64)
    returns (req: Bytes, ghost orders: seq<seq<Label>>)
    ensures Writes(req, orders, samples, extra, ts)
    ensures |req| <= MAX_SLICE ==> DecodesTo(req, samples, extra, ts)
  {
    hide FieldBytes, MessageBytes, SeriesBytes, SortedOrder;
    var globalExtra := DropPerInstance(extra);
    req, orders := [], [];
    EmptyMessage();
    for i := 0 to |samples|
      invariant |orders| == i
      invariant forall j :: 0 <= j < i ==> SortedOrder(orders[j], LabelSet(samples[j], extra))
      invariant req == MessageBytes(RequestFields(orders, samples[..i], ts))
    {
      var s := samples[i];
      var ex := extra;
      if s.global {
        ex := globalExtra;
      }
      var labels := [Label(METRIC_NAME, s.metric)];
      labels := labels + ex;
      labels := labels + s.labels;
      labels := SortLabels(labels);
      var series := EncodeSeries(labels, s.bits, ts);
      MessageSnoc(RequestFields(orders, samples[..i], ts), Delimited(1, series));
      assert RequestFields(orders + [labels], samples[..i + 1], ts)
          == RequestFields(orders, samples[..i], ts) + [Delimited(1, series)];
      req := AppendBytesField(req, 1, series);
      orders := orders + [labels];
    }
    assert samples[..|samples|] == samples;
    if |req| <= MAX_SLICE {
      RequestRoundTrip(req, orders, samples, extra, ts);
    }
  }

  // ----- an independent reader of write requests

  datatype Point = Point(bits: nat, timestamp: I64)
  datatype Series = Series(labels: seq<Label>, points: seq<Point>)

  /** The longest slice Go can make on a 64-bit machine. */
  const MAX_SLICE: nat := 0x7FFF_FFFF_FFFF_FFFF

  // A reader takes the last value of a singular field, collects repeated ones and
  // skips what it does not know.

  function ToLabel(fs: seq<Field>): Label {
    if fs == [] then Label([], [])
    else
      var l := ToLabel(fs[..|fs| - 1]);
      match fs[|fs| - 1]
      case Delimited(num, data) =>
        if num == 1 then l.(name := data) else if num == 2 then l.(value := data) else l
      case _ => l
  }

  function ToPoint(fs: seq<Field>): Point {
    if fs == [] then Point(0, 0)
    else
      var p := ToPoint(fs[..|fs| - 1]);
      match fs[|fs| - 1]
      case Fixed64(num, bits) => if num == 1 then p.(bits := bits) else p
      case Varint(num, v) => if num == 2 then p.(timestamp := ToI64(v % TWO_64)) else p
      case _ => p
  }

  function ToSeries(fs: seq<Field>): Option<Series> {
    if fs == [] then Some(Series([], []))
    else
      match ToSeries(fs[..|fs| - 1])
      case None => None
      case Some(s) =>
        match fs[|fs| - 1]
        case Delimited(num, data) =>
          if num == 1 || num == 2 then
            match Decode(data)
            case None => None
            case Some(inner) =>
              if num == 1 then Some(s.(labels := s.labels + [ToLabel(inner)]))
              else Some(s.(points := s.points + [ToPoint(inner)]))
          else Some(s)
        case _ => Some(s)
  }

  function ToRequest(fs: seq<Field>): Option<seq<Series>> {
    if fs == [] then Some([])
    else
      match ToRequest(fs[..|fs| - 1])
      case None => None
      case Some(ss) =>
        match fs[|fs| - 1]
        case Delimited(num, data) =>
          if num == 1 then
            match Decode(data)
            case None => None
            case Some(inner) =>
              match ToSeries(inner)
              case None => None
              case Some(s) => Some(ss + [s])
          else Some(ss)
        case _ => Some(ss)
  }

  function ReadRequest(req: Bytes): Option<seq<Series>> {
    match Decode(req)
    case None => None
    case Some(fs) => ToRequest(fs)
  }

  /** The request reads back as one series per sample, in order: its labels the
      sample's label set in the byte order of names, its one point the value and the
      time. */
  ghost predicate DecodesTo(req: Bytes, samples: seq<Sample>, extra: seq<Label>, ts: I64) {
    match ReadRequest(req)
    case None => false
    case Some(series) =>
      && |series| == |samples|
      && forall i :: 0 <= i < |series| ==>
           && SortedOrder(series[i].labels, LabelSet(samples[i], extra)) && InByteOrder(series[i].labels)
           && series[i].points == [Point(samples[i].bits, ts)]
  }

  // ----- the round trip

  lemma LabelRoundTrip(l: Label)
    requires |LabelBytes(l)| <= MAX_SLICE
    ensures Decode(LabelBytes(l)).Some? && ToLabel(Decode(LabelBytes(l)).value) == l
  {
    hide Decode, MessageBytes;
    var fs := [Delimited(1, l.name), Delimited(2, l.value)];
    FieldWithinMessage(fs, 0);
    FieldWithinMessage(fs, 1);
    MessageRoundTrip(fs);
    assert fs[..1] == [Delimited(1, l.name)] && fs[..1][..0] == [];
  }

  lemma SampleRoundTrip(bits: U64, ts: I64)
    ensures Decode(SampleBytes(bits, ts)).Some?
    ensures ToPoint(Decode(SampleBytes(bits, ts)).value) == Point(bits, ts)
  {
    hide Decode, MessageBytes;
    var fs := [Fixed64(1, bits), Varint(2, ToU64(ts))];
    MessageRoundTrip(fs);
    assert fs[..1] == [Fixed64(1, bits)] && fs[..1][..0] == [];
    ModSmall(ToU64(ts), TWO_64);
  }

  lemma {:induction false} LabelsRead(labels: seq<Label>)
    requires forall i :: 0 <= i < |labels| ==> |LabelBytes(labels[i])| <= MAX_SLICE
    ensures ToSeries(LabelFields(labels)) == Some(Series(labels, []))
  {
    hide Decode, MessageBytes, LabelBytes, ToLabel;
    if labels != [] {
      var n := |labels| - 1;
      LabelsRead(labels[..n]);
      LabelRoundTrip(labels[n]);
      assert LabelFields(labels)[..n] == LabelFields(labels[..n]);
      assert labels == labels[..n] + [labels[n]];
    }
  }

  lemma SeriesRoundTrip(labels: seq<Label>, bits: U64, ts: I64)
    requires |SeriesBytes(labels, bits, ts)| <= MAX_SLICE
    ensures Decode(SeriesBytes(labels, bits, ts)).Some?
    ensures ToSeries(Decode(SeriesBytes(labels, bits, ts)).value) == Some(Series(labels, [Point(bits, ts)]))
  {
    hide Decode, MessageBytes, LabelBytes, SampleBytes, ToPoint;
    var fs := LabelFields(labels) + [Delimited(2, SampleBytes(bits, ts))];
    forall i | 0 <= i < |fs|
      ensures Encodable(fs[i]) && |fs[i].data| <= MAX_SLICE
    {
      FieldWithinMessage(fs, i);
    }
    MessageRoundTrip(fs);
    forall i | 0 <= i < |labels|
      ensures |LabelBytes(labels[i])| <= MAX_SLICE
    {
      assert fs[i] == Delimited(1, LabelBytes(labels[i]));
    }
    LabelsRead(labels);
    SampleRoundTrip(bits, ts);
    assert fs[..|labels|] == LabelFields(labels);
    assert Series(labels, []).points + [Point(bits, ts)] == [Point(bits, ts)];
  }

  /** The series that stand for the samples. */
  function SeriesFor(orders: seq<seq<Label>>, samples: seq<Sample>, ts: I64): (r: seq<Series>)
    requires |orders| == |samples|
    ensures |r| == |samples|
  {
    seq(|samples|, i requires 0 <= i < |samples| => Series(orders[i], [Point(samples[i].bits, ts)]))
  }

  lemma {:induction false} RequestRead(orders: seq<seq<Label>>, samples: seq<Sample>, ts: I64)
    requires |orders| == |samples|
    requires forall i :: 0 <= i < |samples| ==> |SeriesBytes(orders[i], samples[i].bits, ts)| <= MAX_SLICE
    ensures ToRequest(RequestFields(orders, samples, ts)) == Some(SeriesFor(orders, samples, ts))
  {
    hide Decode, SeriesBytes, ToSeries;
    if samples == [] {
      assert SeriesFor(orders, samples, ts) == [];
    } else {
      var n := |samples| - 1;
      RequestRead(orders[..n], samples[..n], ts);
      SeriesRoundTrip(orders[n], samples[n].bits, ts);
      assert RequestFields(orders, samples, ts)[..n] == RequestFields(orders[..n], samples[..n], ts);
      assert SeriesFor(orders, samples, ts)
          == SeriesFor(orders[..n], samples[..n], ts) + [Series(orders[n], [Point(samples[n].bits, ts)])];
    }
  }

  /** Whatever order the sort picks for equal names, the request reads back as the
      samples that were written. */
  lemma {:induction false} RequestRoundTrip(req: Bytes, orders: seq<seq<Label>>, samples: seq<Sample>,
                                            extra: seq<Label>, ts: I64)
    requires Writes(req, orders, samples, extra, ts) && |req| <= MAX_SLICE
    ensures DecodesTo(req, samples, extra, ts)
  {
    hide Decode, MessageBytes, SeriesBytes, SortedOrder, InByteOrder, LabelSet, ToRequest;
    var fs := RequestFields(orders, samples, ts);
    forall i | 0 <= i < |fs|
      ensures Encodable(fs[i]) && |fs[i].data| <= MAX_SLICE
    {
      FieldWithinMessage(fs, i);
    }
    MessageRoundTrip(fs);
    forall i | 0 <= i < |samples|
      ensures |SeriesBytes(orders[i], samples[i].bits, ts)| <= MAX_SLICE
    {
      assert fs[i] == Delimited(1, SeriesBytes(orders[i], samples[i].bits, ts));
    }
    RequestRead(orders, samples, ts);
    forall i | 0 <= i < |samples|
      ensures InByteOrder(orders[i])
    {
      InOrderWhenSorted(orders[i], LabelSet(samples[i], extra));
    }
  }

  lemma InOrderWhenSorted(order: seq<Label>, labels: seq<Label>)
    requires SortedOrder(order, labels)
    ensures InByteOrder(order)
  {
    SortedIsInByteOrder(order);
  }

  // ----- what a receiver finds, in the sample's own terms

  /** The shared external labels are those that are neither `pod` nor `node`, in order. */
  lemma {:induction false} SharedAre(extra: seq<Label>) returns (at: seq<nat>)
    ensures Picked(extra, at, Shared(extra))
    ensures forall j :: 0 <= j < |extra| ==>
              (j in at <==> extra[j].name != [112, 111, 100] && extra[j].name != [110, 111, 100, 101])
  {
    hide Picked;
    at := [];
    if extra == [] {
      PickedNone<Label>();
    } else {
      var n := |extra| - 1;
      var front, x := extra[..n], extra[n];
      at := SharedAre(front);
      assert extra == front + [x];
      assert (front + [x])[..n] == front;
      PickedSnoc(front, at, Shared(front), x);
      if x.name != POD && x.name != NODE {
        at := at + [n];
      }
    }
  }

  /** Series `m` of a decoded request carries the metric as `__name__`, the external
      labels (the shared ones when the sample is global) and the sample's labels, and
      nothing else. */
  lemma {:induction false} DeliveredLabels(req: Bytes, samples: seq<Sample>, extra: seq<Label>, ts: I64, m: nat)
    requires DecodesTo(req, samples, extra, ts) && m < |samples|
    ensures ReadRequest(req).Some? && m < |ReadRequest(req).value|
    ensures var s := samples[m];
            multiset(ReadRequest(req).value[m].labels)
            == multiset{Label([95, 95, 110, 97, 109, 101, 95, 95], s.metric)}
               + multiset(if s.global then Shared(extra) else extra) + multiset(s.labels)
    ensures ReadRequest(req).value[m].points == [Point(samples[m].bits, ts)]
  {
    hide ReadRequest, SortedByName, Shared;
    assert SortedOrder(ReadRequest(req).value[m].labels, LabelSet(samples[m], extra));
  }

  /** Its labels are in byte order of their names: of two labels with different names the
      earlier name ends first or has the smaller byte where they first differ. */
  lemma {:induction false} DeliveredInOrder(req: Bytes, samples: seq<Sample>, extra: seq<Label>, ts: I64, m: nat,
                                            i: nat, j: nat)
    requires DecodesTo(req, samples, extra, ts) && m < |samples|
    requires i < j < |ReadRequest(req).value[m].labels|
    requires ReadRequest(req).value[m].labels[i].name != ReadRequest(req).value[m].labels[j].name
    ensures var a, b := ReadRequest(req).value[m].labels[i].name, ReadRequest(req).value[m].labels[j].name;
            exists k: nat :: k <= |a| && k < |b| && a[..k] == b[..k] && (k == |a| || a[k] < b[k])
  {
    hide ReadRequest, LabelSet, SortedOrder;
    var labels := ReadRequest(req).value[m].labels;
    assert InByteOrder(labels);
    var k: nat :| Before(labels[i].name, labels[j].name, k);
  }

  // ----- replicas

  /** No two different labels share a name. */
  predicate NamesIdentify(labels: seq<Label>) {
    forall i, j :: 0 <= i < |labels| && 0 <= j < |labels| && labels[i].name == labels[j].name ==>
      labels[i] == labels[j]
  }

  lemma SameLastName(a: seq<Label>, b: seq<Label>)
    requires SortedByName(a) && SortedByName(b) && multiset(a) == multiset(b) && a != [] && b != []
    ensures !Less(a[|a| - 1].name, b[|b| - 1].name)
  {
    hide Less;
    var x, y := a[|a| - 1], b[|b| - 1];
    assert y in multiset(a);
    var j :| 0 <= j < |a| && a[j] == y;
    if j == |a| - 1 {
      LessIrreflexive(x.name);
    }
  }

  lemma SameLast(a: seq<Label>, b: seq<Label>)
    requires SortedByName(a) && SortedByName(b) && multiset(a) == multiset(b) && NamesIdentify(a)
    requires a != [] && b != []
    ensures a[|a| - 1] == b[|b| - 1]
  {
    hide Less, SortedByName;
    SameLastName(a, b);
    SameLastName(b, a);
    LessTotal(a[|a| - 1].name, b[|b| - 1].name);
    assert b[|b| - 1] in multiset(a);
  }

  lemma FrontOfSorted(a: seq<Label>)
    requires SortedByName(a) && a != []
    ensures SortedByName(a[..|a| - 1])
  {
    hide Less;
  }

  lemma FrontIdentifies(a: seq<Label>)
    requires NamesIdentify(a) && a != []
    ensures NamesIdentify(a[..|a| - 1])
  {
  }

  lemma SameLength(a: seq<Label>, b: seq<Label>)
    requires multiset(a) == multiset(b)
    ensures |a| == |b|
  {
    assert |multiset(a)| == |a| && |multiset(b)| == |b|;
  }

  lemma CountInFront(a: seq<Label>, l: Label)
    requires a != []
    ensures multiset(a)[l] == multiset(a[..|a| - 1])[l] + if a[|a| - 1] == l then 1 else 0
  {
    assert a == a[..|a| - 1] + [a[|a| - 1]];
  }

  lemma SameFront(a: seq<Label>, b: seq<Label>)
    requires multiset(a) == multiset(b) && a != [] && b != [] && a[|a| - 1] == b[|b| - 1]
    ensures multiset(a[..|a| - 1]) == multiset(b[..|b| - 1])
  {
    var x, y := multiset(a[..|a| - 1]), multiset(b[..|b| - 1]);
    forall l: Label
      ensures x[l] == y[l]
    {
      CountInFront(a, l);
      CountInFront(b, l);
    }
  }

  lemma SameFrontAndLast(a: seq<Label>, b: seq<Label>)
    requires a != [] && b != [] && a[|a| - 1] == b[|b| - 1] && a[..|a| - 1] == b[..|b| - 1]
    ensures a == b
  {
    assert a == a[..|a| - 1] + [a[|a| - 1]] && b == b[..|b| - 1] + [b[|b| - 1]];
  }

  /** The order of a sorted permutation is then forced. */
  lemma {:induction false} SortedOrderIsUnique(a: seq<Label>, b: seq<Label>)
    requires SortedByName(a) && SortedByName(b) && multiset(a) == multiset(b) && NamesIdentify(a)
    ensures a == b
    decreases |a|
  {
    hide *;
    SameLength(a, b);
    if |a| > 0 {
      SameLast(a, b);
      SameFront(a, b);
      FrontOfSorted(a);
      FrontOfSorted(b);
      FrontIdentifies(a);
      SortedOrderIsUnique(a[..|a| - 1], b[..|b| - 1]);
      SameFrontAndLast(a, b);
    }
  }

  lemma {:induction false} LessIrreflexive(a: Bytes)
    ensures !Less(a, a)
  {
    if a != [] {
      LessIrreflexive(a[1..]);
    }
  }

  lemma NamesIdentifyOfPermutation(a: seq<Label>, b: seq<Label>)
    requires multiset(a) == multiset(b) && NamesIdentify(a)
    ensures NamesIdentify(b)
  {
    forall i, j | 0 <= i < |b| && 0 <= j < |b| && b[i].name == b[j].name
      ensures b[i] == b[j]
    {
      assert b[i] in multiset(a) && b[j] in multiset(a);
    }
  }

  /** Replicas whose external labels agree but for `pod` and `node` (in any order)
      write the same bytes for global samples, although the sort is not stable. */
  lemma {:induction false} ReplicasWriteTheSame(samples: seq<Sample>, extra: seq<Label>, extra': seq<Label>, ts: I64,
                             req: Bytes, orders: seq<seq<Label>>, req': Bytes, orders': seq<seq<Label>>)
    requires forall i :: 0 <= i < |samples| ==> samples[i].global && NamesIdentify(LabelSet(samples[i], extra))
    requires multiset(Shared(extra)) == multiset(Shared(extra'))
    requires Writes(req, orders, samples, extra, ts) && Writes(req', orders', samples, extra', ts)
    ensures req == req'
  {
    hide MessageBytes, SeriesBytes, Shared, NamesIdentify;
    forall i | 0 <= i < |samples|
      ensures orders[i] == orders'[i]
    {
      var s := samples[i];
      assert s.global && NamesIdentify(LabelSet(s, extra));
      assert SortedOrder(orders[i], LabelSet(s, extra)) && SortedOrder(orders'[i], LabelSet(s, extra'));
      assert multiset(LabelSet(s, extra)) == multiset(LabelSet(s, extra')) by {
        var m := [Label(METRIC_NAME, s.metric)];
        assert multiset(LabelSet(s, extra)) == multiset(m) + multiset(Shared(extra)) + multiset(s.labels);
        assert multiset(LabelSet(s, extra')) == multiset(m) + multiset(Shared(extra')) + multiset(s.labels);
      }
      NamesIdentifyOfPermutation(LabelSet(s, extra), orders[i]);
      SortedOrderIsUnique(orders[i], orders'[i]);
    }
    assert orders == orders';
  }

  /** Dropping keeps exactly the labels that are neither `pod` nor `node`, in order
      and with their multiplicity. */
  lemma {:induction false} SharedKeepsTheRest(extra: seq<Label>, l: Label)
    ensures multiset(Shared(extra))[l] == if l.name == POD || l.name == NODE then 0 else multiset(extra)[l]
  {
    if extra != [] {
      var n := |extra| - 1;
      SharedKeepsTheRest(extra[..n], l);
      assert extra == extra[..n] + [extra[n]];
    }
  }
}
