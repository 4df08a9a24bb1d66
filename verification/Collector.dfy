// From merged rows to samples: internal rows are dropped in place, key columns
// become labels with decoded addresses, numeric columns become values.

module Collector {
  import opened ByteStrings
  import opened Wrappers
  import opened Labels
  import opened TmstatRow
  import opened Aggregation
  import opened AggregationLaws
  import opened TmstatSegment
  import opened Addresses
  import opened Selection
  import Decimal
  import TextFormat

  const UNDERSCORE: Byte := 95
  const PREFIX: Bytes := [102, 53, 116, 109, 109, 95]      // "f5tmm_"
  const STAT_SUFFIX: Bytes := [95, 115, 116, 97, 116]      // "_stat"

  /** A collected data point; the value is the exact integer before it becomes a
      double.  PromWrite takes it up in Delivery. */
  datatype Reading = Reading(metric: Bytes, labels: seq<Label>, value: int)

  // ----- internal rows

  /** A name that starts with an underscore, or a link-local address. */
  predicate MarksInternal(b: Bytes, c: Column, ip6: Bytes -> Bytes) {
    var v := Render(b, c);
    || (v != [] && v[0] == UNDERSCORE)
    || (c.IsAddress() && DecodeAddrOf(v, ip6).Some? && IsLinkLocal(DecodeAddrOf(v, ip6).value))
  }

  predicate IsInternal(b: Bytes, keyCols: seq<Column>, ip6: Bytes -> Bytes) {
    exists i :: 0 <= i < |keyCols| && MarksInternal(b, keyCols[i], ip6)
  }

  /** The rows that are not internal, in order. */
  function Visible(rows: seq<Bytes>, keyCols: seq<Column>, ip6: Bytes -> Bytes): seq<Bytes> {
    if rows == [] then []
    else
      var front, r := Visible(rows[..|rows| - 1], keyCols, ip6), rows[|rows| - 1];
      if IsInternal(r, keyCols, ip6) then front else front + [r]
  }

  method CheckInternal(b: Bytes, keyCols: seq<Column>, ip6: Bytes -> Bytes) returns (internal: bool)
    ensures internal == IsInternal(b, keyCols, ip6)
  {
    hide Render, DecodeAddrOf;
    for i := 0 to |keyCols|
      invariant forall j :: 0 <= j < i ==> !MarksInternal(b, keyCols[j], ip6)
    {
      var v := Value(b, keyCols[i]);
      if v != [] && v[0] == UNDERSCORE {
        assert MarksInternal(b, keyCols[i], ip6);
        return true;
      }
      if keyCols[i].IsAddress() {
        var ip := DecodeAddr(v, ip6);
        if ip.Some? && IsLinkLocal(ip.value) {
          assert MarksInternal(b, keyCols[i], ip6);
          return true;
        }
      }
    }
    return false;
  }

  /** What makes a row internal through an address column, said of its bytes: the
      address is IPv4 in 169.254.0.0/16, or IPv6 in fe80::/16. */
  lemma {:induction false} MarksInternalIff(b: Bytes, c: Column, ip6: Bytes -> Bytes)
    requires c.IsAddress() && c.size == ADDRESS_LENGTH && c.FitsIn(b) && Ip6Text(ip6)
    ensures var x := b[c.offset..c.offset + c.size];
            MarksInternal(b, c, ip6)
            <==> if IsMapped(x) then x[12] == 169 && x[13] == 254 else x[0] == 0xfe && x[1] == 0x80
  {
    hide DecodeAddrOf, IpText, IsLinkLocal, Ip6Text;
    var x := b[c.offset..c.offset + c.size];
    assert AddrHexOf(x)[0] == HexDigit(x[0] / 16);
    hide AddrHexOf;
    DecodeOfRendered(x, ip6);
    if IsMapped(x) {
      LinkLocalIff(x, ip6);
    } else {
      LinkLocal6Iff(x, ip6);
    }
  }

  lemma {:induction false} TextMarksIff(b: Bytes, c: Column, ip6: Bytes -> Bytes)
    requires c.typ == 3
    ensures MarksInternal(b, c, ip6) <==> c.offset + c.size <= |b| && c.size > 0 && b[c.offset] == 95
  {
    if c.offset + c.size <= |b| {
      TextOf(b, c);
    }
  }

  lemma {:induction false} NumberMarksNothing(b: Bytes, c: Column, ip6: Bytes -> Bytes)
    requires c.typ != 3 && c.typ != 6
    ensures !MarksInternal(b, c, ip6)
  {
    hide IntAt, UintAt;
    if c.offset + c.size <= |b| {
      if c.typ == 1 {
        Decimal.FormatIntBytes(IntAt(b, c.offset, c.size));
      } else {
        assert Decimal.AllDigits(Decimal.FormatUint(UintAt(b, c.offset, c.size)));
      }
    }
  }

  lemma {:induction false} OtherAddressesMarkNothing(b: Bytes, c: Column, ip6: Bytes -> Bytes)
    requires c.typ == 6 && (c.offset + c.size > |b| || c.size != 20)
    ensures !MarksInternal(b, c, ip6)
  {
    hide DecodeAddrOf;
    if c.offset + c.size <= |b| {
      DecodeOfRendered(b[c.offset..c.offset + c.size], ip6);
      if c.size > 0 {
        AddressOf(b, c, 0);
      }
    } else {
      EmptySplits();
      DecodeOfRendered([], ip6);
    }
  }

  /** What makes a row internal, said of its bytes, for columns of every kind: text that
      starts with an underscore, and a 20-byte address in 169.254.0.0/16 or fe80::/16. */
  lemma {:induction false} InternalColumnIff(b: Bytes, c: Column, ip6: Bytes -> Bytes)
    requires Ip6Text(ip6)
    ensures MarksInternal(b, c, ip6)
            <==> && c.offset + c.size <= |b|
                 && (|| (c.typ == 3 && c.size > 0 && b[c.offset] == 95)
                     || (c.typ == 6 && c.size == 20
                         && var x := b[c.offset..c.offset + 20];
                            if x[10] == 255 && x[11] == 255 then x[12] == 169 && x[13] == 254
                            else x[0] == 254 && x[1] == 128))
  {
    hide MarksInternal, Ip6Text;
    if c.typ == 3 {
      TextMarksIff(b, c, ip6);
    } else if c.typ != 6 {
      NumberMarksNothing(b, c, ip6);
    } else if c.offset + c.size > |b| || c.size != 20 {
      OtherAddressesMarkNothing(b, c, ip6);
    } else {
      MarksInternalIff(b, c, ip6);
    }
  }

  /** The visible rows are those that no key column marks, in order. */
  lemma {:induction false} VisibleAre(rows: seq<Bytes>, keyCols: seq<Column>, ip6: Bytes -> Bytes)
    returns (at: seq<nat>)
    ensures Picked(rows, at, Visible(rows, keyCols, ip6))
    ensures forall j :: 0 <= j < |rows| ==>
              (j in at <==> forall i :: 0 <= i < |keyCols| ==> !MarksInternal(rows[j], keyCols[i], ip6))
  {
    hide Picked, MarksInternal;
    at := [];
    if rows == [] {
      PickedNone<Bytes>();
    } else {
      var n := |rows| - 1;
      var front, x := rows[..n], rows[n];
      at := VisibleAre(front, keyCols, ip6);
      assert rows == front + [x];
      PickedSnoc(front, at, Visible(front, keyCols, ip6), x);
      if !IsInternal(x, keyCols, ip6) {
        at := at + [n];
      }
    }
  }

  lemma NothingVisible(keyCols: seq<Column>, ip6: Bytes -> Bytes)
    ensures Visible([], keyCols, ip6) == []
  {
  }

  lemma {:induction false} NextVisible(raws: seq<Bytes>, i: nat, keyCols: seq<Column>, ip6: Bytes -> Bytes)
    requires i < |raws|
    ensures Visible(raws[..i + 1], keyCols, ip6)
         == if IsInternal(raws[i], keyCols, ip6) then Visible(raws[..i], keyCols, ip6)
            else Visible(raws[..i], keyCols, ip6) + [raws[i]]
  {
    hide IsInternal;
    assert raws[..i + 1][..i] == raws[..i];
  }

  /** The rows `now` are those of `was` at ascending positions below `lim`, and `kept` is
      what they hold. */
  ghost predicate Moved(now: seq<array<Byte>>, kept: seq<Bytes>, was: seq<array<Byte>>, raws: seq<Bytes>,
                        from: seq<nat>, lim: nat)
    requires lim <= |was| == |raws|
  {
    && |now| == |kept| == |from|
    && (forall p :: 0 <= p < |from| ==> from[p] < lim && now[p] == was[from[p]] && kept[p] == raws[from[p]])
    && (forall p, q :: 0 <= p < q < |from| ==> from[p] < from[q])
  }

  lemma NothingMoved(was: seq<array<Byte>>, raws: seq<Bytes>)
    requires |was| == |raws|
    ensures Moved([], [], was, raws, [], 0)
  {
  }

  lemma MovedOn(now: seq<array<Byte>>, kept: seq<Bytes>, was: seq<array<Byte>>, raws: seq<Bytes>, from: seq<nat>,
                i: nat)
    requires i < |was| == |raws| && Moved(now, kept, was, raws, from, i)
    ensures |now| == |from| == |kept| <= i
    ensures Moved(now, kept, was, raws, from, i + 1)
    ensures Moved(now + [was[i]], kept + [raws[i]], was, raws, from + [i], i + 1)
  {
    PositionsFit(from, i);
  }

  lemma {:induction false} PositionsFit(from: seq<nat>, lim: nat)
    requires forall p :: 0 <= p < |from| ==> from[p] < lim
    requires forall p, q :: 0 <= p < q < |from| ==> from[p] < from[q]
    ensures |from| <= lim
  {
    if from != [] {
      PositionsFit(from[..|from| - 1], from[|from| - 1]);
    }
  }

  lemma {:induction false} WhatMoved(now: seq<array<Byte>>, kept: seq<Bytes>, was: seq<array<Byte>>, raws: seq<Bytes>,
                                     from: seq<nat>, lim: nat)
    requires lim <= |was| == |raws| && Moved(now, kept, was, raws, from, lim)
    requires forall j :: 0 <= j < |was| ==> raws[j] == was[j][..]
    ensures |now| == |from| && Buffers(now) == kept
    ensures forall p :: 0 <= p < |from| ==> from[p] < lim && now[p] == was[from[p]]
    ensures forall p, q :: 0 <= p < q < |from| ==> from[p] < from[q]
  {
    BuffersAre(now, kept);
  }

  lemma BuffersHold(rows: seq<array<Byte>>)
    ensures forall j :: 0 <= j < |rows| ==> Buffers(rows)[j] == rows[j][..]
  {
  }

  lemma BuffersAre(rows: seq<array<Byte>>, raws: seq<Bytes>)
    requires |rows| == |raws| && forall j :: 0 <= j < |rows| ==> rows[j][..] == raws[j]
    ensures Buffers(rows) == raws
  {
  }

  /** Moves the visible rows to the front of the slice being iterated; they are its
      first `n` elements.  Where each came from is recorded in `from`. */
  method DropInternal(rows: array<array<Byte>>, keyCols: seq<Column>, ip6: Bytes -> Bytes)
    returns (n: nat, ghost from: seq<nat>)
    modifies rows
    ensures n <= rows.Length && |from| == n
    ensures Buffers(rows[..n]) == Visible(old(Buffers(rows[..])), keyCols, ip6)
    ensures forall p :: 0 <= p < n ==> from[p] < rows.Length && rows[p] == old(rows[from[p]])
    ensures forall p, q :: 0 <= p < q < n ==> from[p] < from[q]
  {
    hide *;
    n, from := 0, [];
    ghost var was, raws := rows[..], Buffers(rows[..]);
    ghost var kept: seq<Bytes> := [];
    BuffersHold(was);
    NothingVisible(keyCols, ip6);
    NothingMoved(was, raws);
    for i := 0 to rows.Length
      invariant n <= i
      invariant rows[i..] == was[i..]
      invariant Moved(rows[..n], kept, was, raws, from, i)
      invariant kept == Visible(raws[..i], keyCols, ip6)
    {
      NextVisible(raws, i, keyCols, ip6);
      ghost var front := rows[..n];
      MovedOn(front, kept, was, raws, from, i);
      var r := rows[i];
      assert r == rows[i..][0] == was[i];
      var internal := CheckInternal(r[..], keyCols, ip6);
      if !internal {
        rows[n] := r;
        n, from, kept := n + 1, from + [i], kept + [raws[i]];
        assert rows[..n] == front + [was[i]];
      }
    }
    assert raws[..rows.Length] == raws;
    WhatMoved(rows[..n], kept, was, raws, from, rows.Length);
  }

  // ----- labels

  /** A key column as a label value: addresses are decoded where that works. */
  function Shown(b: Bytes, c: Column, ip6: Bytes -> Bytes): Bytes {
    var v := Render(b, c);
    if c.IsAddress() && DecodeAddrOf(v, ip6).Some? then DecodeAddrOf(v, ip6).value else v
  }

  function LabelsOf(b: Bytes, keyCols: seq<Column>, ip6: Bytes -> Bytes): (ls: seq<Label>)
    ensures |ls| == |keyCols|
  {
    seq(|keyCols|, i requires 0 <= i < |keyCols| =>
      Label(TextFormat.SanitizeOf(keyCols[i].name), Shown(b, keyCols[i], ip6)))
  }

  method RowLabels(b: Bytes, keyCols: seq<Column>, ip6: Bytes -> Bytes) returns (ls: seq<Label>)
    ensures ls == LabelsOf(b, keyCols, ip6)
  {
    hide Render, DecodeAddrOf;
    ls := [];
    for i := 0 to |keyCols|
      invariant ls == LabelsOf(b, keyCols, ip6)[..i]
    {
      var v := Value(b, keyCols[i]);
      if keyCols[i].IsAddress() {
        var ip := DecodeAddr(v, ip6);
        if ip.Some? {
          v := ip.value;
        }
      }
      var name := TextFormat.Sanitize(keyCols[i].name);
      ls := ls + [Label(name, v)];
    }
  }

  // ----- samples

  function NumberOf(b: Bytes, c: Column): int {
    if c.typ == TYPE_SIGNED then IntAt(b, c.offset, c.size)
    else if c.typ == TYPE_UNSIGNED then UintAt(b, c.offset, c.size)
    else 0
  }

  method Number(b: Bytes, c: Column) returns (v: int)
    ensures v == NumberOf(b, c)
  {
    if c.typ == TYPE_SIGNED {
      v := LeInt(b, c.offset, c.size);
    } else if c.typ == TYPE_UNSIGNED {
      v := LeUint(b, c.offset, c.size);
    } else {
      v := 0;
    }
  }

  function ValueColumns(cols: seq<Column>): seq<Column> {
    if cols == [] then []
    else if !cols[0].IsKey() && cols[0].IsNumeric() then [cols[0]] + ValueColumns(cols[1..])
    else ValueColumns(cols[1..])
  }

  function TrimStat(name: Bytes): Bytes {
    if |name| >= 5 && name[|name| - 5..] == STAT_SUFFIX then name[..|name| - 5] else name
  }

  /** The suffix "_stat" is dropped once; other names are kept. */
  lemma TrimStatDropsTheSuffix(name: Bytes)
    ensures TrimStat(name + [95, 115, 116, 97, 116]) == name
    ensures (forall p: Bytes :: p + [95, 115, 116, 97, 116] != name) ==> TrimStat(name) == name
  {
    var s := name + [95, 115, 116, 97, 116];
    assert s[|s| - 5..] == [95, 115, 116, 97, 116] && s[..|s| - 5] == name;
    if |name| >= 5 && name[|name| - 5..] == STAT_SUFFIX {
      assert name[..|name| - 5] + [95, 115, 116, 97, 116] == name;
    }
  }

  function Metric(table: Bytes, c: Column): Bytes {
    PREFIX + TextFormat.SanitizeOf(TrimStat(table)) + [UNDERSCORE] + TextFormat.SanitizeOf(c.name)
  }

  /** The metric name is "f5tmm_", the sanitized table name without its suffix, an
      underscore, and the sanitized column name. */
  lemma MetricIs(name: Bytes, c: Column)
    ensures Metric(name + [95, 115, 116, 97, 116], c)
         == [102, 53, 116, 109, 109, 95] + TextFormat.SanitizeOf(name) + [95] + TextFormat.SanitizeOf(c.name)
    ensures (forall p: Bytes :: p + [95, 115, 116, 97, 116] != name) ==>
              Metric(name, c)
              == [102, 53, 116, 109, 109, 95] + TextFormat.SanitizeOf(name) + [95] + TextFormat.SanitizeOf(c.name)
  {
    TrimStatDropsTheSuffix(name);
  }

  /** One sample per row for a value column, in row order. */
  function ColumnSamples(metric: Bytes, c: Column, rows: seq<Bytes>, keyCols: seq<Column>, ip6: Bytes -> Bytes):
    (r: seq<Reading>)
    ensures |r| == |rows|
  {
    seq(|rows|, i requires 0 <= i < |rows| =>
      Reading(metric, LabelsOf(rows[i], keyCols, ip6), NumberOf(rows[i], c)))
  }

  /** The samples of a table, column by column. */
  function TableSamples(table: Bytes, valCols: seq<Column>, rows: seq<Bytes>, keyCols: seq<Column>,
                        ip6: Bytes -> Bytes): seq<Reading> {
    if valCols == [] then []
    else
      var c := valCols[|valCols| - 1];
      TableSamples(table, valCols[..|valCols| - 1], rows, keyCols, ip6)
      + ColumnSamples(Metric(table, c), c, rows, keyCols, ip6)
  }

  lemma NextColumnSamples(table: Bytes, valCols: seq<Column>, i: nat, rows: seq<Bytes>, keyCols: seq<Column>,
                          ip6: Bytes -> Bytes)
    requires i < |valCols|
    ensures TableSamples(table, valCols[..i + 1], rows, keyCols, ip6)
         == TableSamples(table, valCols[..i], rows, keyCols, ip6)
            + ColumnSamples(Metric(table, valCols[i]), valCols[i], rows, keyCols, ip6)
  {
    hide Metric, ColumnSamples;
    assert valCols[..i + 1][..i] == valCols[..i];
  }

  lemma {:induction false} ValueColumnsSnoc(cols: seq<Column>, c: Column)
    ensures ValueColumns(cols + [c])
         == if !c.IsKey() && c.IsNumeric() then ValueColumns(cols) + [c] else ValueColumns(cols)
  {
    if cols == [] {
      assert cols + [c] == [c] && [c][1..] == [] && ValueColumns([]) == [];
    } else {
      assert (cols + [c])[1..] == cols[1..] + [c];
      ValueColumnsSnoc(cols[1..], c);
    }
  }

  /** The value columns are the numeric columns that are no keys, in order. */
  lemma {:induction false} ValueColumnsAre(cols: seq<Column>) returns (at: seq<nat>)
    ensures Picked(cols, at, ValueColumns(cols))
    ensures forall j :: 0 <= j < |cols| ==>
              (j in at <==> (cols[j].typ == 1 || cols[j].typ == 2) && (cols[j].rule != 0 || cols[j].dropped))
  {
    hide Picked;
    at := [];
    if cols == [] {
      PickedNone<Column>();
    } else {
      var n := |cols| - 1;
      var front, x := cols[..n], cols[n];
      at := ValueColumnsAre(front);
      assert cols == front + [x];
      ValueColumnsSnoc(front, x);
      PickedSnoc(front, at, ValueColumns(front), x);
      if !x.IsKey() && x.IsNumeric() {
        at := at + [n];
      }
    }
  }

  // ----- what the readings are

  lemma {:induction false} SampleCount(table: Bytes, vals: seq<Column>, rows: seq<Bytes>, keyCols: seq<Column>,
                                       ip6: Bytes -> Bytes)
    ensures |TableSamples(table, vals, rows, keyCols, ip6)| == |vals| * |rows|
  {
    hide ColumnSamples, Metric;
    if vals != [] {
      SampleCount(table, vals[..|vals| - 1], rows, keyCols, ip6);
      assert |vals| * |rows| == (|vals| - 1) * |rows| + |rows|;
    }
  }

  lemma {:induction false} SampleAt(table: Bytes, vals: seq<Column>, rows: seq<Bytes>, keyCols: seq<Column>,
                                    ip6: Bytes -> Bytes, c: nat, r: nat)
    requires c < |vals| && r < |rows|
    ensures c * |rows| + r < |TableSamples(table, vals, rows, keyCols, ip6)|
    ensures TableSamples(table, vals, rows, keyCols, ip6)[c * |rows| + r]
         == Reading(Metric(table, vals[c]), LabelsOf(rows[r], keyCols, ip6), NumberOf(rows[r], vals[c]))
  {
    hide Metric, LabelsOf, NumberOf;
    var n := |vals| - 1;
    SampleCount(table, vals[..n], rows, keyCols, ip6);
    if c < n {
      SampleAt(table, vals[..n], rows, keyCols, ip6, c, r);
    }
  }

  /** The number of a row's column, said of its bytes: unsigned for type 2, two's
      complement for type 1, 0 outside the row and for other types. */
  lemma {:induction false} NumberIs(b: Bytes, c: Column)
    ensures c.offset + c.size > |b| ==> NumberOf(b, c) == 0
    ensures c.typ != 1 && c.typ != 2 ==> NumberOf(b, c) == 0
    ensures c.offset + c.size <= |b| && c.typ == 2 ==>
              NumberOf(b, c) == LeValue(b[c.offset..c.offset + Min(c.size, 8)])
    ensures c.offset + c.size <= |b| && c.typ == 1 ==>
              NumberOf(b, c) == TwosComplement(LeValue(b[c.offset..c.offset + Min(c.size, 8)]),
                                               if 1 <= c.size <= 8 then c.size else 8)
  {
    hide LeValue, TwosComplement;
    if c.offset + c.size <= |b| {
      SignedReading(b, c);
    } else {
      NothingIsZero(b, c);
    }
  }

  lemma NothingIsZero(b: Bytes, c: Column)
    requires c.offset + c.size > |b|
    ensures IntAt(b, c.offset, c.size) == 0 && UintAt(b, c.offset, c.size) == 0
  {
    hide Pow256;
    if 0 < c.size < 8 {
      DivModUnique(0, Pow256(8 - c.size), 0, 0);
      assert 0 * Pow256(8 - c.size) == 0;
    }
  }

  /** `v` is the number that the column's bytes hold: unsigned for type 2, two's complement
      for type 1; 0 when the column leaves the row. */
  predicate HoldsNumber(b: Bytes, c: Column, v: int) {
    if c.offset + c.size > |b| then v == 0
    else
      var u := LeValue(b[c.offset..c.offset + c.size]);
      (c.typ == 2 ==> v == u) && (c.typ == 1 ==> v == TwosComplement(u, c.size))
  }

  lemma NumberIsHeld(b: Bytes, c: Column)
    requires 1 <= c.size <= 8
    ensures HoldsNumber(b, c, NumberOf(b, c))
  {
    hide LeValue, TwosComplement, NumberOf;
    NumberIs(b, c);
  }

  /** One label per key column, in order: its sanitized name and what it shows. */
  predicate ShowsKeys(labels: seq<Label>, keyCols: seq<Column>, b: Bytes, ip6: Bytes -> Bytes) {
    && |labels| == |keyCols|
    && forall i :: 0 <= i < |keyCols| ==>
         labels[i].name == TextFormat.SanitizeOf(keyCols[i].name) && labels[i].value == Shown(b, keyCols[i], ip6)
  }

  /** Reading `c * |rows| + r` of a table is that of value column `c` and row `r`: its
      metric, its labels, and the number in the row's bytes. */
  lemma {:induction false} ReadingIs(table: Bytes, vals: seq<Column>, rows: seq<Bytes>, keyCols: seq<Column>,
                                     ip6: Bytes -> Bytes, c: nat, r: nat, n: nat)
    requires c < |vals| && r < |rows| && n == c * |rows| + r
    ensures |TableSamples(table, vals, rows, keyCols, ip6)| == |vals| * |rows|
    ensures n < |TableSamples(table, vals, rows, keyCols, ip6)|
    ensures var x := TableSamples(table, vals, rows, keyCols, ip6)[n];
            && x.metric == Metric(table, vals[c])
            && ShowsKeys(x.labels, keyCols, rows[r], ip6)
            && (1 <= vals[c].size <= 8 ==> HoldsNumber(rows[r], vals[c], x.value))
  {
    hide Metric, Shown, NumberOf, TableSamples, HoldsNumber, TextFormat.SanitizeOf;
    SampleCount(table, vals, rows, keyCols, ip6);
    SampleAt(table, vals, rows, keyCols, ip6, c, r);
    if 1 <= vals[c].size <= 8 {
      NumberIsHeld(rows[r], vals[c]);
    }
  }

  lemma NextColumn(cols: seq<Column>, i: nat)
    requires i < |cols|
    ensures KeyColumns(cols[i..]) == (if cols[i].IsKey() then [cols[i]] else []) + KeyColumns(cols[i + 1..])
    ensures ValueColumns(cols[i..])
         == (if !cols[i].IsKey() && cols[i].IsNumeric() then [cols[i]] else []) + ValueColumns(cols[i + 1..])
  {
    assert cols[i..][1..] == cols[i + 1..];
  }

  lemma NoColumns()
    ensures KeyColumns([]) == [] && ValueColumns([]) == []
  {
  }

  method SplitColumns(cols: seq<Column>) returns (keyCols: seq<Column>, valCols: seq<Column>)
    ensures keyCols == KeyColumns(cols) && valCols == ValueColumns(cols)
  {
    hide KeyColumns, ValueColumns;
    keyCols, valCols := [], [];
    assert cols[0..] == cols;
    for i := 0 to |cols|
      invariant keyCols + KeyColumns(cols[i..]) == KeyColumns(cols)
      invariant valCols + ValueColumns(cols[i..]) == ValueColumns(cols)
    {
      NextColumn(cols, i);
      if cols[i].IsKey() {
        keyCols := keyCols + [cols[i]];
      } else if cols[i].IsNumeric() {
        valCols := valCols + [cols[i]];
      }
    }
    NoColumns();
    assert cols[|cols|..] == [];
  }

  /** One sample per row for a value column. */
  method CollectColumn(metric: Bytes, c: Column, rows: array<array<Byte>>, n: nat, keyCols: seq<Column>,
                       ip6: Bytes -> Bytes) returns (out: seq<Reading>)
    requires n <= rows.Length
    ensures out == ColumnSamples(metric, c, Buffers(rows[..n]), keyCols, ip6)
  {
    hide LabelsOf, NumberOf;
    out := [];
    for j := 0 to n
      invariant out == ColumnSamples(metric, c, Buffers(rows[..n]), keyCols, ip6)[..j]
    {
      var b := rows[j][..];
      assert Buffers(rows[..n])[j] == b;
      var ls := RowLabels(b, keyCols, ip6);
      var v := Number(b, c);
      out := out + [Reading(metric, ls, v)];
    }
  }

  /** The samples of one table, from its merged rows. */
  method CollectTable(table: Bytes, cols: seq<Column>, rows: array<array<Byte>>, ip6: Bytes -> Bytes)
    returns (out: seq<Reading>)
    modifies rows
    ensures var kept := Visible(old(Buffers(rows[..])), KeyColumns(cols), ip6);
            out == TableSamples(table, ValueColumns(cols), kept, KeyColumns(cols), ip6)
  {
    hide Visible, KeyColumns, ValueColumns, ColumnSamples, TextFormat.SanitizeOf, TrimStat;
    var keyCols, valCols := SplitColumns(cols);
    var n, from := DropInternal(rows, keyCols, ip6);
    ghost var kept := Buffers(rows[..n]);
    var name := TextFormat.Sanitize(TrimStat(table));
    var prefix := PREFIX + name + [UNDERSCORE];
    out := [];
    for i := 0 to |valCols|
      invariant Buffers(rows[..n]) == kept
      invariant out == TableSamples(table, valCols[..i], kept, keyCols, ip6)
    {
      NextColumnSamples(table, valCols, i, kept, keyCols, ip6);
      var suffix := TextFormat.Sanitize(valCols[i].name);
      assert Metric(table, valCols[i]) == prefix + suffix;
      var samples := CollectColumn(prefix + suffix, valCols[i], rows, n, keyCols, ip6);
      out := out + samples;
    }
    assert valCols[..|valCols|] == valCols;
  }

  // ----- unique label sets

  /** Two rows carry the same labels exactly when every key column shows the same. */
  lemma SameLabelsIff(a: Bytes, b: Bytes, keyCols: seq<Column>, ip6: Bytes -> Bytes)
    ensures LabelsOf(a, keyCols, ip6) == LabelsOf(b, keyCols, ip6)
            <==> forall i :: 0 <= i < |keyCols| ==> Shown(a, keyCols[i], ip6) == Shown(b, keyCols[i], ip6)
  {
    hide Shown;
    var x, y := LabelsOf(a, keyCols, ip6), LabelsOf(b, keyCols, ip6);
    if x == y {
      forall i | 0 <= i < |keyCols|
        ensures Shown(a, keyCols[i], ip6) == Shown(b, keyCols[i], ip6)
      {
        assert x[i].value == y[i].value;
      }
    }
  }

  /** The column shows the same in both rows: of two 20-byte addresses the bytes that
      decoding keeps agree, of anything else the rendering. */
  predicate Alike(a: Bytes, b: Bytes, c: Column) {
    if c.IsAddress() && c.size == ADDRESS_LENGTH && c.FitsIn(a) && c.FitsIn(b) then
      SameKept(a[c.offset..c.offset + c.size], b[c.offset..c.offset + c.size])
    else Render(a, c) == Render(b, c)
  }

  predicate AllAlike(keyCols: seq<Column>, a: Bytes, b: Bytes) {
    forall i :: 0 <= i < |keyCols| ==> Alike(a, b, keyCols[i])
  }

  /** What a column shows: the IP text of a 20-byte address, else the rendering. */
  lemma ShownIs(b: Bytes, c: Column, ip6: Bytes -> Bytes)
    ensures Shown(b, c, ip6)
         == if c.IsAddress() && c.size == ADDRESS_LENGTH && c.FitsIn(b)
            then IpText(b[c.offset..c.offset + c.size], ip6) else Render(b, c)
  {
    hide DecodeAddrOf, IpText, AddrHexOf;
    if c.IsAddress() {
      if c.FitsIn(b) {
        DecodeOfRendered(b[c.offset..c.offset + c.size], ip6);
      } else {
        EmptySplits();
        DecodeOfRendered([], ip6);
      }
    }
  }

  lemma {:induction false} ShownAlikeIff(a: Bytes, b: Bytes, c: Column, ip6: Bytes -> Bytes)
    requires Ip6Text(ip6)
    ensures Shown(a, c, ip6) == Shown(b, c, ip6) <==> Alike(a, b, c)
  {
    hide Shown, IpText, Ip6Text, SameKept, AddrHexOf;
    ShownIs(a, c, ip6);
    ShownIs(b, c, ip6);
    if c.IsAddress() && c.size == ADDRESS_LENGTH && (c.FitsIn(a) || c.FitsIn(b)) {
      var x := if c.FitsIn(a) then a[c.offset..c.offset + c.size] else b[c.offset..c.offset + c.size];
      var y := if c.FitsIn(b) then b[c.offset..c.offset + c.size] else x;
      DecodeAlikeIff(x, y, ip6);
      DecodeAlikeIff(y, y, ip6);
      RenderedIsNotEmpty(x);
      RenderedIsNotEmpty(y);
    }
  }

  lemma RenderedIsNotEmpty(b: Bytes)
    requires b != []
    ensures AddrHexOf(b) != []
  {
  }

  /** Two rows carry the same labels exactly when they are alike on every key column:
      route domains, and the first ten bytes of an IPv4 address, do not show. */
  lemma {:induction false} LabelsAlikeIff(a: Bytes, b: Bytes, keyCols: seq<Column>, ip6: Bytes -> Bytes)
    requires Ip6Text(ip6)
    ensures LabelsOf(a, keyCols, ip6) == LabelsOf(b, keyCols, ip6) <==> AllAlike(keyCols, a, b)
  {
    hide Shown, LabelsOf, Alike, Ip6Text;
    SameLabelsIff(a, b, keyCols, ip6);
    forall i | 0 <= i < |keyCols|
      ensures Shown(a, keyCols[i], ip6) == Shown(b, keyCols[i], ip6) <==> Alike(a, b, keyCols[i])
    {
      ShownAlikeIff(a, b, keyCols[i], ip6);
    }
  }

  /** Rows with the same key are internal together and carry the same labels. */
  lemma SameKeyShowsTheSame(keyCols: seq<Column>, a: Bytes, b: Bytes, ip6: Bytes -> Bytes)
    requires SameKey(keyCols, a, b)
    ensures IsInternal(a, keyCols, ip6) == IsInternal(b, keyCols, ip6)
    ensures LabelsOf(a, keyCols, ip6) == LabelsOf(b, keyCols, ip6)
  {
    hide Render, DecodeAddrOf, IsLinkLocal, LabelsOf;
    assert forall i :: 0 <= i < |keyCols| ==> MarksInternal(a, keyCols[i], ip6) == MarksInternal(b, keyCols[i], ip6);
    SameLabelsIff(a, b, keyCols, ip6);
  }

  /** Every merged row has the key of one of the input rows. */
  lemma {:induction false} MergedRowShowsAnInputKey(cols: seq<Column>, rows: seq<Bytes>, p: nat) returns (i: nat)
    requires KeysApart(cols) && KeyColumns(cols) != [] && p < |AggregateOf(cols, rows)|
    ensures i < |rows| && SameKey(KeyColumns(cols), AggregateOf(cols, rows)[p], rows[i])
  {
    hide KeyText, KeyColumns, GroupRows, KeysApart, SameKey, FirstKeys;
    var kc, out := KeyColumns(cols), AggregateOf(cols, rows);
    RowRendersItsKey(cols, rows, p);
    GroupKeys(cols, rows);
    FirstKeysAreTheKeys(kc, rows);
    var k := GroupRows(cols, rows).keys[p];
    assert k in FirstKeys(kc, rows);
    i :| 0 <= i < |rows| && KeyText(kc, rows[i]) == k;
    KeyTextInjective(kc, out[p], rows[i]);
  }

  /** Every input row has the key of one of the merged rows. */
  lemma {:induction false} InputKeyIsMerged(cols: seq<Column>, rows: seq<Bytes>, i: nat) returns (p: nat)
    requires KeysApart(cols) && KeyColumns(cols) != [] && i < |rows|
    ensures p < |AggregateOf(cols, rows)| && SameKey(KeyColumns(cols), AggregateOf(cols, rows)[p], rows[i])
  {
    hide KeyText, KeyColumns, GroupRows, KeysApart, SameKey, FirstKeys;
    var kc, out := KeyColumns(cols), AggregateOf(cols, rows);
    GroupKeys(cols, rows);
    FirstKeysAreTheKeys(kc, rows);
    var k := KeyText(kc, rows[i]);
    assert HasKey(kc, rows, k);
    assert k in FirstKeys(kc, rows);
    p :| 0 <= p < |out| && GroupRows(cols, rows).keys[p] == k;
    RowRendersItsKey(cols, rows, p);
    KeyTextInjective(kc, out[p], rows[i]);
  }

  lemma {:induction false} VisibleRowsComeInOrder(rows: seq<Bytes>, keyCols: seq<Column>, ip6: Bytes -> Bytes,
                                                  p: nat, q: nat) returns (i: nat, j: nat)
    requires p < q < |Visible(rows, keyCols, ip6)|
    ensures i < j < |rows| && rows[i] == Visible(rows, keyCols, ip6)[p] && rows[j] == Visible(rows, keyCols, ip6)[q]
  {
    hide IsInternal;
    var n := |rows| - 1;
    var front := Visible(rows[..n], keyCols, ip6);
    if q < |front| {
      i, j := VisibleRowsComeInOrder(rows[..n], keyCols, ip6, p, q);
    } else {
      i := VisibleRowComesFrom(rows[..n], keyCols, ip6, p);
      j := n;
    }
  }

  lemma {:induction false} VisibleRowComesFrom(rows: seq<Bytes>, keyCols: seq<Column>, ip6: Bytes -> Bytes, p: nat)
    returns (i: nat)
    requires p < |Visible(rows, keyCols, ip6)|
    ensures i < |rows| && rows[i] == Visible(rows, keyCols, ip6)[p]
  {
    hide IsInternal;
    var n := |rows| - 1;
    if p < |Visible(rows[..n], keyCols, ip6)| {
      i := VisibleRowComesFrom(rows[..n], keyCols, ip6, p);
    } else {
      i := n;
    }
  }

  /** Every row that is not internal stays. */
  lemma {:induction false} VisibleKeeps(rows: seq<Bytes>, keyCols: seq<Column>, ip6: Bytes -> Bytes, i: nat)
    returns (p: nat)
    requires i < |rows| && !IsInternal(rows[i], keyCols, ip6)
    ensures p < |Visible(rows, keyCols, ip6)| && Visible(rows, keyCols, ip6)[p] == rows[i]
  {
    hide IsInternal;
    var n := |rows| - 1;
    if i < n {
      p := VisibleKeeps(rows[..n], keyCols, ip6, i);
    } else {
      p := |Visible(rows[..n], keyCols, ip6)|;
    }
  }

  /** No two of the rows carry the same labels. */
  predicate DistinctLabels(rows: seq<Bytes>, keyCols: seq<Column>, ip6: Bytes -> Bytes) {
    forall p, q :: 0 <= p < q < |rows| ==> LabelsOf(rows[p], keyCols, ip6) != LabelsOf(rows[q], keyCols, ip6)
  }

  /** Rows that are not internal and carry the same labels have the same key. */
  predicate LabelsIdentify(rows: seq<Bytes>, keyCols: seq<Column>, ip6: Bytes -> Bytes) {
    forall i, j :: 0 <= i < |rows| && 0 <= j < |rows|
                   && !IsInternal(rows[i], keyCols, ip6) && !IsInternal(rows[j], keyCols, ip6)
                   && LabelsOf(rows[i], keyCols, ip6) == LabelsOf(rows[j], keyCols, ip6) ==>
                     SameKey(keyCols, rows[i], rows[j])
  }

  /** Rows that are not internal and are alike on every key column have the same key. */
  predicate AlikeOnlyIfSameKey(rows: seq<Bytes>, keyCols: seq<Column>, ip6: Bytes -> Bytes) {
    forall i, j :: 0 <= i < |rows| && 0 <= j < |rows|
                   && !IsInternal(rows[i], keyCols, ip6) && !IsInternal(rows[j], keyCols, ip6)
                   && AllAlike(keyCols, rows[i], rows[j]) ==>
                     SameKey(keyCols, rows[i], rows[j])
  }

  /** What is published of a table: its rows merged and the internal ones dropped. */
  function Kept(cols: seq<Column>, rows: seq<Bytes>, ip6: Bytes -> Bytes): seq<Bytes> {
    Visible(AggregateOf(cols, rows), KeyColumns(cols), ip6)
  }

  lemma {:induction false} UniqueWhenFaithful(cols: seq<Column>, rows: seq<Bytes>, ip6: Bytes -> Bytes, p: nat, q: nat)
    requires KeysApart(cols) && KeyColumns(cols) != []
    requires LabelsIdentify(rows, KeyColumns(cols), ip6)
    requires p < q < |Kept(cols, rows, ip6)|
    ensures var kc, kept := KeyColumns(cols), Kept(cols, rows, ip6);
            LabelsOf(kept[p], kc, ip6) != LabelsOf(kept[q], kc, ip6)
  {
    hide KeyColumns, AggregateOf, Visible, LabelsOf, KeysApart, SameKey, KeyText, IsInternal;
    var kc, out := KeyColumns(cols), AggregateOf(cols, rows);
    var i, j := VisibleRowsComeInOrder(out, kc, ip6, p, q);
    VisibleIsNotInternal(out, kc, ip6, p);
    VisibleIsNotInternal(out, kc, ip6, q);
    ResultKeysAreUnique(cols, rows);
    var i' := MergedRowShowsAnInputKey(cols, rows, i);
    var j' := MergedRowShowsAnInputKey(cols, rows, j);
    SameKeyShowsTheSame(kc, out[i], rows[i'], ip6);
    SameKeyShowsTheSame(kc, out[j], rows[j'], ip6);
    if LabelsOf(out[i], kc, ip6) == LabelsOf(out[j], kc, ip6) {
      SameKeyChain(kc, out[i], rows[i'], rows[j'], out[j]);
      assert false;
    }
  }

  lemma SameKeyChain(keyCols: seq<Column>, a: Bytes, b: Bytes, c: Bytes, d: Bytes)
    requires SameKey(keyCols, a, b) && SameKey(keyCols, b, c) && SameKey(keyCols, d, c)
    ensures SameKey(keyCols, a, d)
  {
    hide Render;
  }

  lemma {:induction false} VisibleIsNotInternal(rows: seq<Bytes>, keyCols: seq<Column>, ip6: Bytes -> Bytes, p: nat)
    requires p < |Visible(rows, keyCols, ip6)|
    ensures !IsInternal(Visible(rows, keyCols, ip6)[p], keyCols, ip6)
  {
    hide IsInternal;
    var n := |rows| - 1;
    if p < |Visible(rows[..n], keyCols, ip6)| {
      VisibleIsNotInternal(rows[..n], keyCols, ip6, p);
    }
  }

  lemma {:induction false} FaithfulWhenUnique(cols: seq<Column>, rows: seq<Bytes>, ip6: Bytes -> Bytes, i: nat, j: nat)
    requires KeysApart(cols) && KeyColumns(cols) != []
    requires DistinctLabels(Kept(cols, rows, ip6), KeyColumns(cols), ip6)
    requires i < |rows| && j < |rows|
    requires LabelsOf(rows[i], KeyColumns(cols), ip6) == LabelsOf(rows[j], KeyColumns(cols), ip6)
    requires !IsInternal(rows[i], KeyColumns(cols), ip6) && !IsInternal(rows[j], KeyColumns(cols), ip6)
    ensures SameKey(KeyColumns(cols), rows[i], rows[j])
  {
    hide KeyColumns, AggregateOf, Visible, LabelsOf, KeysApart, SameKey, KeyText, IsInternal;
    var kc, out := KeyColumns(cols), AggregateOf(cols, rows);
    var p := InputKeyIsMerged(cols, rows, i);
    var q := InputKeyIsMerged(cols, rows, j);
    SameKeyShowsTheSame(kc, out[p], rows[i], ip6);
    SameKeyShowsTheSame(kc, out[q], rows[j], ip6);
    var p' := VisibleKeeps(out, kc, ip6, p);
    var q' := VisibleKeeps(out, kc, ip6, q);
    assert p' == q';
    assert out[p] == out[q];
    SameKeyJoin(kc, out[p], rows[i], rows[j]);
  }

  lemma SameKeyJoin(keyCols: seq<Column>, o: Bytes, a: Bytes, b: Bytes)
    requires SameKey(keyCols, o, a) && SameKey(keyCols, o, b)
    ensures SameKey(keyCols, a, b)
  {
    hide Render;
  }

  /** After merging, dropping internal rows and decoding addresses, no two samples of a
      value column carry the same labels, if and only if labels identify the keys of the
      input rows. */
  lemma {:induction false} LabelSetsAreUnique(cols: seq<Column>, rows: seq<Bytes>, ip6: Bytes -> Bytes)
    requires KeysApart(cols) && KeyColumns(cols) != []
    ensures DistinctLabels(Kept(cols, rows, ip6), KeyColumns(cols), ip6)
            <==> LabelsIdentify(rows, KeyColumns(cols), ip6)
  {
    hide Kept, LabelsOf, SameKey, IsInternal, KeysApart, KeyColumns;
    var kc, kept := KeyColumns(cols), Kept(cols, rows, ip6);
    if DistinctLabels(kept, kc, ip6) {
      forall i, j | 0 <= i < |rows| && 0 <= j < |rows|
                    && !IsInternal(rows[i], kc, ip6) && !IsInternal(rows[j], kc, ip6)
                    && LabelsOf(rows[i], kc, ip6) == LabelsOf(rows[j], kc, ip6)
        ensures SameKey(kc, rows[i], rows[j])
      {
        FaithfulWhenUnique(cols, rows, ip6, i, j);
      }
    }
    if LabelsIdentify(rows, kc, ip6) {
      forall p, q | 0 <= p < q < |kept|
        ensures LabelsOf(kept[p], kc, ip6) != LabelsOf(kept[q], kc, ip6)
      {
        UniqueWhenFaithful(cols, rows, ip6, p, q);
      }
    }
  }

  /** The same, said of the rows' bytes: the labels are unique if and only if rows with
      different keys differ in a byte that shows. */
  lemma {:induction false} LabelSetsAreUniqueIff(cols: seq<Column>, rows: seq<Bytes>, ip6: Bytes -> Bytes)
    requires KeysApart(cols) && KeyColumns(cols) != [] && Ip6Text(ip6)
    ensures DistinctLabels(Kept(cols, rows, ip6), KeyColumns(cols), ip6)
            <==> AlikeOnlyIfSameKey(rows, KeyColumns(cols), ip6)
  {
    hide Kept, LabelsOf, SameKey, AllAlike, IsInternal, KeysApart, KeyColumns, Ip6Text, DistinctLabels;
    var kc := KeyColumns(cols);
    LabelSetsAreUnique(cols, rows, ip6);
    forall i, j | 0 <= i < |rows| && 0 <= j < |rows|
      ensures LabelsOf(rows[i], kc, ip6) == LabelsOf(rows[j], kc, ip6) <==> AllAlike(kc, rows[i], rows[j])
    {
      LabelsAlikeIff(rows[i], rows[j], kc, ip6);
    }
  }

  /** For a table keyed by one 20-byte address, labels collide exactly when the
      addresses agree on what decoding keeps. */
  lemma {:induction false} AddressLabelsCollideIff(a: Bytes, b: Bytes, c: Column, ip6: Bytes -> Bytes)
    requires c.IsAddress() && c.size == ADDRESS_LENGTH && c.FitsIn(a) && c.FitsIn(b) && Ip6Text(ip6)
    ensures LabelsOf(a, [c], ip6) == LabelsOf(b, [c], ip6)
            <==> SameKept(a[c.offset..c.offset + c.size], b[c.offset..c.offset + c.size])
  {
    hide LabelsOf, Ip6Text, SameKept;
    LabelsAlikeIff(a, b, [c], ip6);
    assert [c][0] == c;
  }

  // ----- a collision

  const POOL_NAME: Column := Column([112, 111, 111, 108, 95, 110, 97, 109, 101], 0, 256, TYPE_STRING, RULE_KEY, false)
  const ADDR: Column := Column([97, 100, 100, 114], 256, 20, TYPE_ADDRESS, RULE_KEY, false)
  const PORT: Column := Column([112, 111, 114, 116], 276, 2, TYPE_UNSIGNED, RULE_KEY, false)

  /** Member 1.2.3.4:80 of pool `p`, in route domain `domain`. */
  function Member(domain: Byte): (b: Bytes)
    ensures |b| == 278
  {
    [112] + Zeros(255) + Zeros(10) + [255, 255, 1, 2, 3, 4] + [0, 0, 0, domain] + [80, 0]
  }

  lemma MemberParts(domain: Byte)
    ensures Member(domain)[0..256] == [112] + Zeros(255)
    ensures Member(domain)[256..276] == Zeros(10) + [255, 255, 1, 2, 3, 4] + [0, 0, 0, domain]
    ensures Member(domain)[276..278] == [80, 0]
  {
  }

  lemma MemberIsVisible(domain: Byte, ip6: Bytes -> Bytes)
    requires Ip6Text(ip6)
    ensures !IsInternal(Member(domain), [POOL_NAME, ADDR, PORT], ip6)
  {
    hide Ip6Text, AddrHexOf, DecodeAddrOf, LeValue, Member, Decimal.FormatUint;
    var b := Member(domain);
    MemberParts(domain);
    assert b[0] == b[0..256][0];
    MarksInternalIff(b, ADDR, ip6);
    assert Decimal.AllDigits(Decimal.FormatUint(UintAt(b, 276, 2)));
    assert !MarksInternal(b, POOL_NAME, ip6) && !MarksInternal(b, PORT, ip6);
  }

  lemma MemberKeys()
    ensures Render(Member(0), POOL_NAME) == Render(Member(1), POOL_NAME)
    ensures Render(Member(0), PORT) == Render(Member(1), PORT)
  {
    MemberParts(0);
    MemberParts(1);
    hide Member;
    RenderDependsOnRange(Member(0), Member(1), POOL_NAME);
    RenderDependsOnRange(Member(0), Member(1), PORT);
  }

  lemma MemberAddresses()
    ensures SameKept(Member(0)[256..276], Member(1)[256..276])
    ensures Render(Member(0), ADDR) != Render(Member(1), ADDR)
  {
    MemberParts(0);
    MemberParts(1);
    hide Member, AddrHexOf;
    var x, y := Member(0)[256..276], Member(1)[256..276];
    assert x[19] != y[19];
    AddrHexInjective(x, y);
  }

  lemma MembersAlike()
    ensures AllAlike([POOL_NAME, ADDR, PORT], Member(0), Member(1))
  {
    hide Member, Render, SameKept;
    MemberKeys();
    MemberAddresses();
  }

  /** Labels do collide: pool members with one IP address in two route domains have
      different keys and are published under the same labels. */
  lemma {:induction false} RouteDomainsCollide(ip6: Bytes -> Bytes)
    requires Ip6Text(ip6)
    ensures var kc, rows := [POOL_NAME, ADDR, PORT], [Member(0), Member(1)];
            !SameKey(kc, rows[0], rows[1]) && !DistinctLabels(Kept(kc, rows, ip6), kc, ip6)
  {
    hide Ip6Text, Member, IsInternal, LabelsOf, Kept, KeyColumns, KeysApart, DistinctLabels, AllAlike, Render;
    var kc, rows := [POOL_NAME, ADDR, PORT], [Member(0), Member(1)];
    AllKeys(kc);
    MemberIsVisible(0, ip6);
    MemberIsVisible(1, ip6);
    MembersAlike();
    MemberAddresses();
    assert kc[1] == ADDR;
    LabelSetsAreUniqueIff(kc, rows, ip6);
  }

  lemma {:induction false} AddrHexInjective(a: Bytes, b: Bytes)
    requires a != b
    ensures AddrHexOf(a) != AddrHexOf(b)
  {
    if a != [] && b != [] && AddrHexOf(a) == AddrHexOf(b) {
      RenderedSplits(a);
      RenderedSplits(b);
      HexPairsParse(a);
      HexPairsParse(b);
    }
  }

  lemma {:induction false} AllKeys(cols: seq<Column>)
    requires forall i :: 0 <= i < |cols| ==> cols[i].IsKey()
    ensures KeyColumns(cols) == cols && KeysApart(cols)
  {
    if cols != [] {
      AllKeys(cols[1..]);
    }
  }
}
