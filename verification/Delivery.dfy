// From collected readings to the time series at the receiver: when the series of a
// table are told apart by their metric names and labels, and when label names are
// unique, as remote write requires.

module Delivery {
  import opened ByteStrings
  import opened Wrappers
  import opened Labels
  import opened TmstatRow
  import opened Aggregation
  import opened Addresses
  import opened Collector
  import opened PromWrite
  import TextFormat

  // ----- the series of one table

  predicate SameSeries(x: Reading, y: Reading) {
    x.metric == y.metric && x.labels == y.labels
  }

  predicate DistinctSeries(rs: seq<Reading>) {
    forall m, n :: 0 <= m < n < |rs| ==> !SameSeries(rs[m], rs[n])
  }

  /** The names of the columns are still different when they are sanitized. */
  predicate NamesStayDistinct(cols: seq<Column>) {
    forall i, j :: 0 <= i < j < |cols| ==> TextFormat.SanitizeOf(cols[i].name) != TextFormat.SanitizeOf(cols[j].name)
  }

  lemma SameMetricIff(table: Bytes, c: Column, d: Column)
    ensures Metric(table, c) == Metric(table, d) <==> TextFormat.SanitizeOf(c.name) == TextFormat.SanitizeOf(d.name)
  {
    var p := PREFIX + TextFormat.SanitizeOf(TrimStat(table)) + [Collector.UNDERSCORE];
    assert Metric(table, c)[|p|..] == TextFormat.SanitizeOf(c.name);
    assert Metric(table, d)[|p|..] == TextFormat.SanitizeOf(d.name);
  }

  /** Every reading is one of a value column and a row. */
  lemma {:induction false} ReadingComesFrom(table: Bytes, vals: seq<Column>, rows: seq<Bytes>, keyCols: seq<Column>,
                                            ip6: Bytes -> Bytes, n: nat) returns (c: nat, r: nat)
    requires n < |TableSamples(table, vals, rows, keyCols, ip6)|
    ensures c < |vals| && r < |rows|
    ensures TableSamples(table, vals, rows, keyCols, ip6)[n].metric == Metric(table, vals[c])
    ensures TableSamples(table, vals, rows, keyCols, ip6)[n].labels == LabelsOf(rows[r], keyCols, ip6)
  {
    hide Metric, LabelsOf, NumberOf;
    var last := |vals| - 1;
    var front := TableSamples(table, vals[..last], rows, keyCols, ip6);
    if n < |front| {
      c, r := ReadingComesFrom(table, vals[..last], rows, keyCols, ip6, n);
    } else {
      c, r := last, n - |front|;
    }
  }

  /** Every value column has a reading of every row. */
  lemma {:induction false} ReadingOf(table: Bytes, vals: seq<Column>, rows: seq<Bytes>, keyCols: seq<Column>,
                                     ip6: Bytes -> Bytes, c: nat, r: nat) returns (n: nat)
    requires c < |vals| && r < |rows|
    ensures n < |TableSamples(table, vals, rows, keyCols, ip6)|
    ensures TableSamples(table, vals, rows, keyCols, ip6)[n].metric == Metric(table, vals[c])
    ensures TableSamples(table, vals, rows, keyCols, ip6)[n].labels == LabelsOf(rows[r], keyCols, ip6)
  {
    hide Metric, LabelsOf, NumberOf;
    var last := |vals| - 1;
    var front := TableSamples(table, vals[..last], rows, keyCols, ip6);
    if c < last {
      n := ReadingOf(table, vals[..last], rows, keyCols, ip6, c, r);
    } else {
      n := |front| + r;
    }
  }

  lemma ConcatDistinctIff(a: seq<Reading>, b: seq<Reading>)
    ensures DistinctSeries(a + b)
            <==> && DistinctSeries(a) && DistinctSeries(b)
                 && forall m, n :: 0 <= m < |a| && 0 <= n < |b| ==> !SameSeries(a[m], b[n])
  {
    hide SameSeries;
    var ab := a + b;
    if DistinctSeries(ab) {
      forall m, n | 0 <= m < n < |b| ensures !SameSeries(b[m], b[n]) {
        assert !SameSeries(ab[|a| + m], ab[|a| + n]);
      }
      forall m, n | 0 <= m < |a| && 0 <= n < |b| ensures !SameSeries(a[m], b[n]) {
        assert !SameSeries(ab[m], ab[|a| + n]);
      }
      forall m, n | 0 <= m < n < |a| ensures !SameSeries(a[m], a[n]) {
        assert !SameSeries(ab[m], ab[n]);
      }
    }
  }

  lemma ColumnDistinctIff(metric: Bytes, c: Column, rows: seq<Bytes>, keyCols: seq<Column>, ip6: Bytes -> Bytes)
    ensures DistinctSeries(ColumnSamples(metric, c, rows, keyCols, ip6)) <==> DistinctLabels(rows, keyCols, ip6)
  {
    hide LabelsOf, NumberOf;
    var b := ColumnSamples(metric, c, rows, keyCols, ip6);
    if DistinctSeries(b) {
      forall p, q | 0 <= p < q < |rows|
        ensures LabelsOf(rows[p], keyCols, ip6) != LabelsOf(rows[q], keyCols, ip6)
      {
        assert !SameSeries(b[p], b[q]);
      }
    }
  }

  /** One more column adds no series that was there if and only if its name is new or
      there are no rows. */
  lemma {:induction false} NewColumnIff(table: Bytes, vals: seq<Column>, c: Column, rows: seq<Bytes>,
                                        keyCols: seq<Column>, ip6: Bytes -> Bytes)
    ensures var a := TableSamples(table, vals, rows, keyCols, ip6);
            var b := ColumnSamples(Metric(table, c), c, rows, keyCols, ip6);
            (forall m, n :: 0 <= m < |a| && 0 <= n < |b| ==> !SameSeries(a[m], b[n]))
            <==> rows == []
                 || forall i :: 0 <= i < |vals| ==> TextFormat.SanitizeOf(vals[i].name) != TextFormat.SanitizeOf(c.name)
  {
    hide Metric, LabelsOf, NumberOf, TableSamples, TextFormat.SanitizeOf;
    var a := TableSamples(table, vals, rows, keyCols, ip6);
    var b := ColumnSamples(Metric(table, c), c, rows, keyCols, ip6);
    if rows != [] {
      if i :| 0 <= i < |vals| && TextFormat.SanitizeOf(vals[i].name) == TextFormat.SanitizeOf(c.name) {
        SameMetricIff(table, vals[i], c);
        var m := ReadingOf(table, vals, rows, keyCols, ip6, i, 0);
        assert SameSeries(a[m], b[0]);
      }
      if m, n :| 0 <= m < |a| && 0 <= n < |b| && SameSeries(a[m], b[n]) {
        var i, r := ReadingComesFrom(table, vals, rows, keyCols, ip6, m);
        SameMetricIff(table, vals[i], c);
      }
    }
  }

  /** The readings of a table are told apart if and only if different value columns
      keep different names (when there is a row) and different rows carry different
      labels (when there is a value column). */
  lemma {:induction false} TableSeriesDistinctIff(table: Bytes, vals: seq<Column>, rows: seq<Bytes>,
                                                  keyCols: seq<Column>, ip6: Bytes -> Bytes)
    ensures DistinctSeries(TableSamples(table, vals, rows, keyCols, ip6))
            <==> (rows == [] || NamesStayDistinct(vals)) && (vals == [] || DistinctLabels(rows, keyCols, ip6))
  {
    hide Metric, ColumnSamples, DistinctLabels, DistinctSeries, TextFormat.SanitizeOf;
    if vals == [] {
      NothingIsDistinct();
    } else {
      var n := |vals| - 1;
      var c := vals[n];
      var a := TableSamples(table, vals[..n], rows, keyCols, ip6);
      var b := ColumnSamples(Metric(table, c), c, rows, keyCols, ip6);
      TableSeriesDistinctIff(table, vals[..n], rows, keyCols, ip6);
      ColumnDistinctIff(Metric(table, c), c, rows, keyCols, ip6);
      NewColumnIff(table, vals[..n], c, rows, keyCols, ip6);
      ConcatDistinctIff(a, b);
      NewNameIff(vals[..n], c);
      assert vals == vals[..n] + [c];
    }
  }

  lemma NothingIsDistinct()
    ensures DistinctSeries([])
  {
  }

  lemma NewNameIff(cols: seq<Column>, c: Column)
    ensures NamesStayDistinct(cols + [c])
            <==> NamesStayDistinct(cols)
                 && forall i :: 0 <= i < |cols| ==> TextFormat.SanitizeOf(cols[i].name) != TextFormat.SanitizeOf(c.name)
  {
    hide TextFormat.SanitizeOf;
    var all := cols + [c];
    if NamesStayDistinct(all) {
      forall i, j | 0 <= i < j < |cols|
        ensures TextFormat.SanitizeOf(cols[i].name) != TextFormat.SanitizeOf(cols[j].name)
      {
        assert all[i] == cols[i] && all[j] == cols[j];
      }
      forall i | 0 <= i < |cols|
        ensures TextFormat.SanitizeOf(cols[i].name) != TextFormat.SanitizeOf(c.name)
      {
        assert all[i] == cols[i] && all[|cols|] == c;
      }
    }
  }

  /** A table without key columns publishes every row under the empty label set. */
  lemma KeylessLabels(cols: seq<Column>, rows: seq<Bytes>, ip6: Bytes -> Bytes)
    requires KeyColumns(cols) == []
    ensures Kept(cols, rows, ip6) == rows
    ensures DistinctLabels(rows, [], ip6) <==> |rows| <= 1
  {
    NothingInternal(rows, ip6);
    if |rows| > 1 {
      assert LabelsOf(rows[0], [], ip6) == [] == LabelsOf(rows[1], [], ip6);
    }
  }

  lemma {:induction false} NothingInternal(rows: seq<Bytes>, ip6: Bytes -> Bytes)
    ensures Visible(rows, [], ip6) == rows
  {
    if rows != [] {
      NothingInternal(rows[..|rows| - 1], ip6);
    }
  }

  /** The condition on a table's schema and rows for its series to be told apart. */
  predicate ToldApart(cols: seq<Column>, rows: seq<Bytes>, ip6: Bytes -> Bytes) {
    && (Kept(cols, rows, ip6) == [] || NamesStayDistinct(ValueColumns(cols)))
    && (|| ValueColumns(cols) == []
        || if KeyColumns(cols) == [] then |rows| <= 1 else AlikeOnlyIfSameKey(rows, KeyColumns(cols), ip6))
  }

  /** The readings that are collected from the merged rows of a table. */
  function Collected(table: Bytes, cols: seq<Column>, rows: seq<Bytes>, ip6: Bytes -> Bytes): seq<Reading> {
    TableSamples(table, ValueColumns(cols), Kept(cols, rows, ip6), KeyColumns(cols), ip6)
  }

  /** What is collected of a table has pairwise different metrics or labels if and only
      if value column names stay different and rows with different keys show it. */
  lemma {:induction false} CollectedSeriesDistinctIff(table: Bytes, cols: seq<Column>, rows: seq<Bytes>,
                                                      ip6: Bytes -> Bytes)
    requires KeysApart(cols) && Ip6Text(ip6)
    ensures DistinctSeries(Collected(table, cols, rows, ip6)) <==> ToldApart(cols, rows, ip6)
  {
    hide Ip6Text, KeysApart, Kept, TableSamples, NamesStayDistinct, DistinctSeries, AlikeOnlyIfSameKey, DistinctLabels,
      ValueColumns, KeyColumns;
    TableSeriesDistinctIff(table, ValueColumns(cols), Kept(cols, rows, ip6), KeyColumns(cols), ip6);
    if KeyColumns(cols) == [] {
      KeylessLabels(cols, rows, ip6);
    } else {
      LabelSetsAreUniqueIff(cols, rows, ip6);
    }
  }

  lemma DotBecomesUnderscore()
    ensures TextFormat.SanitizeOf([97, 46, 98]) == TextFormat.SanitizeOf([97, 95, 98])
  {
    var x, y: Bytes := [97, 46, 98], [97, 95, 98];
    assert x[..2] == [97, 46] && x[..2][..1] == [97] && x[..2][..1][..0] == [];
    assert y[..2] == [97, 95] && y[..2][..1] == [97];
    assert TextFormat.SanitizeOf([97]) == [97];
    assert TextFormat.SanitizeOf(x[..2]) == [97, 95] == TextFormat.SanitizeOf(y[..2]);
  }

  /** Names do collide: value columns `a.b` and `a_b` of one row give one series twice. */
  lemma {:induction false} DotAndUnderscoreCollide(table: Bytes, row: Bytes, keyCols: seq<Column>, ip6: Bytes -> Bytes)
    ensures var dot, under := Column([97, 46, 98], 8, 8, TYPE_UNSIGNED, RULE_COUNTER, false),
                              Column([97, 95, 98], 16, 8, TYPE_UNSIGNED, RULE_COUNTER, false);
            dot.name != under.name && !DistinctSeries(TableSamples(table, [dot, under], [row], keyCols, ip6))
  {
    hide TableSamples, DistinctSeries, DistinctLabels, TextFormat.SanitizeOf;
    var dot, under := Column([97, 46, 98], 8, 8, TYPE_UNSIGNED, RULE_COUNTER, false),
                      Column([97, 95, 98], 16, 8, TYPE_UNSIGNED, RULE_COUNTER, false);
    DotBecomesUnderscore();
    var vals := [dot, under];
    assert dot.name[1] != under.name[1];
    assert TextFormat.SanitizeOf(vals[0].name) == TextFormat.SanitizeOf(vals[1].name);
    TableSeriesDistinctIff(table, vals, [row], keyCols, ip6);
  }

  // ----- label names

  /** What remote write requires of a label set. */
  predicate UniqueNames(labels: seq<Label>) {
    forall i, j :: 0 <= i < j < |labels| ==> labels[i].name != labels[j].name
  }

  /** The sample that the encoder is handed: collected readings are never global. */
  function Outgoing(x: Reading, bits: int -> U64): Sample {
    Sample(x.metric, x.labels, bits(x.value), false)
  }

  /** Key column names stay different, external names are different, and no name is
      used by two of the metric name, the external labels and the key columns. */
  predicate NamesAreClear(keyCols: seq<Column>, extra: seq<Label>) {
    && NamesStayDistinct(keyCols) && UniqueNames(extra)
    && (forall i :: 0 <= i < |extra| ==> extra[i].name != METRIC_NAME)
    && (forall j :: 0 <= j < |keyCols| ==> TextFormat.SanitizeOf(keyCols[j].name) != METRIC_NAME)
    && (forall i, j :: 0 <= i < |extra| && 0 <= j < |keyCols| ==>
          extra[i].name != TextFormat.SanitizeOf(keyCols[j].name))
  }

  /** The label names of a row's samples are unique if and only if the names are clear,
      whatever the row holds. */
  lemma {:induction false} LabelNamesUniqueIff(metric: Bytes, b: Bytes, v: U64, keyCols: seq<Column>,
                                               ip6: Bytes -> Bytes, extra: seq<Label>)
    ensures UniqueNames(LabelSet(Sample(metric, LabelsOf(b, keyCols, ip6), v, false), extra))
            <==> NamesAreClear(keyCols, extra)
  {
    hide TextFormat.SanitizeOf, Shown;
    var own := LabelsOf(b, keyCols, ip6);
    var all := LabelSet(Sample(metric, own, v, false), extra);
    var k := 1 + |extra|;
    assert all == [Label(METRIC_NAME, metric)] + extra + own;
    assert forall i :: 0 <= i < |extra| ==> all[1 + i] == extra[i];
    assert forall j :: 0 <= j < |keyCols| ==> all[k + j].name == TextFormat.SanitizeOf(keyCols[j].name);
    if UniqueNames(all) {
      forall i, j | 0 <= i < j < |extra| ensures extra[i].name != extra[j].name {
        assert all[1 + i].name != all[1 + j].name;
      }
      forall i, j | 0 <= i < j < |keyCols|
        ensures TextFormat.SanitizeOf(keyCols[i].name) != TextFormat.SanitizeOf(keyCols[j].name)
      {
        assert all[k + i].name != all[k + j].name;
      }
      forall i | 0 <= i < |extra| ensures extra[i].name != METRIC_NAME {
        assert all[0].name != all[1 + i].name;
      }
      forall j | 0 <= j < |keyCols| ensures TextFormat.SanitizeOf(keyCols[j].name) != METRIC_NAME {
        assert all[0].name != all[k + j].name;
      }
      forall i, j | 0 <= i < |extra| && 0 <= j < |keyCols|
        ensures extra[i].name != TextFormat.SanitizeOf(keyCols[j].name)
      {
        assert all[1 + i].name != all[k + j].name;
      }
    }
    if NamesAreClear(keyCols, extra) {
      forall i, j | 0 <= i < j < |all| ensures all[i].name != all[j].name {
        if i == 0 {
          assert j < k ==> all[j] == extra[j - 1];
          assert j >= k ==> all[j].name == TextFormat.SanitizeOf(keyCols[j - k].name);
        } else if j < k {
          assert all[i] == extra[i - 1] && all[j] == extra[j - 1];
        } else if i < k {
          assert all[i] == extra[i - 1] && all[j].name == TextFormat.SanitizeOf(keyCols[j - k].name);
        } else {
          assert all[i].name == TextFormat.SanitizeOf(keyCols[i - k].name);
          assert all[j].name == TextFormat.SanitizeOf(keyCols[j - k].name);
        }
      }
    }
  }

  /** Label names do repeat: a key column `pod` next to the external label `pod`. */
  lemma {:induction false} KeyAndExternalLabelCollide(metric: Bytes, b: Bytes, v: U64, off: nat, value: Bytes,
                                                      ip6: Bytes -> Bytes)
    ensures var c := Column(POD, off, 8, TYPE_STRING, RULE_KEY, false);
            !UniqueNames(LabelSet(Sample(metric, LabelsOf(b, [c], ip6), v, false), [Label(POD, value)]))
  {
    hide LabelsOf, LabelSet, UniqueNames, NamesStayDistinct;
    var c := Column(POD, off, 8, TYPE_STRING, RULE_KEY, false);
    TextFormat.SanitizeKeepsNames(POD);
    assert [c][0].name == POD && [Label(POD, value)][0].name == POD;
    LabelNamesUniqueIff(metric, b, v, [c], ip6, [Label(POD, value)]);
  }

  // ----- the series at the receiver

  lemma UniqueNamesIdentify(labels: seq<Label>)
    requires UniqueNames(labels)
    ensures NamesIdentify(labels)
  {
    assert forall i, j :: 0 <= i < |labels| && 0 <= j < |labels| && i != j ==> labels[i].name != labels[j].name;
  }

  lemma SameLabelOfName(all: seq<Label>, all': seq<Label>, i: nat, j: nat)
    requires multiset(all) == multiset(all') && NamesIdentify(all')
    requires i < |all| && j < |all'| && all[i].name == all'[j].name
    ensures all[i] == all'[j]
  {
    assert all[i] in multiset(all');
  }

  /** Two readings of a table are written with equal labels if and only if they are of
      the same series. */
  lemma {:induction false} SentAlikeIff(x: Reading, y: Reading, bits: int -> U64, extra: seq<Label>,
                                        order: seq<Label>, order': seq<Label>)
    requires SortedOrder(order, LabelSet(Outgoing(x, bits), extra))
    requires SortedOrder(order', LabelSet(Outgoing(y, bits), extra))
    requires UniqueNames(LabelSet(Outgoing(x, bits), extra)) && UniqueNames(LabelSet(Outgoing(y, bits), extra))
    requires |x.labels| == |y.labels| && forall i :: 0 <= i < |x.labels| ==> x.labels[i].name == y.labels[i].name
    ensures order == order' <==> SameSeries(x, y)
  {
    hide SortedByName, UniqueNames, NamesIdentify;
    var all, all' := LabelSet(Outgoing(x, bits), extra), LabelSet(Outgoing(y, bits), extra);
    UniqueNamesIdentify(all);
    UniqueNamesIdentify(all');
    if SameSeries(x, y) {
      NamesIdentifyOfPermutation(all, order);
      SortedOrderIsUnique(order, order');
    }
    if order == order' {
      SameLabelOfName(all, all', 0, 0);
      forall i | 0 <= i < |x.labels|
        ensures x.labels[i] == y.labels[i]
      {
        var k := 1 + |extra| + i;
        assert all[k] == x.labels[i] && all'[k] == y.labels[i];
        SameLabelOfName(all, all', k, k);
      }
    }
  }

  /** The samples of the readings. */
  function Outgoings(xs: seq<Reading>, bits: int -> U64): (r: seq<Sample>)
    ensures |r| == |xs|
  {
    seq(|xs|, i requires 0 <= i < |xs| => Outgoing(xs[i], bits))
  }

  /** No two series carry the same labels. */
  predicate DistinctLabelSets(series: seq<Series>) {
    forall m, n :: 0 <= m < n < |series| ==> series[m].labels != series[n].labels
  }

  lemma ReadingLabels(table: Bytes, cols: seq<Column>, rows: seq<Bytes>, ip6: Bytes -> Bytes, n: nat) returns (b: Bytes)
    requires n < |Collected(table, cols, rows, ip6)|
    ensures Collected(table, cols, rows, ip6)[n].labels == LabelsOf(b, KeyColumns(cols), ip6)
  {
    hide Kept, TableSamples, ValueColumns, KeyColumns, LabelsOf;
    var kept := Kept(cols, rows, ip6);
    var c, r := ReadingComesFrom(table, ValueColumns(cols), kept, KeyColumns(cols), ip6, n);
    b := kept[r];
  }

  lemma {:induction false} UniqueNamesOccurOnce(labels: seq<Label>, l: Label)
    requires UniqueNames(labels)
    ensures multiset(labels)[l] <= 1
  {
    if labels != [] {
      var n := |labels| - 1;
      UniqueNamesOccurOnce(labels[..n], l);
      assert labels == labels[..n] + [labels[n]];
      assert l in multiset(labels[..n]) ==> l in labels[..n];
    }
  }

  lemma RepeatedOccursTwice(labels: seq<Label>, i: nat, j: nat)
    requires i < j < |labels| && labels[i] == labels[j]
    ensures multiset(labels)[labels[i]] >= 2
  {
    var l := labels[i];
    assert labels == labels[..j] + [l] + labels[j + 1..];
    assert labels[..j][i] == l;
    assert multiset(labels[..j])[l] >= 1;
  }

  /** Sorting does not change whether label names are unique. */
  lemma UniqueNamesOfPermutation(a: seq<Label>, b: seq<Label>)
    requires multiset(a) == multiset(b) && UniqueNames(a)
    ensures UniqueNames(b)
  {
    hide UniqueNames, NamesIdentify;
    UniqueNamesIdentify(a);
    NamesIdentifyOfPermutation(a, b);
    if !UniqueNames(b) {
      var i, j := SharedName(b);
      EqualNames(b, i, j);
      RepeatedOccursTwice(b, i, j);
      UniqueNamesOccurOnce(a, b[i]);
      assert false;
    }
  }

  lemma SharedName(labels: seq<Label>) returns (i: nat, j: nat)
    requires !UniqueNames(labels)
    ensures i < j < |labels| && labels[i].name == labels[j].name
  {
    i, j :| 0 <= i < j < |labels| && labels[i].name == labels[j].name;
  }

  lemma EqualNames(labels: seq<Label>, i: nat, j: nat)
    requires NamesIdentify(labels) && i < j < |labels| && labels[i].name == labels[j].name
    ensures labels[i] == labels[j]
  {
  }

  /** The label names that a receiver finds are sorted, and unique if and only if no name
      is used twice by the schema and the external labels. */
  lemma {:induction false} DeliveredNamesUniqueIff(req: Bytes, table: Bytes, cols: seq<Column>, rows: seq<Bytes>,
                                                   ip6: Bytes -> Bytes, bits: int -> U64, extra: seq<Label>, ts: I64,
                                                   n: nat)
    requires DecodesTo(req, Outgoings(Collected(table, cols, rows, ip6), bits), extra, ts)
    requires n < |Collected(table, cols, rows, ip6)|
    ensures var labels := ReadRequest(req).value[n].labels;
            SortedByName(labels) && (UniqueNames(labels) <==> NamesAreClear(KeyColumns(cols), extra))
  {
    hide NamesAreClear, Collected, KeyColumns, LabelsOf, LabelSet, UniqueNames, ReadRequest, SortedByName;
    var x, labels := Collected(table, cols, rows, ip6)[n], ReadRequest(req).value[n].labels;
    var all := LabelSet(Outgoing(x, bits), extra);
    assert SortedOrder(labels, all);
    var b := ReadingLabels(table, cols, rows, ip6, n);
    LabelNamesUniqueIff(x.metric, b, bits(x.value), KeyColumns(cols), ip6, extra);
    if UniqueNames(all) {
      UniqueNamesOfPermutation(all, labels);
    }
    if UniqueNames(labels) {
      UniqueNamesOfPermutation(labels, all);
    }
  }

  /** End to end: a receiver that reads the request finds one series per reading, and
      the series are pairwise different if and only if the table's columns and rows are
      told apart. */
  lemma {:induction false} DeliveredSeriesDistinctIff(req: Bytes, table: Bytes, cols: seq<Column>, rows: seq<Bytes>,
                                                      ip6: Bytes -> Bytes, bits: int -> U64, extra: seq<Label>, ts: I64)
    requires KeysApart(cols) && Ip6Text(ip6) && NamesAreClear(KeyColumns(cols), extra)
    requires DecodesTo(req, Outgoings(Collected(table, cols, rows, ip6), bits), extra, ts)
    ensures ReadRequest(req).Some? && |ReadRequest(req).value| == |Collected(table, cols, rows, ip6)|
    ensures DistinctLabelSets(ReadRequest(req).value) <==> ToldApart(cols, rows, ip6)
  {
    hide Ip6Text, KeysApart, NamesAreClear, Collected, ToldApart, SameSeries, ReadRequest, SortedOrder, KeyColumns,
      LabelsOf, LabelSet;
    var xs := Collected(table, cols, rows, ip6);
    var series := ReadRequest(req).value;
    CollectedSeriesDistinctIff(table, cols, rows, ip6);
    forall m, n | 0 <= m < |xs| && 0 <= n < |xs|
      ensures series[m].labels == series[n].labels <==> SameSeries(xs[m], xs[n])
    {
      assert SortedOrder(series[m].labels, LabelSet(Outgoing(xs[m], bits), extra));
      assert SortedOrder(series[n].labels, LabelSet(Outgoing(xs[n], bits), extra));
      ReadingsSentAlikeIff(table, cols, rows, ip6, bits, extra, m, n, series[m].labels, series[n].labels);
    }
  }

  lemma {:induction false} ReadingsSentAlikeIff(table: Bytes, cols: seq<Column>, rows: seq<Bytes>, ip6: Bytes -> Bytes,
                                                bits: int -> U64, extra: seq<Label>, m: nat, n: nat,
                                                order: seq<Label>, order': seq<Label>)
    requires NamesAreClear(KeyColumns(cols), extra)
    requires m < |Collected(table, cols, rows, ip6)| && n < |Collected(table, cols, rows, ip6)|
    requires SortedOrder(order, LabelSet(Outgoing(Collected(table, cols, rows, ip6)[m], bits), extra))
    requires SortedOrder(order', LabelSet(Outgoing(Collected(table, cols, rows, ip6)[n], bits), extra))
    ensures order == order'
            <==> SameSeries(Collected(table, cols, rows, ip6)[m], Collected(table, cols, rows, ip6)[n])
  {
    hide NamesAreClear, Collected, SortedOrder, KeyColumns, LabelSet, UniqueNames, TextFormat.SanitizeOf, Shown;
    var xs, kc := Collected(table, cols, rows, ip6), KeyColumns(cols);
    var a := ReadingLabels(table, cols, rows, ip6, m);
    var b := ReadingLabels(table, cols, rows, ip6, n);
    LabelNamesUniqueIff(xs[m].metric, a, bits(xs[m].value), kc, ip6, extra);
    LabelNamesUniqueIff(xs[n].metric, b, bits(xs[n].value), kc, ip6, extra);
    SentAlikeIff(xs[m], xs[n], bits, extra, order, order');
  }
}
