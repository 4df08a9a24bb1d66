// Laws of key aggregation that span the whole row list: conservation of every
// counter, independence of the row order, unique keys in the result, idempotence,
// and signed counters.

module AggregationLaws {
  import opened ByteStrings
  import opened TmstatRow
  import opened Aggregation

  // ----- conservation

  function Total(rows: seq<Bytes>, c: Column): nat {
    if rows == [] then 0
    else Total(rows[..|rows| - 1], c) + UintAt(rows[|rows| - 1], c.offset, c.size)
  }

  lemma TotalSnoc(rows: seq<Bytes>, r: Bytes, c: Column)
    ensures Total(rows + [r], c) == Total(rows, c) + UintAt(r, c.offset, c.size)
  {
    assert (rows + [r])[..|rows|] == rows;
  }

  lemma {:induction false} TotalUpdate(rows: seq<Bytes>, p: nat, r: Bytes, c: Column)
    requires p < |rows|
    ensures Total(rows[p := r], c) + UintAt(rows[p], c.offset, c.size)
         == Total(rows, c) + UintAt(r, c.offset, c.size)
  {
    var n := |rows| - 1;
    if p < n {
      TotalUpdate(rows[..n], p, r, c);
      assert rows[p := r][..n] == rows[..n][p := r];
    } else {
      assert rows[p := r][..n] == rows[..n];
    }
  }

  /** What is not added because the row that collects the group is too short to
      hold the column. */
  function Lost(keyCols: seq<Column>, rows: seq<Bytes>, c: Column): nat {
    if rows == [] then 0
    else
      var r := rows[|rows| - 1];
      var k := KeyText(keyCols, r);
      assert HasKey(keyCols, rows, k);
      Lost(keyCols, rows[..|rows| - 1], c)
      + if c.FitsIn(FirstRow(keyCols, rows, k)) then 0 else UintAt(r, c.offset, c.size)
  }

  lemma LostSnoc(keyCols: seq<Column>, rows: seq<Bytes>, r: Bytes, c: Column)
    ensures HasKey(keyCols, rows + [r], KeyText(keyCols, r))
    ensures Lost(keyCols, rows + [r], c)
         == Lost(keyCols, rows, c)
            + if c.FitsIn(FirstRow(keyCols, rows + [r], KeyText(keyCols, r))) then 0
              else UintAt(r, c.offset, c.size)
  {
    assert (rows + [r])[..|rows|] == rows;
    FirstRowSnoc(keyCols, rows, r, KeyText(keyCols, r));
  }

  lemma {:induction false} ModExchange(t: int, t': int, u: int, w: int, l: int, m: int)
    requires m > 0 && t' == t - u + (u + w) % m
    ensures (t' + l) % m == (t + w + l) % m
  {
    ModAdd(u + w, t - u + l, m);
  }

  /** Replacing the group's row by the merged row adds the new row's counter, or
      nothing when the column lies outside the group's row. */
  lemma MergedTotal(cols: seq<Column>, out: seq<Bytes>, p: nat, r: Bytes, i: nat, l: nat, m: nat)
    requires WellFormed(cols) && i < |cols| && cols[i].IsSummed() && p < |out| && m == Pow256(cols[i].size)
    ensures var t := Total(out[p := MergeColumns(cols, cols, out[p], r)], cols[i]);
            if cols[i].FitsIn(out[p])
            then (t + l) % m == (Total(out, cols[i]) + UintAt(r, cols[i].offset, cols[i].size) + l) % m
            else t == Total(out, cols[i])
  {
    var c, o := cols[i], MergeColumns(cols, cols, out[p], r);
    TotalUpdate(out, p, o, c);
    if c.FitsIn(out[p]) {
      assert cols[0..] == cols;
      MergeAdds(cols, 0, i, out[p], r);
      ModExchange(Total(out, c), Total(out[p := o], c), UintAt(out[p], c.offset, c.size),
                  UintAt(r, c.offset, c.size), l, m);
    }
  }

  lemma GroupedLength(cols: seq<Column>, rows: seq<Bytes>, k: Bytes, p: nat)
    requires WellFormed(cols) && p < |GroupRows(cols, rows).keys| && GroupRows(cols, rows).keys[p] == k
    ensures HasKey(KeyColumns(cols), rows, k)
    ensures |GroupRows(cols, rows).rows[p]| == |FirstRow(KeyColumns(cols), rows, k)|
  {
    hide Render, KeyText, GroupRows, FirstKeys, FirstRow, HasKey, WellFormed, KeyColumns;
    GroupKeys(cols, rows);
    GroupRowsIsGroupBy(cols, rows);
    assert IsMergedGroup(cols, rows, k, GroupRows(cols, rows).rows[p]);
  }

  /** The rows after one more row, and what that row loses. */
  lemma {:induction false} GroupStep(cols: seq<Column>, rows: seq<Bytes>, r: Bytes, c: Column) returns (p: nat)
    requires WellFormed(cols)
    ensures var kc, g := KeyColumns(cols), GroupRows(cols, rows);
            var k, out := KeyText(kc, r), GroupRows(cols, rows + [r]).rows;
            if k in g.keys then
              && p < |g.rows| && out == g.rows[p := MergeColumns(cols, cols, g.rows[p], r)]
              && Lost(kc, rows + [r], c)
                 == Lost(kc, rows, c) + if c.FitsIn(g.rows[p]) then 0 else UintAt(r, c.offset, c.size)
            else
              out == g.rows + [r] && Lost(kc, rows + [r], c) == Lost(kc, rows, c)
  {
    hide Render, KeyText, UintAt, MergeColumns, Lost, FirstRow, FirstKeys, HasKey, WellFormed, KeyColumns;
    var kc, g := KeyColumns(cols), GroupRows(cols, rows);
    var k := KeyText(kc, r);
    assert (rows + [r])[..|rows|] == rows;
    GroupKeys(cols, rows);
    FirstKeysAreTheKeys(kc, rows);
    LostSnoc(kc, rows, r, c);
    FirstRowSnoc(kc, rows, r, k);
    p := 0;
    if k in g.keys {
      p := IndexOf(g.keys, k);
      GroupedLength(cols, rows, k, p);
    } else if !c.FitsIn(r) {
      OutsideIsZero(r, c);
    }
  }

  lemma {:induction false} GroupStepConserves(cols: seq<Column>, rows: seq<Bytes>, r: Bytes, i: nat, m: nat)
    requires WellFormed(cols) && i < |cols| && cols[i].IsSummed() && m == Pow256(cols[i].size)
    ensures var c, kc := cols[i], KeyColumns(cols);
            (Total(GroupRows(cols, rows + [r]).rows, c) + Lost(kc, rows + [r], c)) % m
            == (Total(GroupRows(cols, rows).rows, c) + UintAt(r, c.offset, c.size) + Lost(kc, rows, c)) % m
  {
    hide *;
    var c, kc, g := cols[i], KeyColumns(cols), GroupRows(cols, rows);
    var p := GroupStep(cols, rows, r, c);
    if KeyText(kc, r) in g.keys {
      MergedTotal(cols, g.rows, p, r, i, Lost(kc, rows, c), m);
    } else {
      TotalSnoc(g.rows, r, c);
    }
  }

  lemma OutsideIsZero(b: Bytes, c: Column)
    requires !c.FitsIn(b)
    ensures UintAt(b, c.offset, c.size) == 0
  {
  }

  lemma {:induction false} ModStep(t: int, w: int, l: int, s: int, m: int)
    requires m > 0 && (t + l) % m == s % m
    ensures (t + w + l) % m == (s + w) % m
  {
    ModAdd(t + l, w, m);
    ModAdd(s, w, m);
  }

  /** The groups hold what the rows held, but for what was lost, modulo `m`. */
  predicate Balanced(cols: seq<Column>, rows: seq<Bytes>, c: Column, m: nat)
    requires m > 0
  {
    (Total(GroupRows(cols, rows).rows, c) + Lost(KeyColumns(cols), rows, c)) % m == Total(rows, c) % m
  }

  lemma NothingToConserve(cols: seq<Column>, c: Column, m: nat)
    requires m > 0
    ensures Balanced(cols, [], c, m)
  {
    assert Total(GroupRows(cols, []).rows, c) == Lost(KeyColumns(cols), [], c) == Total([], c) == 0;
  }

  /** One more row keeps the balance. */
  lemma {:induction false} GroupingGoesOn(cols: seq<Column>, rs: seq<Bytes>, r: Bytes, i: nat, m: nat)
    requires WellFormed(cols) && i < |cols| && cols[i].IsSummed() && m == Pow256(cols[i].size)
    requires Balanced(cols, rs, cols[i], m)
    ensures Balanced(cols, rs + [r], cols[i], m)
  {
    hide WellFormed, KeyColumns, GroupRows, Total, Lost, UintAt, Pow256;
    var c := cols[i];
    GroupStepConserves(cols, rs, r, i, m);
    TotalSnoc(rs, r, c);
    ModStep(Total(GroupRows(cols, rs).rows, c), UintAt(r, c.offset, c.size), Lost(KeyColumns(cols), rs, c),
            Total(rs, c), m);
  }

  lemma {:induction false} GroupingConserves(cols: seq<Column>, rows: seq<Bytes>, i: nat, m: nat)
    requires WellFormed(cols) && i < |cols| && cols[i].IsSummed() && m == Pow256(cols[i].size)
    ensures Balanced(cols, rows, cols[i], m)
  {
    hide *;
    if rows == [] {
      NothingToConserve(cols, cols[i], m);
    } else {
      var n := |rows| - 1;
      GroupingConserves(cols, rows[..n], i, m);
      GroupingGoesOn(cols, rows[..n], rows[n], i, m);
      assert rows == rows[..n] + [rows[n]];
    }
  }

  /** Conservation, for every row list: what the merged rows hold plus what was lost
      to short rows is what the input rows held, modulo the counter width. */
  lemma {:induction false} AggregationConserves(cols: seq<Column>, rows: seq<Bytes>, i: nat)
    requires WellFormed(cols) && i < |cols| && cols[i].IsSummed()
    ensures var c, m, kc := cols[i], Pow256(cols[i].size), KeyColumns(cols);
            var lost := if kc == [] then 0 else Lost(kc, rows, c);
            (Total(AggregateOf(cols, rows), c) + lost) % m == Total(rows, c) % m
  {
    hide Render, KeyText, UintAt, GroupRows, Lost, Total, WellFormed, Pow256, KeyColumns;
    if KeyColumns(cols) != [] {
      GroupingConserves(cols, rows, i, Pow256(cols[i].size));
    }
  }

  /** A counter is conserved exactly when the lost amount is a multiple of the
      modulus. */
  lemma {:induction false} ConservedIffNothingLost(cols: seq<Column>, rows: seq<Bytes>, i: nat)
    requires WellFormed(cols) && i < |cols| && cols[i].IsSummed() && KeyColumns(cols) != []
    ensures var c, m, kc := cols[i], Pow256(cols[i].size), KeyColumns(cols);
            Total(AggregateOf(cols, rows), c) % m == Total(rows, c) % m <==> Lost(kc, rows, c) % m == 0
  {
    hide *;
    AggregationConserves(cols, rows, i);
    CongruentIff(Total(AggregateOf(cols, rows), cols[i]), Lost(KeyColumns(cols), rows, cols[i]),
                 Pow256(cols[i].size));
  }

  lemma {:induction false} CongruentIff(t: nat, l: nat, m: nat)
    requires m > 0
    ensures (t + l) % m == t % m <==> l % m == 0
  {
    ModAddBoth(t, l, m);
    var a, b := t % m, l % m;
    if a + b < m {
      ModSmall(a + b, m);
    } else {
      DivModUnique(a + b, m, 1, a + b - m);
    }
  }

  lemma TotalOfTwo(a: Bytes, b: Bytes, c: Column)
    ensures Total([a], c) == UintAt(a, c.offset, c.size)
    ensures Total([a, b], c) == UintAt(a, c.offset, c.size) + UintAt(b, c.offset, c.size)
  {
    hide UintAt;
    assert [a, b][..1] == [a] && [a][..0] == [];
  }

  lemma {:induction false} TwoOfAKey(cols: seq<Column>, a: Bytes, b: Bytes)
    requires KeyColumns(cols) != [] && SameKey(KeyColumns(cols), a, b)
    ensures AggregateOf(cols, [a, b]) == [MergeColumns(cols, cols, a, b)]
  {
    hide KeyText, MergeColumns, KeyColumns, SameKey;
    KeyTextInjective(KeyColumns(cols), a, b);
    var k := KeyText(KeyColumns(cols), a);
    assert [a, b][..1] == [a] && [a][..0] == [];
    assert GroupRows(cols, [a]) == Groups([k], [a]) by {
      assert GroupRows(cols, []) == Groups([], []);
    }
    assert IndexOf([k], k) == 0;
    assert GroupRows(cols, [a, b]) == AddRow(cols, GroupRows(cols, [a]), b);
  }

  /** Counters are lost: two slabs of one table with different strides give rows of 64
      and 128 bytes; the counter lies behind byte 64, and the short row comes first.
      The merged row holds 0 of the 5 that the rows held. */
  lemma {:induction false} ShortFirstRowLoses()
    ensures var cols := [Column([107], 0, 1, TYPE_UNSIGNED, RULE_KEY, false),
                         Column([99], 64, 1, TYPE_UNSIGNED, RULE_COUNTER, false)];
            var short, long := [7] + Zeros(63), [7] + Zeros(63) + [5] + Zeros(63);
            && WellFormed(cols) && KeysApart(cols)
            && Total([short, long], cols[1]) == 5
            && |AggregateOf(cols, [short, long])| == 1
            && Total(AggregateOf(cols, [short, long]), cols[1]) == 0
  {
    var key, c := Column([107], 0, 1, TYPE_UNSIGNED, RULE_KEY, false),
                  Column([99], 64, 1, TYPE_UNSIGNED, RULE_COUNTER, false);
    var cols := [key, c];
    var short, long := [7] + Zeros(63), [7] + Zeros(63) + [5] + Zeros(63);
    OneKeyOneCounter(cols, short, long);
    assert short[0..1] == long[0..1];
    RenderDependsOnRange(short, long, key);
    hide KeyColumns, Render, MergeColumns, AggregateOf, LeValue;
    TwoOfAKey(cols, short, long);
    TotalOfTwo(short, long, c);
    TotalOfTwo(MergeColumns(cols, cols, short, long), short, c);
    assert long[64..65] == [5];
    SingleByteValue(5);
  }

  lemma SingleByteValue(x: Byte)
    ensures LeValue([x]) == x
  {
    assert LeValue([x][1..]) == 0;
  }

  lemma OneKeyOneCounter(cols: seq<Column>, dst: Bytes, src: Bytes)
    requires |cols| == 2 && cols[0].IsKey() && cols[1].IsSummed() && !cols[1].FitsIn(dst)
    ensures KeyColumns(cols) == [cols[0]]
    ensures MergeColumns(cols, cols, dst, src) == dst
  {
    assert cols[1..] == [cols[1]] && cols[1..][1..] == [];
    assert KeyColumns(cols[1..]) == KeyColumns([]) == [];
    assert MergeColumns(cols, cols[1..], dst, src) == MergeColumns(cols, [], dst, src) == dst;
  }

  /** Nothing is lost when the column lies inside every row. */
  lemma {:induction false} NothingLost(keyCols: seq<Column>, rows: seq<Bytes>, c: Column)
    requires forall r :: r in rows ==> c.FitsIn(r)
    ensures Lost(keyCols, rows, c) == 0
  {
    if rows != [] {
      NothingLost(keyCols, rows[..|rows| - 1], c);
      assert HasKey(keyCols, rows, KeyText(keyCols, rows[|rows| - 1]));
    }
  }

  // ----- independence of the order of the rows

  lemma {:induction false} GroupSumRemove(keyCols: seq<Column>, rows: seq<Bytes>, j: nat, k: Bytes, c: Column)
    requires j < |rows|
    ensures GroupSum(keyCols, rows, k, c)
         == GroupSum(keyCols, rows[..j] + rows[j + 1..], k, c)
            + if KeyText(keyCols, rows[j]) == k then UintAt(rows[j], c.offset, c.size) else 0
  {
    hide Render, KeyText, UintAt;
    var n := |rows| - 1;
    if j < n {
      GroupSumRemove(keyCols, rows[..n], j, k, c);
      assert rows[..j] + rows[j + 1..] == (rows[..n][..j] + rows[..n][j + 1..]) + [rows[n]];
      GroupSumSnoc(keyCols, rows[..n][..j] + rows[..n][j + 1..], rows[n], k, c);
    } else {
      assert rows[..j] + rows[j + 1..] == rows[..n];
    }
  }

  lemma {:induction false} GroupSumOfPermutation(keyCols: seq<Column>, rows: seq<Bytes>, perm: seq<Bytes>,
                                                 k: Bytes, c: Column)
    requires multiset(rows) == multiset(perm)
    ensures GroupSum(keyCols, rows, k, c) == GroupSum(keyCols, perm, k, c)
    decreases |rows|
  {
    assert |rows| == |multiset(rows)| == |multiset(perm)| == |perm|;
    if rows != [] {
      var n := |rows| - 1;
      var r := rows[n];
      assert rows == rows[..n] + [r];
      assert r in multiset(perm);
      var j :| 0 <= j < |perm| && perm[j] == r;
      assert perm == perm[..j] + [r] + perm[j + 1..];
      assert multiset(rows[..n]) == multiset(rows) - multiset{r};
      assert multiset(perm[..j] + perm[j + 1..]) == multiset(perm) - multiset{r};
      GroupSumOfPermutation(keyCols, rows[..n], perm[..j] + perm[j + 1..], k, c);
      GroupSumRemove(keyCols, perm, j, k, c);
    }
  }

  lemma HasKeyOfPermutation(keyCols: seq<Column>, rows: seq<Bytes>, perm: seq<Bytes>, k: Bytes)
    requires multiset(rows) == multiset(perm) && HasKey(keyCols, rows, k)
    ensures HasKey(keyCols, perm, k)
  {
    var i :| 0 <= i < |rows| && KeyText(keyCols, rows[i]) == k;
    assert rows[i] in multiset(perm);
  }

  lemma {:induction false} SameKeySameCounter(cols: seq<Column>, rows: seq<Bytes>, perm: seq<Bytes>, k: Bytes,
                           o: Bytes, o': Bytes, i: nat)
    requires multiset(rows) == multiset(perm)
    requires IsMergedGroup(cols, rows, k, o) && IsMergedGroup(cols, perm, k, o')
    requires i < |cols| && cols[i].IsSummed() && forall r :: r in rows ==> cols[i].FitsIn(r)
    ensures UintAt(o, cols[i].offset, cols[i].size) == UintAt(o', cols[i].offset, cols[i].size)
  {
    hide Render, KeyText, UintAt, GroupSum, Pow256, KeyColumns;
    var kc := KeyColumns(cols);
    GroupSumOfPermutation(kc, rows, perm, k, cols[i]);
    assert FirstRow(kc, perm, k) in multiset(perm);
  }

  /** Permuting the input rows permutes the groups: the same keys come out, and a
      key's counters are the same wherever it comes out. */
  lemma {:induction false} OrderDoesNotMatter(cols: seq<Column>, rows: seq<Bytes>, perm: seq<Bytes>)
    requires WellFormed(cols) && multiset(rows) == multiset(perm)
    requires forall i :: 0 <= i < |cols| && cols[i].IsSummed() ==> forall r :: r in rows ==> cols[i].FitsIn(r)
    ensures var g, h := GroupRows(cols, rows), GroupRows(cols, perm);
            && (forall k :: k in g.keys <==> k in h.keys)
            && (forall p, q, i ::
                  0 <= p < |g.keys| && 0 <= q < |h.keys| && g.keys[p] == h.keys[q]
                  && 0 <= i < |cols| && cols[i].IsSummed() ==>
                    UintAt(g.rows[p], cols[i].offset, cols[i].size)
                    == UintAt(h.rows[q], cols[i].offset, cols[i].size))
  {
    hide Render, KeyText, UintAt, GroupRows, GroupSum, FirstKeys, WellFormed, Pow256, KeyColumns, FirstRow, HasKey,
      IsMergedGroup;
    var kc := KeyColumns(cols);
    var g, h := GroupRows(cols, rows), GroupRows(cols, perm);
    GroupKeys(cols, rows);
    GroupKeys(cols, perm);
    FirstKeysAreTheKeys(kc, rows);
    FirstKeysAreTheKeys(kc, perm);
    GroupRowsIsGroupBy(cols, rows);
    GroupRowsIsGroupBy(cols, perm);
    forall k ensures k in g.keys <==> k in h.keys {
      if k in g.keys {
        HasKeyOfPermutation(kc, rows, perm, k);
      }
      if k in h.keys {
        HasKeyOfPermutation(kc, perm, rows, k);
      }
    }
    forall p, q, i | 0 <= p < |g.keys| && 0 <= q < |h.keys| && g.keys[p] == h.keys[q]
                     && 0 <= i < |cols| && cols[i].IsSummed()
      ensures UintAt(g.rows[p], cols[i].offset, cols[i].size)
           == UintAt(h.rows[q], cols[i].offset, cols[i].size)
    {
      SameKeySameCounter(cols, rows, perm, g.keys[p], g.rows[p], h.rows[q], i);
    }
  }

  // ----- unique keys and idempotence

  lemma {:induction false} SameRangesSameKey(keyCols: seq<Column>, a: Bytes, b: Bytes)
    requires |a| == |b|
    requires forall i, j :: 0 <= i < |keyCols| && 0 <= j < |a| && keyCols[i].Covers(j) ==> a[j] == b[j]
    ensures KeyText(keyCols, a) == KeyText(keyCols, b)
  {
    if keyCols != [] {
      var c := keyCols[0];
      if c.FitsIn(a) {
        assert a[c.offset..c.offset + c.size] == b[c.offset..c.offset + c.size] by {
          assert forall j :: c.offset <= j < c.offset + c.size ==> keyCols[0].Covers(j);
        }
      }
      RenderDependsOnRange(a, b, c);
      assert forall i :: 0 <= i < |keyCols| - 1 ==> keyCols[1..][i] == keyCols[i + 1];
      SameRangesSameKey(keyCols[1..], a, b);
    }
  }

  /** Bytes of a key column belong to no counter. */
  lemma KeyBytesUncovered(cols: seq<Column>, len: nat, c: Column, j: int)
    requires KeysApart(cols) && c in KeyColumns(cols) && c.Covers(j)
    ensures Uncovered(cols, len, j)
  {
    forall m | 0 <= m < |cols| && cols[m].IsSummed()
      ensures !cols[m].Covers(j)
    {
      assert Disjoint(c, cols[m]);
    }
  }

  /** A merged row still renders the key of its group. */
  lemma {:induction false} MergedRowKeepsKey(cols: seq<Column>, rows: seq<Bytes>, k: Bytes, o: Bytes)
    requires KeysApart(cols) && IsMergedGroup(cols, rows, k, o)
    ensures KeyText(KeyColumns(cols), o) == k
  {
    hide Uncovered, KeysApart;
    var kc := KeyColumns(cols);
    var f := FirstRow(kc, rows, k);
    forall i, j | 0 <= i < |kc| && 0 <= j < |f| && kc[i].Covers(j)
      ensures f[j] == o[j]
    {
      KeyBytesUncovered(cols, |f|, kc[i], j);
    }
    SameRangesSameKey(kc, f, o);
  }

  /** Merging keeps the key of the row that collects. */
  lemma {:induction false} MergeKeepsKey(cols: seq<Column>, dst: Bytes, src: Bytes)
    requires KeysApart(cols)
    ensures KeyText(KeyColumns(cols), MergeColumns(cols, cols, dst, src)) == KeyText(KeyColumns(cols), dst)
  {
    hide Uncovered, KeysApart, KeyText, MergeColumns;
    var kc, o := KeyColumns(cols), MergeColumns(cols, cols, dst, src);
    assert cols[0..] == cols;
    forall i, j | 0 <= i < |kc| && 0 <= j < |dst| && kc[i].Covers(j)
      ensures o[j] == dst[j]
    {
      KeyBytesUncovered(cols, |dst|, kc[i], j);
      MergeKeepsUncovered(cols, 0, j, dst, src);
    }
    SameRangesSameKey(kc, o, dst);
  }

  /** Every row of the fold renders the key it is filed under. */
  lemma {:induction false} RowRendersItsKey(cols: seq<Column>, rows: seq<Bytes>, p: nat)
    requires KeysApart(cols) && p < |GroupRows(cols, rows).rows|
    ensures KeyText(KeyColumns(cols), GroupRows(cols, rows).rows[p]) == GroupRows(cols, rows).keys[p]
  {
    hide KeysApart, Render, MergeColumns;
    var rs, r := rows[..|rows| - 1], rows[|rows| - 1];
    var g, k := GroupRows(cols, rs), KeyText(KeyColumns(cols), r);
    assert GroupRows(cols, rows) == AddRow(cols, g, r);
    if p < |g.rows| {
      RowRendersItsKey(cols, rs, p);
      MergeKeepsKey(cols, g.rows[p], r);
    }
  }

  predicate PairwiseDistinctKeys(keyCols: seq<Column>, rows: seq<Bytes>) {
    forall p, q :: 0 <= p < q < |rows| ==> KeyText(keyCols, rows[p]) != KeyText(keyCols, rows[q])
  }

  /** No two rows of the result have equal key columns. */
  lemma {:induction false} ResultKeysAreUnique(cols: seq<Column>, rows: seq<Bytes>)
    requires KeysApart(cols) && KeyColumns(cols) != []
    ensures PairwiseDistinctKeys(KeyColumns(cols), AggregateOf(cols, rows))
    ensures forall p, q :: 0 <= p < q < |AggregateOf(cols, rows)| ==>
              !SameKey(KeyColumns(cols), AggregateOf(cols, rows)[p], AggregateOf(cols, rows)[q])
  {
    hide KeysApart, KeyText, GroupRows, FirstKeys, SameKey, KeyColumns;
    var kc, out := KeyColumns(cols), AggregateOf(cols, rows);
    GroupKeys(cols, rows);
    FirstKeysAreTheKeys(kc, rows);
    forall p, q | 0 <= p < q < |out|
      ensures KeyText(kc, out[p]) != KeyText(kc, out[q]) && !SameKey(kc, out[p], out[q])
    {
      RowRendersItsKey(cols, rows, p);
      RowRendersItsKey(cols, rows, q);
      KeyTextInjective(kc, out[p], out[q]);
    }
  }

  lemma {:induction false} DistinctRowsStay(cols: seq<Column>, rows: seq<Bytes>)
    requires PairwiseDistinctKeys(KeyColumns(cols), rows)
    ensures GroupRows(cols, rows).rows == rows
  {
    if rows != [] {
      var kc := KeyColumns(cols);
      var rs, r := rows[..|rows| - 1], rows[|rows| - 1];
      assert rows == rs + [r];
      DistinctRowsStay(cols, rs);
      GroupKeys(cols, rs);
      FirstKeysAreTheKeys(kc, rs);
      assert !HasKey(kc, rs, KeyText(kc, r));
    }
  }

  /** Aggregating twice is aggregating once. */
  lemma AggregationIsIdempotent(cols: seq<Column>, rows: seq<Bytes>)
    requires KeysApart(cols)
    ensures AggregateOf(cols, AggregateOf(cols, rows)) == AggregateOf(cols, rows)
  {
    if KeyColumns(cols) != [] {
      ResultKeysAreUnique(cols, rows);
      DistinctRowsStay(cols, AggregateOf(cols, rows));
    }
  }

  // ----- signed counters

  /** The value of `x` in an `8*size`-bit two's-complement register. */
  function WrapSigned(x: int, size: nat): int {
    TwosComplement(x % Pow256(size), size)
  }

  /** The unbounded sum of a signed column over the rows with key `k`. */
  function SignedGroupSum(keyCols: seq<Column>, rows: seq<Bytes>, k: Bytes, c: Column): int {
    if rows == [] then 0
    else
      var r := rows[|rows| - 1];
      SignedGroupSum(keyCols, rows[..|rows| - 1], k, c)
      + if KeyText(keyCols, r) == k then IntAt(r, c.offset, c.size) else 0
  }

  lemma {:induction false} SignedSumIsCongruent(keyCols: seq<Column>, rows: seq<Bytes>, k: Bytes, c: Column)
    requires 1 <= c.size <= 8
    ensures SignedGroupSum(keyCols, rows, k, c) % Pow256(c.size) == GroupSum(keyCols, rows, k, c) % Pow256(c.size)
  {
    hide KeyText, Render, UintAt, IntAt, Pow256;
    if rows != [] {
      var rs, r := rows[..|rows| - 1], rows[|rows| - 1];
      var m := Pow256(c.size);
      SignedSumIsCongruent(keyCols, rs, k, c);
      if KeyText(keyCols, r) == k {
        var u, i := UintAt(r, c.offset, c.size), IntAt(r, c.offset, c.size);
        IntAtIsTwosComplement(r, c.offset, c.size);
        ModAdd(SignedGroupSum(keyCols, rs, k, c), i, m);
        ModAdd(GroupSum(keyCols, rs, k, c), i, m);
        var s := GroupSum(keyCols, rs, k, c);
        if i != u {
          ModAddMultiple(s + i, m, 1);
        }
      }
    }
  }

  /** A merged signed counter is the wrapped sum of the group's signed values. */
  lemma {:induction false} SignedCountersAdd(cols: seq<Column>, rows: seq<Bytes>, k: Bytes, o: Bytes, i: nat)
    requires IsMergedGroup(cols, rows, k, o)
    requires i < |cols| && cols[i].IsSummed() && 1 <= cols[i].size <= 8
    requires cols[i].FitsIn(FirstRow(KeyColumns(cols), rows, k))
    ensures IntAt(o, cols[i].offset, cols[i].size)
         == WrapSigned(SignedGroupSum(KeyColumns(cols), rows, k, cols[i]), cols[i].size)
  {
    IntAtIsTwosComplement(o, cols[i].offset, cols[i].size);
    SignedSumIsCongruent(KeyColumns(cols), rows, k, cols[i]);
  }
}
