// Key aggregation: rows with the same key columns are merged into the first of
// them, counter columns are added up in place.
//
// `GroupRows` is the specification the in-place method refines.  `IsGroupBy`
// says independently what the result is: one row per distinct key in order of
// first occurrence, each counter the sum of its group, every other byte from the
// group's first row.

module Aggregation {
  import opened ByteStrings
  import opened TmstatRow
  import opened Selection

  // ----- grouping keys

  function KeyColumns(cols: seq<Column>): (r: seq<Column>)
    ensures forall c :: c in r <==> c in cols && c.IsKey()
  {
    if cols == [] then []
    else if cols[0].IsKey() then [cols[0]] + KeyColumns(cols[1..])
    else KeyColumns(cols[1..])
  }

  lemma {:induction false} KeyColumnsSnoc(cols: seq<Column>, c: Column)
    ensures KeyColumns(cols + [c]) == if c.IsKey() then KeyColumns(cols) + [c] else KeyColumns(cols)
  {
    if cols == [] {
      assert cols + [c] == [c] && [c][1..] == [] && KeyColumns([]) == [];
    } else {
      assert (cols + [c])[1..] == cols[1..] + [c];
      KeyColumnsSnoc(cols[1..], c);
    }
  }

  /** The key columns are the columns of rule 0 that are not dropped, in order. */
  lemma {:induction false} KeyColumnsAre(cols: seq<Column>) returns (at: seq<nat>)
    ensures Picked(cols, at, KeyColumns(cols))
    ensures forall j :: 0 <= j < |cols| ==> (j in at <==> cols[j].rule == 0 && !cols[j].dropped)
  {
    hide Picked;
    at := [];
    if cols == [] {
      PickedNone<Column>();
    } else {
      var n := |cols| - 1;
      var front, x := cols[..n], cols[n];
      at := KeyColumnsAre(front);
      assert cols == front + [x];
      KeyColumnsSnoc(front, x);
      PickedSnoc(front, at, KeyColumns(front), x);
      if x.IsKey() {
        at := at + [n];
      }
    }
  }

  /** Every key column's rendering, each ended by a NUL. */
  function KeyText(keyCols: seq<Column>, b: Bytes): Bytes {
    if keyCols == [] then [] else Render(b, keyCols[0]) + [0] + KeyText(keyCols[1..], b)
  }

  predicate SameKey(keyCols: seq<Column>, a: Bytes, b: Bytes) {
    forall i :: 0 <= i < |keyCols| ==> Render(a, keyCols[i]) == Render(b, keyCols[i])
  }

  /** The key text identifies the tuple of key column renderings. */
  lemma {:induction false} KeyTextInjective(keyCols: seq<Column>, a: Bytes, b: Bytes)
    ensures KeyText(keyCols, a) == KeyText(keyCols, b) <==> SameKey(keyCols, a, b)
  {
    if keyCols != [] {
      var c, rest := keyCols[0], keyCols[1..];
      KeyTextInjective(rest, a, b);
      if KeyText(keyCols, a) == KeyText(keyCols, b) {
        RenderIsNulFree(a, c);
        RenderIsNulFree(b, c);
        CutIsUnique(Render(a, c), KeyText(rest, a), Render(b, c), KeyText(rest, b), 0);
        forall i | 0 <= i < |keyCols|
          ensures Render(a, keyCols[i]) == Render(b, keyCols[i])
        {
          if i > 0 {
            assert keyCols[i] == rest[i - 1];
          }
        }
      }
      if SameKey(keyCols, a, b) {
        assert forall i :: 0 <= i < |rest| ==> rest[i] == keyCols[i + 1];
      }
    }
  }

  // ----- merging and grouping

  /** `dst` after the summed columns of `todo` were added from `src`. */
  function MergeColumns(cols: seq<Column>, todo: seq<Column>, dst: Bytes, src: Bytes): (r: Bytes)
    ensures |r| == |dst|
  {
    if todo == [] then dst
    else
      var c := todo[0];
      var dst' := if c.IsSummed() then AddColumn(cols, c, dst, src) else dst;
      MergeColumns(cols, todo[1..], dst', src)
  }

  /** One counter addition, in 64-bit arithmetic. */
  function AddColumn(cols: seq<Column>, c: Column, dst: Bytes, src: Bytes): (r: Bytes)
    ensures |r| == |dst|
  {
    PutUint(dst, c.offset, c.size, (UintAt(dst, c.offset, c.size) + UintNamed(cols, src, c.name)) % TWO_64)
  }

  datatype Groups = Groups(keys: seq<Bytes>, rows: seq<Bytes>)

  function IndexOf(keys: seq<Bytes>, k: Bytes): (p: nat)
    requires k in keys
    ensures p < |keys| && keys[p] == k
  {
    if keys[0] == k then 0 else 1 + IndexOf(keys[1..], k)
  }

  function AddRow(cols: seq<Column>, g: Groups, r: Bytes): (g': Groups)
    requires |g.keys| == |g.rows|
    ensures |g'.keys| == |g'.rows|
  {
    var k := KeyText(KeyColumns(cols), r);
    if k in g.keys then
      var p := IndexOf(g.keys, k);
      g.(rows := g.rows[p := MergeColumns(cols, cols, g.rows[p], r)])
    else
      Groups(g.keys + [k], g.rows + [r])
  }

  function GroupRows(cols: seq<Column>, rows: seq<Bytes>): (g: Groups)
    ensures |g.keys| == |g.rows|
  {
    if rows == [] then Groups([], [])
    else AddRow(cols, GroupRows(cols, rows[..|rows| - 1]), rows[|rows| - 1])
  }

  function AggregateOf(cols: seq<Column>, rows: seq<Bytes>): seq<Bytes> {
    if KeyColumns(cols) == [] then rows else GroupRows(cols, rows).rows
  }

  // ----- the independent description of the result

  /** The distinct keys in order of first occurrence. */
  function FirstKeys(keyCols: seq<Column>, rows: seq<Bytes>): seq<Bytes> {
    if rows == [] then []
    else
      var ks := FirstKeys(keyCols, rows[..|rows| - 1]);
      var k := KeyText(keyCols, rows[|rows| - 1]);
      if k in ks then ks else ks + [k]
  }

  predicate HasKey(keyCols: seq<Column>, rows: seq<Bytes>, k: Bytes) {
    exists i :: 0 <= i < |rows| && KeyText(keyCols, rows[i]) == k
  }

  /** Row `i` is the first one with key `k`. */
  predicate IsFirstWith(keyCols: seq<Column>, rows: seq<Bytes>, k: Bytes, i: nat) {
    i < |rows| && KeyText(keyCols, rows[i]) == k && forall j :: 0 <= j < i ==> KeyText(keyCols, rows[j]) != k
  }

  function FirstRow(keyCols: seq<Column>, rows: seq<Bytes>, k: Bytes): (r: Bytes)
    requires HasKey(keyCols, rows, k)
    ensures r in rows && KeyText(keyCols, r) == k
    ensures exists i: nat :: IsFirstWith(keyCols, rows, k, i) && r == rows[i]
  {
    if KeyText(keyCols, rows[0]) == k then
      assert IsFirstWith(keyCols, rows, k, 0);
      rows[0]
    else
      assert HasKey(keyCols, rows[1..], k) by {
        var i :| 0 <= i < |rows| && KeyText(keyCols, rows[i]) == k;
        assert rows[1..][i - 1] == rows[i];
      }
      var r := FirstRow(keyCols, rows[1..], k);
      assert exists i: nat :: IsFirstWith(keyCols, rows, k, i) && r == rows[i] by {
        var i: nat :| IsFirstWith(keyCols, rows[1..], k, i) && r == rows[1..][i];
        assert forall j :: 0 < j <= i ==> rows[j] == rows[1..][j - 1];
        assert IsFirstWith(keyCols, rows, k, i + 1) && r == rows[i + 1];
      }
      r
  }

  /** The unbounded sum of a column over the rows with key `k`. */
  function GroupSum(keyCols: seq<Column>, rows: seq<Bytes>, k: Bytes, c: Column): nat {
    if rows == [] then 0
    else
      var r := rows[|rows| - 1];
      GroupSum(keyCols, rows[..|rows| - 1], k, c)
      + if KeyText(keyCols, r) == k then UintAt(r, c.offset, c.size) else 0
  }

  predicate Disjoint(c: Column, d: Column) {
    c.offset + c.size <= d.offset || d.offset + d.size <= c.offset
  }

  /** What the merge relies on: unique names, counters of at most eight bytes
      that do not overlap each other. */
  predicate WellFormed(cols: seq<Column>) {
    DistinctNames(cols) && CountersApart(cols)
  }

  predicate CountersApart(cols: seq<Column>) {
    && (forall i :: 0 <= i < |cols| && cols[i].IsSummed() ==> cols[i].size <= 8)
    && (forall i, j :: 0 <= i < j < |cols| && cols[i].IsSummed() && cols[j].IsSummed() ==>
          Disjoint(cols[i], cols[j]))
  }

  /** No summed column overlaps a key column. */
  predicate KeysApart(cols: seq<Column>) {
    forall c, d :: c in cols && d in cols && c.IsKey() && d.IsSummed() ==> Disjoint(c, d)
  }

  /** No counter of a row of `len` bytes holds byte `j`. */
  predicate Uncovered(cols: seq<Column>, len: nat, j: int) {
    forall i :: 0 <= i < |cols| && cols[i].IsSummed() && cols[i].offset + cols[i].size <= len ==> !cols[i].Covers(j)
  }

  predicate IsMergedGroup(cols: seq<Column>, rows: seq<Bytes>, k: Bytes, o: Bytes) {
    var kc := KeyColumns(cols);
    HasKey(kc, rows, k) &&
    var f := FirstRow(kc, rows, k);
    && |o| == |f|
    && (forall i :: 0 <= i < |cols| && cols[i].IsSummed() && cols[i].FitsIn(f) ==>
          UintAt(o, cols[i].offset, cols[i].size) == GroupSum(kc, rows, k, cols[i]) % Pow256(cols[i].size))
    && (forall j :: 0 <= j < |f| && Uncovered(cols, |f|, j) ==> o[j] == f[j])
  }

  predicate IsGroupBy(cols: seq<Column>, rows: seq<Bytes>, out: seq<Bytes>) {
    var keys := FirstKeys(KeyColumns(cols), rows);
    && |out| == |keys|
    && forall p :: 0 <= p < |out| ==> IsMergedGroup(cols, rows, keys[p], out[p])
  }

  // ----- what one merge does

  lemma {:induction false} ModOfMod64(x: nat, n: nat)
    requires n <= 8
    ensures (x % TWO_64) % Pow256(n) == x % Pow256(n)
  {
    var m, q := Pow256(n), Pow256(8 - n);
    assert m * q == TWO_64 by {
      Pow256Add(n, 8 - n);
      Pow256Values();
    }
    assert x == x % TWO_64 + m * (q * (x / TWO_64)) by {
      assert m * (q * (x / TWO_64)) == (m * q) * (x / TWO_64);
    }
    ModAddMultiple(x % TWO_64, m, q * (x / TWO_64));
  }

  lemma AddColumnEffect(cols: seq<Column>, k: nat, dst: Bytes, src: Bytes)
    requires CountersApart(cols) && k < |cols| && cols[k].IsSummed()
    ensures var c, o := cols[k], AddColumn(cols, cols[k], dst, src);
            c.FitsIn(dst) ==> UintAt(o, c.offset, c.size)
                              == (UintAt(dst, c.offset, c.size) + UintNamed(cols, src, c.name)) % Pow256(c.size)
  {
    hide UintNamed;
    var c := cols[k];
    var v := UintAt(dst, c.offset, c.size) + UintNamed(cols, src, c.name);
    UintAtOfPutUint(dst, c.offset, c.size, v % TWO_64);
    ModOfMod64(v, c.size);
  }

  lemma AddColumnElsewhere(cols: seq<Column>, k: nat, m: nat, dst: Bytes, src: Bytes)
    requires CountersApart(cols) && k < |cols| && cols[k].IsSummed()
    requires m < |cols| && m != k && cols[m].IsSummed()
    ensures UintAt(AddColumn(cols, cols[k], dst, src), cols[m].offset, cols[m].size)
         == UintAt(dst, cols[m].offset, cols[m].size)
  {
    hide UintNamed;
    var c := cols[k];
    var v := (UintAt(dst, c.offset, c.size) + UintNamed(cols, src, c.name)) % TWO_64;
    assert Disjoint(cols[if m < k then m else k], cols[if m < k then k else m]);
    PutUintElsewhere(dst, c.offset, c.size, v, cols[m]);
    RenderDependsOnRange(dst, PutUint(dst, c.offset, c.size, v), cols[m]);
  }

  lemma {:induction false} MergeKeepsUncovered(cols: seq<Column>, k: nat, j: nat, dst: Bytes, src: Bytes)
    requires k <= |cols| && j < |dst| && Uncovered(cols, |dst|, j)
    ensures MergeColumns(cols, cols[k..], dst, src)[j] == dst[j]
    decreases |cols| - k
  {
    if k < |cols| {
      assert cols[k..][1..] == cols[k + 1..];
      var c := cols[k];
      if c.IsSummed() {
        UintAtOfPutUint(dst, c.offset, c.size,
                        (UintAt(dst, c.offset, c.size) + UintNamed(cols, src, c.name)) % TWO_64);
        MergeKeepsUncovered(cols, k + 1, j, AddColumn(cols, c, dst, src), src);
      } else {
        MergeKeepsUncovered(cols, k + 1, j, dst, src);
      }
    }
  }

  lemma {:induction false} MergeKeepsDone(cols: seq<Column>, k: nat, m: nat, dst: Bytes, src: Bytes)
    requires CountersApart(cols) && m < k <= |cols| && cols[m].IsSummed()
    ensures UintAt(MergeColumns(cols, cols[k..], dst, src), cols[m].offset, cols[m].size)
         == UintAt(dst, cols[m].offset, cols[m].size)
    decreases |cols| - k
  {
    hide UintAt, AddColumn, CountersApart;
    if k < |cols| {
      assert cols[k..][1..] == cols[k + 1..];
      if cols[k].IsSummed() {
        AddColumnElsewhere(cols, k, m, dst, src);
        MergeKeepsDone(cols, k + 1, m, AddColumn(cols, cols[k], dst, src), src);
      } else {
        MergeKeepsDone(cols, k + 1, m, dst, src);
      }
    }
  }

  /** Merging adds to every summed column, modulo its width, what the new row holds in the
      first column of the same name. */
  lemma {:induction false} MergeAddsNamed(cols: seq<Column>, k: nat, m: nat, dst: Bytes, src: Bytes)
    requires CountersApart(cols) && k <= m < |cols| && cols[m].IsSummed() && cols[m].FitsIn(dst)
    ensures UintAt(MergeColumns(cols, cols[k..], dst, src), cols[m].offset, cols[m].size)
         == (UintAt(dst, cols[m].offset, cols[m].size) + UintNamed(cols, src, cols[m].name)) % Pow256(cols[m].size)
    decreases |cols| - k
  {
    hide UintAt, AddColumn, UintNamed, Pow256, CountersApart;
    assert cols[k..][1..] == cols[k + 1..];
    if k == m {
      AddColumnEffect(cols, k, dst, src);
      MergeKeepsDone(cols, k + 1, m, AddColumn(cols, cols[k], dst, src), src);
    } else if cols[k].IsSummed() {
      AddColumnElsewhere(cols, k, m, dst, src);
      MergeAddsNamed(cols, k + 1, m, AddColumn(cols, cols[k], dst, src), src);
    } else {
      MergeAddsNamed(cols, k + 1, m, dst, src);
    }
  }

  /** With unique names, merging adds every summed column modulo its width. */
  lemma MergeAdds(cols: seq<Column>, k: nat, m: nat, dst: Bytes, src: Bytes)
    requires WellFormed(cols) && k <= m < |cols| && cols[m].IsSummed() && cols[m].FitsIn(dst)
    ensures UintAt(MergeColumns(cols, cols[k..], dst, src), cols[m].offset, cols[m].size)
         == (UintAt(dst, cols[m].offset, cols[m].size) + UintAt(src, cols[m].offset, cols[m].size))
            % Pow256(cols[m].size)
  {
    hide UintAt, MergeColumns, Pow256, ColumnNamed;
    ColumnNamedIs(cols, m);
    MergeAddsNamed(cols, k, m, dst, src);
  }

  // ----- groups of a longer row list

  lemma HasKeySnoc(keyCols: seq<Column>, rows: seq<Bytes>, r: Bytes, k: Bytes)
    ensures HasKey(keyCols, rows + [r], k) <==> HasKey(keyCols, rows, k) || KeyText(keyCols, r) == k
  {
    var all := rows + [r];
    if HasKey(keyCols, rows, k) {
      var i :| 0 <= i < |rows| && KeyText(keyCols, rows[i]) == k;
      assert all[i] == rows[i];
    }
    if KeyText(keyCols, r) == k {
      assert all[|rows|] == r;
    }
  }

  lemma {:induction false} FirstRowSnoc(keyCols: seq<Column>, rows: seq<Bytes>, r: Bytes, k: Bytes)
    requires HasKey(keyCols, rows, k) || KeyText(keyCols, r) == k
    ensures HasKey(keyCols, rows + [r], k)
    ensures FirstRow(keyCols, rows + [r], k) == if HasKey(keyCols, rows, k) then FirstRow(keyCols, rows, k) else r
  {
    HasKeySnoc(keyCols, rows, r, k);
    if rows != [] {
      assert (rows + [r])[0] == rows[0] && (rows + [r])[1..] == rows[1..] + [r];
      if KeyText(keyCols, rows[0]) != k {
        if HasKey(keyCols, rows, k) {
          var i :| 0 <= i < |rows| && KeyText(keyCols, rows[i]) == k;
          assert rows[1..][i - 1] == rows[i];
        }
        assert HasKey(keyCols, rows[1..], k) ==> HasKey(keyCols, rows, k) by {
          assert forall i :: 0 <= i < |rows| - 1 ==> rows[1..][i] == rows[i + 1];
        }
        FirstRowSnoc(keyCols, rows[1..], r, k);
      } else {
        assert HasKey(keyCols, rows, k);
      }
    }
  }

  lemma GroupSumSnoc(keyCols: seq<Column>, rows: seq<Bytes>, r: Bytes, k: Bytes, c: Column)
    ensures GroupSum(keyCols, rows + [r], k, c)
         == GroupSum(keyCols, rows, k, c) + if KeyText(keyCols, r) == k then UintAt(r, c.offset, c.size) else 0
  {
    assert (rows + [r])[..|rows|] == rows;
  }

  predicate DistinctKeys(keys: seq<Bytes>) {
    forall i, j :: 0 <= i < j < |keys| ==> keys[i] != keys[j]
  }

  /** The key list holds exactly the keys that occur, each once. */
  lemma {:induction false} FirstKeysAreTheKeys(keyCols: seq<Column>, rows: seq<Bytes>)
    ensures DistinctKeys(FirstKeys(keyCols, rows))
    ensures forall k :: k in FirstKeys(keyCols, rows) <==> HasKey(keyCols, rows, k)
  {
    if rows != [] {
      var rs, r := rows[..|rows| - 1], rows[|rows| - 1];
      assert rows == rs + [r];
      FirstKeysAreTheKeys(keyCols, rs);
      forall k ensures HasKey(keyCols, rows, k) <==> HasKey(keyCols, rs, k) || KeyText(keyCols, r) == k {
        HasKeySnoc(keyCols, rs, r, k);
      }
    }
  }

  /** The keys come in the order of their first rows. */
  lemma {:induction false} KeysComeInOrder(keyCols: seq<Column>, rows: seq<Bytes>, p: nat, q: nat)
    returns (i: nat, j: nat)
    requires p < q < |FirstKeys(keyCols, rows)|
    ensures i < j && IsFirstWith(keyCols, rows, FirstKeys(keyCols, rows)[p], i)
    ensures IsFirstWith(keyCols, rows, FirstKeys(keyCols, rows)[q], j)
  {
    hide KeyText;
    var n := |rows| - 1;
    var ks := FirstKeys(keyCols, rows[..n]);
    assert forall m :: 0 <= m < n ==> rows[..n][m] == rows[m];
    if q < |ks| {
      i, j := KeysComeInOrder(keyCols, rows[..n], p, q);
    } else {
      FirstKeysAreTheKeys(keyCols, rows[..n]);
      assert HasKey(keyCols, rows[..n], ks[p]);
      i := FirstWith(keyCols, rows[..n], ks[p]);
      j := n;
      assert forall m :: 0 <= m < n ==> KeyText(keyCols, rows[m]) != KeyText(keyCols, rows[n]) by {
        assert !HasKey(keyCols, rows[..n], KeyText(keyCols, rows[n]));
      }
    }
  }

  lemma FirstWith(keyCols: seq<Column>, rows: seq<Bytes>, k: Bytes) returns (i: nat)
    requires HasKey(keyCols, rows, k)
    ensures IsFirstWith(keyCols, rows, k, i)
  {
    var r := FirstRow(keyCols, rows, k);
    i :| IsFirstWith(keyCols, rows, k, i) && r == rows[i];
  }

  lemma {:induction false} GroupKeys(cols: seq<Column>, rows: seq<Bytes>)
    ensures GroupRows(cols, rows).keys == FirstKeys(KeyColumns(cols), rows)
  {
    if rows != [] {
      GroupKeys(cols, rows[..|rows| - 1]);
    }
  }

  lemma {:induction false} OtherGroupKept(cols: seq<Column>, rows: seq<Bytes>, r: Bytes, k: Bytes, o: Bytes)
    requires IsMergedGroup(cols, rows, k, o)
    requires KeyText(KeyColumns(cols), r) != k
    ensures IsMergedGroup(cols, rows + [r], k, o)
  {
    var kc := KeyColumns(cols);
    FirstRowSnoc(kc, rows, r, k);
    forall c ensures GroupSum(kc, rows + [r], k, c) == GroupSum(kc, rows, k, c) {
      GroupSumSnoc(kc, rows, r, k, c);
    }
  }

  lemma {:induction false} NoKeyNoSum(keyCols: seq<Column>, rows: seq<Bytes>, k: Bytes, c: Column)
    requires !HasKey(keyCols, rows, k)
    ensures GroupSum(keyCols, rows, k, c) == 0
  {
    if rows != [] {
      var rs, r := rows[..|rows| - 1], rows[|rows| - 1];
      assert rows == rs + [r];
      HasKeySnoc(keyCols, rs, r, k);
      NoKeyNoSum(keyCols, rs, k, c);
    }
  }

  lemma {:induction false} NewGroup(cols: seq<Column>, rows: seq<Bytes>, r: Bytes)
    requires WellFormed(cols)
    requires !HasKey(KeyColumns(cols), rows, KeyText(KeyColumns(cols), r))
    ensures IsMergedGroup(cols, rows + [r], KeyText(KeyColumns(cols), r), r)
  {
    hide Render, KeyText, UintAt, GroupSum, Pow256;
    var kc := KeyColumns(cols);
    var k := KeyText(kc, r);
    FirstRowSnoc(kc, rows, r, k);
    forall i | 0 <= i < |cols| && cols[i].IsSummed()
      ensures UintAt(r, cols[i].offset, cols[i].size)
           == GroupSum(kc, rows + [r], k, cols[i]) % Pow256(cols[i].size)
    {
      var c := cols[i];
      NoKeyNoSum(kc, rows, k, c);
      GroupSumSnoc(kc, rows, r, k, c);
      UintAtBound(r, c);
      ModSmall(UintAt(r, c.offset, c.size), Pow256(c.size));
    }
  }

  lemma UintAtBound(b: Bytes, c: Column)
    requires c.size <= 8
    ensures UintAt(b, c.offset, c.size) < Pow256(c.size)
  {
    if c.FitsIn(b) {
      LeValueBound(b[c.offset..c.offset + c.size]);
    }
  }

  lemma GrownSum(cols: seq<Column>, rows: seq<Bytes>, r: Bytes, o: Bytes, i: nat)
    requires WellFormed(cols) && i < |cols| && cols[i].IsSummed() && cols[i].FitsIn(o)
    requires var k := KeyText(KeyColumns(cols), r);
             UintAt(o, cols[i].offset, cols[i].size)
             == GroupSum(KeyColumns(cols), rows, k, cols[i]) % Pow256(cols[i].size)
    ensures var k := KeyText(KeyColumns(cols), r);
            UintAt(MergeColumns(cols, cols, o, r), cols[i].offset, cols[i].size)
            == GroupSum(KeyColumns(cols), rows + [r], k, cols[i]) % Pow256(cols[i].size)
  {
    var c, kc := cols[i], KeyColumns(cols);
    var k := KeyText(kc, r);
    assert cols[0..] == cols;
    MergeAdds(cols, 0, i, o, r);
    GroupSumSnoc(kc, rows, r, k, c);
    ModAdd(GroupSum(kc, rows, k, c), UintAt(r, c.offset, c.size), Pow256(c.size));
  }

  lemma {:induction false} GroupGrows(cols: seq<Column>, rows: seq<Bytes>, r: Bytes, o: Bytes)
    requires WellFormed(cols)
    requires IsMergedGroup(cols, rows, KeyText(KeyColumns(cols), r), o)
    ensures IsMergedGroup(cols, rows + [r], KeyText(KeyColumns(cols), r), MergeColumns(cols, cols, o, r))
  {
    var kc := KeyColumns(cols);
    var k := KeyText(kc, r);
    var f := FirstRow(kc, rows, k);
    var o' := MergeColumns(cols, cols, o, r);
    FirstRowSnoc(kc, rows, r, k);
    forall i | 0 <= i < |cols| && cols[i].IsSummed() && cols[i].FitsIn(f)
      ensures UintAt(o', cols[i].offset, cols[i].size)
           == GroupSum(kc, rows + [r], k, cols[i]) % Pow256(cols[i].size)
    {
      GrownSum(cols, rows, r, o, i);
    }
    forall j | 0 <= j < |f| && Uncovered(cols, |f|, j)
      ensures o'[j] == f[j]
    {
      assert cols[0..] == cols;
      MergeKeepsUncovered(cols, 0, j, o, r);
    }
  }

  /** The fold over the rows is the group-by. */
  lemma {:induction false} GroupRowsIsGroupBy(cols: seq<Column>, rows: seq<Bytes>)
    requires WellFormed(cols)
    ensures IsGroupBy(cols, rows, GroupRows(cols, rows).rows)
  {
    if rows != [] {
      var rs, r := rows[..|rows| - 1], rows[|rows| - 1];
      assert rows == rs + [r];
      GroupRowsIsGroupBy(cols, rs);
      var kc := KeyColumns(cols);
      var g, g' := GroupRows(cols, rs), GroupRows(cols, rows);
      var k := KeyText(kc, r);
      GroupKeys(cols, rs);
      GroupKeys(cols, rows);
      FirstKeysAreTheKeys(kc, rs);
      forall p | 0 <= p < |g'.rows|
        ensures IsMergedGroup(cols, rows, g'.keys[p], g'.rows[p])
      {
        if p < |g.rows| {
          assert IsMergedGroup(cols, rs, g.keys[p], g.rows[p]);
          if g.keys[p] == k {
            assert p == IndexOf(g.keys, k);
            GroupGrows(cols, rs, r, g.rows[p]);
          } else {
            OtherGroupKept(cols, rs, r, g.keys[p], g.rows[p]);
          }
        } else {
          NewGroup(cols, rs, r);
        }
      }
    }
  }

  /** Aggregation is the group-by on tables with a key column, and does nothing
      on tables without one. */
  lemma AggregateIsGroupBy(cols: seq<Column>, rows: seq<Bytes>)
    requires WellFormed(cols)
    ensures if KeyColumns(cols) == [] then AggregateOf(cols, rows) == rows
            else IsGroupBy(cols, rows, AggregateOf(cols, rows))
  {
    GroupRowsIsGroupBy(cols, rows);
  }

  // ----- the description determines the result

  lemma CounterBytesAreItsValue(o: Bytes, o': Bytes, c: Column)
    requires c.size <= 8 && |o| == |o'| && c.FitsIn(o)
    requires UintAt(o, c.offset, c.size) == UintAt(o', c.offset, c.size)
    ensures forall j :: 0 <= j < |o| && c.Covers(j) ==> o[j] == o'[j]
  {
    hide LeValue, LeBytes;
    var s, s' := o[c.offset..c.offset + c.size], o'[c.offset..c.offset + c.size];
    LeBytesOfLeValue(s);
    LeBytesOfLeValue(s');
    assert s == s';
    forall j | 0 <= j < |o| && c.Covers(j)
      ensures o[j] == o'[j]
    {
      assert s[j - c.offset] == o[j] && s'[j - c.offset] == o'[j];
    }
  }

  lemma MergedGroupIsUnique(cols: seq<Column>, rows: seq<Bytes>, k: Bytes, o: Bytes, o': Bytes)
    requires WellFormed(cols) && IsMergedGroup(cols, rows, k, o) && IsMergedGroup(cols, rows, k, o')
    ensures o == o'
  {
    hide UintAt, KeyText, KeyColumns, GroupSum;
    forall j | 0 <= j < |o|
      ensures o[j] == o'[j]
    {
      if !Uncovered(cols, |o|, j) {
        var i :| 0 <= i < |cols| && cols[i].IsSummed() && cols[i].FitsIn(o) && cols[i].Covers(j);
        CounterBytesAreItsValue(o, o', cols[i]);
      }
    }
  }

  /** Nothing is left open: there is only one group-by of a row list. */
  lemma GroupByIsUnique(cols: seq<Column>, rows: seq<Bytes>, out: seq<Bytes>, out': seq<Bytes>)
    requires WellFormed(cols) && IsGroupBy(cols, rows, out) && IsGroupBy(cols, rows, out')
    ensures out == out'
  {
    hide IsMergedGroup, WellFormed, FirstKeys, KeyColumns;
    forall p | 0 <= p < |out|
      ensures out[p] == out'[p]
    {
      MergedGroupIsUnique(cols, rows, FirstKeys(KeyColumns(cols), rows)[p], out[p], out'[p]);
    }
  }
}
