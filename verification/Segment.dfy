// The segment reader: parsing, the slab walk, reading and merging rows.
//
// The callback of the slab walk becomes the list of slots it is called with, in
// order; a slot is a view into the segment data, never a copy.  A row is its
// buffer; the table it belongs to is passed beside it.

module TmstatSegment {
  import opened ByteStrings
  import opened Wrappers
  import opened TmstatRow
  import opened Aggregation
  import opened SegmentSpec

  // ----- row buffers

  function Buffers(rows: seq<array<Byte>>): (raws: seq<Bytes>)
    reads rows
    ensures |raws| == |rows|
  {
    seq(|rows|, i requires 0 <= i < |rows| reads rows => rows[i][..])
  }

  /** No two rows share a buffer. */
  predicate Unshared(rows: seq<array<Byte>>) {
    forall i, j :: 0 <= i < j < |rows| ==> rows[i] != rows[j]
  }

  method Copy(raw: Bytes) returns (b: array<Byte>)
    ensures fresh(b) && b[..] == raw
  {
    b := new Byte[|raw|](j requires 0 <= j < |raw| => raw[j]);
    assert b[..] == raw;
  }

  method AllZero(b: Bytes) returns (z: bool)
    ensures z == IsZero(b)
  {
    for i := 0 to |b|
      invariant forall j :: 0 <= j < i ==> b[j] == 0
    {
      if b[i] != 0 {
        return false;
      }
    }
    return true;
  }

  method KeyColumnsIn(cols: seq<Column>) returns (keyCols: seq<Column>)
    ensures keyCols == KeyColumns(cols)
  {
    hide KeyColumns;
    keyCols := [];
    NoKeyColumns();
    for i := 0 to |cols|
      invariant keyCols == KeyColumns(cols[..i])
    {
      assert cols[..i + 1] == cols[..i] + [cols[i]];
      KeyColumnsSnoc(cols[..i], cols[i]);
      if cols[i].rule == RULE_KEY && !cols[i].dropped {
        keyCols := keyCols + [cols[i]];
      }
    }
    assert cols[..|cols|] == cols;
  }

  lemma NoKeyColumns()
    ensures KeyColumns([]) == []
  {
  }

  method KeyOf(keyCols: seq<Column>, b: Bytes) returns (key: Bytes)
    ensures key == KeyText(keyCols, b)
  {
    hide Render;
    key := [];
    for i := 0 to |keyCols|
      invariant key + KeyText(keyCols[i..], b) == KeyText(keyCols, b)
    {
      var v := Value(b, keyCols[i]);
      assert keyCols[i..][1..] == keyCols[i + 1..];
      assert key + (v + [0] + KeyText(keyCols[i + 1..], b)) == key + v + [0] + KeyText(keyCols[i + 1..], b);
      key := key + v;
      key := key + [0];
    }
  }

  /** Adds the counters of `src` to `dst` in place. */
  method MergeInto(cols: seq<Column>, dst: array<Byte>, src: Bytes)
    modifies dst
    ensures dst[..] == MergeColumns(cols, cols, old(dst[..]), src)
  {
    hide PutUint, UintAt, UintNamed;
    for i := 0 to |cols|
      invariant MergeColumns(cols, cols[i..], dst[..], src) == MergeColumns(cols, cols, old(dst[..]), src)
    {
      assert cols[i..][1..] == cols[i + 1..];
      var c := cols[i];
      if c.rule == RULE_COUNTER && c.typ != TYPE_STRING && c.typ != TYPE_ADDRESS {
        var u := LeUint(dst[..], c.offset, c.size);
        var v := Uint(cols, src, c.name);
        SetUint(dst, c.offset, c.size, (u + v) % TWO_64);
      }
    }
  }

  /** Merges the rows that share a key into the first of them, in place.  `from`
      names the input row each result row is. */
  method Aggregate(cols: seq<Column>, rows: seq<array<Byte>>) returns (out: seq<array<Byte>>, ghost from: seq<nat>)
    requires Unshared(rows)
    modifies rows
    ensures Buffers(out) == AggregateOf(cols, old(Buffers(rows)))
    ensures Unshared(out)
    ensures |from| == |out|
    ensures forall p :: 0 <= p < |out| ==> from[p] < |rows| && out[p] == rows[from[p]]
    ensures forall p, q :: 0 <= p < q < |out| ==> from[p] < from[q]
  {
    hide Render, KeyText, MergeColumns, KeyColumns, AddRow, GroupRows, Indexes;
    var keyCols := KeyColumnsIn(cols);
    if |keyCols| == 0 {
      out, from := rows, seq(|rows|, i => i);
      return;
    }
    ghost var raws := Buffers(rows);
    ghost var g := Groups([], []);
    NoGroups(cols);
    var index: map<Bytes, nat> := map[];
    EmptyIndex();
    out, from := [], [];
    for i := 0 to |rows|
      invariant g == GroupRows(cols, raws[..i])
      invariant |from| == |out| == |g.rows|
      invariant forall p :: 0 <= p < |out| ==> from[p] < i && out[p] == rows[from[p]]
      invariant forall p, q :: 0 <= p < q < |out| ==> from[p] < from[q]
      invariant forall p :: 0 <= p < |out| ==> out[p][..] == g.rows[p]
      invariant forall j :: i <= j < |rows| ==> rows[j][..] == raws[j]
      invariant Indexes(index, g.keys)
    {
      NextRow(cols, raws, i);
      var r := rows[i];
      var key := KeyOf(keyCols, r[..]);
      if key in index {
        var pos := index[key];
        MergesAt(cols, g, raws[i], index);
        MergeInto(cols, out[pos], r[..]);
      } else {
        StartsGroup(cols, g, raws[i], index);
        index := index[key := |out|];
        out := out + [r];
        from := from + [i];
      }
      g := AddRow(cols, g, raws[i]);
    }
    assert raws[..|rows|] == raws;
  }

  lemma NoGroups(cols: seq<Column>)
    ensures GroupRows(cols, []) == Groups([], [])
  {
  }

  lemma NextRow(cols: seq<Column>, raws: seq<Bytes>, i: nat)
    requires i < |raws|
    ensures GroupRows(cols, raws[..i + 1]) == AddRow(cols, GroupRows(cols, raws[..i]), raws[i])
  {
    assert raws[..i + 1][..i] == raws[..i];
  }

  /** The index holds the position of every key. */
  ghost predicate Indexes(index: map<Bytes, nat>, keys: seq<Bytes>) {
    && DistinctKeys(keys)
    && (forall k :: k in index <==> k in keys)
    && (forall k :: k in index ==> index[k] < |keys| && keys[index[k]] == k)
  }

  lemma EmptyIndex()
    ensures Indexes(map[], [])
  {
  }

  lemma MergesAt(cols: seq<Column>, g: Groups, r: Bytes, index: map<Bytes, nat>)
    requires |g.keys| == |g.rows| && Indexes(index, g.keys) && KeyText(KeyColumns(cols), r) in index
    ensures var pos := index[KeyText(KeyColumns(cols), r)];
            pos < |g.rows| && AddRow(cols, g, r) == g.(rows := g.rows[pos := MergeColumns(cols, cols, g.rows[pos], r)])
  {
    hide KeyText, Render, KeyColumns;
    var k := KeyText(KeyColumns(cols), r);
    assert IndexOf(g.keys, k) == index[k];
  }

  lemma StartsGroup(cols: seq<Column>, g: Groups, r: Bytes, index: map<Bytes, nat>)
    requires |g.keys| == |g.rows| && Indexes(index, g.keys) && KeyText(KeyColumns(cols), r) !in index
    ensures var k := KeyText(KeyColumns(cols), r);
            && AddRow(cols, g, r) == Groups(g.keys + [k], g.rows + [r])
            && Indexes(index[k := |g.keys|], g.keys + [k])
  {
    hide KeyText, Render, KeyColumns;
  }

  // ----- schema objects

  class Table {
    const name: Bytes
    const id: nat
    const rows: nat
    const rowSize: nat
    const cols: nat
    var columns: seq<Column>

    constructor (name: Bytes, id: nat, rows: nat, rowSize: nat, cols: nat)
      ensures Info() == TableInfo(name, id, rows, rowSize, cols, [])
    {
      this.name, this.id, this.rows, this.rowSize, this.cols := name, id, rows, rowSize, cols;
      columns := [];
    }

    function Info(): TableInfo
      reads this
    {
      TableInfo(name, id, rows, rowSize, cols, columns)
    }
  }

  function Infos(ts: seq<Table>): (r: seq<TableInfo>)
    reads ts
    ensures |r| == |ts|
  {
    seq(|ts|, i requires 0 <= i < |ts| reads ts => ts[i].Info())
  }

  predicate UnsharedTables(ts: seq<Table>) {
    forall i, j :: 0 <= i < j < |ts| ==> ts[i] != ts[j]
  }

  /** `byID` finds a table by its position, `byName` finds the last table that
      carries a name. */
  ghost predicate IndexedBy(ts: seq<Table>, byID: map<nat, Table>, byName: map<Bytes, Table>) {
    && (forall i :: 0 <= i < |ts| ==> ts[i].id == i)
    && (forall id :: id in byID <==> 0 <= id < |ts|)
    && (forall id :: id in byID ==> byID[id] == ts[id])
    && (forall n :: n in byName ==> byName[n] in ts && byName[n].name == n)
    && (forall i :: 0 <= i < |ts| ==> ts[i].name in byName && byName[ts[i].name].id >= i)
  }

  /** The name index agrees with the specification of table lookup. */
  lemma FindsTheNamedTable(ts: seq<Table>, byID: map<nat, Table>, byName: map<Bytes, Table>, name: Bytes)
    requires IndexedBy(ts, byID, byName)
    ensures match TableNamed(Infos(ts), name)
            case None => name !in byName
            case Some(i) => name in byName && byName[name] == ts[i] && ts[i].id == i
  {
    hide TableNamed;
    var infos := Infos(ts);
    assert forall i :: 0 <= i < |ts| ==> infos[i].name == ts[i].name;
    if name in byName {
      var j :| 0 <= j < |ts| && ts[j] == byName[name];
      assert infos[j].name == name;
    }
  }

  /** The name, the owning table and the description of a `.column` row. */
  method ReadColumn(raw: Bytes) returns (name: Bytes, tid: nat, c: Column)
    ensures name == NameOf(raw) && tid == UintNamed(COLUMN_COLUMNS, raw, TABLEID) && c == ColumnOfRow(raw)
  {
    hide ColumnNamed, UpToNul, UintAt, LeValue;
    ColumnColumnRanges();
    name := Str(COLUMN_COLUMNS, raw, NAME);
    tid := Uint(COLUMN_COLUMNS, raw, TABLEID);
    var offset := Uint(COLUMN_COLUMNS, raw, OFFSET);
    var size := Uint(COLUMN_COLUMNS, raw, SIZE);
    var typ := Uint(COLUMN_COLUMNS, raw, TYPE);
    var rule := Uint(COLUMN_COLUMNS, raw, RULE);
    var dropped := Uint(COLUMN_COLUMNS, raw, DROPPED);
    c := Column(name, offset, size, typ, rule, dropped != 0);
  }

  /** Appends to the columns of `t`, which is table `k`. */
  method AppendColumn(t: Table, c: Column, ghost ts: seq<Table>, ghost k: nat)
    requires UnsharedTables(ts) && k < |ts| && ts[k] == t
    modifies t
    ensures Infos(ts) == old(Infos(ts))[k := old(t.Info()).(columns := old(t.columns) + [c])]
  {
    t.columns := t.columns + [c];
    assert forall i :: 0 <= i < |ts| && i != k ==> ts[i] != t;
  }

  method Str(cols: seq<Column>, b: Bytes, name: Bytes) returns (s: Bytes)
    requires ColumnNamed(cols, name).Some? ==> ColumnNamed(cols, name).value.offset <= |b|
    ensures s == match ColumnNamed(cols, name)
                 case None => []
                 case Some(c) => UpToNul(StrRange(b, c.offset, c.size))
  {
    var c := FindColumn(cols, name);
    if c.None? {
      return [];
    }
    s := CStr(b, c.value.offset, c.value.size);
  }

  // ----- segments

  /** The distance to the second magic, or the default. */
  method ProbeSlabSize(data: array<Byte>) returns (size: nat)
    ensures size == SlabSizeOf(data[..])
  {
    size := DEFAULT_SLAB;
    var off := PROBE_STEP;
    while off + 4 <= data.Length
      invariant size == DEFAULT_SLAB
      invariant FindMagic(data[..], off) == SlabSizeOf(data[..])
      decreases data.Length - off
    {
      if data[off..off + 4] == MAGIC {
        return off;
      }
      off := off + PROBE_STEP;
    }
  }

  class Segment {
    const data: array<Byte>
    var slabSize: nat
    var slabCount: nat
    var byName: map<Bytes, Table>
    var byID: map<nat, Table>
    var order: seq<Table>

    /** The data is laid out in `slabCount` whole slabs. */
    predicate Framed()
      reads this, data
    {
      && slabSize == SlabSizeOf(data[..])
      && slabCount == data.Length / slabSize
    }

    /** The object invariant: the tables are what the data declares, and the two
        indexes find them. */
    ghost predicate Valid()
      reads this, data, order
    {
      && Framed()
      && IndexedBy(order, byID, byName)
      && ParseOf(data[..]) == Ok(Infos(order))
    }

    constructor Unloaded(data: array<Byte>)
      requires data.Length >= HEADER
      ensures this.data == data && Framed()
      ensures order == [] && byName == map[] && byID == map[]
    {
      this.data := data;
      slabSize, slabCount := DEFAULT_SLAB, 0;
      byName, byID, order := map[], map[], [];
      new;
      slabSize := ProbeSlabSize(data);
      slabCount := data.Length / slabSize;
    }

    /** The bytes of a slot, a view into the data. */
    function View(s: Slot): Bytes
      requires s.off + s.len <= data.Length
      reads data
    {
      data[s.off..s.off + s.len]
    }

    /** The slots of table `tid` in file order, at most `maxRows` of them unless
        that is negative. */
    method WalkSlabRows(tid: int, maxRows: int) returns (slots: seq<Slot>)
      requires Framed()
      ensures var all := AllSlots(data[..], tid);
              slots == if 0 <= maxRows < |all| then all[..maxRows] else all
    {
      hide FindMagic, SlabSizeOf, Walk, SlotRun, RowsInSlab, SlabSlots, U16At;
      ghost var d := data[..];
      slots := [];
      WalkStart(d, slabSize, tid);
      for sl := 0 to slabCount
        invariant slots == Walk(d, slabSize, sl, tid)
        invariant maxRows < 0 || |slots| <= maxRows
      {
        WalkStep(d, slabSize, sl, slabCount, tid);
        SlabFits(data.Length, slabSize, sl);
        var base := sl * slabSize;
        if base + HEADER > data.Length || data[base..base + 4] != MAGIC {
          continue;
        }
        if U16At(data[..], base + 4) != tid {
          continue;
        }
        var stride := U16At(data[..], base + 6) * LINE;
        if stride <= 0 {
          continue;
        }
        SlabRun(d, slabSize, sl, tid, stride);
        var full;
        slots, full := WalkSlab(base, stride, maxRows, slots);
        if full {
          return;
        }
      }
    }

    /** The rows of one slab: appends its slots until `maxRows` are collected. */
    method WalkSlab(base: nat, stride: nat, maxRows: int, before: seq<Slot>)
      returns (slots: seq<Slot>, full: bool)
      requires slabSize >= HEADER && base + slabSize <= data.Length && stride > 0
      requires maxRows < 0 || |before| <= maxRows
      ensures var all := before + SlotRun(base + HEADER, stride, PerSlab(slabSize, stride));
              if full then 0 <= maxRows < |all| && slots == all[..maxRows]
              else slots == all && (maxRows < 0 || |slots| <= maxRows)
    {
      var perSlab := (slabSize - HEADER) / stride;
      slots := before;
      for r := 0 to perSlab
        invariant slots == before + SlotRun(base + HEADER, stride, r)
        invariant maxRows < 0 || |slots| <= maxRows
      {
        SlotRunStep(base + HEADER, stride, r, perSlab);
        if maxRows >= 0 && |slots| >= maxRows {
          return slots, true;
        }
        var off := base + HEADER + r * stride;
        RowFits(slabSize - HEADER, stride, r);
        if off + stride > data.Length {
          // No slot of a whole slab reaches past the data.
          assert false;
        }
        slots := slots + [Slot(off, stride)];
      }
      full := false;
    }

    /** Fills the table list and its indexes from the `.table` and `.column` rows. */
    method LoadSchema() returns (ok: bool)
      requires Framed() && data.Length >= HEADER && MagicAt(data[..], 0)
      requires order == [] && byName == map[] && byID == map[]
      modifies this
      ensures Framed() && fresh(order)
      ensures ok <==> ParseOf(data[..]).Ok?
      ensures ok ==> Valid()
    {
      hide TablesOf, RawSlots, SlabSizeOf, Joined, IndexedBy;
      var tables := ReadTables();
      if |tables| == 0 {
        return false;
      }
      Index(tables);
      AttachColumns();
      ok := true;
    }

    /** Enters the tables into the list and the two indexes. */
    method Index(tables: seq<Table>)
      requires order == [] && byName == map[] && byID == map[]
      requires forall i :: 0 <= i < |tables| ==> tables[i].name != [] && tables[i].id == i
      modifies `order, `byID, `byName
      ensures order == tables && IndexedBy(order, byID, byName)
    {
      for i := 0 to |tables|
        invariant order == tables[..i]
        invariant IndexedBy(tables[..i], byID, byName)
      {
        var t := tables[i];
        order := order + [t];
        byID := byID[t.id := t];
        if t.name != [] {
          byName := byName[t.name := t];
        }
      }
      assert tables[..|tables|] == tables;
    }

    /** One table per occupied `.table` row, numbered in order. */
    method ReadTables() returns (tables: seq<Table>)
      requires Framed()
      ensures fresh(tables) && UnsharedTables(tables)
      ensures Infos(tables) == TablesOf(RawSlots(data[..], TABLE_ID))
      ensures forall i :: 0 <= i < |tables| ==> tables[i].name != [] && tables[i].id == i
    {
      hide TablesOf, SlabSizeOf, AllSlots, UpToNul, ColumnNamed, UintAt;
      var slots := WalkSlabRows(TABLE_ID, -1);
      AllSlotsInside(data[..], TABLE_ID);
      ghost var raws := Contents(data[..], slots);
      tables := [];
      NoTablesYet();
      for i := 0 to |slots|
        invariant fresh(tables) && UnsharedTables(tables)
        invariant Infos(tables) == TablesOf(raws[..i])
        invariant forall j :: 0 <= j < |tables| ==> tables[j].name != [] && tables[j].id == j
      {
        var raw := View(slots[i]);
        assert raw == raws[i];
        NextTable(raws, i);
        TableColumnRanges();
        var name := Str(TABLE_COLUMNS, raw, NAME);
        if name == [] {
          continue;
        }
        var rows := Uint(TABLE_COLUMNS, raw, ROWS);
        var rowSize := Uint(TABLE_COLUMNS, raw, ROWSZ);
        var cols := Uint(TABLE_COLUMNS, raw, COLS);
        var t := new Table(name, |tables|, rows, rowSize, cols);
        tables := tables + [t];
      }
      assert raws[..|slots|] == raws;
    }

    /** Appends every occupied `.column` row to the table it names, if any. */
    method AttachColumns()
      requires Framed()
      requires UnsharedTables(order) && IndexedBy(order, byID, byName)
      requires Infos(order) == TablesOf(RawSlots(data[..], TABLE_ID))
      modifies order
      ensures Infos(order) == Joined(old(Infos(order)), RawSlots(data[..], COLUMN_ID))
    {
      hide TablesOf, SlabSizeOf, AllSlots, NameOf, Joined, IndexedBy, UintNamed;
      var slots := WalkSlabRows(COLUMN_ID, -1);
      AllSlotsInside(data[..], COLUMN_ID);
      ghost var raws := Contents(data[..], slots);
      ghost var ts := Infos(order);
      TablesAreNumbered(RawSlots(data[..], TABLE_ID));
      NoColumnsYet(ts);
      for i := 0 to |slots|
        invariant Infos(order) == Joined(ts, raws[..i])
      {
        var raw := View(slots[i]);
        assert raw == raws[i];
        NextColumn(ts, raws, i);
        var name, tid, c := ReadColumn(raw);
        if name == [] {
          continue;
        }
        IndexedById(order, byID, byName, tid);
        if tid !in byID {
          continue;
        }
        AppendColumn(byID[tid], c, order, tid);
      }
      assert raws[..|slots|] == raws;
    }

    /** Parses a segment, or says why it is none. */
    static method Parse(data: array<Byte>) returns (r: Result<Segment, ParseError>)
      ensures match ParseOf(data[..])
              case Err(e) => r == Err(e)
              case Ok(ts) => r.Ok? && fresh(r.value) && fresh(r.value.order) && r.value.data == data
                             && r.value.Valid() && Infos(r.value.order) == ts
    {
      if data.Length < HEADER || data[0..4] != MAGIC {
        return Err(NotTmss);
      }
      // The probed slab size is at least 1024, so the source's check that it holds a
      // slab header cannot fail.
      var s := new Segment.Unloaded(data);
      var ok := s.LoadSchema();
      if !ok {
        return Err(NoTables);
      }
      return Ok(s);
    }

    /** The live rows of a table, each in a buffer of its own. */
    method RawRows(name: Bytes) returns (r: Result<seq<array<Byte>>, ReadError>)
      requires Valid()
      ensures match TableNamed(Infos(order), name)
              case None => r == Err(NoSuchTable(name))
              case Some(i) => r.Ok? && fresh(r.value) && Unshared(r.value)
                              && Buffers(r.value) == RowsOf(data[..], order[i].Info())
    {
      FindsTheNamedTable(order, byID, byName, name);
      if name !in byName {
        return Err(NoSuchTable(name));
      }
      var rows := LiveRowsOf(byName[name]);
      return Ok(rows);
    }

    method LiveRowsOf(t: Table) returns (rows: seq<array<Byte>>)
      requires Framed()
      ensures fresh(rows) && Unshared(rows)
      ensures Buffers(rows) == RowsOf(data[..], t.Info())
    {
      hide LiveRows, SlabSizeOf, AllSlots;
      var slots := WalkSlabRows(t.id, -1);
      AllSlotsInside(data[..], t.id);
      ghost var raws := Contents(data[..], slots);
      rows := [];
      NoRowsYet(t.rows);
      for i := 0 to |slots|
        invariant fresh(rows) && Unshared(rows)
        invariant Buffers(rows) == LiveRows(raws[..i], t.rows)
      {
        var raw := View(slots[i]);
        assert raw == raws[i];
        LiveRowsSnoc(raws[..i], raws[i], t.rows);
        assert raws[..i + 1] == raws[..i] + [raws[i]];
        if t.rows > 0 && |rows| >= t.rows {
          continue;
        }
        var zero := AllZero(raw);
        if zero {
          continue;
        }
        var b := Copy(raw);
        rows := rows + [b];
      }
      assert raws[..|slots|] == raws;
    }

    /** The live rows of a table, merged by key. */
    method Rows(name: Bytes) returns (r: Result<seq<array<Byte>>, ReadError>)
      requires Valid()
      ensures match TableNamed(Infos(order), name)
              case None => r == Err(NoSuchTable(name))
              case Some(i) => r.Ok? && fresh(r.value) && Unshared(r.value)
                              && Buffers(r.value)
                                 == AggregateOf(order[i].columns, RowsOf(data[..], order[i].Info()))
    {
      hide AggregateOf, RowsOf, ParseOf;
      var raw := RawRows(name);
      if raw.Err? {
        return Err(raw.error);
      }
      FindsTheNamedTable(order, byID, byName, name);
      var out, from := Aggregate(byName[name].columns, raw.value);
      return Ok(out);
    }

    /** Merging overwrites row buffers, yet a read disturbs neither the segment nor
        the rows handed out before, and the next read finds the same rows. */
    method ReadAgain(name: Bytes) returns (raw: seq<array<Byte>>, first: seq<array<Byte>>, second: seq<array<Byte>>)
      requires Valid() && TableNamed(Infos(order), name).Some?
      ensures Valid() && data[..] == old(data[..]) && Infos(order) == old(Infos(order))
      ensures Buffers(raw) == RowsOf(data[..], Infos(order)[TableNamed(Infos(order), name).value])
      ensures Buffers(first) == Buffers(second)
    {
      hide AggregateOf, RowsOf, ParseOf;
      var a := RawRows(name);
      var b := Rows(name);
      var c := Rows(name);
      raw, first, second := a.value, b.value, c.value;
    }
  }

  datatype ReadError = NoSuchTable(name: Bytes)

  lemma NoTablesYet()
    ensures TablesOf([]) == []
  {
  }

  lemma NextTable(raws: seq<Bytes>, i: nat)
    requires i < |raws|
    ensures TablesOf(raws[..i + 1])
         == TablesOf(raws[..i])
            + if NameOf(raws[i]) == [] then [] else [TableOfRow(raws[i], |TablesOf(raws[..i])|)]
  {
    assert raws[..i + 1][..i] == raws[..i];
  }

  lemma NoColumnsYet(ts: seq<TableInfo>)
    requires forall i :: 0 <= i < |ts| ==> ts[i].columns == []
    ensures Joined(ts, []) == ts
  {
  }

  lemma NextColumn(ts: seq<TableInfo>, raws: seq<Bytes>, i: nat)
    requires i < |raws|
    ensures var raw, before, after := raws[i], Joined(ts, raws[..i]), Joined(ts, raws[..i + 1]);
            var tid := UintNamed(COLUMN_COLUMNS, raw, TABLEID);
            after == if NameOf(raw) != [] && tid < |ts|
                     then before[tid := before[tid].(columns := before[tid].columns + [ColumnOfRow(raw)])]
                     else before
  {
    hide NameOf, UintNamed;
    assert raws[..i + 1][..i] == raws[..i];
  }

  lemma IndexedById(ts: seq<Table>, byID: map<nat, Table>, byName: map<Bytes, Table>, id: nat)
    requires IndexedBy(ts, byID, byName)
    ensures id in byID <==> id < |ts|
    ensures id in byID ==> byID[id] == ts[id]
  {
  }

  lemma NoRowsYet(limit: nat)
    ensures LiveRows([], limit) == []
  {
  }

  lemma WalkStart(d: Bytes, size: nat, tid: int)
    requires size >= HEADER
    ensures Walk(d, size, 0, tid) == []
  {
  }

  lemma {:induction false} WalkStep(d: Bytes, size: nat, sl: nat, n: nat, tid: int)
    requires size >= HEADER && sl < n
    ensures Walk(d, size, sl + 1, tid) == Walk(d, size, sl, tid) + SlabSlots(d, size, sl, tid)
    ensures !Matches(d, size, sl, tid) ==> SlabSlots(d, size, sl, tid) == []
    ensures Walk(d, size, sl + 1, tid) <= Walk(d, size, n, tid)
  {
    WalkIsPrefix(d, size, sl + 1, n, tid);
  }

  lemma SlabRun(d: Bytes, size: nat, sl: nat, tid: int, stride: nat)
    requires size >= HEADER && Matches(d, size, sl, tid) && stride == U16At(d, sl * size + 6) * LINE
    ensures SlabSlots(d, size, sl, tid) == SlotRun(sl * size + HEADER, stride, PerSlab(size, stride))
  {
  }

  lemma SlotRunStep(first: nat, stride: nat, r: nat, n: nat)
    requires r < n
    ensures SlotRun(first, stride, r + 1) == SlotRun(first, stride, r) + [Slot(first + r * stride, stride)]
    ensures SlotRun(first, stride, r) <= SlotRun(first, stride, n)
  {
    SlotRunPrefix(first, stride, r, n);
  }

  lemma {:induction false} SlotRunPrefix(first: nat, stride: nat, r: nat, n: nat)
    requires r <= n
    ensures SlotRun(first, stride, r) == SlotRun(first, stride, n)[..r]
  {
    if r < n {
      SlotRunPrefix(first, stride, r, n - 1);
    }
  }

  lemma {:induction false} WalkIsPrefix(d: Bytes, size: nat, m: nat, n: nat, tid: int)
    requires size >= HEADER && m <= n
    ensures |Walk(d, size, m, tid)| <= |Walk(d, size, n, tid)|
    ensures Walk(d, size, m, tid) == Walk(d, size, n, tid)[..|Walk(d, size, m, tid)|]
  {
    if m < n {
      WalkIsPrefix(d, size, m, n - 1, tid);
    }
  }
}
