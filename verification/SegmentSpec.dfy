// What a TMSS segment means: where its slabs and row slots are, which tables and
// columns it declares, and which rows of a table are live.
//
// The functions follow the reader's loops over a list prefix by prefix.  What
// they find in a segment that was laid out on purpose is proved in Layout.

module SegmentSpec {
  import opened ByteStrings
  import opened Wrappers
  import opened TmstatRow
  import opened Selection

  const MAGIC: Bytes := [84, 77, 83, 83] // "TMSS"
  const HEADER: nat := 64
  const LINE: nat := 64
  const PROBE_STEP: nat := 1024
  const DEFAULT_SLAB: nat := 4096
  const TABLE_ID: nat := 0
  const COLUMN_ID: nat := 1

  // ----- slabs

  predicate MagicAt(d: Bytes, off: nat) {
    off + 4 <= |d| && d[off..off + 4] == MAGIC
  }

  /** The first magic at `off`, `off` + 1024, ..., or the default slab size. */
  function FindMagic(d: Bytes, off: nat): nat
    decreases |d| - off
  {
    if off + 4 > |d| then DEFAULT_SLAB
    else if MagicAt(d, off) then off
    else FindMagic(d, off + PROBE_STEP)
  }

  function SlabSizeOf(d: Bytes): (size: nat)
    ensures size >= PROBE_STEP
  {
    FindMagicBound(d, PROBE_STEP);
    FindMagic(d, PROBE_STEP)
  }

  lemma {:induction false} FindMagicBound(d: Bytes, off: nat)
    requires off >= PROBE_STEP
    ensures FindMagic(d, off) >= PROBE_STEP
    decreases |d| - off
  {
    if off + 4 <= |d| && !MagicAt(d, off) {
      FindMagicBound(d, off + PROBE_STEP);
    }
  }

  function U16At(d: Bytes, off: nat): nat
    requires off + 2 <= |d|
  {
    var lo: int, hi: int := d[off], d[off + 1];
    lo + 256 * hi
  }

  /** A row slot of the segment: where it starts and how long it is. */
  datatype Slot = Slot(off: nat, len: nat)

  /** `n` consecutive slots of `stride` bytes. */
  function SlotRun(first: nat, stride: nat, n: nat): (s: seq<Slot>)
    ensures |s| == n
  {
    if n == 0 then [] else SlotRun(first, stride, n - 1) + [Slot(first + (n - 1) * stride, stride)]
  }

  /** The row stride that slab `sl` reports. */
  function Stride(d: Bytes, size: nat, sl: nat): nat {
    var base := sl * size;
    if base + HEADER <= |d| then U16At(d, base + 6) * LINE else 0
  }

  /** Slab `sl` holds rows of table `tid`. */
  predicate Matches(d: Bytes, size: nat, sl: nat, tid: int) {
    var base := sl * size;
    && MagicAt(d, base)
    && base + HEADER <= |d|
    && U16At(d, base + 4) == tid
    && Stride(d, size, sl) > 0
  }

  /** How many rows of `stride` bytes fit behind the header of a slab: one more would
      leave the slab. */
  function PerSlab(size: nat, stride: nat): (n: nat)
    requires size >= HEADER
    ensures stride > 0 ==> 64 + n * stride <= size < 64 + (n + 1) * stride
  {
    if stride > 0 then
      var n := (size - HEADER) / stride;
      DivBounds(size - HEADER, stride, n);
      n
    else 0
  }

  lemma DivBounds(a: nat, m: nat, q: nat)
    requires m > 0 && q == a / m
    ensures q * m <= a < (q + 1) * m
  {
    assert a == m * q + a % m;
  }

  /** The number of rows of table `tid` that slab `sl` has room for. */
  function RowsInSlab(d: Bytes, size: nat, sl: nat, tid: int): nat
    requires size >= HEADER
  {
    if Matches(d, size, sl, tid) then PerSlab(size, Stride(d, size, sl)) else 0
  }

  function SlabSlots(d: Bytes, size: nat, sl: nat, tid: int): (s: seq<Slot>)
    requires size >= HEADER
    ensures |s| == RowsInSlab(d, size, sl, tid)
  {
    SlotRun(sl * size + HEADER, Stride(d, size, sl), RowsInSlab(d, size, sl, tid))
  }

  /** The slots of table `tid` in the first `n` slabs, in file order. */
  function Walk(d: Bytes, size: nat, n: nat, tid: int): seq<Slot>
    requires size >= HEADER
  {
    if n == 0 then [] else Walk(d, size, n - 1, tid) + SlabSlots(d, size, n - 1, tid)
  }

  function AllSlots(d: Bytes, tid: int): seq<Slot> {
    var size := SlabSizeOf(d);
    Walk(d, size, |d| / size, tid)
  }

  // ----- properties of the walk

  lemma {:induction false} SlotRunAt(first: nat, stride: nat, n: nat, r: nat)
    requires r < n
    ensures SlotRun(first, stride, n)[r] == Slot(first + r * stride, stride)
  {
    if r < n - 1 {
      SlotRunAt(first, stride, n - 1, r);
    }
  }

  /** Row `r` of a slab with room for `n` rows ends inside the slab. */
  lemma {:induction false} RowFits(room: nat, stride: nat, r: nat)
    requires stride > 0 && r < room / stride
    ensures r * stride + stride <= room
  {
    var n := room / stride;
    assert n * stride <= room;
    MulAtLeast(stride, n - r);
    assert stride * (n - r) == n * stride - r * stride;
  }

  lemma {:induction false} SlabFits(len: nat, size: nat, sl: nat)
    requires size > 0 && sl < len / size
    ensures sl * size + size <= len
  {
    RowFits(len, size, sl);
  }

  /** A slot lies in the row area of its slab, behind the slab header. */
  lemma SlotInSlab(d: Bytes, size: nat, sl: nat, tid: int, r: nat)
    requires size >= HEADER && r < RowsInSlab(d, size, sl, tid)
    ensures SlabSlots(d, size, sl, tid)[r] == Slot(sl * size + HEADER + r * Stride(d, size, sl), Stride(d, size, sl))
    ensures sl * size + HEADER <= SlabSlots(d, size, sl, tid)[r].off
    ensures SlabSlots(d, size, sl, tid)[r].off + SlabSlots(d, size, sl, tid)[r].len <= sl * size + size
    ensures SlabSlots(d, size, sl, tid)[r].len > 0
  {
    SlotRunAt(sl * size + HEADER, Stride(d, size, sl), RowsInSlab(d, size, sl, tid), r);
    RowFits(size - HEADER, Stride(d, size, sl), r);
  }

  /** The slot is a row of a slab of table `tid` among the first `n` slabs. */
  ghost predicate IsSlotOf(d: Bytes, size: nat, n: nat, tid: int, s: Slot)
    requires size >= 64
  {
    exists sl: nat, r: nat :: sl < n && IsRow(d, size, sl, tid, r, s)
  }

  /** The slot is row `r` of slab `sl`, said of the bytes: the slab's header of 64 bytes
      starts with "TMSS", the table id and the number of 64-byte lines of a row; the row
      starts that many lines after the row before it, and ends inside the slab. */
  predicate IsRow(d: Bytes, size: nat, sl: nat, tid: int, r: nat, s: Slot)
    requires size >= 64
  {
    var base := sl * size;
    && base + 64 <= |d|
    && d[base..base + 4] == [84, 77, 83, 83]
    && (d[base + 4] as int) + 256 * (d[base + 5] as int) == tid
    && var stride := 64 * ((d[base + 6] as int) + 256 * (d[base + 7] as int));
       && stride > 0
       && 64 + (r + 1) * stride <= size
       && s == Slot(base + 64 + r * stride, stride)
  }

  /** Row `r` fits the room if and only if it is among the rows that are counted. */
  lemma RowFitsIff(size: nat, stride: nat, r: nat)
    requires size >= 64 && stride > 0
    ensures r < PerSlab(size, stride) <==> 64 + (r + 1) * stride <= size
  {
    var n := PerSlab(size, stride);
    if r < n {
      MulKeepsOrder(n, r + 1, stride);
    } else {
      MulKeepsOrder(r + 1, n + 1, stride);
    }
  }

  lemma {:induction false} SlabRowsAreItsSlots(d: Bytes, size: nat, sl: nat, tid: int, s: Slot)
    requires size >= 64
    ensures s in SlabSlots(d, size, sl, tid) <==> exists r: nat :: IsRow(d, size, sl, tid, r, s)
  {
    hide SlabSlots, PerSlab, IsRow;
    var slots := SlabSlots(d, size, sl, tid);
    if s in slots {
      var r :| 0 <= r < |slots| && slots[r] == s;
      RowOfSlot(d, size, sl, tid, r);
    }
    if r: nat :| IsRow(d, size, sl, tid, r, s) {
      SlotOfRow(d, size, sl, tid, r, s);
    }
  }

  lemma RowOfSlot(d: Bytes, size: nat, sl: nat, tid: int, r: nat)
    requires size >= 64 && r < |SlabSlots(d, size, sl, tid)|
    ensures IsRow(d, size, sl, tid, r, SlabSlots(d, size, sl, tid)[r])
  {
    hide SlabSlots, PerSlab;
    SlotInSlab(d, size, sl, tid, r);
    RowFitsIff(size, Stride(d, size, sl), r);
  }

  lemma SlotOfRow(d: Bytes, size: nat, sl: nat, tid: int, r: nat, s: Slot)
    requires size >= 64 && IsRow(d, size, sl, tid, r, s)
    ensures r < |SlabSlots(d, size, sl, tid)| && SlabSlots(d, size, sl, tid)[r] == s
  {
    hide SlabSlots, PerSlab;
    RowFitsIff(size, Stride(d, size, sl), r);
    SlotInSlab(d, size, sl, tid, r);
  }

  /** The walk visits exactly the row slots of the matching slabs. */
  lemma {:induction false} WalkVisitsExactly(d: Bytes, size: nat, n: nat, tid: int, s: Slot)
    requires size >= HEADER
    ensures s in Walk(d, size, n, tid) <==> IsSlotOf(d, size, n, tid, s)
  {
    hide IsRow, SlabSlots, Matches, Stride;
    if n > 0 {
      WalkVisitsExactly(d, size, n - 1, tid, s);
      SlabRowsAreItsSlots(d, size, n - 1, tid, s);
      if IsSlotOf(d, size, n, tid, s) && !IsSlotOf(d, size, n - 1, tid, s) {
        var sl: nat, r: nat :| sl < n && IsRow(d, size, sl, tid, r, s);
        assert sl == n - 1;
      }
    }
  }

  /** Slots follow each other without overlap. */
  predicate Ascending(slots: seq<Slot>) {
    forall i, j :: 0 <= i < j < |slots| ==> slots[i].off + slots[i].len <= slots[j].off
  }

  predicate Within(slots: seq<Slot>, lo: int, hi: int) {
    forall i :: 0 <= i < |slots| ==> lo <= slots[i].off && slots[i].off + slots[i].len <= hi && slots[i].len > 0
  }

  lemma {:induction false} SlabAscends(d: Bytes, size: nat, sl: nat, tid: int)
    requires size >= HEADER
    ensures Ascending(SlabSlots(d, size, sl, tid))
    ensures Within(SlabSlots(d, size, sl, tid), sl * size + HEADER, sl * size + size)
  {
    var s, stride := SlabSlots(d, size, sl, tid), Stride(d, size, sl);
    forall i | 0 <= i < |s|
      ensures sl * size + HEADER <= s[i].off && s[i].off + s[i].len <= sl * size + size && s[i].len > 0
    {
      SlotInSlab(d, size, sl, tid, i);
    }
    forall i, j | 0 <= i < j < |s|
      ensures s[i].off + s[i].len <= s[j].off
    {
      SlotInSlab(d, size, sl, tid, i);
      SlotInSlab(d, size, sl, tid, j);
      MulAtLeast(stride, j - i);
      assert stride * (j - i) == j * stride - i * stride;
    }
  }

  lemma AscendingConcat(a: seq<Slot>, b: seq<Slot>, mid: int, hi: int)
    requires Ascending(a) && Ascending(b) && Within(a, 0, mid) && Within(b, mid, hi) && mid <= hi
    ensures Ascending(a + b) && Within(a + b, 0, hi)
  {
  }

  /** The slots of a walk ascend, do not overlap and lie inside the data, so the
      reader never leaves the data early. */
  lemma {:induction false} WalkAscends(d: Bytes, size: nat, n: nat, tid: int)
    requires size >= HEADER
    ensures Ascending(Walk(d, size, n, tid))
    ensures Within(Walk(d, size, n, tid), 0, n * size)
  {
    hide SlabSlots, MagicAt, Ascending, Within;
    if n > 0 {
      WalkAscends(d, size, n - 1, tid);
      SlabAscends(d, size, n - 1, tid);
      var w, s := Walk(d, size, n - 1, tid), SlabSlots(d, size, n - 1, tid);
      WithinWeaken(s, (n - 1) * size + HEADER, (n - 1) * size, n * size);
      AscendingConcat(w, s, (n - 1) * size, n * size);
    } else {
      NoSlots();
    }
  }

  lemma NoSlots()
    ensures Ascending([]) && Within([], 0, 0)
  {
  }

  lemma WithinWeaken(s: seq<Slot>, lo: int, lo': int, hi: int)
    requires Within(s, lo, hi) && lo' <= lo
    ensures Within(s, lo', hi)
  {
  }

  /** Every slot of the segment lies inside the data. */
  lemma AllSlotsInside(d: Bytes, tid: int)
    ensures Ascending(AllSlots(d, tid))
    ensures Within(AllSlots(d, tid), 0, |d|)
  {
    hide Walk, SlabSizeOf;
    var size := SlabSizeOf(d);
    var n := |d| / size;
    WalkAscends(d, size, n, tid);
    assert n * size <= |d|;
    var w := Walk(d, size, n, tid);
  }

  /** The slots of a segment are exactly the rows of the slabs that lie inside the data. */
  lemma {:induction false} AllSlotsAreTheRows(d: Bytes, tid: int, s: Slot)
    ensures var size := SlabSizeOf(d);
            s in AllSlots(d, tid)
            <==> exists sl: nat, r: nat :: (sl + 1) * size <= |d| && IsRow(d, size, sl, tid, r, s)
  {
    hide Walk, IsRow, FindMagic;
    var size := SlabSizeOf(d);
    var n := |d| / size;
    WalkVisitsExactly(d, size, n, tid, s);
    DivBounds(|d|, size, n);
    if IsSlotOf(d, size, n, tid, s) {
      var sl: nat, r: nat :| sl < n && IsRow(d, size, sl, tid, r, s);
      MulKeepsOrder(n, sl + 1, size);
      assert (sl + 1) * size <= |d| && IsRow(d, size, sl, tid, r, s);
    }
    if sl: nat, r: nat :| (sl + 1) * size <= |d| && IsRow(d, size, sl, tid, r, s) {
      MulKeepsOrder(sl, n, size);
      if sl >= n {
        MulKeepsOrder(sl + 1, n + 1, size);
        assert false;
      }
      assert sl < n && IsRow(d, size, sl, tid, r, s);
    }
  }

  // ----- slot contents

  function SlotBytes(d: Bytes, s: Slot): Bytes {
    if s.off + s.len <= |d| then d[s.off..s.off + s.len] else []
  }

  function Contents(d: Bytes, slots: seq<Slot>): (raws: seq<Bytes>)
    ensures |raws| == |slots|
  {
    seq(|slots|, i requires 0 <= i < |slots| => SlotBytes(d, slots[i]))
  }

  /** The slots of table `tid` as byte rows, in file order. */
  function RawSlots(d: Bytes, tid: int): seq<Bytes> {
    Contents(d, AllSlots(d, tid))
  }

  // ----- the two bootstrap tables

  const NAME: Bytes := [110, 97, 109, 101]
  const ROWS: Bytes := [114, 111, 119, 115]
  const ROWSZ: Bytes := [114, 111, 119, 115, 122]
  const COLS: Bytes := [99, 111, 108, 115]
  const TABLEID: Bytes := [116, 97, 98, 108, 101, 105, 100]
  const OFFSET: Bytes := [111, 102, 102, 115, 101, 116]
  const SIZE: Bytes := [115, 105, 122, 101]
  const TYPE: Bytes := [116, 121, 112, 101]
  const RULE: Bytes := [114, 117, 108, 101]
  const DROPPED: Bytes := [100, 114, 111, 112, 112, 101, 100]

  const TABLE_COLUMNS: seq<Column> := [
    Column(NAME, 0, 49, TYPE_STRING, 0, false),
    Column(ROWS, 53, 4, TYPE_UNSIGNED, 0, false),
    Column(ROWSZ, 57, 2, TYPE_UNSIGNED, 0, false),
    Column(COLS, 59, 2, TYPE_UNSIGNED, 0, false)]

  const COLUMN_COLUMNS: seq<Column> := [
    Column(NAME, 0, 49, TYPE_STRING, 0, false),
    Column(TABLEID, 49, 2, TYPE_UNSIGNED, 0, false),
    Column(OFFSET, 51, 2, TYPE_UNSIGNED, 0, false),
    Column(SIZE, 53, 2, TYPE_UNSIGNED, 0, false),
    Column(TYPE, 55, 1, TYPE_UNSIGNED, 0, false),
    Column(RULE, 56, 2, TYPE_UNSIGNED, 0, false),
    Column(DROPPED, 58, 1, TYPE_UNSIGNED, 0, false)]

  /** The names of the bootstrap columns select the hard-coded byte ranges. */
  lemma TableColumnRanges()
    ensures ColumnNamed(TABLE_COLUMNS, NAME) == Some(TABLE_COLUMNS[0])
    ensures ColumnNamed(TABLE_COLUMNS, ROWS) == Some(TABLE_COLUMNS[1])
    ensures ColumnNamed(TABLE_COLUMNS, ROWSZ) == Some(TABLE_COLUMNS[2])
    ensures ColumnNamed(TABLE_COLUMNS, COLS) == Some(TABLE_COLUMNS[3])
  {
    assert NAME[0] == 110 && ROWS[0] == 114 && COLS[0] == 99 && |ROWSZ| == 5;
    assert DistinctNames(TABLE_COLUMNS);
    ColumnNamedIs(TABLE_COLUMNS, 0);
    ColumnNamedIs(TABLE_COLUMNS, 1);
    ColumnNamedIs(TABLE_COLUMNS, 2);
    ColumnNamedIs(TABLE_COLUMNS, 3);
  }

  lemma ColumnColumnRanges()
    ensures ColumnNamed(COLUMN_COLUMNS, NAME) == Some(COLUMN_COLUMNS[0])
    ensures ColumnNamed(COLUMN_COLUMNS, TABLEID) == Some(COLUMN_COLUMNS[1])
    ensures ColumnNamed(COLUMN_COLUMNS, OFFSET) == Some(COLUMN_COLUMNS[2])
    ensures ColumnNamed(COLUMN_COLUMNS, SIZE) == Some(COLUMN_COLUMNS[3])
    ensures ColumnNamed(COLUMN_COLUMNS, TYPE) == Some(COLUMN_COLUMNS[4])
    ensures ColumnNamed(COLUMN_COLUMNS, RULE) == Some(COLUMN_COLUMNS[5])
    ensures ColumnNamed(COLUMN_COLUMNS, DROPPED) == Some(COLUMN_COLUMNS[6])
  {
    assert NAME[0] == 110 && SIZE[0] == 115 && TYPE[0] == 116 && RULE[0] == 114;
    assert |TABLEID| == 7 && |OFFSET| == 6 && |DROPPED| == 7 && TABLEID[0] == 116 && DROPPED[0] == 100;
    assert DistinctNames(COLUMN_COLUMNS);
    ColumnNamedIs(COLUMN_COLUMNS, 0);
    ColumnNamedIs(COLUMN_COLUMNS, 1);
    ColumnNamedIs(COLUMN_COLUMNS, 2);
    ColumnNamedIs(COLUMN_COLUMNS, 3);
    ColumnNamedIs(COLUMN_COLUMNS, 4);
    ColumnNamedIs(COLUMN_COLUMNS, 5);
    ColumnNamedIs(COLUMN_COLUMNS, 6);
  }

  /** Both meta-tables keep the row name in the first 49 bytes. */
  function NameOf(raw: Bytes): Bytes {
    UpToNul(StrRange(raw, 0, 49))
  }

  // ----- tables and columns

  datatype TableInfo = TableInfo(name: Bytes, id: nat, rows: nat, rowSize: nat, cols: nat, columns: seq<Column>)

  function TableOfRow(raw: Bytes, id: nat): TableInfo {
    TableInfo(NameOf(raw), id, UintNamed(TABLE_COLUMNS, raw, ROWS), UintNamed(TABLE_COLUMNS, raw, ROWSZ),
              UintNamed(TABLE_COLUMNS, raw, COLS), [])
  }

  /** A table's id is its index among the occupied rows. */
  function TablesOf(raws: seq<Bytes>): seq<TableInfo> {
    if raws == [] then []
    else
      var ts, raw := TablesOf(raws[..|raws| - 1]), raws[|raws| - 1];
      if NameOf(raw) == [] then ts else ts + [TableOfRow(raw, |ts|)]
  }

  function ColumnOfRow(raw: Bytes): Column {
    Column(NameOf(raw), UintNamed(COLUMN_COLUMNS, raw, OFFSET), UintNamed(COLUMN_COLUMNS, raw, SIZE),
           UintNamed(COLUMN_COLUMNS, raw, TYPE), UintNamed(COLUMN_COLUMNS, raw, RULE),
           UintNamed(COLUMN_COLUMNS, raw, DROPPED) != 0)
  }

  /** The columns that the occupied rows attach to table `id`, in file order. */
  function ColumnsOf(raws: seq<Bytes>, id: nat): seq<Column> {
    if raws == [] then []
    else
      var cs, raw := ColumnsOf(raws[..|raws| - 1], id), raws[|raws| - 1];
      if NameOf(raw) != [] && UintNamed(COLUMN_COLUMNS, raw, TABLEID) == id then cs + [ColumnOfRow(raw)] else cs
  }

  function Joined(ts: seq<TableInfo>, columnRows: seq<Bytes>): (r: seq<TableInfo>)
    ensures |r| == |ts|
  {
    seq(|ts|, i requires 0 <= i < |ts| => ts[i].(columns := ColumnsOf(columnRows, i)))
  }

  datatype ParseError = NotTmss | NoTables

  function ParseOf(d: Bytes): Result<seq<TableInfo>, ParseError> {
    if |d| < HEADER || !MagicAt(d, 0) then Err(NotTmss)
    else
      var ts := TablesOf(RawSlots(d, TABLE_ID));
      if ts == [] then Err(NoTables) else Ok(Joined(ts, RawSlots(d, COLUMN_ID)))
  }

  lemma NameIsEmptyIff(raw: Bytes)
    ensures NameOf(raw) == [] <==> raw == [] || raw[0] == 0
  {
    if raw != [] {
      assert StrRange(raw, 0, 49)[0] == raw[0];
    }
  }

  /** The tables are the rows of `.table` that do not start with a NUL, in file order, each
      under its position among them. */
  lemma {:induction false} TablesAre(raws: seq<Bytes>) returns (at: seq<nat>, picks: seq<Bytes>)
    ensures Picked(raws, at, picks) && |picks| == |TablesOf(raws)|
    ensures forall j :: 0 <= j < |raws| ==> (j in at <==> raws[j] != [] && raws[j][0] != 0)
    ensures forall i :: 0 <= i < |picks| ==> TablesOf(raws)[i] == TableOfRow(picks[i], i)
  {
    hide Picked, NameOf, TableOfRow;
    at, picks := [], [];
    if raws == [] {
      PickedNone<Bytes>();
    } else {
      var n := |raws| - 1;
      var front, x := raws[..n], raws[n];
      at, picks := TablesAre(front);
      assert raws == front + [x];
      PickedSnoc(front, at, picks, x);
      NameIsEmptyIff(x);
      if NameOf(x) != [] {
        at, picks := at + [n], picks + [x];
      }
    }
  }

  /** The columns of table `id` are the rows of `.column` that do not start with a NUL and
      name it, in file order. */
  lemma {:induction false} ColumnsAre(raws: seq<Bytes>, id: nat) returns (at: seq<nat>, picks: seq<Bytes>)
    ensures Picked(raws, at, picks) && |picks| == |ColumnsOf(raws, id)|
    ensures forall j :: 0 <= j < |raws| ==>
              (j in at <==> raws[j] != [] && raws[j][0] != 0 && UintAt(raws[j], 49, 2) == id)
    ensures forall i :: 0 <= i < |picks| ==> ColumnsOf(raws, id)[i] == ColumnOfRow(picks[i])
  {
    hide Picked, NameOf, ColumnOfRow, ColumnNamed, UintAt;
    ColumnColumnRanges();
    at, picks := [], [];
    if raws == [] {
      PickedNone<Bytes>();
    } else {
      var n := |raws| - 1;
      var front, x := raws[..n], raws[n];
      at, picks := ColumnsAre(front, id);
      assert raws == front + [x];
      PickedSnoc(front, at, picks, x);
      NameIsEmptyIff(x);
      assert UintNamed(COLUMN_COLUMNS, x, TABLEID) == UintAt(x, 49, 2);
      if NameOf(x) != [] && UintAt(x, 49, 2) == id {
        at, picks := at + [n], picks + [x];
      }
    }
  }

  lemma {:induction false} NoTablesIff(raws: seq<Bytes>)
    ensures TablesOf(raws) == [] <==> forall i :: 0 <= i < |raws| ==> raws[i] == [] || raws[i][0] == 0
  {
    hide NameOf, TableOfRow;
    if raws != [] {
      var n := |raws| - 1;
      NoTablesIff(raws[..n]);
      NameIsEmptyIff(raws[n]);
      assert forall i :: 0 <= i < n ==> raws[..n][i] == raws[i];
    }
  }

  /** Which data is refused: data that does not start with "TMSS" and a whole header, and
      data without an occupied row of table 0. */
  lemma {:induction false} ParseFailsIff(d: Bytes)
    ensures ParseOf(d) == Err(NotTmss) <==> |d| < 64 || d[0..4] != [84, 77, 83, 83]
    ensures ParseOf(d) == Err(NoTables)
            <==> && |d| >= 64 && d[0..4] == [84, 77, 83, 83]
                 && forall i :: 0 <= i < |RawSlots(d, 0)| ==> RawSlots(d, 0)[i] == [] || RawSlots(d, 0)[i][0] == 0
  {
    hide TablesOf, RawSlots, Joined;
    NoTablesIff(RawSlots(d, 0));
  }

  /** The table a name denotes: the last one that carries it. */
  function TableNamed(ts: seq<TableInfo>, name: Bytes): (r: Option<nat>)
    ensures r.Some? ==> r.value < |ts| && ts[r.value].name == name
    ensures r.None? ==> forall i :: 0 <= i < |ts| ==> ts[i].name != name
    ensures r.Some? ==> forall i :: r.value < i < |ts| ==> ts[i].name != name
  {
    if ts == [] then None
    else if ts[|ts| - 1].name == name then Some(|ts| - 1)
    else TableNamed(ts[..|ts| - 1], name)
  }

  lemma {:induction false} TablesAreNumbered(raws: seq<Bytes>)
    ensures forall i :: 0 <= i < |TablesOf(raws)| ==> TablesOf(raws)[i].id == i && TablesOf(raws)[i].columns == []
  {
    if raws != [] {
      TablesAreNumbered(raws[..|raws| - 1]);
    }
  }

  // ----- live rows

  predicate IsZero(raw: Bytes) {
    forall i :: 0 <= i < |raw| ==> raw[i] == 0
  }

  function NonZero(raws: seq<Bytes>): seq<Bytes> {
    if raws == [] then []
    else
      var rs, raw := NonZero(raws[..|raws| - 1]), raws[|raws| - 1];
      if IsZero(raw) then rs else rs + [raw]
  }

  /** The first `limit` non-zero rows, or all of them when `limit` is 0. */
  function LiveRows(raws: seq<Bytes>, limit: nat): seq<Bytes> {
    var rs := NonZero(raws);
    if limit > 0 && |rs| > limit then rs[..limit] else rs
  }

  /** One step of the reader's loop, which stops collecting at the limit. */
  lemma LiveRowsSnoc(raws: seq<Bytes>, raw: Bytes, limit: nat)
    ensures var rs := LiveRows(raws, limit);
            LiveRows(raws + [raw], limit) == if (limit > 0 && |rs| >= limit) || IsZero(raw) then rs else rs + [raw]
  {
    assert (raws + [raw])[..|raws|] == raws;
  }

  /** A slot is occupied when one of its bytes is not 0. */
  predicate HasData(raw: Bytes) {
    exists i :: 0 <= i < |raw| && raw[i] != 0
  }

  lemma {:induction false} NonZeroPicks(raws: seq<Bytes>) returns (at: seq<nat>)
    ensures Picked(raws, at, NonZero(raws))
    ensures forall j :: 0 <= j < |raws| ==> (j in at <==> HasData(raws[j]))
  {
    hide Picked;
    at := [];
    if raws == [] {
      PickedNone<Bytes>();
    } else {
      var n := |raws| - 1;
      var front, x := raws[..n], raws[n];
      at := NonZeroPicks(front);
      assert raws == front + [x];
      assert (front + [x])[..n] == front;
      PickedSnoc(front, at, NonZero(front), x);
      if !IsZero(x) {
        at := at + [n];
      }
    }
  }

  /** The live rows are the slots with a non-zero byte, in file order: all of them, or the
      first `limit` of them when there are more and `limit` is not 0. */
  lemma {:induction false} LiveRowsAre(raws: seq<Bytes>, limit: nat) returns (at: seq<nat>)
    ensures Picked(raws, at, LiveRows(raws, limit))
    ensures limit == 0 || |at| <= limit
    ensures forall j :: 0 <= j < |raws| ==> (j in at <==> HasData(raws[j]) && WithinLimit(at, limit, j))
  {
    hide NonZero, Picked, HasData;
    at := NonZeroPicks(raws);
    PickedLength(raws, at, NonZero(raws));
    if limit > 0 && |at| > limit {
      PickedPrefix(raws, at, NonZero(raws), limit);
      at := at[..limit];
    } else if limit > 0 && |at| == limit {
      PickedPrefix(raws, at, NonZero(raws), limit);
      assert at[..limit] == at;
    }
  }

  /** Position `j` is not behind the last one that the limit allows. */
  predicate WithinLimit(at: seq<nat>, limit: nat, j: nat) {
    limit == 0 || |at| < limit || j <= at[limit - 1]
  }

  lemma PickedLength(all: seq<Bytes>, at: seq<nat>, out: seq<Bytes>)
    requires Picked(all, at, out)
    ensures |at| == |out|
  {
  }

  function RowsOf(d: Bytes, t: TableInfo): seq<Bytes> {
    LiveRows(RawSlots(d, t.id), t.rows)
  }
}
