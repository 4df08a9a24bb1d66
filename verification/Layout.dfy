// Laying out tables, columns and rows in a segment, and reading them back.
//
// A segment is written as a list of slabs: foreign ones, slabs without a row
// stride, and slabs with any mix of occupied and unoccupied row slots.  Reading
// recovers exactly the tables, their columns and their live rows.

module Layout {
  import opened ByteStrings
  import opened Wrappers
  import opened TmstatRow
  import opened SegmentSpec
  import opened Aggregation

  // ----- slabs and images

  datatype Slab =
    | Foreign(bytes: Bytes)
    | Slab(tid: nat, lines: nat, header: Bytes, slots: seq<Bytes>, tail: Bytes)

  function Concat(slots: seq<Bytes>): Bytes {
    if slots == [] then [] else Concat(slots[..|slots| - 1]) + slots[|slots| - 1]
  }

  function SlabBytes(s: Slab): Bytes {
    match s
    case Foreign(bytes) => bytes
    case Slab(tid, lines, header, slots, tail) =>
      MAGIC + LeBytes(tid, 2) + LeBytes(lines, 2) + header + Concat(slots) + tail
  }

  /** A slab of `size` bytes: a header of 64 bytes, row slots of `lines` lines of 64 bytes
      each, and a tail that is too short for one more. */
  predicate ValidSlab(s: Slab, size: nat)
    requires size >= HEADER
  {
    match s
    case Foreign(bytes) => |bytes| == size && !MagicAt(bytes, 0)
    case Slab(tid, lines, header, slots, tail) =>
      && tid < 0x1_0000 && lines < 0x1_0000 && |header| == 56
      && (if lines > 0 then |tail| < lines * 64 else slots == [])
      && (forall i :: 0 <= i < |slots| ==> |slots[i]| == lines * 64)
      && |SlabBytes(s)| == size
  }

  predicate ValidSlabs(slabs: seq<Slab>, size: nat)
    requires size >= HEADER
  {
    forall i :: 0 <= i < |slabs| ==> ValidSlab(slabs[i], size)
  }

  function Image(slabs: seq<Slab>): Bytes {
    if slabs == [] then [] else Image(slabs[..|slabs| - 1]) + SlabBytes(slabs[|slabs| - 1])
  }

  /** The row slots of table `tid`, slab after slab. */
  function SlotsOf(slabs: seq<Slab>, tid: nat): seq<Bytes> {
    if slabs == [] then []
    else
      var s := slabs[|slabs| - 1];
      SlotsOf(slabs[..|slabs| - 1], tid) + if s.Slab? && s.tid == tid then s.slots else []
  }

  // ----- where the bytes are

  lemma {:induction false} ImageLength(slabs: seq<Slab>, size: nat)
    requires size >= HEADER && ValidSlabs(slabs, size)
    ensures |Image(slabs)| == |slabs| * size
  {
    hide ValidSlab, SlabBytes;
    if slabs != [] {
      ImageLength(slabs[..|slabs| - 1], size);
      SlabLength(slabs[|slabs| - 1], size);
      assert |slabs| * size == (|slabs| - 1) * size + size;
    }
  }

  lemma SliceOfPrefix(a: Bytes, b: Bytes, lo: nat, hi: nat)
    requires lo <= hi <= |a|
    ensures (a + b)[lo..hi] == a[lo..hi]
  {
  }

  lemma SliceOfLast(a: Bytes, b: Bytes)
    ensures (a + b)[|a|..|a| + |b|] == b
  {
  }

  lemma MulSucc(n: nat, len: nat)
    ensures (n + 1) * len == n * len + len
  {
  }

  lemma {:induction false} ImageAt(slabs: seq<Slab>, size: nat, k: nat)
    requires size >= HEADER && ValidSlabs(slabs, size) && k < |slabs|
    ensures k * size + size <= |Image(slabs)|
    ensures Image(slabs)[k * size..k * size + size] == SlabBytes(slabs[k])
  {
    hide ValidSlab, SlabBytes;
    var n := |slabs| - 1;
    ImageLength(slabs, size);
    ImageLength(slabs[..n], size);
    SlabLength(slabs[n], size);
    MulSucc(n, size);
    if k < n {
      ImageAt(slabs[..n], size, k);
      SliceOfPrefix(Image(slabs[..n]), SlabBytes(slabs[n]), k * size, k * size + size);
    } else {
      SliceOfLast(Image(slabs[..n]), SlabBytes(slabs[n]));
    }
  }

  lemma SlabLength(s: Slab, size: nat)
    requires size >= HEADER && ValidSlab(s, size)
    ensures |SlabBytes(s)| == size
  {
  }

  lemma {:induction false} ConcatLength(slots: seq<Bytes>, len: nat)
    requires forall i :: 0 <= i < |slots| ==> |slots[i]| == len
    ensures |Concat(slots)| == |slots| * len
  {
    if slots != [] {
      ConcatLength(slots[..|slots| - 1], len);
      assert |slots| * len == (|slots| - 1) * len + len;
    }
  }

  lemma {:induction false} ConcatAt(slots: seq<Bytes>, len: nat, r: nat, off: nat)
    requires forall i :: 0 <= i < |slots| ==> |slots[i]| == len
    requires r < |slots| && off == r * len
    ensures off + len <= |Concat(slots)|
    ensures Concat(slots)[off..off + len] == slots[r]
  {
    var n := |slots| - 1;
    var front := Concat(slots[..n]);
    ConcatLength(slots[..n], len);
    if r < n {
      ConcatAt(slots[..n], len, r, off);
      SliceOfPrefix(front, slots[n], off, off + len);
    } else {
      assert |front| == off;
      SliceOfLast(front, slots[n]);
    }
  }

  lemma LeBytes2(v: nat)
    requires v < 0x1_0000
    ensures LeBytes(v, 2) == [v % 256, v / 256]
  {
    assert LeBytes(v, 2)[1..] == LeBytes(v / 256, 1);
    assert LeBytes(v / 256, 1)[0] == v / 256 % 256 == v / 256;
  }

  /** The header fields of a slab. */
  lemma SlabHeader(s: Slab, size: nat)
    requires size >= HEADER && ValidSlab(s, size)
    ensures |SlabBytes(s)| == size
    ensures MagicAt(SlabBytes(s), 0) == s.Slab?
    ensures s.Slab? ==> U16At(SlabBytes(s), 4) == s.tid && U16At(SlabBytes(s), 6) == s.lines
  {
    if s.Slab? {
      LeBytes2(s.tid);
      LeBytes2(s.lines);
      var b := SlabBytes(s);
      assert b[0..4] == MAGIC;
      assert b[4] == LeBytes(s.tid, 2)[0] && b[5] == LeBytes(s.tid, 2)[1];
      assert b[6] == LeBytes(s.lines, 2)[0] && b[7] == LeBytes(s.lines, 2)[1];
    }
  }

  lemma {:induction false} SlabRow(s: Slab, size: nat, r: nat)
    requires size >= HEADER && ValidSlab(s, size) && s.Slab? && r < |s.slots|
    ensures var len := s.lines * LINE;
            HEADER + r * len + len <= size
            && SlabBytes(s)[HEADER + r * len..HEADER + r * len + len] == s.slots[r]
  {
    var len := s.lines * LINE;
    var front := MAGIC + LeBytes(s.tid, 2) + LeBytes(s.lines, 2) + s.header;
    ConcatLength(s.slots, len);
    ConcatAt(s.slots, len, r, r * len);
    var rows := Concat(s.slots);
    assert SlabBytes(s) == front + rows + s.tail;
    assert |front| == HEADER;
    SliceOfMiddle(front, rows, s.tail, r * len, r * len + len);
  }

  lemma SliceOfMiddle(a: Bytes, b: Bytes, c: Bytes, lo: nat, hi: nat)
    requires lo <= hi <= |b|
    ensures (a + b + c)[|a| + lo..|a| + hi] == b[lo..hi]
  {
  }

  // ----- the walk recovers the slots

  lemma SliceOfSlice(d: Bytes, base: nat, b: Bytes, lo: nat, hi: nat)
    requires lo <= hi <= |b| && base + |b| <= |d| && d[base..base + |b|] == b
    ensures d[base + lo..base + hi] == b[lo..hi]
  {
    forall j | lo <= j < hi ensures d[base + j] == b[j] {
      assert d[base..base + |b|][j] == d[base + j];
    }
  }

  /** Slab `k` of the data is `s`. */
  predicate SlabIsAt(d: Bytes, size: nat, k: nat, s: Slab) {
    var base := k * size;
    base + size <= |d| && d[base..base + size] == SlabBytes(s)
  }

  lemma HeaderAt(d: Bytes, base: nat, size: nat, s: Slab)
    requires size >= HEADER && ValidSlab(s, size)
    requires base + size <= |d| && d[base..base + size] == SlabBytes(s)
    ensures MagicAt(d, base) == s.Slab?
    ensures s.Slab? ==> U16At(d, base + 4) == s.tid && U16At(d, base + 6) == s.lines
  {
    hide ValidSlab, SlabBytes;
    var b := SlabBytes(s);
    SlabHeader(s, size);
    SliceOfSlice(d, base, b, 0, 4);
    forall j | 0 <= j < size ensures d[base + j] == b[j] {
      assert d[base..base + size][j] == d[base + j];
    }
    assert U16At(d, base + 4) == U16At(b, 4);
    assert U16At(d, base + 6) == U16At(b, 6);
  }

  lemma SlabFields(d: Bytes, size: nat, k: nat, s: Slab, tid: nat)
    requires size >= HEADER && ValidSlab(s, size) && SlabIsAt(d, size, k, s)
    ensures Matches(d, size, k, tid) <==> s.Slab? && s.tid == tid && s.lines > 0
    ensures s.Slab? ==> Stride(d, size, k) == s.lines * LINE
  {
    hide ValidSlab, SlabBytes, MagicAt, U16At;
    HeaderAt(d, k * size, size, s);
  }

  /** The slots of a slab are as many as the reader counts. */
  lemma SlotCount(s: Slab, size: nat)
    requires size >= HEADER && ValidSlab(s, size) && s.Slab?
    ensures |s.slots| == if s.lines > 0 then PerSlab(size, s.lines * LINE) else 0
  {
    hide Concat, LeBytes;
    var n, len := |s.slots|, s.lines * LINE;
    ConcatLength(s.slots, len);
    assert size == 64 + n * len + |s.tail|;
    if s.lines > 0 {
      assert (n + 1) * len == n * len + len;
      RowFitsIff(size, len, n);
      if n > 0 {
        RowFitsIff(size, len, n - 1);
      }
    }
  }

  lemma {:induction false} SlabContents(d: Bytes, size: nat, k: nat, s: Slab, tid: nat)
    requires size >= HEADER && ValidSlab(s, size) && SlabIsAt(d, size, k, s)
    ensures Contents(d, SlabSlots(d, size, k, tid)) == if s.Slab? && s.tid == tid then s.slots else []
  {
    hide SlabBytes, SlotRun;
    SlabFields(d, size, k, s, tid);
    SlabLength(s, size);
    if s.Slab? {
      SlotCount(s, size);
    }
    var slots := SlabSlots(d, size, k, tid);
    if s.Slab? && s.tid == tid && s.lines > 0 {
      forall r | 0 <= r < |slots|
        ensures SlotBytes(d, slots[r]) == s.slots[r]
      {
        SlotInSlab(d, size, k, tid, r);
        SlabRow(s, size, r);
        var len := s.lines * LINE;
        SliceOfSlice(d, k * size, SlabBytes(s), HEADER + r * len, HEADER + r * len + len);
      }
    }
  }

  lemma ContentsConcat(d: Bytes, a: seq<Slot>, b: seq<Slot>)
    ensures Contents(d, a + b) == Contents(d, a) + Contents(d, b)
  {
  }

  lemma ImageHasSlab(slabs: seq<Slab>, rest: Bytes, size: nat, k: nat)
    requires size >= HEADER && ValidSlabs(slabs, size) && k < |slabs|
    ensures ValidSlab(slabs[k], size) && SlabIsAt(Image(slabs) + rest, size, k, slabs[k])
  {
    hide SlabBytes, Image, ValidSlab;
    ImageAt(slabs, size, k);
    SliceOfPrefix(Image(slabs), rest, k * size, k * size + size);
  }

  lemma ImageSlabContents(slabs: seq<Slab>, rest: Bytes, size: nat, k: nat, tid: nat)
    requires size >= HEADER && ValidSlabs(slabs, size) && k < |slabs|
    ensures var d, s := Image(slabs) + rest, slabs[k];
            Contents(d, SlabSlots(d, size, k, tid)) == if s.Slab? && s.tid == tid then s.slots else []
  {
    hide *;
    ImageHasSlab(slabs, rest, size, k);
    SlabContents(Image(slabs) + rest, size, k, slabs[k], tid);
  }

  /** Walking the slabs of an image finds the slots that were written. */
  lemma {:induction false} WalkOfImage(slabs: seq<Slab>, rest: Bytes, size: nat, n: nat, tid: nat)
    requires size >= HEADER && ValidSlabs(slabs, size) && n <= |slabs|
    ensures Contents(Image(slabs) + rest, Walk(Image(slabs) + rest, size, n, tid)) == SlotsOf(slabs[..n], tid)
  {
    hide SlabSlots, Contents, Image, ValidSlab;
    var d := Image(slabs) + rest;
    if n == 0 {
      NoContents(d);
    } else {
      WalkOfImage(slabs, rest, size, n - 1, tid);
      ImageSlabContents(slabs, rest, size, n - 1, tid);
      ContentsConcat(d, Walk(d, size, n - 1, tid), SlabSlots(d, size, n - 1, tid));
      assert slabs[..n][..n - 1] == slabs[..n - 1];
    }
  }

  lemma NoContents(d: Bytes)
    ensures Contents(d, []) == []
  {
  }

  // ----- finding the slab size

  predicate NoMagicBelow(d: Bytes, from: nat, lim: nat) {
    forall k :: 0 <= k < |d| && from <= k * PROBE_STEP < lim ==> !MagicAt(d, k * PROBE_STEP)
  }

  /** The second magic sits at `size`, or there is none and `size` is the default. */
  predicate Detectable(d: Bytes, size: nat) {
    || (MagicAt(d, size) && NoMagicBelow(d, PROBE_STEP, size))
    || (size == DEFAULT_SLAB && NoMagicBelow(d, PROBE_STEP, |d|))
  }

  lemma {:induction false} FindMagicIs(d: Bytes, k: nat, m: nat)
    requires k <= m
    requires NoMagicBelow(d, k * PROBE_STEP, m * PROBE_STEP)
    requires m * PROBE_STEP + 4 > |d| || MagicAt(d, m * PROBE_STEP)
    ensures FindMagic(d, k * PROBE_STEP)
         == if MagicAt(d, m * PROBE_STEP) then m * PROBE_STEP else DEFAULT_SLAB
    decreases m - k
  {
    if k < m && k * PROBE_STEP + 4 <= |d| {
      assert !MagicAt(d, k * PROBE_STEP);
      assert (k + 1) * PROBE_STEP == k * PROBE_STEP + PROBE_STEP;
      FindMagicIs(d, k + 1, m);
    }
  }

  lemma NoMagicNearTheEnd(d: Bytes, from: nat)
    requires from + 4 > |d|
    ensures NoMagicBelow(d, from, |d|)
  {
  }

  lemma NoMagicExtends(d: Bytes, k: nat, lim: nat)
    requires !MagicAt(d, k * PROBE_STEP) && NoMagicBelow(d, (k + 1) * PROBE_STEP, lim)
    ensures NoMagicBelow(d, k * PROBE_STEP, lim)
  {
    hide MagicAt;
    forall i | 0 <= i < |d| && k * PROBE_STEP <= i * PROBE_STEP < lim
      ensures !MagicAt(d, i * PROBE_STEP)
    {
      if i > k {
        assert (k + 1) * PROBE_STEP <= i * PROBE_STEP;
      }
    }
  }

  lemma {:induction false} FindMagicFinds(d: Bytes, k: nat)
    ensures var r := FindMagic(d, k * PROBE_STEP);
            || (MagicAt(d, r) && r % PROBE_STEP == 0 && NoMagicBelow(d, k * PROBE_STEP, r))
            || (r == DEFAULT_SLAB && NoMagicBelow(d, k * PROBE_STEP, |d|))
    decreases |d| - k * PROBE_STEP
  {
    hide MagicAt, NoMagicBelow;
    var off := k * PROBE_STEP;
    if off + 4 > |d| {
      NoMagicNearTheEnd(d, off);
    } else if MagicAt(d, off) {
      NoneBetween(d, off);
    } else {
      assert (k + 1) * PROBE_STEP == off + PROBE_STEP;
      FindMagicFinds(d, k + 1);
      NoMagicExtends(d, k, if MagicAt(d, FindMagic(d, off)) && NoMagicBelow(d, off + PROBE_STEP, FindMagic(d, off))
                           then FindMagic(d, off) else |d|);
    }
  }

  lemma NoneBetween(d: Bytes, off: nat)
    ensures NoMagicBelow(d, off, off)
  {
  }

  lemma NoMagicPastTheEnd(d: Bytes)
    requires NoMagicBelow(d, PROBE_STEP, |d|)
    ensures NoMagicBelow(d, PROBE_STEP, (|d| + 1) * PROBE_STEP)
    ensures !MagicAt(d, (|d| + 1) * PROBE_STEP)
  {
  }

  /** The reader finds the slab size exactly when no stray magic precedes it at a
      multiple of 1024. */
  lemma SlabSizeFoundIffDetectable(d: Bytes, size: nat)
    requires size >= PROBE_STEP && size % PROBE_STEP == 0
    ensures SlabSizeOf(d) == size <==> Detectable(d, size)
  {
    hide FindMagic, MagicAt;
    assert 1 * PROBE_STEP == PROBE_STEP;
    FindMagicFinds(d, 1);
    if Detectable(d, size) {
      if MagicAt(d, size) && NoMagicBelow(d, PROBE_STEP, size) {
        FindMagicIs(d, 1, size / PROBE_STEP);
      } else {
        NoMagicPastTheEnd(d);
        FindMagicIs(d, 1, |d| + 1);
      }
    }
  }

  /** A slab of 4096 bytes with a magic in its data, 1024 bytes from its start. */
  const STRAY: Slab := Slab(0, 0, Zeros(56), [], Zeros(960) + MAGIC + Zeros(3068))

  /** The slab size is missed: any image of 4096-byte slabs that starts with that slab is
      taken to have slabs of 1024 bytes. */
  lemma {:induction false} StrayMagicMisleads(slabs: seq<Slab>, rest: Bytes)
    requires ValidSlabs(slabs, DEFAULT_SLAB)
    ensures ValidSlabs([STRAY] + slabs, DEFAULT_SLAB)
    ensures SlabSizeOf(Image([STRAY] + slabs) + rest) == PROBE_STEP
  {
    var all := [STRAY] + slabs;
    var d := Image(all) + rest;
    StrayIsValid();
    hide ValidSlab, SlabBytes, Image, FindMagic;
    ImageAt(all, DEFAULT_SLAB, 0);
    SliceOfPrefix(Image(all), rest, 0, DEFAULT_SLAB);
    SliceOfSlice(d, 0, SlabBytes(STRAY), PROBE_STEP, PROBE_STEP + 4);
    assert MagicAt(d, PROBE_STEP);
    SlabSizeFoundIffDetectable(d, PROBE_STEP);
  }

  lemma StrayIsValid()
    ensures ValidSlab(STRAY, DEFAULT_SLAB)
    ensures |SlabBytes(STRAY)| == DEFAULT_SLAB
    ensures SlabBytes(STRAY)[PROBE_STEP..PROBE_STEP + 4] == MAGIC
  {
    var front := MAGIC + LeBytes(0, 2) + LeBytes(0, 2) + Zeros(56);
    assert Concat([]) == [];
    assert SlabBytes(STRAY) == front + Zeros(960) + MAGIC + Zeros(3068);
    assert |front + Zeros(960)| == PROBE_STEP;
    SliceOfMiddle(front + Zeros(960), MAGIC, Zeros(3068), 0, 4);
  }

  /** The probed size, said of the bytes: the first multiple of 1024 behind the start
      where "TMSS" stands, or 4096 when it stands at none. */
  lemma {:induction false} SlabSizeIs(d: Bytes)
    ensures var size := SlabSizeOf(d);
            || (&& size >= 1024 && size % 1024 == 0 && size + 4 <= |d| && d[size..size + 4] == [84, 77, 83, 83]
                && forall k: nat :: 1024 <= k * 1024 < size ==> d[k * 1024..k * 1024 + 4] != [84, 77, 83, 83])
            || (&& size == 4096
                && forall k: nat :: 1024 <= k * 1024 && k * 1024 + 4 <= |d| ==>
                     d[k * 1024..k * 1024 + 4] != [84, 77, 83, 83])
  {
    hide FindMagic;
    assert 1 * PROBE_STEP == PROBE_STEP;
    FindMagicFinds(d, 1);
    var size := SlabSizeOf(d);
    if !MagicAt(d, size) || !NoMagicBelow(d, PROBE_STEP, size) {
      forall k: nat | 1024 <= k * 1024 && k * 1024 + 4 <= |d|
        ensures d[k * 1024..k * 1024 + 4] != [84, 77, 83, 83]
      {
        assert !MagicAt(d, k * PROBE_STEP);
      }
    } else {
      forall k: nat | 1024 <= k * 1024 < size
        ensures d[k * 1024..k * 1024 + 4] != [84, 77, 83, 83]
      {
        assert !MagicAt(d, k * PROBE_STEP);
      }
    }
  }

  // ----- what occupied rows of the two meta-tables look like

  datatype TableRec = TableRec(name: Bytes, rows: nat, rowSize: nat, cols: nat)
  datatype ColumnRec = ColumnRec(tid: nat, column: Column)

  /** An unoccupied slot of a meta-table starts with a NUL, whatever follows. */
  predicate IsBlank(raw: Bytes) {
    raw != [] && raw[0] == 0
  }

  /** A name of 1 to 49 bytes, ended by a NUL when it is shorter than its field. */
  predicate StoresName(raw: Bytes, name: Bytes) {
    && 1 <= |name| <= 49 <= |raw|
    && NulFree(name)
    && raw[..|name|] == name
    && (|name| < 49 ==> raw[|name|] == 0)
  }

  predicate StoresTable(raw: Bytes, t: TableRec) {
    && StoresName(raw, t.name)
    && |raw| >= 61
    && t.rows < 0x1_0000_0000 && raw[53..57] == LeBytes(t.rows, 4)
    && t.rowSize < 0x1_0000 && raw[57..59] == LeBytes(t.rowSize, 2)
    && t.cols < 0x1_0000 && raw[59..61] == LeBytes(t.cols, 2)
  }

  predicate StoresColumn(raw: Bytes, c: ColumnRec) {
    && StoresName(raw, c.column.name)
    && |raw| >= 59
    && c.tid < 0x1_0000 && raw[49..51] == LeBytes(c.tid, 2)
    && c.column.offset < 0x1_0000 && raw[51..53] == LeBytes(c.column.offset, 2)
    && c.column.size < 0x1_0000 && raw[53..55] == LeBytes(c.column.size, 2)
    && raw[55] == c.column.typ
    && c.column.rule < 0x1_0000 && raw[56..58] == LeBytes(c.column.rule, 2)
    && (raw[58] != 0) == c.column.dropped
  }

  /** The occupied slots are, in order, the rows of `ts`. */
  predicate HoldTables(raws: seq<Bytes>, ts: seq<TableRec>) {
    if raws == [] then ts == []
    else
      var n, raw := |raws| - 1, raws[|raws| - 1];
      if IsBlank(raw) then HoldTables(raws[..n], ts)
      else ts != [] && StoresTable(raw, ts[|ts| - 1]) && HoldTables(raws[..n], ts[..|ts| - 1])
  }

  predicate HoldColumns(raws: seq<Bytes>, cs: seq<ColumnRec>) {
    if raws == [] then cs == []
    else
      var n, raw := |raws| - 1, raws[|raws| - 1];
      if IsBlank(raw) then HoldColumns(raws[..n], cs)
      else cs != [] && StoresColumn(raw, cs[|cs| - 1]) && HoldColumns(raws[..n], cs[..|cs| - 1])
  }

  /** The columns declared for table `id`, in file order. */
  function ColumnsFor(cs: seq<ColumnRec>, id: nat): seq<Column> {
    if cs == [] then []
    else
      var c := cs[|cs| - 1];
      ColumnsFor(cs[..|cs| - 1], id) + if c.tid == id then [c.column] else []
  }

  /** The tables, numbered in order, each with its own columns. */
  function Declared(ts: seq<TableRec>, cs: seq<ColumnRec>): (r: seq<TableInfo>)
    ensures |r| == |ts|
  {
    seq(|ts|, i requires 0 <= i < |ts| =>
      TableInfo(ts[i].name, i, ts[i].rows, ts[i].rowSize, ts[i].cols, ColumnsFor(cs, i)))
  }

  /** A name in its 49-byte field; the bytes behind its NUL are arbitrary. */
  function NameField(name: Bytes, junk: Bytes): Bytes
    requires |name| + 1 + |junk| == 49 || (|name| == 49 && junk == [])
  {
    if |name| == 49 then name else name + [0] + junk
  }

  predicate ValidName(name: Bytes, junk: Bytes) {
    name != [] && NulFree(name) && (|name| + 1 + |junk| == 49 || (|name| == 49 && junk == []))
  }

  /** Every table description is stored by some row, whatever fills the bytes the
      reader does not look at. */
  lemma TablesCanBeStored(t: TableRec, junk: Bytes, gap: Bytes, rest: Bytes)
    requires ValidName(t.name, junk) && |gap| == 4
    requires t.rows < 0x1_0000_0000 && t.rowSize < 0x1_0000 && t.cols < 0x1_0000
    ensures StoresTable(NameField(t.name, junk) + gap + LeBytes(t.rows, 4) + LeBytes(t.rowSize, 2)
                        + LeBytes(t.cols, 2) + rest, t)
  {
    hide LeBytes, NulFree;
    var field := NameField(t.name, junk);
    var rows, size, cols := LeBytes(t.rows, 4), LeBytes(t.rowSize, 2), LeBytes(t.cols, 2);
    var raw := field + gap + rows + size + cols + rest;
    NameFieldStores(t.name, junk, gap + rows + size + cols + rest);
    assert raw == field + (gap + rows + size + cols + rest);
    assert raw == (field + gap) + rows + (size + cols + rest);
    assert raw == (field + gap + rows) + size + (cols + rest);
    Piece(field + gap, rows, size + cols + rest);
    Piece(field + gap + rows, size, cols + rest);
    Piece(field + gap + rows + size, cols, rest);
  }

  /** The numbers of a column description as the row stores them behind the name. */
  function ColumnNumbers(c: ColumnRec): (r: Bytes)
    requires c.column.typ < 256
    ensures |r| == 10
  {
    LeBytes(c.tid, 2) + LeBytes(c.column.offset, 2) + LeBytes(c.column.size, 2) + [c.column.typ]
    + LeBytes(c.column.rule, 2) + [if c.column.dropped then 1 else 0]
  }

  lemma ColumnNumbersAt(c: ColumnRec)
    requires c.column.typ < 256
    ensures var r := ColumnNumbers(c);
            && r[0..2] == LeBytes(c.tid, 2) && r[2..4] == LeBytes(c.column.offset, 2)
            && r[4..6] == LeBytes(c.column.size, 2) && r[6..7] == [c.column.typ]
            && r[7..9] == LeBytes(c.column.rule, 2) && r[9..10] == [if c.column.dropped then 1 else 0]
  {
    hide LeBytes;
  }

  /** The same for every column description. */
  lemma ColumnsCanBeStored(c: ColumnRec, junk: Bytes, rest: Bytes)
    requires ValidName(c.column.name, junk) && c.tid < 0x1_0000 && c.column.typ < 256
    requires c.column.offset < 0x1_0000 && c.column.size < 0x1_0000 && c.column.rule < 0x1_0000
    ensures StoresColumn(NameField(c.column.name, junk) + ColumnNumbers(c) + rest, c)
  {
    hide LeBytes, NulFree, ColumnNumbers, NameField, StoresName;
    var field, numbers := NameField(c.column.name, junk), ColumnNumbers(c);
    var raw := field + numbers + rest;
    NameFieldStores(c.column.name, junk, numbers + rest);
    assert raw == field + (numbers + rest);
    ColumnNumbersAt(c);
    SliceOfMiddle(field, numbers, rest, 0, 2);
    SliceOfMiddle(field, numbers, rest, 2, 4);
    SliceOfMiddle(field, numbers, rest, 4, 6);
    SliceOfMiddle(field, numbers, rest, 6, 7);
    SliceOfMiddle(field, numbers, rest, 7, 9);
    SliceOfMiddle(field, numbers, rest, 9, 10);
    assert raw[55] == raw[55..56][0] && raw[58] == raw[58..59][0];
  }

  lemma Piece(front: Bytes, x: Bytes, rest: Bytes)
    ensures (front + x + rest)[|front|..|front| + |x|] == x
  {
  }

  lemma NameFieldStores(name: Bytes, junk: Bytes, rest: Bytes)
    requires ValidName(name, junk)
    ensures |NameField(name, junk)| == 49 && StoresName(NameField(name, junk) + rest, name)
  {
    var raw := NameField(name, junk) + rest;
    assert raw[..|name|] == NameField(name, junk)[..|name|] == name;
  }

  // ----- reading the meta-tables

  lemma BlankHasNoName(raw: Bytes)
    requires IsBlank(raw)
    ensures NameOf(raw) == []
  {
    assert StrRange(raw, 0, 49)[0] == 0;
  }

  lemma NameIsRead(raw: Bytes, name: Bytes)
    requires StoresName(raw, name)
    ensures NameOf(raw) == name && name != []
  {
    UpToNulIs(StrRange(raw, 0, 49), |name|);
  }

  lemma UintIsRead(raw: Bytes, off: nat, size: nat, v: nat)
    requires size <= 8 && off + size <= |raw| && raw[off..off + size] == LeBytes(v, size) && v < Pow256(size)
    ensures UintAt(raw, off, size) == v
  {
    LeValueOfLeBytes(v, size);
    ModSmall(v, Pow256(size));
  }

  lemma ByteIsRead(raw: Bytes, off: nat)
    requires off < |raw|
    ensures UintAt(raw, off, 1) == raw[off]
  {
    var s := raw[off..off + 1];
    assert s[1..] == [] && LeValue(s[1..]) == 0;
  }

  lemma TableIsRead(raw: Bytes, t: TableRec, id: nat)
    requires StoresTable(raw, t)
    ensures TableOfRow(raw, id) == TableInfo(t.name, id, t.rows, t.rowSize, t.cols, [])
  {
    hide UintAt, ColumnNamed, StoresName, NameOf;
    TableColumnRanges();
    Pow256Values();
    NameIsRead(raw, t.name);
    UintIsRead(raw, 53, 4, t.rows);
    UintIsRead(raw, 57, 2, t.rowSize);
    UintIsRead(raw, 59, 2, t.cols);
  }

  lemma ColumnIsRead(raw: Bytes, c: ColumnRec)
    requires StoresColumn(raw, c)
    ensures ColumnOfRow(raw) == c.column && UintNamed(COLUMN_COLUMNS, raw, TABLEID) == c.tid
  {
    hide UintAt, ColumnNamed, StoresName, NameOf;
    ColumnColumnRanges();
    Pow256Values();
    NameIsRead(raw, c.column.name);
    UintIsRead(raw, 49, 2, c.tid);
    UintIsRead(raw, 51, 2, c.column.offset);
    UintIsRead(raw, 53, 2, c.column.size);
    ByteIsRead(raw, 55);
    UintIsRead(raw, 56, 2, c.column.rule);
    ByteIsRead(raw, 58);
  }

  /** What a stored column is for, said of the bytes of its row: rule 0 is a key unless
      the column is dropped, rule 2 a counter unless it is text or an address. */
  lemma StoredColumnKinds(raw: Bytes, c: ColumnRec)
    requires StoresColumn(raw, c)
    ensures var col := ColumnOfRow(raw);
            && (col.IsKey() <==> raw[56..58] == [0, 0] && raw[58] == 0)
            && (col.IsSummed() <==> raw[56..58] == [2, 0] && raw[55] != 3 && raw[55] != 6)
            && (col.IsNumeric() <==> raw[55] == 1 || raw[55] == 2)
            && (col.IsAddress() <==> raw[55] == 6)
  {
    hide StoresName;
    ColumnIsRead(raw, c);
    hide ColumnOfRow;
    LeBytes2(c.column.rule);
    assert raw[56..58][0] == raw[56] && raw[56..58][1] == raw[57];
  }

  lemma {:induction false} TablesAreRead(raws: seq<Bytes>, ts: seq<TableRec>)
    requires HoldTables(raws, ts)
    ensures |TablesOf(raws)| == |ts|
    ensures forall i :: 0 <= i < |ts| ==>
              TablesOf(raws)[i] == TableInfo(ts[i].name, i, ts[i].rows, ts[i].rowSize, ts[i].cols, [])
  {
    hide StoresTable, TableOfRow, NameOf, IsBlank;
    if raws != [] {
      var n, raw := |raws| - 1, raws[|raws| - 1];
      if IsBlank(raw) {
        BlankHasNoName(raw);
        TablesAreRead(raws[..n], ts);
      } else {
        var m := |ts| - 1;
        TablesAreRead(raws[..n], ts[..m]);
        TableHasName(raw, ts[m]);
        TableIsRead(raw, ts[m], m);
      }
    }
  }

  lemma TableHasName(raw: Bytes, t: TableRec)
    requires StoresTable(raw, t)
    ensures NameOf(raw) != []
  {
    NameIsRead(raw, t.name);
  }

  lemma ColumnHasName(raw: Bytes, c: ColumnRec)
    requires StoresColumn(raw, c)
    ensures NameOf(raw) != []
  {
    NameIsRead(raw, c.column.name);
  }

  lemma {:induction false} ColumnsAreRead(raws: seq<Bytes>, cs: seq<ColumnRec>, id: nat)
    requires HoldColumns(raws, cs)
    ensures ColumnsOf(raws, id) == ColumnsFor(cs, id)
  {
    hide StoresColumn, ColumnOfRow, NameOf, IsBlank, UintNamed;
    if raws != [] {
      var n, raw := |raws| - 1, raws[|raws| - 1];
      if IsBlank(raw) {
        BlankHasNoName(raw);
        ColumnsAreRead(raws[..n], cs, id);
      } else {
        var m := |cs| - 1;
        ColumnsAreRead(raws[..n], cs[..m], id);
        ColumnHasName(raw, cs[m]);
        ColumnIsRead(raw, cs[m]);
      }
    }
  }

  // ----- the round trip

  lemma {:induction false} SlotsAreRead(slabs: seq<Slab>, rest: Bytes, size: nat, tid: nat)
    requires size >= PROBE_STEP && ValidSlabs(slabs, size) && |rest| < size
    requires SlabSizeOf(Image(slabs) + rest) == size
    ensures RawSlots(Image(slabs) + rest, tid) == SlotsOf(slabs, tid)
  {
    hide Walk, Contents, SlotsOf, SlabSizeOf, ValidSlab;
    var d := Image(slabs) + rest;
    ImageLength(slabs, size);
    DivModUnique(|d|, size, |slabs|, |rest|);
    WalkOfImage(slabs, rest, size, |slabs|, tid);
    assert slabs[..|slabs|] == slabs;
  }

  lemma StartsWithMagic(slabs: seq<Slab>, rest: Bytes, size: nat)
    requires size >= PROBE_STEP && slabs != [] && slabs[0].Slab? && ValidSlabs(slabs, size)
    ensures |Image(slabs) + rest| >= HEADER && MagicAt(Image(slabs) + rest, 0)
  {
    hide ValidSlab, SlabBytes, Image;
    ImageAt(slabs, size, 0);
    SlabHeader(slabs[0], size);
    SliceOfSlice(Image(slabs) + rest, 0, SlabBytes(slabs[0]), 0, 4);
  }

  lemma SchemaIsRead(tableRows: seq<Bytes>, columnRows: seq<Bytes>, ts: seq<TableRec>, cs: seq<ColumnRec>)
    requires HoldTables(tableRows, ts) && HoldColumns(columnRows, cs)
    ensures Joined(TablesOf(tableRows), columnRows) == Declared(ts, cs)
  {
    hide HoldTables, HoldColumns, TablesOf, ColumnsOf, ColumnsFor;
    TablesAreRead(tableRows, ts);
    forall id: nat
      ensures ColumnsOf(columnRows, id) == ColumnsFor(cs, id)
    {
      ColumnsAreRead(columnRows, cs, id);
    }
  }

  /** Any tables, columns and rows placed in slabs with unoccupied slots, foreign
      slabs and slabs without a stride in between are read back exactly: each
      table under its index among the occupied rows, with its columns in file
      order, and with its first `rows` non-zero rows. */
  lemma {:induction false} SegmentRoundTrip(slabs: seq<Slab>, rest: Bytes, size: nat, ts: seq<TableRec>,
                                            cs: seq<ColumnRec>)
    requires size >= PROBE_STEP && size % PROBE_STEP == 0
    requires slabs != [] && slabs[0].Slab? && ValidSlabs(slabs, size) && |rest| < size
    requires Detectable(Image(slabs) + rest, size)
    requires HoldTables(SlotsOf(slabs, 0), ts) && ts != []
    requires HoldColumns(SlotsOf(slabs, 1), cs)
    ensures ParseOf(Image(slabs) + rest) == Ok(Declared(ts, cs))
    ensures forall i :: 0 <= i < |ts| ==>
              RowsOf(Image(slabs) + rest, Declared(ts, cs)[i]) == LiveRows(SlotsOf(slabs, i), ts[i].rows)
  {
    hide HoldTables, HoldColumns, TablesOf, ColumnsOf, ColumnsFor, SlotsOf, RawSlots, LiveRows, SlabBytes, Image,
      ValidSlab, Detectable, FindMagic;
    var d := Image(slabs) + rest;
    SlabSizeFoundIffDetectable(d, size);
    StartsWithMagic(slabs, rest, size);
    SlotsAreRead(slabs, rest, size, 0);
    SlotsAreRead(slabs, rest, size, 1);
    SchemaIsRead(SlotsOf(slabs, 0), SlotsOf(slabs, 1), ts, cs);
    forall i | 0 <= i < |ts|
      ensures RowsOf(d, Declared(ts, cs)[i]) == LiveRows(SlotsOf(slabs, i), ts[i].rows)
    {
      SlotsAreRead(slabs, rest, size, i);
    }
  }

  /** A second slab with a header fixes the slab size, when no stray magic at a
      multiple of 1024 bytes sits inside the first slab. */
  lemma {:induction false} SecondSlabFixesTheSize(slabs: seq<Slab>, rest: Bytes, size: nat)
    requires size >= PROBE_STEP && ValidSlabs(slabs, size) && |slabs| >= 2 && slabs[1].Slab?
    requires NoMagicBelow(SlabBytes(slabs[0]), PROBE_STEP, size) && size % PROBE_STEP == 0
    ensures Detectable(Image(slabs) + rest, size)
  {
    hide ValidSlab, SlabBytes, Image;
    var d := Image(slabs) + rest;
    var first, second := SlabBytes(slabs[0]), SlabBytes(slabs[1]);
    ImageAt(slabs, size, 0);
    ImageAt(slabs, size, 1);
    SlabHeader(slabs[1], size);
    SlabLength(slabs[0], size);
    SliceOfPrefix(Image(slabs), rest, 0, size);
    SliceOfPrefix(Image(slabs), rest, size, size + size);
    SliceOfSlice(d, size, second, 0, 4);
    forall k | 0 <= k < |d| && PROBE_STEP <= k * PROBE_STEP < size
      ensures !MagicAt(d, k * PROBE_STEP)
    {
      assert k * PROBE_STEP + 4 <= size;
      SliceOfSlice(d, 0, first, k * PROBE_STEP, k * PROBE_STEP + 4);
      assert !MagicAt(first, k * PROBE_STEP);
    }
  }

  /** End to end: the merged rows that reading table `i` of a laid-out segment gives
      are the group-by of the rows stored for it. */
  lemma {:induction false} StoredRowsAreMerged(slabs: seq<Slab>, rest: Bytes, size: nat, ts: seq<TableRec>,
                                               cs: seq<ColumnRec>, i: nat)
    requires size >= PROBE_STEP && size % PROBE_STEP == 0
    requires slabs != [] && slabs[0].Slab? && ValidSlabs(slabs, size) && |rest| < size
    requires Detectable(Image(slabs) + rest, size)
    requires HoldTables(SlotsOf(slabs, 0), ts) && HoldColumns(SlotsOf(slabs, 1), cs)
    requires i < |ts| && WellFormed(ColumnsFor(cs, i)) && KeyColumns(ColumnsFor(cs, i)) != []
    ensures var d := Image(slabs) + rest;
            && ParseOf(d).Ok? && i < |ParseOf(d).value|
            && var t := ParseOf(d).value[i];
               && t.columns == ColumnsFor(cs, i)
               && IsGroupBy(t.columns, LiveRows(SlotsOf(slabs, i), ts[i].rows), AggregateOf(t.columns, RowsOf(d, t)))
  {
    hide HoldTables, HoldColumns, ColumnsFor, SlotsOf, RowsOf, ParseOf, LiveRows, Image, ValidSlabs, Detectable,
      WellFormed, KeyColumns, AggregateOf, IsGroupBy;
    SegmentRoundTrip(slabs, rest, size, ts, cs);
    AggregateIsGroupBy(ColumnsFor(cs, i), LiveRows(SlotsOf(slabs, i), ts[i].rows));
  }
}
