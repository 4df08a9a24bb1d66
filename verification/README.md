# Verified model of the tmmscope exporters

This project models the parts of tmmscope that decode, aggregate and publish
telemetry, and proves what they promise.

- **The TMSS segment reader** (`SegmentSpec`, `TmstatSegment`, `TmstatRow`, `Layout`). A
  segment is a byte array of slabs; two meta-tables describe every other table. The
  reader is a class over that array: it probes the slab size, walks the slabs, fills
  the table list and its indexes, and copies live rows into fresh buffers. `Layout`
  writes tables, columns and rows into slabs and shows that reading recovers them.
- **Key aggregation** (`Aggregation`, `AggregationLaws`). Rows with equal key columns
  are merged in place into the first of them. The in-place method refines a fold over
  row values; the fold is shown to be a group-by that is described independently, and
  counters are conserved modulo their width.
- **The flow totals of the OVS-DOCA exporter** (`FlowTotals`, `FlowLaws`, `FlowKeys`). A
  dump is a list of lines, complete or cut short, or a failed call. The exporter object
  keeps heap accumulators; the laws are about every history of dumps. A flow's life ends
  when a counter drops or when a complete dump no longer shows it; a dump cut short says
  nothing of the flows it leaves out.
- **The remote-write encoder** (`Wire`, `PromWrite`). The bytes before compression are
  read back by an independent decoder of the Protocol Buffers wire format ("Encoding":
  Base 128 Varints, Message Structure). `internal/promwrite/promwrite.go` and
  `cmd/tmm-stat-exporter/remotewrite.go` hold the same algorithm; it is modelled once.
- **The RESP2 client** (`Resp`, `RespClient`). The connection is the bytes not read yet
  and the bytes sent. The reader is proved against the encoding of the Redis
  serialization protocol specification, and against the writer of the same file.
- **Labels and the text format** (`Collector`, `Addresses`, `TextFormat`). Internal rows
  are dropped in place, addresses are decoded, and printed label sets are parsed back.
- **From rows to the receiver** (`Delivery`). When the series of a table are told apart,
  from its merged rows through the collector and the encoder to what a reader decodes.

Each function of the model is also described without itself, in numbers and bytes: what
a column's text is, which slots a walk visits, which byte stands where in a request.
Lists that are filtered are described by the positions they keep (`Selection`).

Go strings and byte slices are byte sequences (`ByteStrings`). Shifts and bitwise-or of
disjoint bit ranges are written as arithmetic on powers of 256; 64-bit wrap-around is
explicit. A slice that the callee only reads is passed as its contents, a slice that is
written is an array.

What the statements assume, because the code does: where a merged counter's value
matters, column names of a table are unique and summed columns have at most 8 bytes and
do not overlap each other; where the key of a merged row matters, summed columns do not
overlap key columns.

Where the code falls short of its promise, the exact condition is stated, and beside it
an input that fails:

- a counter is conserved by aggregation if and only if what short rows lose is a
  multiple of the modulus (`ConservedIffNothingLost`; rows of two slabs with different
  strides: `ShortFirstRowLoses`);
- traffic is counted once over a history if and only if no repeated line shows growth and
  no flow comes back grown after a dump cut short left it out
  (`ConservedIffNothingRecounted`; `RepeatedUfidCountsTwice`, `CutShortDumpCountsTwice`);
- a reply leaves the RESP connection in step if and only if nothing in it follows its
  first error (`InStepIffErrorComesLast`; an array that starts with an error:
  `EarlyErrorLeavesTheRest`);
- the slab size is found if and only if no stray magic precedes it
  (`SlabSizeFoundIffDetectable`; a magic in the data of the first slab:
  `StrayMagicMisleads`);
- a strict text-format reader takes a printed label set if and only if no name has a
  colon (`LabelsReadBack`; `a:b`: `SanitizedColonIsRejected`): `sanitize` keeps colons,
  which metric names may have and label names may not, although its comment offers one
  pattern for both;
- the label sets of a table are unique if and only if rows with different keys differ in
  a byte that decoding keeps (`LabelSetsAreUniqueIff`; one pool member address in two
  route domains: `RouteDomainsCollide`);
- the series of a table are told apart if and only if, besides, its value column names
  stay different when sanitized (`CollectedSeriesDistinctIff`; columns `a.b` and `a_b`:
  `DotAndUnderscoreCollide`);
- label names are unique, as remote write requires, if and only if key columns, external
  labels and `__name__` share no name (`LabelNamesUniqueIff`; a key column `pod`:
  `KeyAndExternalLabelCollide`);
- of the link-local range fe80::/10 that the comment on `isLinkLocal` names, the code
  sees exactly fe80::/16, because it tests the text prefix `fe80:` (`LinkLocal6Iff`;
  febf:: is missed: `FebfIsMissed`).

## Model

| member | source | states |
|---|---|---|
| TmstatRow.LeUint | internal/tmstat/tmstat.go:483-492 | reads the little-endian value of the low eight bytes of a column, 0 when the column leaves the row; the value is a digit sum, not a shift loop |
| TmstatRow.SetUint | internal/tmstat/tmstat.go:474-481 | in place: the column's bytes become the digits of the value, every other byte stays, nothing changes when the column leaves the row |
| TmstatRow.LeInt | internal/tmstat/tmstat.go:494-501 | the shift-and-extend formula, shown to be two's complement in IntAtIsTwosComplement |
| TmstatRow.UintAtOfPutUint | internal/tmstat/tmstat.go:474-492 | reading what was written gives the value modulo 256^size and leaves all other bytes alone |
| TmstatRow.PutUintElsewhere | internal/tmstat/tmstat.go:474-481 | a write leaves every column it does not overlap untouched |
| TmstatRow.IntAtIsTwosComplement | internal/tmstat/tmstat.go:494-501 | for sizes 1 to 8 the sign-extending shifts give the two's-complement value |
| TmstatRow.SignedReading | internal/tmstat/tmstat.go:494-501 | for every size, 0 and more than 8 included, the signed reading is the two's-complement value of the low eight bytes at most, and fits an int64 |
| TmstatRow.TwosComplementIs | internal/tmstat/tmstat.go:494-501 | that value is the one in the signed range that is congruent to the bits |
| ByteStrings.LeValueOfLeBytes | internal/tmstat/tmstat.go:474-492 | writing n bytes and reading them back reduces modulo 256^n |
| ByteStrings.LeBytesOfLeValue | internal/tmstat/tmstat.go:474-492 | reading n bytes and writing them back restores them |
| TmstatRow.IndexByte | internal/tmstat/tmstat.go:514-521 | the first position of the byte, or -1 when it does not occur |
| TmstatRow.CStr | internal/tmstat/tmstat.go:503-512 | the bytes before the first NUL of the column, cut at the end of the row |
| TmstatRow.AddrHex | internal/tmstat/tmstat.go:525-538 | the loop builds the upper-case colon-hex text that DecodeOfRendered shows to be decodable |
| TmstatRow.Value | internal/tmstat/tmstat.go:430-444 | renders each column type as the source does, empty when the column leaves the row |
| TmstatRow.RenderIsNulFree | internal/tmstat/tmstat.go:430-444 | no rendering contains the NUL that separates key parts |
| TmstatRow.TextOf | internal/tmstat/tmstat.go:430-436 | a text column is shown as its bytes up to the first NUL |
| TmstatRow.AddressOf | internal/tmstat/tmstat.go:437-438 | an address column is shown as upper-case hex pairs of its bytes with colons between them |
| TmstatRow.SignedText | internal/tmstat/tmstat.go:439-440 | a signed column is shown as text that parses to the two's-complement value of its bytes |
| TmstatRow.UnsignedText | internal/tmstat/tmstat.go:441-442 | any other column is shown as the decimal digits of its little-endian value, without leading zeros |
| TmstatRow.Uint | internal/tmstat/tmstat.go:389-405 | reads the first column of that name, 0 when there is none |
| Decimal.ParseIntOfFormatInt | cmd/tmm-stat-exporter/redis.go:94-95 | parsing a printed integer gives it back on the whole int64 range |
| Decimal.ParseIntIs | cmd/tmm-stat-exporter/redis.go:94-103 | a string parses if and only if it is digits behind an optional sign whose value fits an int64, leading zeros included |
| Decimal.FormatUintInjective | internal/tmstat/tmstat.go:439-442 | different numbers render differently |
| Aggregation.KeyTextInjective | internal/tmstat/tmstat.go:366-371 | two rows have the same key string if and only if every key column renders the same |
| Aggregation.KeyColumnsAre | internal/tmstat/tmstat.go:353-361 | the key columns are the columns of rule 0 that are not dropped, in schema order |
| Aggregation.MergeAdds | internal/tmstat/tmstat.go:373-379 | a merge adds every summed column modulo its width, though the columns are written one after the other in one buffer |
| Aggregation.MergeAddsNamed | internal/tmstat/tmstat.go:373-379 | also with repeated column names: what is added is the new row's first column of that name |
| Aggregation.MergeKeepsUncovered | internal/tmstat/tmstat.go:373-379 | a merge changes no byte outside the summed columns |
| Aggregation.FirstKeysAreTheKeys | internal/tmstat/tmstat.go:363-383 | the key list holds every occurring key exactly once |
| Aggregation.KeysComeInOrder | internal/tmstat/tmstat.go:363-383 | the keys come in the order of their first rows |
| Aggregation.GroupRowsIsGroupBy | internal/tmstat/tmstat.go:363-385 | the merging fold is the group-by: one row per distinct key in first-occurrence order, each counter its group's sum modulo 256^size, every other byte from the group's first row |
| Aggregation.AggregateIsGroupBy | internal/tmstat/tmstat.go:350-386 | aggregation is that group-by for tables with a key column and leaves other tables unmerged |
| Aggregation.GroupByIsUnique | internal/tmstat/tmstat.go:350-386 | the group-by description determines the result completely |
| TmstatSegment.KeyOf | internal/tmstat/tmstat.go:366-371 | builds the NUL-separated key text of a row |
| TmstatSegment.MergeInto | internal/tmstat/tmstat.go:373-379 | in-place counter addition on the row buffer equals the value-level merge |
| TmstatSegment.Aggregate | internal/tmstat/tmstat.go:353-386 | the map-indexed in-place merge over shared buffers gives the value-level aggregation; each result row is the buffer of an input row, in input order, and no two share one |
| AggregationLaws.AggregationConserves | internal/tmstat/tmstat.go:363-385 | for well-formed schemas and every row list, short rows included, each counter's total over the merged rows plus what short rows lose is congruent to its total over the input rows |
| AggregationLaws.ConservedIffNothingLost | internal/tmstat/tmstat.go:363-385 | a counter is conserved if and only if the lost amount is a multiple of the modulus |
| AggregationLaws.ShortFirstRowLoses | internal/tmstat/tmstat.go:373-379 | a failing input: a 64-byte row merged with a later 128-byte row of its key loses the counter behind byte 64 |
| AggregationLaws.NothingLost | internal/tmstat/tmstat.go:363-385 | nothing is lost when the column lies inside every row |
| AggregationLaws.OrderDoesNotMatter | internal/tmstat/tmstat.go:363-385 | permuting the input rows changes neither the set of keys nor any key's counters |
| AggregationLaws.MergedRowKeepsKey | internal/tmstat/tmstat.go:363-385 | a merged row still renders the key of its group |
| AggregationLaws.RowRendersItsKey | internal/tmstat/tmstat.go:363-385 | however many rows are merged into it, a row still renders the key it was filed under |
| AggregationLaws.ResultKeysAreUnique | internal/tmstat/tmstat.go:308-312 | no two rows of the result agree on all key columns, whatever the counters look like |
| AggregationLaws.AggregationIsIdempotent | internal/tmstat/tmstat.go:353-386 | aggregating twice is aggregating once |
| AggregationLaws.SignedCountersAdd | internal/tmstat/tmstat.go:373-379 | a merged signed counter is the wrapped sum of the group's signed values |
| SegmentSpec.WalkVisitsExactly | internal/tmstat/tmstat.go:273-300 | the walk visits a slot if and only if, in a slab whose header reads TMSS, the table id and a non-zero line count, it lies a whole number of strides behind the 64 header bytes and `64 + (r + 1) * stride` is at most the slab size |
| SegmentSpec.AllSlotsAreTheRows | internal/tmstat/tmstat.go:163-300 | over a whole segment, exactly the rows of the slabs that lie inside the data are visited |
| SegmentSpec.WalkAscends | internal/tmstat/tmstat.go:273-300 | the slots ascend, do not overlap and stay inside the walked slabs |
| SegmentSpec.AllSlotsInside | internal/tmstat/tmstat.go:163 | every slot of a parsed segment lies inside the data |
| SegmentSpec.TableColumnRanges | internal/tmstat/tmstat.go:174-182 | the bootstrap names of `.table` select the hard-coded byte ranges |
| SegmentSpec.ColumnColumnRanges | internal/tmstat/tmstat.go:183-192 | the bootstrap names of `.column` select the hard-coded byte ranges |
| SegmentSpec.TablesAreNumbered | internal/tmstat/tmstat.go:202-229 | a table's id is its index among the occupied rows |
| SegmentSpec.TablesAre | internal/tmstat/tmstat.go:202-229 | the tables are the `.table` rows that do not start with a NUL, in file order, each under its position among them |
| SegmentSpec.ColumnsAre | internal/tmstat/tmstat.go:248-267 | a table's columns are the `.column` rows that do not start with a NUL and hold its id at bytes 49 and 50, in file order |
| SegmentSpec.ParseFailsIff | internal/tmstat/tmstat.go:146-169 | data is refused if and only if it lacks a header that starts with TMSS, or every row of table 0 starts with a NUL |
| TmstatSegment.ProbeSlabSize | internal/tmstat/tmstat.go:152-159 | finds the first magic at a multiple of 1024, or 4096 |
| TmstatSegment.Segment.WalkSlabRows | internal/tmstat/tmstat.go:273-300 | collects exactly the slots that AllSlotsAreTheRows describes, or the first `maxRows` of them |
| TmstatSegment.Segment.WalkSlab | internal/tmstat/tmstat.go:287-298 | all rows of one slab, up to the last one that ends inside it; the exit for a row past the end of the data is unreachable |
| TmstatSegment.Segment.ReadTables | internal/tmstat/tmstat.go:213-229 | one fresh table object per occupied `.table` row, numbered in order |
| TmstatSegment.Segment.Index | internal/tmstat/tmstat.go:233-239 | `byID` finds tables by position, `byName` the last table of each name |
| TmstatSegment.Segment.AttachColumns | internal/tmstat/tmstat.go:248-267 | every occupied `.column` row is appended to the table it names, if any, and to no other |
| TmstatSegment.Segment.LoadSchema | internal/tmstat/tmstat.go:198-269 | establishes the object invariant, or fails exactly when no table is found |
| TmstatSegment.FindsTheNamedTable | internal/tmstat/tmstat.go:233-239 | lookup by name finds the last table that carries it, and nothing otherwise |
| TmstatSegment.Segment.Parse | internal/tmstat/tmstat.go:146-169 | gives a valid segment over the same data, or the source's error, for every input |
| TmstatSegment.Segment.LiveRowsOf | internal/tmstat/tmstat.go:334-346 | the first `rows` non-zero slots (all when `rows` is 0), each copied to a fresh buffer of its own |
| TmstatSegment.Segment.RawRows | internal/tmstat/tmstat.go:322-348 | those rows for the named table, or the missing-table error |
| TmstatSegment.Segment.Rows | internal/tmstat/tmstat.go:313-319 | the aggregation of the live rows, in fresh buffers, changing nothing that existed before |
| TmstatSegment.Segment.ReadAgain | internal/tmstat/tmstat.go:313-348 | a merging read disturbs neither the segment nor rows handed out earlier, and reading again gives equal rows |
| SegmentSpec.LiveRowsSnoc | internal/tmstat/tmstat.go:335-346 | the collecting loop, which stops at the limit and skips zero slots, computes the limited prefix of the non-zero rows |
| SegmentSpec.LiveRowsAre | internal/tmstat/tmstat.go:334-346 | the live rows are the slots with a non-zero byte, in file order: all, or the first `rows` of them |
| Layout.SlabSizeFoundIffDetectable | internal/tmstat/tmstat.go:152-159 | the probed size is right if and only if no stray magic precedes it, or none exists and it is the default |
| Layout.SlabSizeIs | internal/tmstat/tmstat.go:152-159 | the probed size is the first multiple of 1024 where TMSS stands, or 4096 when it stands at none |
| Layout.StrayMagicMisleads | internal/tmstat/tmstat.go:152-159 | failing inputs: any image of 4096-byte slabs whose first slab holds a magic 1024 bytes in is read with slabs of 1024 bytes |
| Layout.SecondSlabFixesTheSize | internal/tmstat/tmstat.go:152-159 | a headed second slab fixes the size when the first slab holds no stray 1024-aligned magic |
| Layout.WalkOfImage | internal/tmstat/tmstat.go:273-300 | walking written slabs gives back the written slots of the table, whatever foreign or stride-less slabs lie between |
| Layout.TablesCanBeStored | internal/tmstat/tmstat.go:174-182 | every table description has rows that store it, with any bytes where the reader does not look |
| Layout.ColumnsCanBeStored | internal/tmstat/tmstat.go:183-192 | every column description has rows that store it, with any bytes where the reader does not look |
| Layout.TablesAreRead | internal/tmstat/tmstat.go:213-229 | occupied `.table` slots between unoccupied ones decode to the stored tables under consecutive ids |
| Layout.ColumnsAreRead | internal/tmstat/tmstat.go:248-267 | occupied `.column` slots decode to each table's columns in file order |
| Layout.StoredColumnKinds | internal/tmstat/tmstat.go:76-91 | which bytes of a `.column` row make it a key, a summed counter, a number or an address |
| Layout.SegmentRoundTrip | internal/tmstat/tmstat.go:146-348 | for any tables, columns and rows in any mix of slabs, parsing recovers exactly the tables, their columns and their live rows |
| Layout.StoredRowsAreMerged | internal/tmstat/tmstat.go:313-386 | end to end, the merged rows of a stored table are the group-by of its stored rows |
| FlowTotals.Exporter.TenantFor | cmd/ovs-doca-exporter/main.go:215-222 | the tenant of the first rule whose pattern appears in the text, wherever that rule stands, else other |
| FlowTotals.KeyIs | cmd/ovs-doca-exporter/main.go:179-195 | a flow goes to that tenant and to the ingress port of its line, or to port unknown |
| FlowTotals.Exporter.Bank | cmd/ovs-doca-exporter/main.go:195-202 | adds to the key's own heap accumulator, created on first use; no other key changes |
| FlowTotals.Exporter.Fold | cmd/ovs-doca-exporter/main.go:179-202 | banks one flow's growth, or all of it when a counter dropped, under its tenant and port |
| FlowTotals.Exporter.FoldLines | cmd/ovs-doca-exporter/main.go:162-203 | counts the flows and offloaded flows, collects the live counters and banks every delta |
| FlowTotals.Exporter.Scrape | cmd/ovs-doca-exporter/main.go:155-206 | one transition of the exporter state, for a dump, a failed call or a dump cut short by the scanner |
| FlowTotals.ScrapeAll | cmd/ovs-doca-exporter/main.go:75-78 | the object after any history of dumps is the state the laws speak of |
| FlowLaws.LineAdds | cmd/ovs-doca-exporter/main.go:187-202 | in numbers: a line adds its growth over the flow's last counters when neither dropped, else its counters whole, to its own key and to no other |
| FlowLaws.ShownCounters | cmd/ovs-doca-exporter/main.go:187 | a ufid's counters after a dump are those of its last line |
| FlowLaws.FlowsAre | cmd/ovs-doca-exporter/main.go:162-170 | the flows of a dump are its lines with a ufid, in order |
| FlowLaws.ScrapeShows | cmd/ovs-doca-exporter/main.go:156-178 | a dump sets up to 1 and the two gauges to the numbers of flows and of offloaded flows; a failed call sets up to 0 and keeps everything else |
| FlowLaws.GrowthTelescopes | cmd/ovs-doca-exporter/main.go:187-194 | between two dumps, growth plus what was there is what is there plus the lives that ended |
| FlowLaws.BankedIsGrowth | cmd/ovs-doca-exporter/main.go:187-202 | what the lines of a dump bank is the growth per ufid plus what repeated ufids count again |
| FlowLaws.SeenIsTheLastDump | cmd/ovs-doca-exporter/main.go:204 | `seen` is exactly what the last dump that returned lines showed, complete or cut short |
| FlowLaws.GrowthSinceKnown | cmd/ovs-doca-exporter/main.go:184-194 | growth over the last dump exceeds growth over what was last known of each flow by exactly the earlier counters of the flows that reappear |
| FlowLaws.ScrapeBalances | cmd/ovs-doca-exporter/main.go:155-206 | the balance of one dump, complete or cut short, from any state |
| FlowLaws.TrafficIsConserved | cmd/ovs-doca-exporter/main.go:15-20 | over every history, the totals of all keys are the final counters of all ended lives, plus the last known counters of all others, plus what repeated lines and flows left out of a dump cut short made it count again |
| FlowLaws.ConservedIffNothingRecounted | cmd/ovs-doca-exporter/main.go:15-20 | traffic is counted exactly once if and only if, in every dump, no repeated line shows growth over the last dump and no flow with a non-zero counter comes back grown after a dump cut short left it out |
| FlowLaws.CompleteDumpsConserve | cmd/ovs-doca-exporter/main.go:15-20 | with complete dumps that repeat no ufid the totals are the ended lives plus the counters now shown |
| FlowLaws.RepeatedUfidCountsTwice | cmd/ovs-doca-exporter/main.go:187-202 | a failing input: a dump that shows one 10-byte flow twice publishes 20 bytes while 10 are seen |
| FlowLaws.CutShortDumpCountsTwice | cmd/ovs-doca-exporter/main.go:204-205 | a failing input: a flow at 100 bytes, left out of a dump cut short, then at 110 bytes, publishes 210 |
| FlowLaws.TotalsAreMonotone | cmd/ovs-doca-exporter/main.go:97 | along every run the key set only grows and no published total drops |
| FlowLaws.OffloadedAtMostFlows | cmd/ovs-doca-exporter/main.go:174-178 | in every reachable state at most as many flows are offloaded as there are |
| FlowLaws.FailuresAreInvisible | cmd/ovs-doca-exporter/main.go:156-160 | removing the failed calls from a history changes neither `seen` nor the totals |
| FlowLaws.MissedGrowthIsCounted | cmd/ovs-doca-exporter/main.go:156-160 | growth during a failed call is counted at the next success |
| FlowKeys.EachKeyGetsItsOwn | cmd/ovs-doca-exporter/main.go:195-202 | in one dump a key grows by the deltas of its own flows and by nothing else |
| FlowKeys.EachKeyGetsItsOwnInEveryRun | cmd/ovs-doca-exporter/main.go:195-202 | over every history a key's total is the sum of its own flows' deltas, and the key is published if and only if one of its flows was shown |
| FlowKeys.KeyRunsAlone | cmd/ovs-doca-exporter/main.go:179-202 | when flows keep their keys, what is banked for a key is what an exporter that sees only its flows banks |
| FlowKeys.KeyTrafficIsConserved | cmd/ovs-doca-exporter/main.go:15-20 | conservation key by key, over every history in which flows keep their keys |
| Wire.U64RoundTrip | internal/promwrite/promwrite.go:109-115 | every 64-bit varint decodes within ten bytes and leaves the rest |
| Wire.FieldRoundTrip | internal/promwrite/promwrite.go:105-139 | a written field decodes to itself and leaves exactly what follows |
| Wire.MessageRoundTrip | internal/promwrite/promwrite.go:105-139 | a sequence of written fields decodes to exactly those fields |
| Wire.UvarintIs | internal/promwrite/promwrite.go:109-115 | a varint is the number in groups of seven bits, least significant first, the top bit set in all bytes but the last |
| Wire.FieldIs | internal/promwrite/promwrite.go:105-139 | a field is eight times its number plus wire type 0, 1, 2 or 5, then its payload |
| PromWrite.AppendUvarint | internal/promwrite/promwrite.go:109-115 | the shift loop appends the base-128 varint |
| PromWrite.AppendBytesField | internal/promwrite/promwrite.go:117-127 | appends one length-delimited field |
| PromWrite.AppendVarintField | internal/promwrite/promwrite.go:129-132 | appends a varint field holding the 64-bit pattern of a signed value |
| PromWrite.AppendDoubleField | internal/promwrite/promwrite.go:134-139 | appends a 64-bit field |
| PromWrite.DropPerInstance | internal/promwrite/promwrite.go:78-87 | keeps the external labels other than `pod` and `node`, as SharedKeepsTheRest describes |
| PromWrite.SharedAre | internal/promwrite/promwrite.go:78-87 | the shared labels are those named neither `pod` nor `node`, in order |
| PromWrite.SharedKeepsTheRest | internal/promwrite/promwrite.go:76-87 | every other label stays with its multiplicity, `pod` and `node` vanish |
| PromWrite.SortLabels | internal/promwrite/promwrite.go:63 | a permutation of the labels in which, of two different names, the one that ends first or has the smaller byte where they first differ comes first |
| PromWrite.LessIff | internal/promwrite/promwrite.go:63 | the order of names is byte-wise: a common start, then an end or a smaller byte |
| PromWrite.EncodeLabel | internal/promwrite/promwrite.go:89-94 | the label message that LabelRoundTrip decodes |
| PromWrite.EncodeSample | internal/promwrite/promwrite.go:96-101 | the sample message that SampleRoundTrip decodes |
| PromWrite.LabelRoundTrip | internal/promwrite/promwrite.go:89-94 | an encoded label decodes to its name and value |
| PromWrite.SampleRoundTrip | internal/promwrite/promwrite.go:96-101 | an encoded sample decodes to the same double bits and the same timestamp, negative ones included |
| PromWrite.EncodeSeries | internal/promwrite/promwrite.go:65-69 | the series message that SeriesRoundTrip decodes |
| PromWrite.SeriesRoundTrip | internal/promwrite/promwrite.go:65-69 | an encoded series decodes to its labels in order and one point |
| PromWrite.LabelIs | internal/promwrite/promwrite.go:89-94 | the bytes of a label: name under tag 0x0A, value under tag 0x12 |
| PromWrite.SampleIs | internal/promwrite/promwrite.go:96-101 | the bytes of a point: the double under tag 0x09, the time under tag 0x10, negative times as 64-bit patterns |
| PromWrite.SeriesIs | internal/promwrite/promwrite.go:65-70 | the bytes of a series: its labels in order under tag 0x0A, then its point under tag 0x12 |
| PromWrite.RequestIs | internal/promwrite/promwrite.go:53-72 | the bytes of a request: its series in order under tag 0x0A |
| PromWrite.BuildWriteRequest | internal/promwrite/promwrite.go:37-74 | the request decodes to one series per sample, in order, each with its label set in byte order of the names and one point with the same bits and time |
| PromWrite.RequestRoundTrip | internal/promwrite/promwrite.go:37-74 | the same for any label order the sort may have picked |
| PromWrite.DeliveredLabels | internal/promwrite/promwrite.go:54-62 | a decoded series carries the metric as `__name__`, the external labels (the shared ones when global) and the sample's own labels, and nothing else |
| PromWrite.DeliveredInOrder | internal/promwrite/promwrite.go:63 | of two of its labels with different names, the earlier name ends first or has the smaller byte where they first differ |
| PromWrite.SortedOrderIsUnique | internal/promwrite/promwrite.go:63 | a sorted permutation is unique when no two different labels share a name |
| PromWrite.ReplicasWriteTheSame | cmd/tmm-stat-exporter/remotewrite.go:25-50 | exporters whose external labels differ only in `pod` and `node`, or in order, write identical bytes for global samples |
| Resp.ReplyRoundTrip | cmd/tmm-stat-exporter/redis.go:78-124 | reading any encoded value gives it back and leaves the following bytes unread; a value with errors gives its first error and leaves what is behind it |
| Resp.EncodingIs | cmd/tmm-stat-exporter/redis.go:65-121 | the type bytes `+ - : $ *`, the decimal lengths and the line ends of the protocol |
| Resp.LineIsRead | cmd/tmm-stat-exporter/redis.go:78-124 | what the reader makes of any line: short lines, unknown types, bad numbers, null replies and missing data included |
| Resp.CutReplyFails | cmd/tmm-stat-exporter/redis.go:78-136 | a reply cut off anywhere, between array elements too, is never taken for a reply: the end of the stream is reported |
| Resp.InStepIffErrorComesLast | cmd/tmm-stat-exporter/redis.go:90-121 | exactly the value is consumed if and only if nothing in it follows its first error |
| Resp.EarlyErrorLeavesTheRest | cmd/tmm-stat-exporter/redis.go:115-121 | a failing input: after an array whose first element is an error, the next reply read is the array's second element |
| Resp.CommandReadsBack | cmd/tmm-stat-exporter/redis.go:65-121 | the reader undoes the writer: a command reads back as the array of its arguments |
| RespClient.Client.ReadString | cmd/tmm-stat-exporter/redis.go:79-82 | takes the bytes up to the first line feed; at the end of the stream everything is consumed |
| RespClient.Client.ReadFull | cmd/tmm-stat-exporter/redis.go:126-136 | fills the buffer with the next bytes however they arrive in chunks, and fails exactly when too few are left |
| RespClient.Client.ReadReply | cmd/tmm-stat-exporter/redis.go:78-124 | the recursive stream parser terminates on every stream and computes the result and the unread rest that the round trips speak of |
| RespClient.Client.ReadItems | cmd/tmm-stat-exporter/redis.go:115-121 | fills an array element by element and stops at the first failure |
| RespClient.Client.Send | cmd/tmm-stat-exporter/redis.go:66-70 | writes the command bytes that CommandReadsBack decodes |
| RespClient.Client.Do | cmd/tmm-stat-exporter/redis.go:66-75 | sends one command and consumes one reply |
| RespClient.Client.Get | cmd/tmm-stat-exporter/redis.go:166-173 | the string value, or nothing for errors and other replies, after exactly one reply |
| RespClient.Client.ScanMatch | cmd/tmm-stat-exporter/redis.go:139-163 | the cursor loop terminates on every stream, with the keys, commands and unread rest of the scan |
| RespClient.ScanCollectsEveryPage | cmd/tmm-stat-exporter/redis.go:138-163 | from a server that follows the protocol, all keys of all pages in order, one command per page with the previous cursor, and the rest unread |
| RespClient.ScanAsks | cmd/tmm-stat-exporter/redis.go:139-163 | the bytes a scan sends read back, command by command, as `SCAN cursor MATCH pattern COUNT n`: cursor 0 first, then the cursor of the page before |
| RespClient.ScanStep | cmd/tmm-stat-exporter/redis.go:143-161 | every reply, well-formed or not, ends or continues the scan as the source does |
| RespClient.StringsAre | cmd/tmm-stat-exporter/redis.go:151-157 | of a batch exactly the strings are collected, in order |
| RespClient.GetAsks | cmd/tmm-stat-exporter/redis.go:166-168 | `Get` sends `GET key` |
| Addresses.DecodeAddr | internal/tmstat/tmstat.go:98-115 | decodes 20 hex parts to IP text, or nothing; DecodeOfRendered says what that means for rendered addresses |
| Addresses.DecodeOfRendered | internal/tmstat/tmstat.go:93-115 | decoding a rendered address of 20 bytes gives its IP text; other lengths are not decoded |
| Addresses.JoinedDecodes | internal/tmstat/tmstat.go:98-115 | twenty hex numbers of one byte with colons between them decode, in either case and with any leading zeros, to the IP text of those bytes |
| Addresses.DecodedIsJoined | internal/tmstat/tmstat.go:98-115 | nothing else decodes |
| Addresses.IpTextIs | internal/tmstat/tmstat.go:111-114 | the IP text: bytes 12 to 15 as decimal numbers in that order with dots between them when bytes 10 and 11 are 255, else the library's text of bytes 0 to 15 |
| Addresses.DottedQuadInjective | internal/tmstat/tmstat.go:111-113 | different IPv4 addresses have different texts |
| Addresses.DecodeAlikeIff | internal/tmstat/tmstat.go:98-115 | two addresses decode alike if and only if they agree on the bytes decoding keeps |
| Addresses.GroupsAreIp6Text | internal/tmstat/tmstat.go:114 | what is assumed of the library's IPv6 text can be met: printing all eight groups meets it |
| Addresses.LinkLocal6Iff | cmd/tmm-stat-exporter/main.go:414-419 | the prefix test on the text of an IPv6 address holds if and only if its first group is fe80, so of fe80::/10 it sees fe80::/16 only |
| Addresses.FebfIsMissed | cmd/tmm-stat-exporter/main.go:414-419 | a failing input: febf:: lies in fe80::/10 and is not seen as link-local |
| Addresses.LinkLocalIff | cmd/tmm-stat-exporter/main.go:414-419 | the prefix test on the text of an IPv4-mapped address holds if and only if bytes 12 and 13 are 169 and 254 |
| Collector.CheckInternal | cmd/tmm-stat-exporter/main.go:393-406 | a row is internal when a key column starts with an underscore or decodes to a link-local address |
| Collector.MarksInternalIff | cmd/tmm-stat-exporter/main.go:394-403 | said of the row's bytes, a 20-byte address column makes it internal if and only if it is IPv4 in 169.254.0.0/16 or IPv6 in fe80::/16 |
| Collector.InternalColumnIff | cmd/tmm-stat-exporter/main.go:393-406 | for columns of every kind: exactly text that starts with an underscore and 20-byte addresses in those two ranges make a row internal |
| Collector.VisibleAre | cmd/tmm-stat-exporter/main.go:390-412 | the visible rows are those that no key column marks, in order |
| Collector.DropInternal | cmd/tmm-stat-exporter/main.go:390-412 | overwriting the slice it iterates, the filter leaves exactly the visible rows, in order, at the front |
| Collector.RowLabels | cmd/tmm-stat-exporter/main.go:233-245 | one label per key column, with decoded addresses |
| Collector.TrimStatDropsTheSuffix | cmd/tmm-stat-exporter/main.go:229 | one `_stat` suffix is dropped and any other name kept |
| Collector.MetricIs | cmd/tmm-stat-exporter/main.go:229-231 | the metric is `f5tmm_`, the sanitized table name without `_stat`, an underscore and the sanitized column name |
| Collector.ValueColumnsAre | cmd/tmm-stat-exporter/main.go:212-220 | the value columns are the numeric columns that are no keys, in schema order |
| Collector.ReadingIs | cmd/tmm-stat-exporter/main.go:230-247 | reading `c * rows + r` belongs to value column `c` and row `r`: its metric, one label per key column, and as value the unsigned or two's-complement number in the column's bytes |
| Collector.CollectTable | cmd/tmm-stat-exporter/main.go:212-248 | the samples of a table: per value column, one per visible row, in order |
| Collector.SameLabelsIff | cmd/tmm-stat-exporter/main.go:233-245 | two rows carry the same labels if and only if every key column shows the same |
| Collector.ShownAlikeIff | cmd/tmm-stat-exporter/main.go:235-243 | a column shows the same in two rows if and only if fitting 20-byte addresses agree on the bytes decoding keeps, and anything else renders the same |
| Collector.LabelsAlikeIff | cmd/tmm-stat-exporter/main.go:233-245 | for every list of key columns, labels are equal if and only if the rows are alike on each |
| Collector.InputKeyIsMerged | cmd/tmm-stat-exporter/main.go:208-225 | every input row's key is the key of a merged row |
| Collector.MergedRowShowsAnInputKey | cmd/tmm-stat-exporter/main.go:208-225 | every merged row renders the key columns of an input row |
| Collector.LabelSetsAreUnique | cmd/tmm-stat-exporter/main.go:221-247 | after merging, dropping internal rows and decoding, no two rows carry the same labels if and only if labels identify the keys of the input rows that are not internal, whatever the IPv6 text |
| Collector.LabelSetsAreUniqueIff | cmd/tmm-stat-exporter/main.go:221-247 | the same on the rows' bytes: unique if and only if input rows that are not internal and are alike on every key column have the same key |
| Collector.RouteDomainsCollide | cmd/tmm-stat-exporter/main.go:236-243 | a failing input: members of one pool with one address and port in two route domains get equal labels |
| Collector.AddressLabelsCollideIff | cmd/tmm-stat-exporter/main.go:236-243 | the case of LabelsAlikeIff of a table keyed by one address alone |
| Delivery.TableSeriesDistinctIff | cmd/tmm-stat-exporter/main.go:226-248 | the readings of a table have different metrics or labels if and only if value column names stay different when sanitized (if there are rows) and rows carry different labels (if there are value columns) |
| Delivery.CollectedSeriesDistinctIff | cmd/tmm-stat-exporter/main.go:208-248 | the same on the schema and the input rows, tables without key columns included |
| Delivery.DotAndUnderscoreCollide | cmd/tmm-stat-exporter/main.go:229-247 | a failing input: columns `a.b` and `a_b` give one series twice |
| Delivery.LabelNamesUniqueIff | internal/promwrite/promwrite.go:21-62 | the label names of a collected sample are unique if and only if key columns, external labels and `__name__` share no name |
| Delivery.KeyAndExternalLabelCollide | internal/promwrite/promwrite.go:21-62 | a failing input: a key column `pod` next to an external label `pod` |
| Delivery.DeliveredNamesUniqueIff | internal/promwrite/promwrite.go:21-74 | a receiver finds the label names of every series sorted, and unique under exactly that condition |
| Delivery.DeliveredSeriesDistinctIff | cmd/tmm-stat-exporter/main.go:208-248 | end to end, the series a receiver decodes from a table's request are pairwise different if and only if the table's columns and rows are told apart |
| TextFormat.Sanitize | cmd/tmm-stat-exporter/main.go:517-535 | the byte loop computes the mapping that the next two rows characterize |
| TextFormat.SanitizedIsName | cmd/tmm-stat-exporter/main.go:515-535 | any non-empty string becomes a valid name |
| TextFormat.SanitizeKeepsNames | cmd/tmm-stat-exporter/main.go:515-535 | valid names are not changed |
| TextFormat.SanitizedBytes | cmd/tmm-stat-exporter/main.go:515-535 | byte by byte: letters, digits, underscores and colons stay, all else becomes an underscore, and one is put before a leading digit |
| TextFormat.EscapeLabel | cmd/tmm-stat-exporter/main.go:537-543 | escapes backslashes, quotes and newlines byte by byte; the shortcut for plain strings gives the same |
| TextFormat.WriteTextLabels | cmd/tmm-stat-exporter/main.go:498-513 | appends the printed label set, nothing for an empty one |
| TextFormat.EscapedIs | cmd/tmm-stat-exporter/main.go:537-543 | backslash, quote and newline are the bytes that are escaped, and how |
| TextFormat.LabelsTextOfOne | cmd/tmm-stat-exporter/main.go:498-513 | one label prints as a pair in braces, none as nothing |
| TextFormat.LabelsTextSnoc | cmd/tmm-stat-exporter/main.go:498-513 | a further label adds a comma and its pair before the closing brace |
| TextFormat.QuotedRoundTrip | cmd/tmm-stat-exporter/main.go:509-510 | an escaped value between quotes parses back, whatever its bytes |
| TextFormat.LabelsReadBack | cmd/tmm-stat-exporter/main.go:498-543 | a printed label set parses back to the same labels; with the strict label grammar, if and only if no name has a colon |
| TextFormat.SanitizedColonIsRejected | cmd/tmm-stat-exporter/main.go:515-535 | a failing input: `a:b` is kept by sanitizing and its label set is rejected by the strict grammar |
| TextFormat.LabelsStayOnOneLine | cmd/tmm-stat-exporter/main.go:498-543 | printed label sets contain no raw newline |

## Left out

- Network, TLS, HTTP, unix sockets, tickers, deadlines and logging: plumbing around the modelled steps.
- Compression, regular expressions and the printing of doubles: library code; the model starts from the matched fields, the uncompressed bytes and 64-bit patterns.
- IPv6 text: a parameter; where it matters it is assumed to follow section 4 of RFC 5952 as far as `Ip6Text` spells out, for addresses that are not IPv4-mapped, the only ones it is asked for.
- `internal/inject`, `internal/stack`, `internal/assets`, `cmd/tmmscope` and `cmd/tmm-stat-webhook`: command wrappers with branch-level behaviour only.
- `collectTokens` and the token member format: repeated keys of a scan are not deduplicated, so no uniqueness holds.
- `CSV`: no quoting, hence not invertible.
- Flag, label and rule parsing from the command line: string splitting.
- `samples()` of the OVS-DOCA exporter: a map iteration in no fixed order over the totals that are modelled.
- TmstatSegment.Segment.WalkSlabRows: the callback is modelled as the list of slots it is called with, which it cannot influence.
- TmstatSegment.Aggregate: sizes above 8 bytes are covered by the method and the fold; the group-by description is stated for counters of at most 8 bytes.
- FlowTotals.Exporter.Scrape: counters are natural numbers, because doubles are exact below 2^53; what happens beyond is not modelled.
- Collector.CollectTable: values are the exact integers before they are rounded to doubles; the loop over segments and configured tables around it is not modelled, so series are told apart within one table and not across tables.
- PromWrite.SortLabels: returns the sorted labels instead of reordering a slice in place; the label slice is local to the encoder.
- PromWrite.BuildWriteRequest: the round trip is stated for requests of at most 2^63 - 1 bytes, the longest slice there can be.
- RespClient.Client.Do: a failing flush is not modelled.
- RespClient.Client.ReadReply: memory for the length a reply announces is always available.
