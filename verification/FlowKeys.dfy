// Attribution of traffic to keys, over every history of dumps.

module FlowKeys {
  import opened ByteStrings
  import opened Wrappers
  import opened FlowTotals
  import opened FlowLaws

  // ----- attribution to keys

  /** What the flows attributed to key `k` add in one dump. */
  function BankedFor(rules: seq<Rule>, prev: map<Bytes, Counter>, fs: seq<Line>, k: Key, f: Field): nat
    requires AllFlows(fs)
  {
    if fs == [] then 0
    else
      var l := fs[|fs| - 1];
      BankedFor(rules, prev, fs[..|fs| - 1], k, f)
      + if KeyOf(rules, l) == k then Get(Delta(prev, l.ufid.value, CounterOf(l)), f) else 0
  }

  function Published(totals: map<Key, Counter>, k: Key, f: Field): nat {
    if k in totals then Get(totals[k], f) else 0
  }

  predicate FlowOfKey(rules: seq<Rule>, fs: seq<Line>, k: Key) {
    exists i :: 0 <= i < |fs| && KeyOf(rules, fs[i]) == k
  }

  /** In one dump a key's total grows by its own flows' deltas and by nothing else, and a
      key appears when one of its flows does. */
  lemma {:induction false} EachKeyGetsItsOwn(rules: seq<Rule>, totals: map<Key, Counter>, prev: map<Bytes, Counter>,
                                             fs: seq<Line>, k: Key, f: Field)
    requires AllFlows(fs)
    ensures Published(AddDeltas(rules, totals, prev, fs), k, f)
         == Published(totals, k, f) + BankedFor(rules, prev, fs, k, f)
    ensures k in AddDeltas(rules, totals, prev, fs)
            <==> k in totals || FlowOfKey(rules, fs, k)
  {
    hide Delta, KeyOf;
    if fs != [] {
      var n := |fs| - 1;
      EachKeyGetsItsOwn(rules, totals, prev, fs[..n], k, f);
      assert forall i :: 0 <= i < n ==> fs[..n][i] == fs[i];
    }
  }

  /** What the flows attributed to key `k` add over a history. */
  function BankedForIn(rules: seq<Rule>, h: seq<Dump>, k: Key, f: Field): nat {
    if h == [] then 0
    else
      var n := |h| - 1;
      BankedForIn(rules, h[..n], k, f)
      + match h[n]
        case Failed => 0
        case Dumped(lines, _) => BankedFor(rules, LastShown(h[..n]), FlowsIn(lines), k, f)
  }

  /** Some dump of the history shows a flow of key `k`. */
  predicate Occurs(rules: seq<Rule>, h: seq<Dump>, k: Key) {
    exists n :: 0 <= n < |h| && h[n].Dumped? && FlowOfKey(rules, FlowsIn(h[n].lines), k)
  }

  lemma OccursSnoc(rules: seq<Rule>, h: seq<Dump>, k: Key)
    requires h != []
    ensures var n := |h| - 1;
            Occurs(rules, h, k)
            <==> Occurs(rules, h[..n], k) || (h[n].Dumped? && FlowOfKey(rules, FlowsIn(h[n].lines), k))
  {
    hide FlowOfKey, FlowsIn;
    var n := |h| - 1;
    assert forall m :: 0 <= m < n ==> h[..n][m] == h[m];
  }

  lemma NothingOccurs(rules: seq<Rule>, k: Key)
    ensures !Occurs(rules, [], k)
  {
  }

  /** Over every history a key's total is the sum of its own flows' deltas, and a key is
      published if and only if one of its flows was shown. */
  lemma {:induction false} EachKeyGetsItsOwnInEveryRun(rules: seq<Rule>, h: seq<Dump>, k: Key, f: Field)
    ensures Published(Run(rules, h).totals, k, f) == BankedForIn(rules, h, k, f)
    ensures k in Run(rules, h).totals <==> Occurs(rules, h, k)
  {
    hide AddDeltas, LiveOf, FlowsIn, FlowOfKey, BankedFor, Occurs, LastShown, Offloaded;
    if h == [] {
      NothingOccurs(rules, k);
    } else {
      var n := |h| - 1;
      var s := Run(rules, h[..n]);
      EachKeyGetsItsOwnInEveryRun(rules, h[..n], k, f);
      OccursSnoc(rules, h, k);
      if h[n].Dumped? {
        SeenIsTheLastDump(rules, h[..n]);
        EachKeyGetsItsOwn(rules, s.totals, s.seen, FlowsIn(h[n].lines), k, f);
      }
    }
  }

  // ----- the traffic of one key

  /** The lines attributed to key `k`. */
  function LinesOf(rules: seq<Rule>, lines: seq<Line>, k: Key): (r: seq<Line>)
    ensures AllFlows(lines) ==> AllFlows(r)
  {
    if lines == [] then []
    else
      var n := |lines| - 1;
      LinesOf(rules, lines[..n], k) + if KeyOf(rules, lines[n]) == k then [lines[n]] else []
  }

  function DumpOf(rules: seq<Rule>, d: Dump, k: Key): Dump {
    match d
    case Failed => Failed
    case Dumped(lines, complete) => Dumped(LinesOf(rules, lines, k), complete)
  }

  /** The history as it would be if only flows of key `k` existed. */
  function Only(rules: seq<Rule>, h: seq<Dump>, k: Key): (r: seq<Dump>)
    ensures |r| == |h|
  {
    if h == [] then []
    else
      var n := |h| - 1;
      Only(rules, h[..n], k) + [DumpOf(rules, h[n], k)]
  }

  /** Every flow keeps its key. */
  predicate KeepTheirKeys(rules: seq<Rule>, lines: seq<Line>, owner: Bytes -> Key) {
    forall i :: 0 <= i < |lines| && lines[i].ufid.Some? ==> KeyOf(rules, lines[i]) == owner(lines[i].ufid.value)
  }

  predicate AllKeepTheirKeys(rules: seq<Rule>, h: seq<Dump>, owner: Bytes -> Key) {
    forall n :: 0 <= n < |h| && h[n].Dumped? ==> KeepTheirKeys(rules, h[n].lines, owner)
  }

  function Owned(m: map<Bytes, Counter>, owner: Bytes -> Key, k: Key): map<Bytes, Counter> {
    map u | u in m && owner(u) == k :: m[u]
  }

  lemma LinesOfSnoc(rules: seq<Rule>, lines: seq<Line>, l: Line, k: Key)
    ensures LinesOf(rules, lines + [l], k)
         == if KeyOf(rules, l) == k then LinesOf(rules, lines, k) + [l] else LinesOf(rules, lines, k)
  {
    hide KeyOf;
    assert (lines + [l])[..|lines|] == lines;
  }

  lemma FlowsInSnoc(lines: seq<Line>, l: Line)
    ensures FlowsIn(lines + [l]) == if l.ufid.Some? then FlowsIn(lines) + [l] else FlowsIn(lines)
  {
    assert (lines + [l])[..|lines|] == lines;
  }

  lemma {:induction false} FlowsOfKey(rules: seq<Rule>, lines: seq<Line>, k: Key)
    ensures FlowsIn(LinesOf(rules, lines, k)) == LinesOf(rules, FlowsIn(lines), k)
  {
    if lines == [] {
      assert LinesOf(rules, lines, k) == [] == FlowsIn(lines);
    } else {
      hide KeyOf, LinesOf, FlowsIn;
      var front, l := lines[..|lines| - 1], lines[|lines| - 1];
      assert lines == front + [l];
      FlowsOfKey(rules, front, k);
      LinesOfSnoc(rules, front, l, k);
      FlowsInSnoc(front, l);
      FlowsInSnoc(LinesOf(rules, front, k), l);
      LinesOfSnoc(rules, FlowsIn(front), l, k);
    }
  }

  lemma {:induction false} FlowsKeepTheirKeys(rules: seq<Rule>, lines: seq<Line>, owner: Bytes -> Key)
    requires KeepTheirKeys(rules, lines, owner)
    ensures KeepTheirKeys(rules, FlowsIn(lines), owner)
  {
    hide KeyOf;
    if lines != [] {
      var n := |lines| - 1;
      assert forall i :: 0 <= i < n ==> lines[..n][i] == lines[i];
      FlowsKeepTheirKeys(rules, lines[..n], owner);
    }
  }

  lemma FrontKeeps(rules: seq<Rule>, front: seq<Line>, l: Line, owner: Bytes -> Key)
    requires AllFlows(front + [l]) && KeepTheirKeys(rules, front + [l], owner)
    ensures AllFlows(front) && KeepTheirKeys(rules, front, owner)
    ensures l.ufid.Some? && KeyOf(rules, l) == owner(l.ufid.value)
  {
    hide KeyOf;
    var fs := front + [l];
    assert fs[|front|] == l;
    assert forall i :: 0 <= i < |front| ==> front[i] == fs[i];
  }

  lemma {:induction false} LiveOfKey(rules: seq<Rule>, fs: seq<Line>, owner: Bytes -> Key, k: Key)
    requires AllFlows(fs) && KeepTheirKeys(rules, fs, owner)
    ensures LiveOf(LinesOf(rules, fs, k)) == Owned(LiveOf(fs), owner, k)
  {
    if fs == [] {
      assert LinesOf(rules, fs, k) == [] && Owned(map[], owner, k) == map[];
    } else {
      hide *;
      var front, l := fs[..|fs| - 1], fs[|fs| - 1];
      assert fs == front + [l];
      FrontKeeps(rules, front, l, owner);
      LiveOfKey(rules, front, owner, k);
      LinesOfSnoc(rules, front, l, k);
      NextFlow(rules, map[], map[], front, l);
      NextFlow(rules, map[], map[], LinesOf(rules, front, k), l);
      OwnedUpdate(LiveOf(front), owner, k, l.ufid.value, CounterOf(l));
    }
  }

  lemma OwnedUpdate(m: map<Bytes, Counter>, owner: Bytes -> Key, k: Key, u: Bytes, c: Counter)
    ensures Owned(m[u := c], owner, k) == if owner(u) == k then Owned(m, owner, k)[u := c] else Owned(m, owner, k)
  {
  }

  lemma BankedSnoc(rules: seq<Rule>, prev: map<Bytes, Counter>, fs: seq<Line>, l: Line, k: Key, f: Field)
    requires AllFlows(fs) && l.ufid.Some?
    ensures AllFlows(fs + [l])
    ensures var d := Get(Delta(prev, l.ufid.value, CounterOf(l)), f);
            && Banked(prev, fs + [l], f) == Banked(prev, fs, f) + d
            && BankedFor(rules, prev, fs + [l], k, f)
               == BankedFor(rules, prev, fs, k, f) + if KeyOf(rules, l) == k then d else 0
  {
    hide KeyOf, Delta;
    assert (fs + [l])[..|fs|] == fs;
  }

  lemma DeltaOfOwned(prev: map<Bytes, Counter>, owner: Bytes -> Key, k: Key, u: Bytes, now: Counter)
    requires owner(u) == k
    ensures Delta(Owned(prev, owner, k), u, now) == Delta(prev, u, now)
  {
  }

  lemma {:induction false} BankedOfKey(rules: seq<Rule>, prev: map<Bytes, Counter>, fs: seq<Line>,
                                       owner: Bytes -> Key, k: Key, f: Field)
    requires AllFlows(fs) && KeepTheirKeys(rules, fs, owner)
    ensures BankedFor(rules, prev, fs, k, f) == Banked(Owned(prev, owner, k), LinesOf(rules, fs, k), f)
  {
    if fs == [] {
      assert LinesOf(rules, fs, k) == [];
    } else {
      hide *;
      var front, l := fs[..|fs| - 1], fs[|fs| - 1];
      assert fs == front + [l];
      FrontKeeps(rules, front, l, owner);
      BankedOfKey(rules, prev, front, owner, k, f);
      LinesOfSnoc(rules, front, l, k);
      BankedSnoc(rules, prev, front, l, k, f);
      BankedSnoc(rules, Owned(prev, owner, k), LinesOf(rules, front, k), l, k, f);
      if KeyOf(rules, l) == k {
        DeltaOfOwned(prev, owner, k, l.ufid.value, CounterOf(l));
      }
    }
  }

  lemma ShownOfNothing(rules: seq<Rule>, owner: Bytes -> Key, k: Key)
    ensures LastShown(Only(rules, [], k)) == Owned(LastShown([]), owner, k)
  {
  }

  lemma OnlySnoc(rules: seq<Rule>, h: seq<Dump>, k: Key)
    requires h != []
    ensures var n := |h| - 1;
            Only(rules, h, k)[..n] == Only(rules, h[..n], k) && Only(rules, h, k)[n] == DumpOf(rules, h[n], k)
  {
  }

  lemma {:induction false} ShownOfKey(rules: seq<Rule>, h: seq<Dump>, owner: Bytes -> Key, k: Key)
    requires AllKeepTheirKeys(rules, h, owner)
    ensures LastShown(Only(rules, h, k)) == Owned(LastShown(h), owner, k)
  {
    hide KeepTheirKeys, LiveOf, FlowsIn, LinesOf, Owned, Only, AllFlows;
    if h == [] {
      ShownOfNothing(rules, owner, k);
    } else {
      var n := |h| - 1;
      OnlySnoc(rules, h, k);
      ShownOfKey(rules, h[..n], owner, k);
      if h[n].Dumped? {
        FlowsOfKey(rules, h[n].lines, k);
        FlowsKeepTheirKeys(rules, h[n].lines, owner);
        LiveOfKey(rules, FlowsIn(h[n].lines), owner, k);
      }
    }
  }

  /** What is banked for a key is what an exporter that sees only its flows banks. */
  lemma {:induction false} KeyRunsAlone(rules: seq<Rule>, h: seq<Dump>, owner: Bytes -> Key, k: Key, f: Field)
    requires AllKeepTheirKeys(rules, h, owner)
    ensures BankedForIn(rules, h, k, f) == Sum(Run(rules, Only(rules, h, k)).totals, f)
  {
    hide KeepTheirKeys, LiveOf, FlowsIn, LinesOf, Owned, Only, AllFlows, AddDeltas, BankedFor, Banked, LastShown, Sum,
      Offloaded;
    if h == [] {
      assert Only(rules, h, k) == [];
      SumOfNothing<Key>(f);
    } else {
      var n := |h| - 1;
      var only := Only(rules, h, k);
      OnlySnoc(rules, h, k);
      KeyRunsAlone(rules, h[..n], owner, k, f);
      if h[n].Dumped? {
        var lines := h[n].lines;
        var s := Run(rules, only[..n]);
        FlowsOfKey(rules, lines, k);
        FlowsKeepTheirKeys(rules, lines, owner);
        BankedOfKey(rules, LastShown(h[..n]), FlowsIn(lines), owner, k, f);
        ShownOfKey(rules, h[..n], owner, k);
        SeenIsTheLastDump(rules, only[..n]);
        TotalsGainBanked(rules, s.totals, s.seen, FlowsIn(only[n].lines), f);
      }
    }
  }

  /** Conservation key by key: when flows keep their keys, a key's total holds the ended
      lives and the last known counters of its own flows, and what was counted again of
      them. */
  lemma {:induction false} KeyTrafficIsConserved(rules: seq<Rule>, h: seq<Dump>, owner: Bytes -> Key, k: Key, f: Field)
    requires AllKeepTheirKeys(rules, h, owner)
    ensures var own := Only(rules, h, k);
            Published(Run(rules, h).totals, k, f)
            == EndedIn(own, f) + Sum(Known(own), f) + RecountedIn(own, f) + ReappearedIn(own, f)
  {
    hide *;
    EachKeyGetsItsOwnInEveryRun(rules, h, k, f);
    KeyRunsAlone(rules, h, owner, k, f);
    TrafficIsConserved(rules, Only(rules, h, k), f);
  }
}
