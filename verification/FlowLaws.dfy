// Laws of the flow totals over every history of dumps: conservation of traffic,
// monotone totals, and what a failed call leaves alone.

module FlowLaws {
  import opened ByteStrings
  import opened Wrappers
  import opened FlowTotals
  import opened Selection

  // ----- sums over maps

  datatype Field = BytesField | PacketsField

  function Get(c: Counter, f: Field): nat {
    match f
    case BytesField => c.bytes
    case PacketsField => c.packets
  }

  ghost function Sum<K>(m: map<K, Counter>, f: Field): nat {
    if m == map[] then 0
    else
      var k :| k in m;
      Get(m[k], f) + Sum(m - {k}, f)
  }

  lemma {:induction false} SumRemove<K>(m: map<K, Counter>, k: K, f: Field)
    requires k in m
    ensures Sum(m, f) == Get(m[k], f) + Sum(m - {k}, f)
    decreases |m|
  {
    var j :| j in m && Sum(m, f) == Get(m[j], f) + Sum(m - {j}, f);
    if j != k {
      SumRemove(m - {j}, k, f);
      SumRemove(m - {k}, j, f);
      assert m - {j} - {k} == m - {k} - {j};
    }
  }

  lemma SumUpdate<K>(m: map<K, Counter>, k: K, c: Counter, f: Field)
    ensures Sum(m[k := c], f) + (if k in m then Get(m[k], f) else 0) == Sum(m, f) + Get(c, f)
  {
    SumRemove(m[k := c], k, f);
    if k in m {
      SumRemove(m, k, f);
      assert m[k := c] - {k} == m - {k};
    } else {
      assert m[k := c] - {k} == m;
    }
  }

  lemma UnionWithout<K>(a: map<K, Counter>, b: map<K, Counter>, k: K)
    requires k in b && k !in a
    ensures (a + b) - {k} == a + (b - {k}) && k in a + b && (a + b)[k] == b[k]
  {
  }

  lemma {:induction false} SumOfUnion<K>(a: map<K, Counter>, b: map<K, Counter>, f: Field)
    requires a.Keys !! b.Keys
    ensures Sum(a + b, f) == Sum(a, f) + Sum(b, f)
    decreases |b|
  {
    hide Sum;
    if b == map[] {
      SumOfNothing<K>(f);
      assert a + b == a;
    } else {
      var k :| k in b;
      assert k !in a;
      UnionWithout(a, b, k);
      SumRemove(b, k, f);
      SumRemove(a + b, k, f);
      SumOfUnion(a, b - {k}, f);
    }
  }

  lemma SumOfNothing<K>(f: Field)
    ensures Sum<K>(map[], f) == 0
  {
  }

  lemma SumOfOne<K>(k: K, c: Counter, f: Field)
    ensures Sum(map[k := c], f) == Get(c, f)
  {
    hide Sum;
    SumRemove(map[k := c], k, f);
    assert map[k := c] - {k} == map[];
    SumOfNothing<K>(f);
  }

  lemma {:induction false} SumIsZeroIff<K>(m: map<K, Counter>, f: Field)
    ensures Sum(m, f) == 0 <==> forall k :: k in m ==> Get(m[k], f) == 0
    decreases |m|
  {
    hide Sum;
    if m == map[] {
      SumOfNothing<K>(f);
    } else {
      var k :| k in m;
      SumRemove(m, k, f);
      SumIsZeroIff(m - {k}, f);
      assert forall l :: l in m <==> l == k || l in m - {k};
    }
  }

  // ----- lives

  /** The flow goes on from one dump to the next: it is still there and neither
      counter dropped. */
  predicate GoesOn(before: map<Bytes, Counter>, now: map<Bytes, Counter>, u: Bytes) {
    u in before && u in now && Grew(before[u], now[u])
  }

  /** The flow lives that do not go on, with their last counters. */
  function Ended(before: map<Bytes, Counter>, now: map<Bytes, Counter>): map<Bytes, Counter> {
    map u | u in before && !GoesOn(before, now, u) :: before[u]
  }

  /** What each ufid of a dump adds since the dump before it. */
  function Deltas(before: map<Bytes, Counter>, now: map<Bytes, Counter>): map<Bytes, Counter> {
    map u | u in now :: Delta(before, u, now[u])
  }

  lemma DropOneUfid(before: map<Bytes, Counter>, now: map<Bytes, Counter>, u: Bytes)
    requires u in now
    ensures Deltas(before, now) - {u} == Deltas(before, now - {u})
    ensures if GoesOn(before, now, u) then u in Ended(before, now - {u})
                                           && Ended(before, now - {u}) - {u} == Ended(before, now)
            else Ended(before, now - {u}) == Ended(before, now)
  {
    hide Delta;
  }

  /** Telescoping across one pair of dumps: the growth, on top of what was there, is
      what is there now and what ended. */
  lemma {:induction false} GrowthTelescopes(before: map<Bytes, Counter>, now: map<Bytes, Counter>, f: Field)
    ensures Sum(Deltas(before, now), f) + Sum(before, f) == Sum(now, f) + Sum(Ended(before, now), f)
    decreases |now|
  {
    hide Sum;
    if now == map[] {
      assert Ended(before, now) == before;
      assert Deltas(before, now) == now;
    } else {
      var u :| u in now;
      var rest := now - {u};
      GrowthTelescopes(before, rest, f);
      SumRemove(now, u, f);
      SumRemove(Deltas(before, now), u, f);
      DropOneUfid(before, now, u);
      if GoesOn(before, now, u) {
        SumRemove(Ended(before, rest), u, f);
      }
    }
  }

  // ----- what one dump banks

  /** What the lines of one dump add, line by line. */
  function Banked(prev: map<Bytes, Counter>, fs: seq<Line>, f: Field): nat
    requires AllFlows(fs)
  {
    if fs == [] then 0
    else
      var l := fs[|fs| - 1];
      Banked(prev, fs[..|fs| - 1], f) + Get(Delta(prev, l.ufid.value, CounterOf(l)), f)
  }

  /** What is banked more than once because a later line of the same dump repeats
      the ufid. */
  function Recounted(prev: map<Bytes, Counter>, fs: seq<Line>, f: Field): nat
    requires AllFlows(fs)
  {
    if fs == [] then 0
    else
      var live, u := LiveOf(fs[..|fs| - 1]), fs[|fs| - 1].ufid.value;
      Recounted(prev, fs[..|fs| - 1], f) + if u in live then Get(Delta(prev, u, live[u]), f) else 0
  }

  lemma {:induction false} BankedIsGrowth(prev: map<Bytes, Counter>, fs: seq<Line>, f: Field)
    requires AllFlows(fs)
    ensures Banked(prev, fs, f) == Sum(Deltas(prev, LiveOf(fs)), f) + Recounted(prev, fs, f)
  {
    hide Delta;
    if fs == [] {
      assert Deltas(prev, LiveOf(fs)) == map[];
    } else {
      var l, front := fs[|fs| - 1], fs[..|fs| - 1];
      var u, c := l.ufid.value, CounterOf(l);
      BankedIsGrowth(prev, front, f);
      SumUpdate(Deltas(prev, LiveOf(front)), u, Delta(prev, u, c), f);
      assert Deltas(prev, LiveOf(fs)) == Deltas(prev, LiveOf(front))[u := Delta(prev, u, c)];
    }
  }

  lemma {:induction false} TotalsGainBanked(rules: seq<Rule>, totals: map<Key, Counter>, prev: map<Bytes, Counter>,
                                            fs: seq<Line>, f: Field)
    requires AllFlows(fs)
    ensures Sum(AddDeltas(rules, totals, prev, fs), f) == Sum(totals, f) + Banked(prev, fs, f)
  {
    hide Delta, KeyOf;
    if fs != [] {
      var l, front := fs[|fs| - 1], fs[..|fs| - 1];
      TotalsGainBanked(rules, totals, prev, front, f);
      var m, k, d := AddDeltas(rules, totals, prev, front), KeyOf(rules, l), Delta(prev, l.ufid.value, CounterOf(l));
      SumUpdate(m, k, Plus(if k in m then m[k] else Counter(0, 0), d), f);
    }
  }

  // ----- what is known of the flows
  //
  // A dump that the scanner cut short says nothing of the flows it does not show: they
  // may live on.  So a life ends when a counter drops or when a complete dump no longer
  // shows the flow.

  /** The counters of the last dump that returned lines, complete or cut short. */
  function LastShown(h: seq<Dump>): map<Bytes, Counter> {
    if h == [] then map[]
    else
      match h[|h| - 1]
      case Failed => LastShown(h[..|h| - 1])
      case Dumped(lines, _) => LiveOf(FlowsIn(lines))
  }

  function NextKnown(known: map<Bytes, Counter>, now: map<Bytes, Counter>, complete: bool): map<Bytes, Counter> {
    if complete then now else known + now
  }

  /** The last known counters of the flows that are not known to have ended. */
  function Known(h: seq<Dump>): map<Bytes, Counter> {
    if h == [] then map[]
    else
      match h[|h| - 1]
      case Failed => Known(h[..|h| - 1])
      case Dumped(lines, complete) => NextKnown(Known(h[..|h| - 1]), LiveOf(FlowsIn(lines)), complete)
  }

  /** The lives that a dump ends, with their final counters. */
  function EndedBy(known: map<Bytes, Counter>, now: map<Bytes, Counter>, complete: bool): map<Bytes, Counter> {
    map u | u in known && (if u in now then !Grew(known[u], now[u]) else complete) :: known[u]
  }

  /** The flows that live on though the last dump with lines did not show them, with the
      counters they had when they were last shown. */
  function Reappeared(known: map<Bytes, Counter>, shown: map<Bytes, Counter>, now: map<Bytes, Counter>):
    map<Bytes, Counter>
  {
    map u | u in now && u in known && u !in shown && Grew(known[u], now[u]) :: known[u]
  }

  /** The final counters of all flow lives that ended within the history. */
  ghost function EndedIn(h: seq<Dump>, f: Field): nat {
    if h == [] then 0
    else
      var n := |h| - 1;
      EndedIn(h[..n], f)
      + match h[n]
        case Failed => 0
        case Dumped(lines, complete) => Sum(EndedBy(Known(h[..n]), LiveOf(FlowsIn(lines)), complete), f)
  }

  /** What repeated lines of one dump make the exporter count again. */
  function RecountedIn(h: seq<Dump>, f: Field): nat {
    if h == [] then 0
    else
      var n := |h| - 1;
      RecountedIn(h[..n], f)
      + match h[n]
        case Failed => 0
        case Dumped(lines, _) => Recounted(LastShown(h[..n]), FlowsIn(lines), f)
  }

  /** What flows that a dump cut short left out make it count again. */
  ghost function ReappearedIn(h: seq<Dump>, f: Field): nat {
    if h == [] then 0
    else
      var n := |h| - 1;
      ReappearedIn(h[..n], f)
      + match h[n]
        case Failed => 0
        case Dumped(lines, _) => Sum(Reappeared(Known(h[..n]), LastShown(h[..n]), LiveOf(FlowsIn(lines))), f)
  }

  /** `seen` is what the last dump with lines showed. */
  lemma {:induction false} SeenIsTheLastDump(rules: seq<Rule>, h: seq<Dump>)
    ensures Run(rules, h).seen == LastShown(h)
  {
    hide LiveOf, FlowsIn, AddDeltas;
    if h != [] {
      SeenIsTheLastDump(rules, h[..|h| - 1]);
    }
  }

  predicate PartOf(a: map<Bytes, Counter>, b: map<Bytes, Counter>) {
    forall u :: u in a ==> u in b && b[u] == a[u]
  }

  lemma {:induction false} ShownIsKnown(h: seq<Dump>)
    ensures PartOf(LastShown(h), Known(h))
  {
    hide LiveOf, FlowsIn;
    if h != [] {
      ShownIsKnown(h[..|h| - 1]);
    }
  }

  // ----- the balance of one dump

  /** What is there and what ended, after a dump that may be cut short. */
  lemma EndedOrKnown(known: map<Bytes, Counter>, now: map<Bytes, Counter>, complete: bool, f: Field)
    ensures Sum(Ended(known, now), f) + Sum(now, f)
         == Sum(EndedBy(known, now, complete), f) + Sum(NextKnown(known, now, complete), f)
  {
    hide Sum, Grew;
    if complete {
      assert EndedBy(known, now, complete) == Ended(known, now);
    } else {
      var missing := known - now.Keys;
      SumOfUnion(EndedBy(known, now, complete), missing, f);
      SumOfUnion(now, missing, f);
      assert Ended(known, now) == EndedBy(known, now, complete) + missing;
      assert known + now == now + missing;
    }
  }

  lemma WithoutUfid(known: map<Bytes, Counter>, shown: map<Bytes, Counter>, now: map<Bytes, Counter>, u: Bytes)
    requires u in now
    ensures Deltas(shown, now) - {u} == Deltas(shown, now - {u})
    ensures u in Deltas(shown, now) && Deltas(shown, now)[u] == Delta(shown, u, now[u])
    ensures Reappeared(known, shown, now) - {u} == Reappeared(known, shown, now - {u})
  {
    hide Delta, Grew;
  }

  lemma DeltaSinceKnown(known: map<Bytes, Counter>, shown: map<Bytes, Counter>, now: map<Bytes, Counter>, u: Bytes,
                        f: Field)
    requires PartOf(shown, known) && u in now
    ensures var r := Reappeared(known, shown, now);
            Get(Delta(shown, u, now[u]), f) == Get(Delta(known, u, now[u]), f) + if u in r then Get(r[u], f) else 0
  {
  }

  lemma SumWithout(m: map<Bytes, Counter>, u: Bytes, f: Field)
    ensures Sum(m, f) == Sum(m - {u}, f) + if u in m then Get(m[u], f) else 0
  {
    hide Sum;
    if u in m {
      SumRemove(m, u, f);
    } else {
      assert m - {u} == m;
    }
  }

  lemma NoGrowth(known: map<Bytes, Counter>, shown: map<Bytes, Counter>, f: Field)
    ensures Sum(Deltas(shown, map[]), f) == Sum(Reappeared(known, shown, map[]), f) == 0
  {
    hide Sum;
    assert Deltas(shown, map[]) == map[] == Reappeared(known, shown, map[]);
    SumOfNothing<Bytes>(f);
  }

  /** Growth since the last dump shown and growth since a flow was last known differ by
      what reappeared. */
  lemma {:induction false} GrowthSinceKnown(known: map<Bytes, Counter>, shown: map<Bytes, Counter>,
                                            now: map<Bytes, Counter>, f: Field)
    requires PartOf(shown, known)
    ensures Sum(Deltas(shown, now), f) == Sum(Deltas(known, now), f) + Sum(Reappeared(known, shown, now), f)
    decreases |now|
  {
    hide *;
    if now == map[] {
      NoGrowth(known, shown, f);
      NoGrowth(known, known, f);
    } else {
      var u :| u in now;
      GrowthSinceKnown(known, shown, now - {u}, f);
      SumWithout(Deltas(shown, now), u, f);
      SumWithout(Deltas(known, now), u, f);
      SumWithout(Reappeared(known, shown, now), u, f);
      WithoutUfid(known, shown, now, u);
      WithoutUfid(known, known, now, u);
      DeltaSinceKnown(known, shown, now, u, f);
    }
  }

  /** The balance of one dump. */
  lemma ScrapeBalances(rules: seq<Rule>, s: State, known: map<Bytes, Counter>, lines: seq<Line>, complete: bool,
                       f: Field)
    requires PartOf(s.seen, known)
    ensures var s', fs := ScrapeOf(rules, s, Dumped(lines, complete)), FlowsIn(lines);
            var live := LiveOf(fs);
            && s'.seen == live
            && Sum(s'.totals, f) + Sum(known, f)
               == Sum(s.totals, f) + Sum(NextKnown(known, live, complete), f) + Sum(EndedBy(known, live, complete), f)
                  + Recounted(s.seen, fs, f) + Sum(Reappeared(known, s.seen, live), f)
  {
    hide LiveOf, AddDeltas, Recounted, Ended, EndedBy, NextKnown, Reappeared, FlowsIn, Sum, Banked, Deltas, AllFlows,
      PartOf;
    var fs := FlowsIn(lines);
    var live := LiveOf(fs);
    TotalsGainBanked(rules, s.totals, s.seen, fs, f);
    BankedIsGrowth(s.seen, fs, f);
    GrowthSinceKnown(known, s.seen, live, f);
    GrowthTelescopes(known, live, f);
    EndedOrKnown(known, live, complete, f);
  }

  // ----- conservation over every run

  /** Conservation over every history: the totals of all keys hold the final counters of
      all ended lives, the last known counters of all others, what repeated lines made
      the exporter count again, and what flows left out of a dump cut short made it
      count again. */
  lemma {:induction false} TrafficIsConserved(rules: seq<Rule>, h: seq<Dump>, f: Field)
    ensures Sum(Run(rules, h).totals, f)
         == EndedIn(h, f) + Sum(Known(h), f) + RecountedIn(h, f) + ReappearedIn(h, f)
  {
    hide LiveOf, Recounted, EndedBy, NextKnown, Reappeared, FlowsIn, Sum, ScrapeOf, PartOf;
    if h == [] {
      SumOfNothing<Key>(f);
      SumOfNothing<Bytes>(f);
    } else {
      var n := |h| - 1;
      var s := Run(rules, h[..n]);
      TrafficIsConserved(rules, h[..n], f);
      match h[n]
      case Failed =>
        FailureChangesNothing(rules, s);
      case Dumped(lines, complete) =>
        SeenIsTheLastDump(rules, h[..n]);
        ShownIsKnown(h[..n]);
        ScrapeBalances(rules, s, Known(h[..n]), lines, complete, f);
    }
  }

  lemma FailureChangesNothing(rules: seq<Rule>, s: State)
    ensures ScrapeOf(rules, s, Failed).seen == s.seen && ScrapeOf(rules, s, Failed).totals == s.totals
  {
  }

  // ----- when traffic is counted once

  /** A line that a later line of the same dump repeats shows no growth over `prev`. */
  predicate RepeatsAddNothing(prev: map<Bytes, Counter>, fs: seq<Line>, f: Field)
    requires AllFlows(fs)
  {
    forall i, j :: 0 <= i < j < |fs| && fs[i].ufid == fs[j].ufid ==>
      Get(Delta(prev, fs[i].ufid.value, CounterOf(fs[i])), f) == 0
  }

  /** No flow with a non-zero earlier counter comes back grown after a dump that left it
      out without ending it. */
  predicate NothingComesBack(known: map<Bytes, Counter>, shown: map<Bytes, Counter>, now: map<Bytes, Counter>,
                             f: Field) {
    forall u :: u in now && u in known && u !in shown && Grew(known[u], now[u]) ==> Get(known[u], f) == 0
  }

  /** The dump counts nothing twice. */
  predicate CountsOnce(h: seq<Dump>, n: nat, f: Field)
    requires n < |h|
  {
    match h[n]
    case Failed => true
    case Dumped(lines, _) =>
      var fs := FlowsIn(lines);
      && RepeatsAddNothing(LastShown(h[..n]), fs, f)
      && NothingComesBack(Known(h[..n]), LastShown(h[..n]), LiveOf(fs), f)
  }

  /** The line of a ufid that is kept is its last one. */
  lemma {:induction false} LiveIsTheLastLine(fs: seq<Line>, u: Bytes) returns (l: nat)
    requires AllFlows(fs) && u in LiveOf(fs)
    ensures l < |fs| && fs[l].ufid == Some(u) && LiveOf(fs)[u] == CounterOf(fs[l])
    ensures forall m :: l < m < |fs| ==> fs[m].ufid != Some(u)
  {
    var n := |fs| - 1;
    if fs[n].ufid == Some(u) {
      l := n;
    } else {
      l := LiveIsTheLastLine(fs[..n], u);
      assert forall m :: l < m < n ==> fs[..n][m] == fs[m];
    }
  }

  lemma {:induction false} LinesAreLive(fs: seq<Line>, i: nat)
    requires AllFlows(fs) && i < |fs|
    ensures fs[i].ufid.value in LiveOf(fs)
  {
    var n := |fs| - 1;
    if i < n {
      LinesAreLive(fs[..n], i);
    }
  }

  lemma {:induction false} NothingRecountedIff(prev: map<Bytes, Counter>, fs: seq<Line>, f: Field)
    requires AllFlows(fs)
    ensures Recounted(prev, fs, f) == 0 <==> RepeatsAddNothing(prev, fs, f)
  {
    hide Delta, LiveOf;
    if fs != [] {
      var n := |fs| - 1;
      var front, u := fs[..n], fs[n].ufid.value;
      NothingRecountedIff(prev, front, f);
      assert forall i :: 0 <= i < n ==> front[i] == fs[i];
      if u in LiveOf(front) {
        var l := LiveIsTheLastLine(front, u);
        assert fs[l].ufid == fs[n].ufid;
        if Recounted(prev, fs, f) == 0 {
          forall i, j | 0 <= i < j < |fs| && fs[i].ufid == fs[j].ufid
            ensures Get(Delta(prev, fs[i].ufid.value, CounterOf(fs[i])), f) == 0
          {
            assert j < n ==> front[i].ufid == front[j].ufid;
            assert i < l ==> front[i].ufid == Some(u) || j < n;
            assert i < l && j == n ==> front[i].ufid == front[l].ufid;
          }
        }
        if RepeatsAddNothing(prev, fs, f) {
          assert Get(Delta(prev, fs[l].ufid.value, CounterOf(fs[l])), f) == 0;
        }
      } else {
        forall i | 0 <= i < n ensures fs[i].ufid != fs[n].ufid {
          LinesAreLive(front, i);
        }
      }
    }
  }

  lemma NothingReappearedIff(known: map<Bytes, Counter>, shown: map<Bytes, Counter>, now: map<Bytes, Counter>,
                             f: Field)
    ensures Sum(Reappeared(known, shown, now), f) == 0 <==> NothingComesBack(known, shown, now, f)
  {
    hide Sum, Grew;
    var r := Reappeared(known, shown, now);
    SumIsZeroIff(r, f);
    if NothingComesBack(known, shown, now, f) {
      assert forall u :: u in r ==> r[u] == known[u];
    } else {
      var u :| u in now && u in known && u !in shown && Grew(known[u], now[u]) && Get(known[u], f) != 0;
      assert u in r;
    }
  }

  lemma SnocCountsOnce(h: seq<Dump>, f: Field)
    requires h != []
    ensures var n := |h| - 1;
            (forall m :: 0 <= m < |h| ==> CountsOnce(h, m, f))
            <==> (forall m :: 0 <= m < n ==> CountsOnce(h[..n], m, f)) && CountsOnce(h, n, f)
  {
    hide RepeatsAddNothing, NothingComesBack, FlowsIn, LiveOf, LastShown, Known;
    var n := |h| - 1;
    forall m | 0 <= m < n ensures CountsOnce(h[..n], m, f) == CountsOnce(h, m, f) {
      assert h[..n][..m] == h[..m] && h[..n][m] == h[m];
    }
  }

  lemma {:induction false} NothingCountedTwiceIff(h: seq<Dump>, f: Field)
    ensures RecountedIn(h, f) + ReappearedIn(h, f) == 0 <==> forall n :: 0 <= n < |h| ==> CountsOnce(h, n, f)
  {
    hide Recounted, Reappeared, RepeatsAddNothing, NothingComesBack, FlowsIn, LiveOf, LastShown, Known, Sum, AllFlows;
    if h != [] {
      var n := |h| - 1;
      NothingCountedTwiceIff(h[..n], f);
      SnocCountsOnce(h, f);
      if h[n].Dumped? {
        var fs := FlowsIn(h[n].lines);
        NothingRecountedIff(LastShown(h[..n]), fs, f);
        NothingReappearedIff(Known(h[..n]), LastShown(h[..n]), LiveOf(fs), f);
      }
    }
  }

  /** Traffic is counted exactly once if and only if, in every dump, no line that shows
      growth is repeated, and no flow with a non-zero counter comes back grown after a
      dump cut short left it out. */
  lemma {:induction false} ConservedIffNothingRecounted(rules: seq<Rule>, h: seq<Dump>, f: Field)
    ensures Sum(Run(rules, h).totals, f) == EndedIn(h, f) + Sum(Known(h), f)
            <==> forall n :: 0 <= n < |h| ==> CountsOnce(h, n, f)
  {
    hide CountsOnce, Sum, Known, EndedIn, RecountedIn, ReappearedIn, Run;
    TrafficIsConserved(rules, h, f);
    NothingCountedTwiceIff(h, f);
  }

  /** No ufid occurs twice in one dump. */
  predicate UniqueUfids(fs: seq<Line>) {
    forall i, j :: 0 <= i < j < |fs| ==> fs[i].ufid != fs[j].ufid
  }

  predicate CompleteAndUnique(h: seq<Dump>) {
    forall n :: 0 <= n < |h| && h[n].Dumped? ==> h[n].complete && UniqueUfids(FlowsIn(h[n].lines))
  }

  lemma {:induction false} CompleteKnowsWhatItShows(h: seq<Dump>)
    requires CompleteAndUnique(h)
    ensures Known(h) == LastShown(h)
  {
    hide LiveOf, FlowsIn, UniqueUfids;
    if h != [] {
      CompleteKnowsWhatItShows(h[..|h| - 1]);
    }
  }

  /** With complete dumps that repeat no ufid the exporter meets its promise: the totals
      are the final counters of the ended lives and the counters now shown. */
  lemma {:induction false} CompleteDumpsConserve(rules: seq<Rule>, h: seq<Dump>, f: Field)
    requires CompleteAndUnique(h)
    ensures Sum(Run(rules, h).totals, f) == EndedIn(h, f) + Sum(Run(rules, h).seen, f)
  {
    hide LiveOf, FlowsIn, Sum, EndedIn, Known, LastShown, Run;
    forall n | 0 <= n < |h|
      ensures CountsOnce(h, n, f)
    {
      CompleteKnowsWhatItShows(h[..n]);
      if h[n].Dumped? {
        assert UniqueUfids(FlowsIn(h[n].lines));
      }
    }
    ConservedIffNothingRecounted(rules, h, f);
    CompleteKnowsWhatItShows(h);
    SeenIsTheLastDump(rules, h);
  }

  // ----- what one line adds, and what a scrape shows

  /** What a flow line adds to its key, in the numbers of the line and of the flow's last
      counters: the growth when neither counter dropped, else the new counters whole.
      Other keys keep their totals. */
  lemma LineAdds(rules: seq<Rule>, totals: map<Key, Counter>, prev: map<Bytes, Counter>, fs: seq<Line>, l: Line)
    requires AllFlows(fs) && l.ufid.Some?
    ensures AllFlows(fs + [l])
    ensures var was, now := AddDeltas(rules, totals, prev, fs), AddDeltas(rules, totals, prev, fs + [l]);
            var k, u := KeyOf(rules, l), l.ufid.value;
            var b, p := if u in prev then prev[u].bytes else 0, if u in prev then prev[u].packets else 0;
            var tb, tp := if k in was then was[k].bytes else 0, if k in was then was[k].packets else 0;
            && now.Keys == was.Keys + {k}
            && (l.bytes >= b && l.packets >= p ==>
                  now[k].bytes == tb + (l.bytes - b) && now[k].packets == tp + (l.packets - p))
            && (l.bytes < b || l.packets < p ==> now[k].bytes == tb + l.bytes && now[k].packets == tp + l.packets)
            && forall j :: j in was && j != k ==> now[j] == was[j]
  {
    hide KeyOf, Offloaded, LiveOf;
    NextFlow(rules, totals, prev, fs, l);
    hide AddDeltas;
  }

  /** The last line of a ufid in a dump gives its counters; a ufid without a line has
      none. */
  lemma {:induction false} ShownCounters(fs: seq<Line>, u: Bytes)
    requires AllFlows(fs)
    ensures u in LiveOf(fs) <==> exists i :: 0 <= i < |fs| && fs[i].ufid == Some(u)
    ensures forall i :: 0 <= i < |fs| && fs[i].ufid == Some(u) && (forall j :: i < j < |fs| ==> fs[j].ufid != Some(u))
              ==> LiveOf(fs)[u].bytes == fs[i].bytes && LiveOf(fs)[u].packets == fs[i].packets
  {
    if u in LiveOf(fs) {
      var l := LiveIsTheLastLine(fs, u);
    }
    forall i | 0 <= i < |fs| && fs[i].ufid == Some(u)
      ensures u in LiveOf(fs)
    {
      LinesAreLive(fs, i);
    }
  }

  function OffloadedAt(fs: seq<Line>): set<nat> {
    set i: nat | i < |fs| && fs[i].offloaded
  }

  /** The lines with an offload mark are counted. */
  lemma {:induction false} OffloadedCounts(fs: seq<Line>)
    ensures Offloaded(fs) == |OffloadedAt(fs)|
  {
    if fs == [] {
      assert OffloadedAt(fs) == {};
    } else {
      var n := |fs| - 1;
      OffloadedCounts(fs[..n]);
      var front := OffloadedAt(fs[..n]);
      assert OffloadedAt(fs) == front + if fs[n].offloaded then {n} else {};
      assert n !in front;
    }
  }

  /** The flows of a dump are its lines with a ufid, in order. */
  lemma {:induction false} FlowsAre(lines: seq<Line>) returns (at: seq<nat>)
    ensures Picked(lines, at, FlowsIn(lines))
    ensures forall j :: 0 <= j < |lines| ==> (j in at <==> lines[j].ufid.Some?)
  {
    hide Picked;
    at := [];
    if lines == [] {
      PickedNone<Line>();
    } else {
      var n := |lines| - 1;
      var front, x := lines[..n], lines[n];
      at := FlowsAre(front);
      assert lines == front + [x];
      NextLine(lines, n);
      assert lines[..n + 1] == lines;
      PickedSnoc(front, at, FlowsIn(front), x);
      if x.ufid.Some? {
        at := at + [n];
      }
    }
  }

  /** After a dump with lines the exporter is up and shows how many lines are flows and
      how many of those are offloaded; after a failed call it is down and shows what it
      showed. */
  lemma {:induction false} ScrapeShows(rules: seq<Rule>, s: State, lines: seq<Line>, complete: bool)
    ensures var s', fs := ScrapeOf(rules, s, Dumped(lines, complete)), FlowsIn(lines);
            s'.up == 1 && s'.flows == |fs| && s'.offl == |set i: nat | i < |fs| && fs[i].offloaded|
    ensures ScrapeOf(rules, s, Failed) == State(s.seen, s.totals, s.flows, s.offl, 0)
  {
    hide AddDeltas, LiveOf, FlowsIn, Offloaded;
    OffloadedCounts(FlowsIn(lines));
  }

  // ----- two histories that count twice

  lemma OneFlow(rules: seq<Rule>, s: State, l: Line)
    requires l.ufid.Some?
    ensures FlowsIn([l]) == [l] && LiveOf([l]) == map[l.ufid.value := CounterOf(l)]
    ensures ScrapeOf(rules, s, Dumped([l], true)).totals
         == AddTo(s.totals, KeyOf(rules, l), Delta(s.seen, l.ufid.value, CounterOf(l)))
    ensures ScrapeOf(rules, s, Dumped([l], true)).seen == map[l.ufid.value := CounterOf(l)]
  {
    hide KeyOf, Delta, Offloaded;
    assert [l][..0] == [];
    assert FlowsIn([l]) == [l];
    assert AddDeltas(rules, s.totals, s.seen, []) == s.totals;
  }

  lemma NoFlow(rules: seq<Rule>, s: State)
    ensures FlowsIn([]) == [] && LiveOf([]) == map[]
    ensures ScrapeOf(rules, s, Dumped([], false)).totals == s.totals
    ensures ScrapeOf(rules, s, Dumped([], false)).seen == map[]
  {
  }

  /** What one more dump with lines does to what is known. */
  lemma KnownSnoc(h: seq<Dump>, lines: seq<Line>, complete: bool, f: Field)
    ensures var known, live, all := Known(h), LiveOf(FlowsIn(lines)), h + [Dumped(lines, complete)];
            && LastShown(all) == live && Known(all) == NextKnown(known, live, complete)
            && EndedIn(all, f) == EndedIn(h, f) + Sum(EndedBy(known, live, complete), f)
            && ReappearedIn(all, f) == ReappearedIn(h, f) + Sum(Reappeared(known, LastShown(h), live), f)
  {
    hide FlowsIn, LiveOf, NextKnown, EndedBy, Reappeared, Sum;
    assert (h + [Dumped(lines, complete)])[..|h|] == h;
  }

  lemma AddToTwice(k: Key, c: Counter)
    ensures AddTo(AddTo(map[], k, c), k, c) == map[k := Plus(c, c)]
  {
    assert AddTo(map[], k, c) == map[k := c];
  }

  lemma FlowsOfTwo(l: Line)
    requires l.ufid.Some?
    ensures FlowsIn([l, l]) == [] + [l] + [l]
  {
    NextLine([l, l], 0);
    NextLine([l, l], 1);
    assert [l, l][..0] == [] && [l, l][..2] == [l, l];
  }

  /** The first dump shows one flow on two lines. */
  lemma {:induction false} TwoLines(rules: seq<Rule>, l: Line)
    requires l.ufid.Some?
    ensures var k, c, s := KeyOf(rules, l), CounterOf(l), Run(rules, [Dumped([l, l], true)]);
            && s.totals == map[k := Plus(c, c)] && s.seen == map[l.ufid.value := c]
  {
    var k, c, d := KeyOf(rules, l), CounterOf(l), Dumped([l, l], true);
    assert Delta(map[], l.ufid.value, c) == c;
    hide KeyOf, FlowsIn, LiveOf, AddDeltas, Offloaded, AddTo, Run, Delta;
    assert [d] == [] + [d];
    NothingYet(rules, BytesField);
    RunSnoc(rules, [], d);
    FlowsOfTwo(l);
    NoFlows(rules, map[], map[]);
    NextFlow(rules, map[], map[], [], l);
    NextFlow(rules, map[], map[], [] + [l], l);
    AddToTwice(k, c);
  }

  /** A repeated ufid breaks conservation: one flow of 10 bytes shown twice in the first
      dump is counted as 20. */
  lemma {:induction false} RepeatedUfidCountsTwice(rules: seq<Rule>)
    ensures var l := Line([], Some([1]), 10, 1, None, false);
            var s := Run(rules, [Dumped([l, l], true)]);
            && s.totals == map[KeyOf(rules, l) := Counter(20, 2)] && Sum(s.totals, BytesField) == 20
            && s.seen == map[[1] := Counter(10, 1)] && Sum(s.seen, BytesField) == 10
  {
    hide KeyOf, Sum, Run;
    var l := Line([], Some([1]), 10, 1, None, false);
    TwoLines(rules, l);
    SumOfOne(KeyOf(rules, l), Counter(20, 2), BytesField);
    SumOfOne(l.ufid.value, Counter(10, 1), BytesField);
  }

  /** The totals of a flow that is shown, left out, and shown again. */
  lemma {:induction false} ShownAgain(rules: seq<Rule>, l: Line, l': Line)
    requires l.ufid.Some? && l'.ufid == l.ufid && KeyOf(rules, l') == KeyOf(rules, l)
    ensures Run(rules, [Dumped([l], true), Dumped([], false), Dumped([l'], true)]).totals
         == map[KeyOf(rules, l) := Plus(CounterOf(l), CounterOf(l'))]
  {
    hide KeyOf, Run, ScrapeOf, FlowsIn, LiveOf;
    var h1 := [Dumped([l], true)];
    var h2 := h1 + [Dumped([], false)];
    assert [Dumped([l], true), Dumped([], false), Dumped([l'], true)] == h2 + [Dumped([l'], true)];
    assert h1 == [] + h1;
    NothingYet(rules, BytesField);
    RunSnoc(rules, [], Dumped([l], true));
    RunSnoc(rules, h1, Dumped([], false));
    RunSnoc(rules, h2, Dumped([l'], true));
    OneFlow(rules, INITIAL, l);
    NoFlow(rules, Run(rules, h1));
    OneFlow(rules, Run(rules, h2), l');
  }

  lemma ComesBackGrown(u: Bytes, c: Counter, c': Counter)
    requires Grew(c, c')
    ensures EndedBy(map[], map[u := c], true) == map[] && EndedBy(map[u := c], map[], false) == map[]
    ensures EndedBy(map[u := c], map[u := c'], true) == map[]
    ensures Reappeared(map[], map[], map[u := c]) == map[] && Reappeared(map[u := c], map[u := c], map[]) == map[]
    ensures Reappeared(map[u := c], map[], map[u := c']) == map[u := c]
  {
    hide Grew;
  }

  /** What is known of a flow that is shown, left out, and shown again. */
  lemma {:induction false} KnownAgain(rules: seq<Rule>, l: Line, l': Line, f: Field)
    requires l.ufid.Some? && l'.ufid == l.ufid && Grew(CounterOf(l), CounterOf(l'))
    ensures var h := [Dumped([l], true), Dumped([], false), Dumped([l'], true)];
            && Known(h) == map[l.ufid.value := CounterOf(l')] && EndedIn(h, f) == 0
            && ReappearedIn(h, f) == Get(CounterOf(l), f)
  {
    hide Sum, FlowsIn, LiveOf, Known, LastShown, EndedIn, ReappearedIn, EndedBy, Reappeared, Grew;
    var u, c, c' := l.ufid.value, CounterOf(l), CounterOf(l');
    var h1 := [Dumped([l], true)];
    var h2 := h1 + [Dumped([], false)];
    assert [Dumped([l], true), Dumped([], false), Dumped([l'], true)] == h2 + [Dumped([l'], true)];
    assert h1 == [] + h1;
    NothingYet(rules, f);
    OneFlow(rules, INITIAL, l);
    OneFlow(rules, INITIAL, l');
    NoFlow(rules, INITIAL);
    KnownSnoc([], [l], true, f);
    KnownSnoc(h1, [], false, f);
    KnownSnoc(h2, [l'], true, f);
    assert NextKnown(map[u := c], map[], false) == map[u := c];
    ComesBackGrown(u, c, c');
    SumOfOne(u, c, f);
    SumOfNothing<Bytes>(f);
  }

  /** A dump cut short breaks it too: a flow that never held more than 110 bytes and 2
      packets, left out once, is counted as 210 bytes and 3 packets. */
  lemma CutShortDumpCountsTwice(rules: seq<Rule>)
    ensures var l, l' := Line([], Some([1]), 100, 1, None, false), Line([], Some([1]), 110, 2, None, false);
            var h := [Dumped([l], true), Dumped([], false), Dumped([l'], true)];
            && Run(rules, h).totals == map[KeyOf(rules, l) := Counter(210, 3)]
            && Known(h) == map[[1] := Counter(110, 2)] && EndedIn(h, BytesField) == 0
            && ReappearedIn(h, BytesField) == 100
  {
    hide Run, Known, EndedIn, ReappearedIn;
    var l, l' := Line([], Some([1]), 100, 1, None, false), Line([], Some([1]), 110, 2, None, false);
    ShownAgain(rules, l, l');
    KnownAgain(rules, l, l', BytesField);
  }

  lemma NothingYet(rules: seq<Rule>, f: Field)
    ensures Run(rules, []) == INITIAL && Known([]) == LastShown([]) == map[]
    ensures EndedIn([], f) == ReappearedIn([], f) == 0
  {
  }

  // ----- monotone totals

  predicate AtMost(a: map<Key, Counter>, b: map<Key, Counter>) {
    forall k :: k in a ==> k in b && Grew(a[k], b[k])
  }

  lemma {:induction false} DeltasOnlyAdd(rules: seq<Rule>, totals: map<Key, Counter>, prev: map<Bytes, Counter>,
                                         fs: seq<Line>)
    requires AllFlows(fs)
    ensures AtMost(totals, AddDeltas(rules, totals, prev, fs))
  {
    if fs != [] {
      DeltasOnlyAdd(rules, totals, prev, fs[..|fs| - 1]);
    }
  }

  /** Along any run the key set only grows and no published total ever drops. */
  lemma {:induction false} TotalsAreMonotone(rules: seq<Rule>, h: seq<Dump>, n: nat)
    requires n <= |h|
    ensures AtMost(Run(rules, h[..n]).totals, Run(rules, h).totals)
    decreases |h| - n
  {
    if n == |h| {
      assert h[..n] == h;
    } else {
      var s, d := Run(rules, h[..n]), h[n];
      assert h[..n + 1][..n] == h[..n];
      TotalsAreMonotone(rules, h, n + 1);
      if d.Dumped? {
        DeltasOnlyAdd(rules, s.totals, s.seen, FlowsIn(d.lines));
      }
      assert AtMost(s.totals, Run(rules, h[..n + 1]).totals);
    }
  }

  /** No more flows are offloaded than there are flows. */
  lemma {:induction false} OffloadedAtMostFlows(rules: seq<Rule>, h: seq<Dump>)
    ensures Run(rules, h).offl <= Run(rules, h).flows
  {
    if h != [] {
      OffloadedAtMostFlows(rules, h[..|h| - 1]);
    }
  }

  // ----- failed calls

  /** A history without its failed calls. */
  function Successes(h: seq<Dump>): seq<Dump> {
    if h == [] then []
    else if h[|h| - 1].Failed? then Successes(h[..|h| - 1])
    else Successes(h[..|h| - 1]) + [h[|h| - 1]]
  }

  lemma RunSnoc(rules: seq<Rule>, h: seq<Dump>, d: Dump)
    ensures Run(rules, h + [d]) == ScrapeOf(rules, Run(rules, h), d)
  {
    assert (h + [d])[..|h|] == h;
  }

  /** The next counters and totals depend on the last ones alone. */
  lemma SameNext(rules: seq<Rule>, s: State, t: State, d: Dump)
    requires s.seen == t.seen && s.totals == t.totals
    ensures ScrapeOf(rules, s, d).seen == ScrapeOf(rules, t, d).seen
    ensures ScrapeOf(rules, s, d).totals == ScrapeOf(rules, t, d).totals
    ensures d.Failed? ==> ScrapeOf(rules, s, d).seen == s.seen && ScrapeOf(rules, s, d).totals == s.totals
  {
  }

  /** Failed calls never change what is seen or published, however many there are
      and wherever they fall: growth they missed is counted at the next success. */
  lemma {:induction false} FailuresAreInvisible(rules: seq<Rule>, h: seq<Dump>)
    ensures Run(rules, h).seen == Run(rules, Successes(h)).seen
    ensures Run(rules, h).totals == Run(rules, Successes(h)).totals
  {
    hide ScrapeOf, Run;
    if h != [] {
      var n := |h| - 1;
      assert h == h[..n] + [h[n]];
      FailuresAreInvisible(rules, h[..n]);
      RunSnoc(rules, h[..n], h[n]);
      RunSnoc(rules, Successes(h[..n]), h[n]);
      SameNext(rules, Run(rules, h[..n]), Run(rules, Successes(h[..n])), h[n]);
    }
  }

  /** A flow that grows across a failed call is credited with all its growth. */
  lemma MissedGrowthIsCounted(rules: seq<Rule>, h: seq<Dump>, d: Dump)
    ensures Run(rules, h + [Failed] + [d]).totals == Run(rules, h + [d]).totals
    ensures Run(rules, h + [Failed]).up == 0
  {
    hide ScrapeOf, Run;
    RunSnoc(rules, h, Failed);
    RunSnoc(rules, h + [Failed], d);
    RunSnoc(rules, h, d);
    SameNext(rules, Run(rules, h), Run(rules, h), Failed);
    SameNext(rules, Run(rules, h + [Failed]), Run(rules, h), d);
    FailureMarksDown(rules, Run(rules, h));
  }

  lemma FailureMarksDown(rules: seq<Rule>, s: State)
    ensures ScrapeOf(rules, s, Failed).up == 0
  {
  }
}
