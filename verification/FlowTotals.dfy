// The flow-delta accumulator: dumps of ephemeral flows are folded into a few
// long-lived totals.
//
// A dump is the list of its lines, or a failed call.  What the regular expressions
// extract from a line is given with the line; counters are natural numbers.

module FlowTotals {
  import opened ByteStrings
  import opened Wrappers

  // ----- lines, rules and dumps

  /** A dump line: its text, and its ufid, counters, ingress port and offload mark
      as matched.  A line without a ufid is no flow. */
  datatype Line = Line(text: Bytes, ufid: Option<Bytes>, bytes: nat, packets: nat, port: Option<Bytes>,
                       offloaded: bool)

  /** The outcome of the dump call; `complete` is false when the line scanner gave
      up before the end. */
  datatype Dump = Failed | Dumped(lines: seq<Line>, complete: bool)

  datatype Rule = Rule(pattern: Bytes, tenant: Bytes)
  datatype Key = Key(tenant: Bytes, port: Bytes)
  datatype Counter = Counter(bytes: nat, packets: nat)

  const OTHER: Bytes := [111, 116, 104, 101, 114]
  const UNKNOWN: Bytes := [117, 110, 107, 110, 111, 119, 110]

  predicate OccursAt(text: Bytes, p: Bytes, i: nat) {
    i + |p| <= |text| && text[i..i + |p|] == p
  }

  predicate Contains(text: Bytes, p: Bytes) {
    exists i :: 0 <= i <= |text| && OccursAt(text, p, i)
  }

  /** The tenant of the first rule whose pattern occurs in the text. */
  function TenantOf(rules: seq<Rule>, text: Bytes): Bytes {
    if rules == [] then OTHER
    else if Contains(text, rules[0].pattern) then rules[0].tenant
    else TenantOf(rules[1..], text)
  }

  function KeyOf(rules: seq<Rule>, f: Line): Key {
    Key(TenantOf(rules, f.text), if f.port.Some? then f.port.value else UNKNOWN)
  }

  /** The lines that describe a flow. */
  function FlowsIn(lines: seq<Line>): (fs: seq<Line>)
    ensures AllFlows(fs)
  {
    if lines == [] then []
    else FlowsIn(lines[..|lines| - 1]) + if lines[|lines| - 1].ufid.Some? then [lines[|lines| - 1]] else []
  }

  predicate AllFlows(fs: seq<Line>) {
    forall i :: 0 <= i < |fs| ==> fs[i].ufid.Some?
  }

  // ----- which key a flow goes to

  /** The pattern stands somewhere in the text. */
  ghost predicate Appears(p: Bytes, text: Bytes) {
    exists x: Bytes, y: Bytes :: text == x + p + y
  }

  lemma ContainsIffAppears(text: Bytes, p: Bytes)
    ensures Contains(text, p) <==> Appears(p, text)
  {
    if Contains(text, p) {
      var i :| 0 <= i <= |text| && OccursAt(text, p, i);
      assert text == text[..i] + p + text[i + |p|..];
    }
    if Appears(p, text) {
      var x: Bytes, y: Bytes :| text == x + p + y;
      assert OccursAt(text, p, |x|);
    }
  }

  /** Rule `i` is the first one whose pattern appears. */
  ghost predicate FirstToAppear(rules: seq<Rule>, text: Bytes, i: nat) {
    i < |rules| && Appears(rules[i].pattern, text) && forall j :: 0 <= j < i ==> !Appears(rules[j].pattern, text)
  }

  /** The tenant is that of the first rule whose pattern appears in the text, wherever
      that rule stands, and "other" when no pattern appears. */
  lemma {:induction false} TenantIs(rules: seq<Rule>, text: Bytes)
    ensures forall i: nat :: FirstToAppear(rules, text, i) ==> TenantOf(rules, text) == rules[i].tenant
    ensures (forall i :: 0 <= i < |rules| ==> !Appears(rules[i].pattern, text)) ==>
              TenantOf(rules, text) == [111, 116, 104, 101, 114]
  {
    hide Contains, Appears;
    if rules != [] {
      var rest := rules[1..];
      ContainsIffAppears(text, rules[0].pattern);
      TenantIs(rest, text);
      assert forall i :: 0 <= i < |rest| ==> rest[i] == rules[i + 1];
      forall i: nat | FirstToAppear(rules, text, i)
        ensures TenantOf(rules, text) == rules[i].tenant
      {
        if i > 0 {
          assert FirstToAppear(rest, text, i - 1);
        }
      }
    }
  }

  /** A flow goes to that tenant and to its ingress port, or to port "unknown". */
  lemma {:induction false} KeyIs(rules: seq<Rule>, f: Line)
    ensures forall i: nat :: FirstToAppear(rules, f.text, i) ==> KeyOf(rules, f).tenant == rules[i].tenant
    ensures (forall i :: 0 <= i < |rules| ==> !Appears(rules[i].pattern, f.text)) ==>
              KeyOf(rules, f).tenant == [111, 116, 104, 101, 114]
    ensures KeyOf(rules, f).port == match f.port
                                    case Some(port) => port
                                    case None => [117, 110, 107, 110, 111, 119, 110]
  {
    hide TenantOf, FirstToAppear, Appears;
    TenantIs(rules, f.text);
  }

  // ----- what one dump adds

  function LookUp(m: map<Bytes, Counter>, u: Bytes): Counter {
    if u in m then m[u] else Counter(0, 0)
  }

  /** Neither counter dropped. */
  predicate Grew(before: Counter, now: Counter) {
    now.bytes >= before.bytes && now.packets >= before.packets
  }

  /** The growth since the last dump, or everything when the ufid was reused. */
  function Delta(prev: map<Bytes, Counter>, u: Bytes, now: Counter): Counter {
    var before := LookUp(prev, u);
    if Grew(before, now) then Counter(now.bytes - before.bytes, now.packets - before.packets) else now
  }

  function CounterOf(f: Line): Counter {
    Counter(f.bytes, f.packets)
  }

  /** The counters a dump shows per ufid; a repeated ufid keeps its last line. */
  function LiveOf(fs: seq<Line>): map<Bytes, Counter>
    requires AllFlows(fs)
  {
    if fs == [] then map[]
    else LiveOf(fs[..|fs| - 1])[fs[|fs| - 1].ufid.value := CounterOf(fs[|fs| - 1])]
  }

  function Plus(a: Counter, b: Counter): Counter {
    Counter(a.bytes + b.bytes, a.packets + b.packets)
  }

  function AddTo(totals: map<Key, Counter>, k: Key, d: Counter): map<Key, Counter> {
    totals[k := Plus(if k in totals then totals[k] else Counter(0, 0), d)]
  }

  function AddDeltas(rules: seq<Rule>, totals: map<Key, Counter>, prev: map<Bytes, Counter>, fs: seq<Line>):
    map<Key, Counter>
    requires AllFlows(fs)
  {
    if fs == [] then totals
    else
      var f := fs[|fs| - 1];
      AddTo(AddDeltas(rules, totals, prev, fs[..|fs| - 1]), KeyOf(rules, f), Delta(prev, f.ufid.value, CounterOf(f)))
  }

  function Offloaded(fs: seq<Line>): (n: nat)
    ensures n <= |fs|
  {
    if fs == [] then 0 else Offloaded(fs[..|fs| - 1]) + if fs[|fs| - 1].offloaded then 1 else 0
  }

  // ----- the state and its runs

  datatype State = State(seen: map<Bytes, Counter>, totals: map<Key, Counter>, flows: nat, offl: nat, up: nat)

  const INITIAL: State := State(map[], map[], 0, 0, 0)

  function ScrapeOf(rules: seq<Rule>, s: State, d: Dump): State {
    match d
    case Failed => s.(up := 0)
    case Dumped(lines, _) =>
      var fs := FlowsIn(lines);
      State(LiveOf(fs), AddDeltas(rules, s.totals, s.seen, fs), |fs|, Offloaded(fs), 1)
  }

  /** The state after a history of dumps, the latest last. */
  function Run(rules: seq<Rule>, h: seq<Dump>): State {
    if h == [] then INITIAL else ScrapeOf(rules, Run(rules, h[..|h| - 1]), h[|h| - 1])
  }

  /** The counts, the live counters and the totals after the flows `fs` of a dump. */
  predicate Folded(rules: seq<Rule>, was: map<Key, Counter>, prev: map<Bytes, Counter>, fs: seq<Line>,
                   flows: nat, offl: nat, live: map<Bytes, Counter>, totals: map<Key, Counter>)
    requires AllFlows(fs)
  {
    && flows == |fs| && offl == Offloaded(fs) && live == LiveOf(fs)
    && totals == AddDeltas(rules, was, prev, fs)
  }

  // ----- the exporter object

  /** An accumulator on the heap, shared by reference with the totals map. */
  class Acc {
    var bytes: nat
    var packets: nat

    constructor ()
      ensures bytes == 0 && packets == 0
    {
      bytes, packets := 0, 0;
    }

    function Value(): Counter
      reads this
    {
      Counter(bytes, packets)
    }
  }

  class Exporter {
    const rules: seq<Rule>
    var seen: map<Bytes, Counter>
    var totals: map<Key, Acc>
    var flows: nat
    var offl: nat
    var up: nat

    /** Each key owns its own accumulator. */
    ghost predicate Valid()
      reads this`totals
    {
      forall k, l :: k in totals && l in totals && k != l ==> totals[k] != totals[l]
    }

    ghost function Published(): (m: map<Key, Counter>)
      reads this`totals, totals.Values
      ensures m.Keys == totals.Keys
    {
      map k | k in totals :: totals[k].Value()
    }

    ghost function View(): State
      reads this, totals.Values
    {
      State(seen, Published(), flows, offl, up)
    }

    constructor (rules: seq<Rule>)
      ensures Valid() && View() == INITIAL && this.rules == rules
    {
      this.rules := rules;
      seen, totals, flows, offl, up := map[], map[], 0, 0, 0;
    }

    method TenantFor(text: Bytes) returns (tenant: Bytes)
      ensures tenant == TenantOf(rules, text)
      ensures forall i: nat :: FirstToAppear(rules, text, i) ==> tenant == rules[i].tenant
      ensures (forall i :: 0 <= i < |rules| ==> !Appears(rules[i].pattern, text)) ==> tenant == OTHER
    {
      hide FirstToAppear, Appears;
      TenantIs(rules, text);
      for i := 0 to |rules|
        invariant TenantOf(rules, text) == TenantOf(rules[i..], text)
      {
        if Contains(text, rules[i].pattern) {
          return rules[i].tenant;
        }
      }
      return OTHER;
    }

    /** Adds to the accumulator of a key, creating it on first use. */
    method Bank(k: Key, d: Counter)
      requires Valid()
      modifies this`totals, totals.Values
      ensures Valid() && fresh(totals.Values - old(totals.Values))
      ensures Published() == AddTo(old(Published()), k, d)
    {
      if k !in totals {
        var a := new Acc();
        totals := totals[k := a];
        assert forall l :: l in totals && l != k ==> totals[l] in old(totals.Values);
      }
      var a := totals[k];
      a.bytes := a.bytes + d.bytes;
      a.packets := a.packets + d.packets;
    }

    /** Banks what one flow adds since the last dump. */
    method Fold(line: Line)
      requires Valid() && line.ufid.Some?
      modifies this`totals, totals.Values
      ensures Valid() && fresh(totals.Values - old(totals.Values))
      ensures Published()
           == AddTo(old(Published()), KeyOf(rules, line), Delta(seen, line.ufid.value, CounterOf(line)))
    {
      hide Contains, TenantOf, AddTo;
      var ufid := line.ufid.value;
      var tenant := TenantFor(line.text);
      var port := UNKNOWN;
      if line.port.Some? {
        port := line.port.value;
      }
      var prev := if ufid in seen then seen[ufid] else Counter(0, 0);
      var db: int, dp: int := line.bytes - prev.bytes, line.packets - prev.packets;
      if db < 0 || dp < 0 {
        db, dp := line.bytes, line.packets;
      }
      Bank(Key(tenant, port), Counter(db, dp));
    }

    /** Folds the lines of a dump; `live` is what the dump shows. */
    method FoldLines(lines: seq<Line>) returns (live: map<Bytes, Counter>)
      requires Valid() && flows == offl == 0
      modifies `totals, `flows, `offl, totals.Values
      ensures Valid() && fresh(totals.Values - old(totals.Values))
      ensures var fs := FlowsIn(lines);
              && flows == |fs| && offl == Offloaded(fs) && live == LiveOf(fs)
              && Published() == AddDeltas(rules, old(Published()), seen, fs)
    {
      hide *;
      ghost var was := Published();
      live := map[];
      NothingFolded(rules, was, seen);
      for i := 0 to |lines|
        invariant Valid() && fresh(totals.Values - old(totals.Values))
        invariant Folded(rules, was, seen, FlowsIn(lines[..i]), flows, offl, live, Published())
      {
        NextLine(lines, i);
        var line := lines[i];
        if line.ufid.None? {
          continue;
        }
        FlowFolded(rules, was, seen, FlowsIn(lines[..i]), flows, offl, live, Published(), line);
        flows := flows + 1;
        if line.offloaded {
          offl := offl + 1;
        }
        live := live[line.ufid.value := CounterOf(line)];
        Fold(line);
      }
      assert lines[..|lines|] == lines;
      WhatIsFolded(rules, was, seen, FlowsIn(lines), flows, offl, live, Published());
    }

    /** Dumps the flows and folds each flow's delta into the totals. */
    method Scrape(dump: Dump) returns (ok: bool)
      requires Valid()
      modifies this, totals.Values
      ensures Valid() && fresh(totals.Values - old(totals.Values))
      ensures View() == ScrapeOf(rules, old(View()), dump)
      ensures ok == (dump.Dumped? && dump.complete)
    {
      hide FlowsIn, LiveOf, AddDeltas, Offloaded, Valid;
      if dump.Failed? {
        up := 0;
        return false;
      }
      up, flows, offl := 1, 0, 0;
      var live := FoldLines(dump.lines);
      seen := live; // flows that vanished are no longer tracked
      ok := dump.complete;
    }
  }

  /** The exporter's main loop over the dumps of a history. */
  method ScrapeAll(rules: seq<Rule>, h: seq<Dump>) returns (e: Exporter)
    ensures fresh(e) && e.Valid() && e.View() == Run(rules, h)
  {
    hide ScrapeOf;
    e := new Exporter(rules);
    for i := 0 to |h|
      invariant fresh(e) && fresh(e.totals.Values) && e.rules == rules && e.Valid()
      invariant e.View() == Run(rules, h[..i])
    {
      assert h[..i + 1][..i] == h[..i];
      var ok := e.Scrape(h[i]);
    }
    assert h[..|h|] == h;
  }

  lemma NoFlows(rules: seq<Rule>, totals: map<Key, Counter>, prev: map<Bytes, Counter>)
    ensures FlowsIn([]) == [] && LiveOf([]) == map[] && Offloaded([]) == 0
    ensures AddDeltas(rules, totals, prev, []) == totals
  {
  }

  lemma NextLine(lines: seq<Line>, i: nat)
    requires i < |lines|
    ensures FlowsIn(lines[..i + 1])
         == if lines[i].ufid.Some? then FlowsIn(lines[..i]) + [lines[i]] else FlowsIn(lines[..i])
  {
    assert lines[..i + 1][..i] == lines[..i];
  }

  lemma NextFlow(rules: seq<Rule>, totals: map<Key, Counter>, prev: map<Bytes, Counter>, fs: seq<Line>, f: Line)
    requires AllFlows(fs) && f.ufid.Some?
    ensures AllFlows(fs + [f])
    ensures Offloaded(fs + [f]) == Offloaded(fs) + if f.offloaded then 1 else 0
    ensures LiveOf(fs + [f]) == LiveOf(fs)[f.ufid.value := CounterOf(f)]
    ensures AddDeltas(rules, totals, prev, fs + [f])
         == AddTo(AddDeltas(rules, totals, prev, fs), KeyOf(rules, f), Delta(prev, f.ufid.value, CounterOf(f)))
  {
    assert (fs + [f])[..|fs|] == fs;
  }

  lemma NothingFolded(rules: seq<Rule>, was: map<Key, Counter>, prev: map<Bytes, Counter>)
    ensures Folded(rules, was, prev, FlowsIn([]), 0, 0, map[], was)
  {
  }

  lemma FlowFolded(rules: seq<Rule>, was: map<Key, Counter>, prev: map<Bytes, Counter>, fs: seq<Line>,
                   flows: nat, offl: nat, live: map<Bytes, Counter>, totals: map<Key, Counter>, l: Line)
    requires AllFlows(fs) && l.ufid.Some? && Folded(rules, was, prev, fs, flows, offl, live, totals)
    ensures AllFlows(fs + [l])
    ensures Folded(rules, was, prev, fs + [l], flows + 1, offl + if l.offloaded then 1 else 0,
                   live[l.ufid.value := CounterOf(l)],
                   AddTo(totals, KeyOf(rules, l), Delta(prev, l.ufid.value, CounterOf(l))))
  {
    hide FlowsIn, LiveOf, AddDeltas, Offloaded, AddTo, Delta, KeyOf;
    NextFlow(rules, was, prev, fs, l);
  }

  lemma WhatIsFolded(rules: seq<Rule>, was: map<Key, Counter>, prev: map<Bytes, Counter>, fs: seq<Line>,
                     flows: nat, offl: nat, live: map<Bytes, Counter>, totals: map<Key, Counter>)
    requires AllFlows(fs) && Folded(rules, was, prev, fs, flows, offl, live, totals)
    ensures flows == |fs| && offl == Offloaded(fs) && live == LiveOf(fs)
    ensures totals == AddDeltas(rules, was, prev, fs)
  {
  }
}
