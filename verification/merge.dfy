/**
 * The end of the event pipeline: the three tier sweeps run over the window's
 * days, the progression events are passed through unchanged, and all passes
 * of one transit (the same name closing several times in the window) are
 * collapsed into a single event.
 *
 * The merged transit keeps the first pass's record and widens it: the earliest
 * start, the latest end, one exact date per pass (sorted at the end), and all
 * the passes' readings in pass order.  Its exact date and the transiting
 * longitude at exact are then taken from the most exact of all those readings.
 */
module Merge {
  import opened Wrappers
  import opened TimeMap
  import Tiers
  import Sweep

  function MinInt(a: int, b: int): int {
    if a <= b then a else b
  }

  function MaxInt(a: int, b: int): int {
    if a >= b then a else b
  }

  // ---------------------------------------------------------------------------
  // Splitting the raw events by tier
  // ---------------------------------------------------------------------------

  /** `[e for e in raw_events if e['tier'] != 'transits']` */
  function Progressions(raw: seq<Event>): seq<Event> {
    if raw == [] then []
    else
      var last := raw[|raw| - 1];
      Progressions(raw[..|raw| - 1]) + (if last.tier != Transits then [last] else [])
  }

  /** `[e for e in raw_events if e['tier'] == 'transits']` */
  function TransitPasses(raw: seq<Event>): seq<Event> {
    if raw == [] then []
    else
      var last := raw[|raw| - 1];
      TransitPasses(raw[..|raw| - 1]) + (if last.tier == Transits then [last] else [])
  }

  /** Both filters distribute over concatenation. */
  lemma {:induction false} FiltersAppend(a: seq<Event>, b: seq<Event>)
    ensures Progressions(a + b) == Progressions(a) + Progressions(b)
    ensures TransitPasses(a + b) == TransitPasses(a) + TransitPasses(b)
    decreases |b|
  {
    if b != [] {
      var init := b[..|b| - 1];
      var last := b[|b| - 1];
      assert (a + b)[..|a + b| - 1] == a + init;
      assert (a + b)[|a + b| - 1] == last;
      FiltersAppend(a, init);
      assert Progressions(a + b) == Progressions(a + init) + (if last.tier != Transits then [last] else []);
      assert Progressions(b) == Progressions(init) + (if last.tier != Transits then [last] else []);
      assert TransitPasses(a + b) == TransitPasses(a + init) + (if last.tier == Transits then [last] else []);
      assert TransitPasses(b) == TransitPasses(init) + (if last.tier == Transits then [last] else []);
    } else {
      assert a + b == a;
    }
  }

  /** Events that are all of one progression tier pass the first filter whole and the second not at all. */
  lemma {:induction false} FiltersOfProgressions(s: seq<Event>)
    requires forall x :: 0 <= x < |s| ==> s[x].tier != Transits
    ensures Progressions(s) == s && TransitPasses(s) == []
  {
    if s != [] {
      FiltersOfProgressions(s[..|s| - 1]);
      assert s[..|s| - 1] + [s[|s| - 1]] == s;
    }
  }

  /** Transit events pass the second filter whole and the first not at all. */
  lemma {:induction false} FiltersOfTransits(s: seq<Event>)
    requires forall x :: 0 <= x < |s| ==> s[x].tier == Transits
    ensures Progressions(s) == [] && TransitPasses(s) == s
  {
    if s != [] {
      FiltersOfTransits(s[..|s| - 1]);
      assert s[..|s| - 1] + [s[|s| - 1]] == s;
    }
  }

  // ---------------------------------------------------------------------------
  // The merge, as the source runs it
  // ---------------------------------------------------------------------------

  /** The position of the entry for `n` in the merged table, if there is one. */
  function FindName(ms: seq<Event>, n: string): (r: Option<nat>)
    ensures r.Some? ==> r.value < |ms| && ms[r.value].name == n
    ensures r.None? ==> forall x :: 0 <= x < |ms| ==> ms[x].name != n
  {
    if ms == [] then None
    else if ms[0].name == n then Some(0)
    else
      match FindName(ms[1..], n)
      case None => None
      case Some(x) => Some(x + 1)
  }

  /** A name's first pass becomes its entry, with `exact_dates` started as the one-element list of its exact date. */
  function Seed(e: Event): Event {
    e.(exactDates := [e.exactDate])
  }

  /** A later pass widens the entry: earliest start, latest end, its exact date and readings appended. */
  function Absorb(m: Event, e: Event): Event {
    m.(start := MinInt(m.start, e.start), end := MaxInt(m.end, e.end),
       exactDates := m.exactDates + [e.exactDate], readings := m.readings + e.readings)
  }

  /** One iteration of the merge loop; the table keeps the dict's insertion order. */
  function MergeStep(ms: seq<Event>, e: Event): seq<Event> {
    match FindName(ms, e.name)
    case None => ms + [Seed(e)]
    case Some(x) => ms[x := Absorb(ms[x], e)]
  }

  /** `merged_transits` after the loop over all transit passes. */
  function MergeAll(passes: seq<Event>): seq<Event> {
    if passes == [] then []
    else MergeStep(MergeAll(passes[..|passes| - 1]), passes[|passes| - 1])
  }

  /** The finishing touch on one entry: the most exact reading of all passes sets the exact date and position. */
  function Finalize(m: Event): Event
    requires |m.readings| > 0
  {
    var r := m.readings[ArgMin(m.readings)];
    m.(exactDate := r.day, exactPos := r.p1Pos, exactDates := Sort(m.exactDates))
  }

  /** The final loop: entries without readings are skipped, the rest finalized in table order. */
  function FinalizeAll(ms: seq<Event>): seq<Event> {
    if ms == [] then []
    else
      var last := ms[|ms| - 1];
      FinalizeAll(ms[..|ms| - 1]) + (if |last.readings| > 0 then [Finalize(last)] else [])
  }

  /** `merged_transits`, finalized: at most one transit event per name. */
  function MergeTransits(passes: seq<Event>): (ms: seq<Event>)
    ensures forall x, y :: 0 <= x < y < |ms| ==> ms[x].name != ms[y].name
  {
    MergeAllNames(passes);
    FinalizeAllNames(MergeAll(passes));
    FinalizeAll(MergeAll(passes))
  }

  // ---------------------------------------------------------------------------
  // An independent description of the merged entry of a name
  // ---------------------------------------------------------------------------

  /** The passes of one name, in order. */
  function Passes(evs: seq<Event>, n: string): seq<Event> {
    if evs == [] then []
    else
      var last := evs[|evs| - 1];
      Passes(evs[..|evs| - 1], n) + (if last.name == n then [last] else [])
  }

  /** The names of the passes, each once, in order of first appearance. */
  function PassNames(evs: seq<Event>): seq<string> {
    if evs == [] then []
    else
      var ns := PassNames(evs[..|evs| - 1]);
      var n := evs[|evs| - 1].name;
      if n in ns then ns else ns + [n]
  }

  function MinStart(ps: seq<Event>): int
    requires ps != []
  {
    if |ps| == 1 then ps[0].start else MinInt(MinStart(ps[..|ps| - 1]), ps[|ps| - 1].start)
  }

  function MaxEnd(ps: seq<Event>): int
    requires ps != []
  {
    if |ps| == 1 then ps[0].end else MaxInt(MaxEnd(ps[..|ps| - 1]), ps[|ps| - 1].end)
  }

  function PassDates(ps: seq<Event>): seq<int> {
    seq(|ps|, x requires 0 <= x < |ps| => ps[x].exactDate)
  }

  /** All readings of the passes, pass after pass. */
  function PassReadings(ps: seq<Event>): seq<Reading> {
    if ps == [] then [] else PassReadings(ps[..|ps| - 1]) + ps[|ps| - 1].readings
  }

  /** What the merged entry of a name should be: its first pass, widened over all of its passes. */
  function Expected(ps: seq<Event>): Event
    requires ps != []
  {
    ps[0].(start := MinStart(ps), end := MaxEnd(ps), exactDates := PassDates(ps), readings := PassReadings(ps))
  }

  /** The earliest start is a lower bound of the passes' starts and is one of them. */
  lemma {:induction false} MinStartSpec(ps: seq<Event>)
    requires ps != []
    ensures forall x :: 0 <= x < |ps| ==> MinStart(ps) <= ps[x].start
    ensures exists x :: 0 <= x < |ps| && MinStart(ps) == ps[x].start
  {
    if |ps| > 1 {
      var init := ps[..|ps| - 1];
      MinStartSpec(init);
      var y :| 0 <= y < |init| && MinStart(init) == init[y].start;
      assert init[y] == ps[y];
      if ps[|ps| - 1].start < MinStart(init) {
        assert MinStart(ps) == ps[|ps| - 1].start;
      } else {
        assert MinStart(ps) == ps[y].start;
      }
      forall x | 0 <= x < |init|
        ensures MinStart(ps) <= ps[x].start
      {
        assert init[x] == ps[x];
      }
    } else {
      assert MinStart(ps) == ps[0].start;
    }
  }

  /** The latest end is an upper bound of the passes' ends and is one of them. */
  lemma {:induction false} MaxEndSpec(ps: seq<Event>)
    requires ps != []
    ensures forall x :: 0 <= x < |ps| ==> ps[x].end <= MaxEnd(ps)
    ensures exists x :: 0 <= x < |ps| && MaxEnd(ps) == ps[x].end
  {
    if |ps| > 1 {
      var init := ps[..|ps| - 1];
      MaxEndSpec(init);
      var y :| 0 <= y < |init| && MaxEnd(init) == init[y].end;
      assert init[y] == ps[y];
      if ps[|ps| - 1].end > MaxEnd(init) {
        assert MaxEnd(ps) == ps[|ps| - 1].end;
      } else {
        assert MaxEnd(ps) == ps[y].end;
      }
      forall x | 0 <= x < |init|
        ensures ps[x].end <= MaxEnd(ps)
      {
        assert init[x] == ps[x];
      }
    } else {
      assert MaxEnd(ps) == ps[0].end;
    }
  }

  /** The passes of a name are the events carrying that name, in order. */
  lemma {:induction false} PassesSpec(evs: seq<Event>, n: string)
    ensures forall e :: e in Passes(evs, n) <==> e in evs && e.name == n
  {
    if evs != [] {
      var init := evs[..|evs| - 1];
      PassesSpec(init, n);
      assert evs == init + [evs[|evs| - 1]];
    }
  }

  /** The pass names list every name once, and a name has passes exactly when it is listed. */
  lemma {:induction false} PassNamesSpec(evs: seq<Event>)
    ensures forall x, y :: 0 <= x < y < |PassNames(evs)| ==> PassNames(evs)[x] != PassNames(evs)[y]
    ensures forall n :: n in PassNames(evs) <==> Passes(evs, n) != []
  {
    if evs != [] {
      var init := evs[..|evs| - 1];
      PassNamesSpec(init);
    }
  }

  /** Absorbing one more pass into the expected entry of the earlier passes gives the expected entry of all. */
  lemma ExpectedSnoc(ps: seq<Event>, e: Event)
    requires ps != []
    ensures Expected(ps + [e]) == Absorb(Expected(ps), e)
  {
    var qs := ps + [e];
    assert qs[..|qs| - 1] == ps;
    assert qs[0] == ps[0];
    assert PassDates(qs) == PassDates(ps) + [e.exactDate];
  }

  /** A single pass is its own seed. */
  lemma ExpectedSingle(e: Event)
    ensures Expected([e]) == Seed(e)
  {
    assert [e][..0] == [];
    assert PassDates([e]) == [e.exactDate];
    assert PassReadings([e]) == PassReadings([]) + e.readings;
    assert MinStart([e]) == e.start && MaxEnd([e]) == e.end;
  }

  /**
   * The merge table lists the pass names in order of first appearance, and
   * the entry of each name is the expected entry of that name's passes.
   */
  lemma {:induction false} MergeAllSpec(passes: seq<Event>)
    ensures |MergeAll(passes)| == |PassNames(passes)|
    ensures forall x :: 0 <= x < |MergeAll(passes)| ==>
      Passes(passes, PassNames(passes)[x]) != [] &&
      MergeAll(passes)[x] == Expected(Passes(passes, PassNames(passes)[x]))
  {
    if passes != [] {
      var init := passes[..|passes| - 1];
      var e := passes[|passes| - 1];
      MergeAllSpec(init);
      PassNamesSpec(init);
      var ms := MergeAll(init);
      var names := PassNames(init);
      assert forall x :: 0 <= x < |ms| ==> ms[x].name == names[x] by {
        forall x | 0 <= x < |ms|
          ensures ms[x].name == names[x]
        {
          MergedName(init, names[x]);
        }
      }
      match FindName(ms, e.name)
      case None =>
        assert e.name !in names;
        MergeNew(init, e, ms, names);
      case Some(x0) =>
        MergeOld(init, e, ms, names, x0);
    }
  }

  /** The expected entry of a name carries that name. */
  lemma MergedName(evs: seq<Event>, n: string)
    requires Passes(evs, n) != []
    ensures Expected(Passes(evs, n)).name == n
  {
    PassesSpec(evs, n);
    assert Passes(evs, n)[0] in Passes(evs, n);
  }

  /** The step of MergeAllSpec for a pass whose name is new: a fresh entry is appended. */
  lemma MergeNew(init: seq<Event>, e: Event, ms: seq<Event>, names: seq<string>)
    requires ms == MergeAll(init) && names == PassNames(init)
    requires |ms| == |names|
    requires forall x :: 0 <= x < |ms| ==> Passes(init, names[x]) != [] && ms[x] == Expected(Passes(init, names[x]))
    requires forall n :: n in names <==> Passes(init, n) != []
    requires e.name !in names
    requires FindName(ms, e.name).None?
    ensures var evs := init + [e];
      && |MergeAll(evs)| == |PassNames(evs)|
      && forall x :: 0 <= x < |MergeAll(evs)| ==>
           Passes(evs, PassNames(evs)[x]) != [] && MergeAll(evs)[x] == Expected(Passes(evs, PassNames(evs)[x]))
  {
    var evs := init + [e];
    assert evs[..|evs| - 1] == init;
    var ms' := MergeAll(evs);
    var names' := PassNames(evs);
    assert ms' == ms + [Seed(e)];
    assert names' == names + [e.name];
    forall x | 0 <= x < |ms'|
      ensures Passes(evs, names'[x]) != [] && ms'[x] == Expected(Passes(evs, names'[x]))
    {
      if x < |ms| {
        assert names'[x] == names[x] && ms'[x] == ms[x];
        assert names[x] != e.name;
        assert Passes(evs, names[x]) == Passes(init, names[x]);
      } else {
        assert Passes(init, e.name) == [];
        assert Passes(evs, e.name) == [e];
        ExpectedSingle(e);
      }
    }
  }

  /** The step of MergeAllSpec for a pass whose name already has an entry: that entry absorbs it. */
  lemma MergeOld(init: seq<Event>, e: Event, ms: seq<Event>, names: seq<string>, x0: nat)
    requires ms == MergeAll(init) && names == PassNames(init)
    requires |ms| == |names|
    requires forall x :: 0 <= x < |ms| ==> Passes(init, names[x]) != [] && ms[x] == Expected(Passes(init, names[x]))
    requires forall x :: 0 <= x < |ms| ==> ms[x].name == names[x]
    requires forall x, y :: 0 <= x < y < |names| ==> names[x] != names[y]
    requires FindName(ms, e.name) == Some(x0)
    ensures var evs := init + [e];
      && |MergeAll(evs)| == |PassNames(evs)|
      && forall x :: 0 <= x < |MergeAll(evs)| ==>
           Passes(evs, PassNames(evs)[x]) != [] && MergeAll(evs)[x] == Expected(Passes(evs, PassNames(evs)[x]))
  {
    var evs := init + [e];
    assert evs[..|evs| - 1] == init;
    var ms' := MergeAll(evs);
    assert names[x0] == e.name;
    assert PassNames(evs) == names;
    assert ms' == ms[x0 := Absorb(ms[x0], e)];
    forall x | 0 <= x < |ms'|
      ensures Passes(evs, names[x]) != [] && ms'[x] == Expected(Passes(evs, names[x]))
    {
      if x == x0 {
        assert Passes(evs, e.name) == Passes(init, e.name) + [e];
        ExpectedSnoc(Passes(init, e.name), e);
      } else {
        assert names[x] != e.name by {
          if x < x0 {
            assert names[x] != names[x0];
          } else {
            assert names[x0] != names[x];
          }
        }
        assert Passes(evs, names[x]) == Passes(init, names[x]);
      }
    }
  }

  // ---------------------------------------------------------------------------
  // The merged transit events
  // ---------------------------------------------------------------------------

  /** Every finalized event comes from an entry that has readings. */
  lemma {:induction false} FinalizeAllFrom(ms: seq<Event>, f: Event) returns (x: nat)
    requires f in FinalizeAll(ms)
    ensures x < |ms| && |ms[x].readings| > 0 && f == Finalize(ms[x])
  {
    var init := ms[..|ms| - 1];
    var last := ms[|ms| - 1];
    assert FinalizeAll(ms) == FinalizeAll(init) + (if |last.readings| > 0 then [Finalize(last)] else []);
    if f in FinalizeAll(init) {
      x := FinalizeAllFrom(init, f);
      assert ms[x] == init[x];
    } else {
      x := |ms| - 1;
    }
  }

  /** Every entry that has readings is finalized. */
  lemma {:induction false} FinalizeAllHas(ms: seq<Event>, x: nat)
    requires x < |ms| && |ms[x].readings| > 0
    ensures Finalize(ms[x]) in FinalizeAll(ms)
  {
    var init := ms[..|ms| - 1];
    var last := ms[|ms| - 1];
    var fi := FinalizeAll(init);
    var tail := if |last.readings| > 0 then [Finalize(last)] else [];
    assert FinalizeAll(ms) == fi + tail;
    if x < |init| {
      assert init[x] == ms[x];
      FinalizeAllHas(init, x);
      InLeft(fi, tail, Finalize(ms[x]));
    } else {
      assert tail == [Finalize(ms[x])];
      assert (fi + tail)[|fi|] == Finalize(ms[x]);
    }
  }

  lemma InLeft<T>(a: seq<T>, b: seq<T>, v: T)
    requires v in a
    ensures v in a + b
  {
    var k :| 0 <= k < |a| && a[k] == v;
    assert (a + b)[k] == v;
  }

  /** When every entry has readings, none is dropped. */
  lemma {:induction false} FinalizeAllLength(ms: seq<Event>)
    requires forall x :: 0 <= x < |ms| ==> |ms[x].readings| > 0
    ensures |FinalizeAll(ms)| == |ms|
  {
    if ms != [] {
      var init := ms[..|ms| - 1];
      assert forall x :: 0 <= x < |init| ==> init[x] == ms[x];
      FinalizeAllLength(init);
    }
  }

  /** The names of the finalized entries are those of the kept entries, in the same order. */
  lemma {:induction false} FinalizeAllNames(ms: seq<Event>)
    ensures (forall x, y :: 0 <= x < y < |ms| ==> ms[x].name != ms[y].name) ==>
      forall x, y :: 0 <= x < y < |FinalizeAll(ms)| ==> FinalizeAll(ms)[x].name != FinalizeAll(ms)[y].name
  {
    if ms != [] && (forall x, y :: 0 <= x < y < |ms| ==> ms[x].name != ms[y].name) {
      var init := ms[..|ms| - 1];
      var last := ms[|ms| - 1];
      assert forall x, y :: 0 <= x < y < |init| ==> init[x].name != init[y].name;
      FinalizeAllNames(init);
      var fs := FinalizeAll(ms);
      var fi := FinalizeAll(init);
      forall x, y | 0 <= x < y < |fs|
        ensures fs[x].name != fs[y].name
      {
        if y >= |fi| {
          assert fs[y] == Finalize(last);
          assert fs[x] == fi[x] && fi[x] in fi;
          var z := FinalizeAllFrom(init, fi[x]);
          assert init[z] == ms[z];
        } else {
          assert fs[x] == fi[x] && fs[y] == fi[y];
        }
      }
    }
  }

  /** The merged table holds one entry per pass name, in order of first pass, so its names are distinct. */
  lemma MergeAllNames(passes: seq<Event>)
    ensures |MergeAll(passes)| == |PassNames(passes)|
    ensures forall x :: 0 <= x < |MergeAll(passes)| ==> MergeAll(passes)[x].name == PassNames(passes)[x]
    ensures forall x, y :: 0 <= x < y < |MergeAll(passes)| ==> MergeAll(passes)[x].name != MergeAll(passes)[y].name
  {
    MergeAllSpec(passes);
    PassNamesSpec(passes);
    var ms := MergeAll(passes);
    var names := PassNames(passes);
    forall x | 0 <= x < |ms|
      ensures ms[x].name == names[x]
    {
      MergedName(passes, names[x]);
    }
  }

  /**
   * Every merged transit event is the widened first pass of its name: the earliest start and latest end of
   * the name's passes, one exact date per pass in sorted order, all passes' readings in pass order, and the
   * exact date and longitude of the most exact of those readings.
   */
  lemma MergedTransit(passes: seq<Event>, f: Event)
    requires f in MergeTransits(passes)
    ensures var ps := Passes(passes, f.name);
      && ps != []
      && f.name == ps[0].name && f.data == ps[0].data && f.tier == ps[0].tier && f.passPos == ps[0].passPos
      && f.start == MinStart(ps) && f.end == MaxEnd(ps)
      && Sorted(f.exactDates) && multiset(f.exactDates) == multiset(PassDates(ps)) && |f.exactDates| == |ps|
      && f.readings == PassReadings(ps) && |f.readings| > 0
      && f.exactDate == f.readings[ArgMin(f.readings)].day
      && f.exactPos == f.readings[ArgMin(f.readings)].p1Pos
  {
    var ms := MergeAll(passes);
    var x := FinalizeAllFrom(ms, f);
    MergeAllSpec(passes);
    var n := PassNames(passes)[x];
    MergedName(passes, n);
    assert ms[x] == Expected(Passes(passes, n));
    assert |multiset(f.exactDates)| == |multiset(PassDates(Passes(passes, n)))|;
  }

  /** Each pass of a name lies inside that name's merged span. */
  lemma MergedSpanCovers(passes: seq<Event>, f: Event, p: Event)
    requires f in MergeTransits(passes)
    requires p in passes && p.name == f.name
    ensures f.start <= p.start && p.end <= f.end
    ensures p.exactDate in f.exactDates
  {
    MergedTransit(passes, f);
    var ps := Passes(passes, f.name);
    PassesSpec(passes, f.name);
    var y :| 0 <= y < |ps| && ps[y] == p;
    MinStartSpec(ps);
    MaxEndSpec(ps);
    assert PassDates(ps)[y] == p.exactDate;
    assert p.exactDate in multiset(PassDates(ps));
  }

  /** When every pass has readings, as every swept event has, each pass name yields exactly one merged event. */
  lemma MergedCount(passes: seq<Event>)
    requires forall x :: 0 <= x < |passes| ==> |passes[x].readings| > 0
    ensures |MergeTransits(passes)| == |PassNames(passes)|
  {
    MergeAllSpec(passes);
    var ms := MergeAll(passes);
    forall x | 0 <= x < |ms|
      ensures |ms[x].readings| > 0
    {
      var ps := Passes(passes, PassNames(passes)[x]);
      PassesSpec(passes, PassNames(passes)[x]);
      assert ps[0] in ps;
      var y :| 0 <= y < |passes| && passes[y] == ps[0];
      PassReadingsHas(ps, 0);
    }
    FinalizeAllLength(ms);
  }

  /** The readings of every pass are part of the merged readings. */
  lemma {:induction false} PassReadingsHas(ps: seq<Event>, y: nat)
    requires y < |ps|
    ensures |ps[y].readings| <= |PassReadings(ps)|
  {
    if y < |ps| - 1 {
      PassReadingsHas(ps[..|ps| - 1], y);
      assert ps[..|ps| - 1][y] == ps[y];
    }
  }

  // ---------------------------------------------------------------------------
  // The whole `_process_aspect_events`
  // ---------------------------------------------------------------------------

  /** The tier lists of one cached day, as the tier split stores them. */
  function BuildDay(prog: seq<Aspect>, transits: seq<Aspect>, pos: map<string, real>): (d: DayData)
    ensures forall a :: a in d.lunarProg <==> a in prog && a.p1 == Tiers.Moon && a.p2 != Tiers.Moon
    ensures forall a :: a in d.otherProg <==> a in prog && a.p1 != Tiers.Moon && a.p2 != Tiers.Moon
    ensures d.transits == transits && d.transitPos == pos
  {
    DayData(Tiers.LunarProgAspects(prog), Tiers.OtherProgAspects(prog), transits, pos)
  }

  function TierList(d: DayData, t: Tier): seq<Aspect> {
    match t
    case LunarProg => d.lunarProg
    case OtherProg => d.otherProg
    case Transits => d.transits
  }

  /** `range(num_days + 2)` with `num_days = months * 30`: Python's range of a non-positive bound is empty. */
  function WindowLength(months: int): nat {
    if months * 30 + 2 > 0 then months * 30 + 2 else 0
  }

  /** The window's snapshots of one tier, from day -1 on; a day missing from the cache has no aspects. */
  function TierSnaps(cache: map<int, DayData>, t: Tier, count: nat): (snaps: seq<Sweep.Snap>)
    ensures |snaps| == count
    ensures forall k :: 0 <= k < count && k - 1 !in cache ==> snaps[k].aspects == []
    ensures forall k :: 0 <= k < count && k - 1 in cache ==>
      && snaps[k].pos == cache[k - 1].transitPos
      && (t == LunarProg ==> snaps[k].aspects == cache[k - 1].lunarProg)
      && (t == OtherProg ==> snaps[k].aspects == cache[k - 1].otherProg)
      && (t == Transits ==> snaps[k].aspects == cache[k - 1].transits)
  {
    seq(count, k requires 0 <= k < count =>
      if k - 1 in cache then Sweep.Snap(TierList(cache[k - 1], t), cache[k - 1].transitPos)
      else Sweep.Snap([], map[]))
  }

  function TierEvents(cache: map<int, DayData>, months: int, t: Tier): seq<Event> {
    Sweep.SweepTier(TierSnaps(cache, t, WindowLength(months)), -1, t)
  }

  /** `raw_events`: the three sweeps, in tier order. */
  function RawEvents(cache: map<int, DayData>, months: int): seq<Event> {
    TierEvents(cache, months, LunarProg) + TierEvents(cache, months, OtherProg) + TierEvents(cache, months, Transits)
  }

  /**
   * `self.aspect_events`: nothing for an empty cache; otherwise the lunar
   * tier's events, then the other progressions' events, unchanged and in
   * sweep order, then the merged transit passes.  Progression events are
   * never merged.
   */
  function ProcessEvents(cache: map<int, DayData>, months: int): (evs: seq<Event>)
    ensures |cache| == 0 ==> evs == []
    ensures |cache| > 0 ==>
      evs == TierEvents(cache, months, LunarProg) + TierEvents(cache, months, OtherProg)
             + MergeTransits(TierEvents(cache, months, Transits))
  {
    if |cache| == 0 then []
    else
      var raw := RawEvents(cache, months);
      TierEventsOfTier(cache, months, LunarProg);
      TierEventsOfTier(cache, months, OtherProg);
      TierEventsOfTier(cache, months, Transits);
      SplitByTier(TierEvents(cache, months, LunarProg), TierEvents(cache, months, OtherProg),
                  TierEvents(cache, months, Transits));
      Progressions(raw) + MergeTransits(TransitPasses(raw))
  }

  /** Every event of a tier's sweep is of that tier. */
  lemma TierEventsOfTier(cache: map<int, DayData>, months: int, t: Tier)
    ensures forall x :: 0 <= x < |TierEvents(cache, months, t)| ==> TierEvents(cache, months, t)[x].tier == t
  {
    var evs := TierEvents(cache, months, t);
    forall x | 0 <= x < |evs|
      ensures evs[x].tier == t
    {
      assert evs[x] in evs;
      Sweep.SweepEventsWellFormed(TierSnaps(cache, t, WindowLength(months)), -1, t, evs[x]);
    }
  }

  /** Splitting the three tiers' events back apart recovers the progression events, in order, and the passes. */
  lemma SplitByTier(lp: seq<Event>, op: seq<Event>, tr: seq<Event>)
    requires forall x :: 0 <= x < |lp| ==> lp[x].tier == LunarProg
    requires forall x :: 0 <= x < |op| ==> op[x].tier == OtherProg
    requires forall x :: 0 <= x < |tr| ==> tr[x].tier == Transits
    ensures Progressions(lp + op + tr) == lp + op
    ensures TransitPasses(lp + op + tr) == tr
  {
    FiltersOfProgressions(lp);
    FiltersOfProgressions(op);
    FiltersOfTransits(tr);
    FiltersAppend(lp, op);
    FiltersAppend(lp + op, tr);
  }

  /**
   * Every event lies inside the window: it starts no earlier than day -1, the day before the view's
   * start, and ends no later than day months * 30, the window's last day, before which it starts.
   */
  lemma EventsInWindow(cache: map<int, DayData>, months: int, e: Event)
    requires e in ProcessEvents(cache, months)
    ensures -1 <= e.start < e.end <= months * 30
  {
    var n := WindowLength(months);
    var lp := TierEvents(cache, months, LunarProg);
    var op := TierEvents(cache, months, OtherProg);
    var tr := TierEvents(cache, months, Transits);
    if e in lp {
      Sweep.SweepEventsWellFormed(TierSnaps(cache, LunarProg, n), -1, LunarProg, e);
    } else if e in op {
      Sweep.SweepEventsWellFormed(TierSnaps(cache, OtherProg, n), -1, OtherProg, e);
    } else {
      assert e in MergeTransits(tr);
      MergedTransit(tr, e);
      var ps := Passes(tr, e.name);
      PassesSpec(tr, e.name);
      MinStartSpec(ps);
      MaxEndSpec(ps);
      var a :| 0 <= a < |ps| && MinStart(ps) == ps[a].start;
      var b :| 0 <= b < |ps| && MaxEnd(ps) == ps[b].end;
      assert ps[a] in ps && ps[b] in ps && ps[0] in ps;
      Sweep.SweepEventsWellFormed(TierSnaps(cache, Transits, n), -1, Transits, ps[a]);
      Sweep.SweepEventsWellFormed(TierSnaps(cache, Transits, n), -1, Transits, ps[b]);
      Sweep.SweepEventsWellFormed(TierSnaps(cache, Transits, n), -1, Transits, ps[0]);
      assert MinStart(ps) <= ps[0].start < ps[0].end <= MaxEnd(ps);
    }
  }
}
