/**
 * Event extraction for one tier: a sweep over the window's daily snapshots
 * that opens a record the first day an aspect name appears, appends one orb
 * reading per day while the name stays present, and closes the record on the
 * first day the name is absent.  A closed record becomes an event whose end is
 * that first absent day and whose exact date is the day of its smallest orb.
 * There is no flush after the last day: a record still open then is dropped.
 *
 * The snapshots are a sequence; snapshot k is day `first + k`.
 */
module Sweep {
  import opened Wrappers
  import opened TimeMap

  /** A day as one tier's sweep sees it: the tier's aspect list and the transiting positions. */
  datatype Snap = Snap(aspects: seq<Aspect>, pos: map<string, real>)

  /** A record still being tracked (an entry of the source's `active_aspects`). */
  datatype Open = Open(name: string, start: int, readings: seq<Reading>, data: Aspect)

  datatype SweepState = SweepState(active: seq<Open>, events: seq<Event>)

  function Names(list: seq<Aspect>): set<string> {
    set a | a in list :: a.name
  }

  /** `{a['name']: a for a in list}`: built front to back, so a later aspect of a name overwrites an earlier one. */
  function NameIndex(list: seq<Aspect>): map<string, Aspect> {
    if list == [] then map[]
    else
      var last := list[|list| - 1];
      NameIndex(list[..|list| - 1])[last.name := last]
  }

  /** The index holds exactly the list's names, each mapped to an aspect of the list carrying that name. */
  lemma {:induction false} NameIndexSpec(list: seq<Aspect>)
    ensures NameIndex(list).Keys == Names(list)
    ensures forall n :: n in NameIndex(list) ==> NameIndex(list)[n].name == n && NameIndex(list)[n] in list
  {
    if list != [] {
      var init := list[..|list| - 1];
      var last := list[|list| - 1];
      assert list == init + [last];
      assert Names(list) == Names(init) + {last.name};
      NameIndexSpec(init);
    }
  }

  /** A later aspect of the same name overwrites an earlier one: the last occurrence wins. */
  lemma {:induction false} NameIndexLastWins(list: seq<Aspect>, k: nat)
    requires k < |list|
    requires forall k' :: k < k' < |list| ==> list[k'].name != list[k].name
    ensures list[k].name in NameIndex(list) && NameIndex(list)[list[k].name] == list[k]
  {
    var init := list[..|list| - 1];
    if k < |list| - 1 {
      assert init[k] == list[k];
      forall k' | k < k' < |init|
        ensures init[k'].name != init[k].name
      {
        assert init[k'] == list[k'];
      }
      NameIndexLastWins(init, k);
    }
  }

  /** The names of a list, each once, in order of first appearance (a dict's key order). */
  function FirstNames(list: seq<Aspect>): seq<string> {
    if list == [] then []
    else
      var ns := FirstNames(list[..|list| - 1]);
      var n := list[|list| - 1].name;
      if n in ns then ns else ns + [n]
  }

  /** The position of the first aspect named `n`, or the list's length when there is none. */
  function FirstIndex(list: seq<Aspect>, n: string): (i: nat)
    ensures i <= |list|
    ensures i < |list| ==> list[i].name == n
    ensures forall j :: 0 <= j < i && j < |list| ==> list[j].name != n
  {
    if list == [] then 0
    else
      var i := FirstIndex(list[..|list| - 1], n);
      if i < |list| - 1 then i
      else if list[|list| - 1].name == n then |list| - 1
      else |list|
  }

  /** A name of the list is found before the end. */
  lemma FirstIndexFound(list: seq<Aspect>, n: string)
    requires n in Names(list)
    ensures FirstIndex(list, n) < |list|
  {
    var a :| a in list && a.name == n;
    var j :| 0 <= j < |list| && list[j] == a;
  }

  /**
   * The key order lists every name of the day exactly once, in order of
   * first appearance: a name comes before another exactly when its first
   * aspect does.
   */
  lemma {:induction false} FirstNamesSpec(list: seq<Aspect>)
    ensures forall x, y :: 0 <= x < y < |FirstNames(list)| ==> FirstNames(list)[x] != FirstNames(list)[y]
    ensures forall n :: n in FirstNames(list) <==> n in Names(list)
    ensures forall x, y :: 0 <= x < y < |FirstNames(list)| ==>
      FirstIndex(list, FirstNames(list)[x]) < FirstIndex(list, FirstNames(list)[y])
  {
    if list != [] {
      var init := list[..|list| - 1];
      var last := list[|list| - 1];
      assert list == init + [last];
      assert Names(list) == Names(init) + {last.name};
      FirstNamesSpec(init);
      var ns := FirstNames(init);
      var fs := FirstNames(list);
      forall x | 0 <= x < |ns|
        ensures FirstIndex(list, ns[x]) == FirstIndex(init, ns[x]) < |init|
      {
        assert ns[x] in ns;
        FirstIndexFound(init, ns[x]);
      }
      if last.name !in ns {
        assert FirstIndex(init, last.name) == |init| by {
          if FirstIndex(init, last.name) < |init| {
            assert init[FirstIndex(init, last.name)] in init;
          }
        }
        forall x, y | 0 <= x < y < |fs|
          ensures FirstIndex(list, fs[x]) < FirstIndex(list, fs[y])
        {
          assert fs[x] == ns[x];
          if y < |ns| {
            assert fs[y] == ns[y];
          }
        }
      }
    }
  }

  /** The aspects present on a day, by name. */
  function Today(snap: Snap): map<string, Aspect> {
    NameIndex(snap.aspects)
  }

  /** The names of the tracked records, in tracking order. */
  function NamesOf(active: seq<Open>): seq<string> {
    seq(|active|, x requires 0 <= x < |active| => active[x].name)
  }

  /** A day's key order lists exactly the day's names. */
  lemma DayNames(snap: Snap)
    ensures forall n :: n in FirstNames(snap.aspects) <==> n in Today(snap)
    ensures forall x, y :: 0 <= x < y < |FirstNames(snap.aspects)| ==>
      FirstNames(snap.aspects)[x] != FirstNames(snap.aspects)[y]
  {
    FirstNamesSpec(snap.aspects);
    NameIndexSpec(snap.aspects);
  }

  predicate Tracked(active: seq<Open>, n: string) {
    exists x :: 0 <= x < |active| && active[x].name == n
  }

  predicate DistinctNames(active: seq<Open>) {
    forall x, y :: 0 <= x < y < |active| ==> active[x].name != active[y].name
  }

  /** The reading recorded for aspect `a` on `day`; transits also record the transiting body's longitude. */
  function ReadingOf(a: Aspect, day: int, pos: map<string, real>, t: Tier): Reading {
    Reading(day, a.orb, if t == Transits && a.p1 in pos then Some(pos[a.p1]) else None)
  }

  /**
   * Opens a record, dated `day` and holding the day's aspect data, for every
   * name not yet tracked.  The names come from the day's own keys, so the
   * `n in today` guard never fails in the sweep; it keeps the function total.
   */
  function OpenNew(active: seq<Open>, names: seq<string>, today: map<string, Aspect>, day: int): seq<Open> {
    if names == [] then active
    else
      var r := OpenNew(active, names[..|names| - 1], today, day);
      var n := names[|names| - 1];
      if n in NamesOf(r) || n !in today then r else r + [Open(n, day, [], today[n])]
  }

  /** `NamesOf` lists exactly the tracked names. */
  lemma TrackedNames(r: seq<Open>, n: string)
    ensures n in NamesOf(r) <==> Tracked(r, n)
  {
    if n in NamesOf(r) {
      var x :| 0 <= x < |NamesOf(r)| && NamesOf(r)[x] == n;
      assert r[x].name == n;
    }
    if Tracked(r, n) {
      var x :| 0 <= x < |r| && r[x].name == n;
      assert NamesOf(r)[x] == n;
    }
  }

  /** Appending a record tracks its name and nothing else new. */
  lemma TrackedAppend(r: seq<Open>, o: Open, m: string)
    ensures Tracked(r + [o], m) <==> Tracked(r, m) || o.name == m
  {
    var r' := r + [o];
    if Tracked(r', m) {
      var x :| 0 <= x < |r'| && r'[x].name == m;
      if x < |r| {
        assert r[x].name == m;
      }
    }
    if Tracked(r, m) {
      var x :| 0 <= x < |r| && r[x].name == m;
      assert r'[x].name == m;
    }
    assert r'[|r|] == o;
  }

  /** A name tracked by a prefix of the records is tracked by all of them. */
  lemma TrackedPrefix(r: seq<Open>, k: nat, n: string)
    requires k <= |r|
    ensures Tracked(r[..k], n) ==> Tracked(r, n)
  {
    if Tracked(r[..k], n) {
      var x :| 0 <= x < k && r[..k][x].name == n;
      assert r[x].name == n;
    }
  }

  /** Opening keeps the tracked records in front and appends fresh, empty records for untracked names of the day. */
  lemma {:induction false} OpenNewPrefix(active: seq<Open>, names: seq<string>, today: map<string, Aspect>, day: int)
    ensures var r := OpenNew(active, names, today, day);
      && |active| <= |r| && r[..|active|] == active
      && (forall x :: |active| <= x < |r| ==>
           && r[x].name in names && r[x].name in today && !Tracked(active, r[x].name)
           && r[x] == Open(r[x].name, day, [], today[r[x].name]))
  {
    if names != [] {
      var init := names[..|names| - 1];
      OpenNewPrefix(active, init, today, day);
      var r := OpenNew(active, init, today, day);
      var n := names[|names| - 1];
      assert names == init + [n];
      TrackedNames(r, n);
      if !Tracked(r, n) && n in today {
        var r' := r + [Open(n, day, [], today[n])];
        assert r'[..|active|] == r[..|active|];
        TrackedPrefix(r, |active|, n);
      }
    }
  }

  /** After opening, a name is tracked exactly when it was before or it is one of the day's names. */
  lemma {:induction false} OpenNewTracked(active: seq<Open>, names: seq<string>, today: map<string, Aspect>, day: int, m: string)
    ensures Tracked(OpenNew(active, names, today, day), m) <==> Tracked(active, m) || (m in names && m in today)
  {
    if names != [] {
      var init := names[..|names| - 1];
      OpenNewTracked(active, init, today, day, m);
      var r := OpenNew(active, init, today, day);
      var n := names[|names| - 1];
      assert names == init + [n];
      TrackedNames(r, n);
      if !Tracked(r, n) && n in today {
        TrackedAppend(r, Open(n, day, [], today[n]), m);
      }
      if m == n {
        OpenNewTracked(active, init, today, day, n);
      }
    }
  }

  /** Opening never duplicates a tracked name. */
  lemma {:induction false} OpenNewDistinct(active: seq<Open>, names: seq<string>, today: map<string, Aspect>, day: int)
    requires DistinctNames(active)
    ensures DistinctNames(OpenNew(active, names, today, day))
  {
    if names != [] {
      var init := names[..|names| - 1];
      OpenNewDistinct(active, init, today, day);
      var r := OpenNew(active, init, today, day);
      var n := names[|names| - 1];
      TrackedNames(r, n);
      if !Tracked(r, n) && n in today {
        var r' := r + [Open(n, day, [], today[n])];
        forall x | 0 <= x < |r|
          ensures r[x].name != n
        {
        }
        assert DistinctNames(r');
      }
    }
  }

  /** Appends today's reading to a record whose name is present today. */
  function Fed(o: Open, today: map<string, Aspect>, day: int, pos: map<string, real>, t: Tier): Open {
    if o.name in today then o.(readings := o.readings + [ReadingOf(today[o.name], day, pos, t)]) else o
  }

  function Feed(active: seq<Open>, today: map<string, Aspect>, day: int, pos: map<string, real>, t: Tier): seq<Open> {
    seq(|active|, x requires 0 <= x < |active| => Fed(active[x], today, day, pos, t))
  }

  /** The records that stay open: those whose name is present today, in order. */
  function Keep(active: seq<Open>, today: map<string, Aspect>): seq<Open> {
    if active == [] then []
    else
      var last := active[|active| - 1];
      Keep(active[..|active| - 1], today) + (if last.name in today then [last] else [])
  }

  /** Exactly the records present today stay open, and their names stay distinct. */
  lemma {:induction false} KeepSpec(active: seq<Open>, today: map<string, Aspect>)
    ensures forall o :: o in Keep(active, today) <==> o in active && o.name in today
    ensures DistinctNames(active) ==> DistinctNames(Keep(active, today))
  {
    if active != [] {
      var init := active[..|active| - 1];
      var last := active[|active| - 1];
      assert active == init + [last];
      KeepSpec(init, today);
      var r := Keep(init, today);
      if last.name in today && DistinctNames(active) {
        assert DistinctNames(init);
        forall x | 0 <= x < |r|
          ensures r[x].name != last.name
        {
          assert r[x] in init;
          var y :| 0 <= y < |init| && init[y] == r[x];
        }
        var r' := r + [last];
        assert DistinctNames(r');
      }
    }
  }

  /** The event a record becomes when it closes on `day` (the first day its name is absent). */
  function Finish(o: Open, day: int, t: Tier): Event
    requires |o.readings| > 0
  {
    var m := ArgMin(o.readings);
    Event(o.name, t, o.start, day, o.readings[m].day, o.readings, o.data,
          if t == Transits then o.readings[m].p1Pos else None, [], None)
  }

  /** The events closed on `day`: every record absent today, in tracking order; an empty record is skipped. */
  function Close(active: seq<Open>, today: map<string, Aspect>, day: int, t: Tier): seq<Event> {
    if active == [] then []
    else
      var last := active[|active| - 1];
      Close(active[..|active| - 1], today, day, t)
        + (if last.name !in today && |last.readings| > 0 then [Finish(last, day, t)] else [])
  }

  /** Exactly the non-empty records absent today close, each finished on `day`. */
  lemma {:induction false} CloseSpec(active: seq<Open>, today: map<string, Aspect>, day: int, t: Tier)
    ensures forall e :: e in Close(active, today, day, t) <==>
      exists o :: o in active && o.name !in today && |o.readings| > 0 && e == Finish(o, day, t)
  {
    if active != [] {
      var init := active[..|active| - 1];
      assert active == init + [active[|active| - 1]];
      CloseSpec(init, today, day, t);
    }
  }

  /**
   * Feeding, keeping and closing in one pass over the tracked records: a
   * record present today takes today's reading and stays; one absent today
   * (and so not fed) closes.
   */
  function Advance(active: seq<Open>, today: map<string, Aspect>, day: int, pos: map<string, real>, t: Tier): SweepState {
    if active == [] then SweepState([], [])
    else
      var r := Advance(active[..|active| - 1], today, day, pos, t);
      var last := active[|active| - 1];
      if last.name in today then SweepState(r.active + [Fed(last, today, day, pos, t)], r.events)
      else if |last.readings| > 0 then SweepState(r.active, r.events + [Finish(last, day, t)])
      else r
  }

  /** The single pass is the source's feed loop followed by its closing loop. */
  lemma {:induction false} AdvancePhases(active: seq<Open>, today: map<string, Aspect>, day: int, pos: map<string, real>, t: Tier)
    ensures var fed := Feed(active, today, day, pos, t);
            Advance(active, today, day, pos, t) == SweepState(Keep(fed, today), Close(fed, today, day, t))
  {
    if active != [] {
      var init := active[..|active| - 1];
      var last := active[|active| - 1];
      AdvancePhases(init, today, day, pos, t);
      var fed := Feed(active, today, day, pos, t);
      var f := Fed(last, today, day, pos, t);
      assert fed[..|init|] == Feed(init, today, day, pos, t);
      assert fed[|fed| - 1] == f;
      assert last.name !in today ==> f == last;
      assert Keep(fed, today) == Keep(Feed(init, today, day, pos, t), today) + (if f.name in today then [f] else []);
      assert Close(fed, today, day, t) == Close(Feed(init, today, day, pos, t), today, day, t)
        + (if f.name !in today && |f.readings| > 0 then [Finish(f, day, t)] else []);
    }
  }

  /** The records still open after the pass are the fed records present today, in order, and keep distinct names. */
  lemma {:induction false} AdvanceKeeps(active: seq<Open>, today: map<string, Aspect>, day: int, pos: map<string, real>, t: Tier)
    ensures forall o :: o in Advance(active, today, day, pos, t).active <==>
      exists x :: 0 <= x < |active| && active[x].name in today && o == Fed(active[x], today, day, pos, t)
    ensures DistinctNames(active) ==> DistinctNames(Advance(active, today, day, pos, t).active)
  {
    if active != [] {
      var init := active[..|active| - 1];
      var last := active[|active| - 1];
      AdvanceKeeps(init, today, day, pos, t);
      var r := Advance(init, today, day, pos, t).active;
      var kept := Advance(active, today, day, pos, t).active;
      forall o | o in kept
        ensures exists x :: 0 <= x < |active| && active[x].name in today && o == Fed(active[x], today, day, pos, t)
      {
        if o in r {
          var x :| 0 <= x < |init| && init[x].name in today && o == Fed(init[x], today, day, pos, t);
          assert active[x] == init[x];
        } else {
          assert active[|active| - 1] == last;
        }
      }
      forall x | 0 <= x < |active| && active[x].name in today
        ensures Fed(active[x], today, day, pos, t) in kept
      {
        if x < |init| {
          assert init[x] == active[x];
        }
      }
      if DistinctNames(active) && last.name in today {
        assert DistinctNames(init) by {
          forall x, y | 0 <= x < y < |init|
            ensures init[x].name != init[y].name
          {
            assert init[x] == active[x] && init[y] == active[y];
          }
        }
        forall y | 0 <= y < |r|
          ensures r[y].name != last.name
        {
          assert r[y] in r;
          var x :| 0 <= x < |init| && init[x].name in today && r[y] == Fed(init[x], today, day, pos, t);
          assert active[x] == init[x];
        }
      }
    }
  }

  /** The events of the pass are exactly the non-empty records absent today, finished on `day`, each ending that day. */
  lemma {:induction false} AdvanceCloses(active: seq<Open>, today: map<string, Aspect>, day: int, pos: map<string, real>, t: Tier)
    ensures forall e :: e in Advance(active, today, day, pos, t).events <==>
      exists x :: 0 <= x < |active| && active[x].name !in today && |active[x].readings| > 0 && e == Finish(active[x], day, t)
    ensures forall e :: e in Advance(active, today, day, pos, t).events ==> e.end == day && e.tier == t
  {
    if active != [] {
      var init := active[..|active| - 1];
      AdvanceCloses(init, today, day, pos, t);
      var r := Advance(init, today, day, pos, t).events;
      var es := Advance(active, today, day, pos, t).events;
      forall e | e in es
        ensures exists x :: 0 <= x < |active| && active[x].name !in today && |active[x].readings| > 0 && e == Finish(active[x], day, t)
      {
        if e in r {
          var x :| 0 <= x < |init| && init[x].name !in today && |init[x].readings| > 0 && e == Finish(init[x], day, t);
          assert active[x] == init[x];
        } else {
          assert active[|active| - 1] == active[|init|];
        }
      }
      forall x | 0 <= x < |active| && active[x].name !in today && |active[x].readings| > 0
        ensures Finish(active[x], day, t) in es
      {
        if x < |init| {
          assert init[x] == active[x];
        }
      }
    }
  }

  /** One day of the sweep: open, then feed and close. */
  function Step(active: seq<Open>, snap: Snap, day: int, t: Tier): SweepState {
    var today := Today(snap);
    Advance(OpenNew(active, FirstNames(snap.aspects), today, day), today, day, snap.pos, t)
  }

  /** The three phases of a day, as the source runs them. */
  lemma StepPhases(active: seq<Open>, snap: Snap, day: int, t: Tier)
    ensures var today := Today(snap);
            var fed := Feed(OpenNew(active, FirstNames(snap.aspects), today, day), today, day, snap.pos, t);
            Step(active, snap, day, t) == SweepState(Keep(fed, today), Close(fed, today, day, t))
  {
    var today := Today(snap);
    AdvancePhases(OpenNew(active, FirstNames(snap.aspects), today, day), today, day, snap.pos, t);
  }

  /** The state after the first k days. */
  function Run(snaps: seq<Snap>, first: int, t: Tier, k: nat): SweepState
    requires k <= |snaps|
  {
    if k == 0 then SweepState([], [])
    else
      var s := Run(snaps, first, t, k - 1);
      var step := Step(s.active, snaps[k - 1], first + k - 1, t);
      SweepState(step.active, s.events + step.events)
  }

  /**
   * The events of one tier over the whole window: each of the swept tier,
   * starting and closing inside the window; two events of one name are
   * separate runs, the earlier closing before the later one starts, so no
   * run is emitted twice.
   */
  function SweepTier(snaps: seq<Snap>, first: int, t: Tier): (evs: seq<Event>)
    ensures forall x :: 0 <= x < |evs| ==> evs[x].tier == t && first <= evs[x].start < evs[x].end < first + |snaps|
    ensures RunsApart(evs)
  {
    RunInv(snaps, first, t, |snaps|);
    RunApartInv(snaps, first, t, |snaps|);
    Run(snaps, first, t, |snaps|).events
  }

  // ---------------------------------------------------------------------------
  // What a tracked record and a finished event are
  // ---------------------------------------------------------------------------

  /** Day index s is where a run of `n` begins: the window's first day, or `n` was absent the day before. */
  ghost predicate RunStartsAt(snaps: seq<Snap>, n: string, s: nat)
    requires s < |snaps|
  {
    s == 0 || n !in Today(snaps[s - 1])
  }

  /** `n` is present on day index d and `r` is its reading that day. */
  ghost predicate ReadingOn(snaps: seq<Snap>, first: int, t: Tier, n: string, d: int, r: Reading) {
    0 <= d < |snaps| && n in Today(snaps[d]) && r == ReadingOf(Today(snaps[d])[n], first + d, snaps[d].pos, t)
  }

  /** `rs` holds one reading per day from index s on, each the day's reading of `n`, in date order. */
  ghost predicate ReadingsMatch(snaps: seq<Snap>, first: int, t: Tier, n: string, s: nat, rs: seq<Reading>) {
    && s + |rs| <= |snaps|
    && forall x :: 0 <= x < |rs| ==> ReadingOn(snaps, first, t, n, s + x, rs[x])
  }

  /** A tracked record after k days: its name has been present every day since its start, which began a run. */
  ghost predicate WfOpen(snaps: seq<Snap>, first: int, t: Tier, k: nat, o: Open)
    requires k <= |snaps|
  {
    var s := o.start - first;
    && 0 <= s < k
    && |o.readings| == k - s
    && ReadingsMatch(snaps, first, t, o.name, s, o.readings)
    && RunStartsAt(snaps, o.name, s)
    && o.name in Today(snaps[s])
    && o.data == Today(snaps[s])[o.name]
  }

  /**
   * A finished event: the name is present on every day from start to end-1,
   * absent on end, and absent the day before start (or start is the window's
   * first day); one reading per day in date order; the data of the first day;
   * the exact date of the first smallest orb.
   */
  ghost predicate WfEvent(snaps: seq<Snap>, first: int, t: Tier, e: Event) {
    var s := e.start - first;
    var en := e.end - first;
    && 0 <= s < en < |snaps|
    && |e.readings| == en - s
    && ReadingsMatch(snaps, first, t, e.name, s, e.readings)
    && e.name !in Today(snaps[en])
    && RunStartsAt(snaps, e.name, s)
    && e.name in Today(snaps[s])
    && e == Finish(Open(e.name, e.start, e.readings, Today(snaps[s])[e.name]), e.end, t)
  }

  /** Every record of `os` is well formed after k days. */
  ghost predicate AllWf(snaps: seq<Snap>, first: int, t: Tier, k: nat, os: seq<Open>)
    requires k <= |snaps|
  {
    forall x :: 0 <= x < |os| ==> WfOpen(snaps, first, t, k, os[x])
  }

  /** The tracked records after k days: distinct names, each well formed, exactly the names present on day k-1. */
  ghost predicate ActiveWf(snaps: seq<Snap>, first: int, t: Tier, k: nat, active: seq<Open>)
    requires k <= |snaps|
  {
    && DistinctNames(active)
    && AllWf(snaps, first, t, k, active)
    && (forall n :: Tracked(active, n) <==> k > 0 && n in Today(snaps[k - 1]))
  }

  /** The events after k days: each well formed, each closed before day k. */
  ghost predicate EventsWf(snaps: seq<Snap>, first: int, t: Tier, k: nat, events: seq<Event>) {
    forall x :: 0 <= x < |events| ==> WfEvent(snaps, first, t, events[x]) && events[x].end - first < k
  }

  /** Appending the next day's reading extends a matching run of readings by one day. */
  lemma ReadingsExtend(snaps: seq<Snap>, first: int, t: Tier, n: string, s: nat, rs: seq<Reading>)
    requires ReadingsMatch(snaps, first, t, n, s, rs)
    requires s + |rs| < |snaps| && n in Today(snaps[s + |rs|])
    ensures ReadingsMatch(snaps, first, t, n, s,
      rs + [ReadingOf(Today(snaps[s + |rs|])[n], first + s + |rs|, snaps[s + |rs|].pos, t)])
  {
    var rs' := rs + [ReadingOf(Today(snaps[s + |rs|])[n], first + s + |rs|, snaps[s + |rs|].pos, t)];
    forall x | 0 <= x < |rs'|
      ensures ReadingOn(snaps, first, t, n, s + x, rs'[x])
    {
      if x < |rs| {
        assert rs'[x] == rs[x];
      }
    }
  }

  /** A tracked record present on day k-1 stays well formed once fed. */
  lemma KeptOld(snaps: seq<Snap>, first: int, t: Tier, k: nat, o: Open)
    requires 0 < k <= |snaps|
    requires WfOpen(snaps, first, t, k - 1, o)
    requires o.name in Today(snaps[k - 1])
    ensures WfOpen(snaps, first, t, k, Fed(o, Today(snaps[k - 1]), first + k - 1, snaps[k - 1].pos, t))
  {
    var s := o.start - first;
    assert s + |o.readings| == k - 1;
    ReadingsExtend(snaps, first, t, o.name, s, o.readings);
  }

  /** A record opened on day k-1 for a name absent the day before is well formed once fed. */
  lemma KeptNew(snaps: seq<Snap>, first: int, t: Tier, k: nat, n: string)
    requires 0 < k <= |snaps|
    requires n in Today(snaps[k - 1])
    requires k == 1 || n !in Today(snaps[k - 2])
    ensures var today := Today(snaps[k - 1]);
            WfOpen(snaps, first, t, k, Fed(Open(n, first + k - 1, [], today[n]), today, first + k - 1, snaps[k - 1].pos, t))
  {
    var today := Today(snaps[k - 1]);
    var o' := Fed(Open(n, first + k - 1, [], today[n]), today, first + k - 1, snaps[k - 1].pos, t);
    assert o'.readings == [ReadingOf(today[n], first + k - 1, snaps[k - 1].pos, t)];
    assert ReadingsMatch(snaps, first, t, n, k - 1, o'.readings) by {
      assert (k - 1) + 0 == k - 1;
    }
  }

  /** A record fed on day k-1, whether tracked before or opened that day, is well formed. */
  lemma KeptWf(snaps: seq<Snap>, first: int, t: Tier, k: nat, o: Open, fed: Open)
    requires 0 < k <= |snaps|
    requires o.name in Today(snaps[k - 1])
    requires Ready(snaps, first, t, k, o)
    requires fed == Fed(o, Today(snaps[k - 1]), first + k - 1, snaps[k - 1].pos, t)
    ensures WfOpen(snaps, first, t, k, fed)
  {
    if WfOpen(snaps, first, t, k - 1, o) {
      KeptOld(snaps, first, t, k, o);
    } else {
      KeptNew(snaps, first, t, k, o.name);
    }
  }

  /** A tracked record absent on day k-1 finishes as a well-formed event ending that day. */
  lemma ClosedOld(snaps: seq<Snap>, first: int, t: Tier, k: nat, o: Open)
    requires 0 < k <= |snaps|
    requires WfOpen(snaps, first, t, k - 1, o)
    requires o.name !in Today(snaps[k - 1])
    ensures |o.readings| > 0
    ensures WfEvent(snaps, first, t, Finish(o, first + k - 1, t))
  {
  }

  /** A record about to be fed on day k-1: tracked and well formed, or opened that day for a name absent the day before. */
  ghost predicate Ready(snaps: seq<Snap>, first: int, t: Tier, k: nat, o: Open)
    requires 0 < k <= |snaps|
  {
    || WfOpen(snaps, first, t, k - 1, o)
    || (&& o.name in Today(snaps[k - 1])
        && o == Open(o.name, first + k - 1, [], Today(snaps[k - 1])[o.name])
        && (k == 1 || o.name !in Today(snaps[k - 2])))
  }

  /** Every record of `os` is ready to be fed on day k-1. */
  ghost predicate AllReady(snaps: seq<Snap>, first: int, t: Tier, k: nat, os: seq<Open>)
    requires 0 < k <= |snaps|
  {
    forall x :: 0 <= x < |os| ==> Ready(snaps, first, t, k, os[x])
  }

  /** After the opening phase of day k-1 every record is ready to be fed. */
  lemma OpenedReady(snaps: seq<Snap>, first: int, t: Tier, k: nat, active: seq<Open>, w: seq<Open>)
    requires 0 < k <= |snaps|
    requires ActiveWf(snaps, first, t, k - 1, active)
    requires w == OpenNew(active, FirstNames(snaps[k - 1].aspects), Today(snaps[k - 1]), first + k - 1)
    ensures AllReady(snaps, first, t, k, w)
  {
    var names := FirstNames(snaps[k - 1].aspects);
    OpenNewPrefix(active, names, Today(snaps[k - 1]), first + k - 1);
    forall x | 0 <= x < |w|
      ensures Ready(snaps, first, t, k, w[x])
    {
      if x < |active| {
        assert w[x] == w[..|active|][x] == active[x];
      } else {
        assert !Tracked(active, w[x].name);
      }
    }
  }

  /** After the opening phase of day k-1 the names are distinct and every name of the day is tracked. */
  lemma OpenedCovers(snaps: seq<Snap>, first: int, t: Tier, k: nat, active: seq<Open>, w: seq<Open>)
    requires 0 < k <= |snaps|
    requires ActiveWf(snaps, first, t, k - 1, active)
    requires w == OpenNew(active, FirstNames(snaps[k - 1].aspects), Today(snaps[k - 1]), first + k - 1)
    ensures DistinctNames(w)
    ensures forall n :: n in Today(snaps[k - 1]) ==> Tracked(w, n)
  {
    var today := Today(snaps[k - 1]);
    var names := FirstNames(snaps[k - 1].aspects);
    OpenNewDistinct(active, names, today, first + k - 1);
    forall n | n in today
      ensures Tracked(w, n)
    {
      DayNames(snaps[k - 1]);
      OpenNewTracked(active, names, today, first + k - 1, n);
    }
  }

  /** After the opening phase of day k-1 a record whose name is absent that day was tracked and well formed before. */
  lemma OpenedAbsent(snaps: seq<Snap>, first: int, t: Tier, k: nat, active: seq<Open>, w: seq<Open>, x: nat)
    requires 0 < k <= |snaps|
    requires ActiveWf(snaps, first, t, k - 1, active)
    requires w == OpenNew(active, FirstNames(snaps[k - 1].aspects), Today(snaps[k - 1]), first + k - 1)
    requires x < |w| && w[x].name !in Today(snaps[k - 1])
    ensures WfOpen(snaps, first, t, k - 1, w[x])
  {
    OpenNewPrefix(active, FirstNames(snaps[k - 1].aspects), Today(snaps[k - 1]), first + k - 1);
    assert x < |active|;
    assert w[x] == w[..|active|][x] == active[x];
  }

  /** The records a day leaves open are well formed for one more day. */
  lemma StepActiveWf(snaps: seq<Snap>, first: int, t: Tier, k: nat, active: seq<Open>, w: seq<Open>)
    requires 0 < k <= |snaps|
    requires ActiveWf(snaps, first, t, k - 1, active)
    requires w == OpenNew(active, FirstNames(snaps[k - 1].aspects), Today(snaps[k - 1]), first + k - 1)
    ensures ActiveWf(snaps, first, t, k, Advance(w, Today(snaps[k - 1]), first + k - 1, snaps[k - 1].pos, t).active)
  {
    var today := Today(snaps[k - 1]);
    OpenedReady(snaps, first, t, k, active, w);
    OpenedCovers(snaps, first, t, k, active, w);
    FedWf(snaps, first, t, k, w, Advance(w, today, first + k - 1, snaps[k - 1].pos, t).active);
  }

  /** Feeding records that are ready, distinct and cover the day's names leaves well-formed records for one more day. */
  lemma FedWf(snaps: seq<Snap>, first: int, t: Tier, k: nat, w: seq<Open>, kept: seq<Open>)
    requires 0 < k <= |snaps|
    requires AllReady(snaps, first, t, k, w)
    requires DistinctNames(w)
    requires forall n :: n in Today(snaps[k - 1]) ==> Tracked(w, n)
    requires kept == Advance(w, Today(snaps[k - 1]), first + k - 1, snaps[k - 1].pos, t).active
    ensures ActiveWf(snaps, first, t, k, kept)
  {
    var today := Today(snaps[k - 1]);
    KeptDistinct(w, today, first + k - 1, snaps[k - 1].pos, t, kept);
    KeptAllWf(snaps, first, t, k, w, kept);
    KeptCovers(w, today, first + k - 1, snaps[k - 1].pos, t, kept);
    ActiveWfIntro(snaps, first, t, k, kept);
  }

  lemma ActiveWfIntro(snaps: seq<Snap>, first: int, t: Tier, k: nat, kept: seq<Open>)
    requires 0 < k <= |snaps|
    requires DistinctNames(kept)
    requires AllWf(snaps, first, t, k, kept)
    requires forall n :: Tracked(kept, n) <==> n in Today(snaps[k - 1])
    ensures ActiveWf(snaps, first, t, k, kept)
  {
  }

  /** Feeding and closing keeps the names of the records distinct. */
  lemma KeptDistinct(w: seq<Open>, today: map<string, Aspect>, day: int, pos: map<string, real>, t: Tier, kept: seq<Open>)
    requires DistinctNames(w)
    requires kept == Advance(w, today, day, pos, t).active
    ensures DistinctNames(kept)
  {
    AdvanceKeeps(w, today, day, pos, t);
  }

  /** Feeding records that are all ready leaves only well-formed records. */
  lemma KeptAllWf(snaps: seq<Snap>, first: int, t: Tier, k: nat, w: seq<Open>, kept: seq<Open>)
    requires 0 < k <= |snaps|
    requires AllReady(snaps, first, t, k, w)
    requires kept == Advance(w, Today(snaps[k - 1]), first + k - 1, snaps[k - 1].pos, t).active
    ensures AllWf(snaps, first, t, k, kept)
  {
    forall i | 0 <= i < |kept|
      ensures WfOpen(snaps, first, t, k, kept[i])
    {
      var x := KeptFrom(w, Today(snaps[k - 1]), first + k - 1, snaps[k - 1].pos, t, kept, i);
      KeptWf(snaps, first, t, k, w[x], kept[i]);
    }
  }

  /** Each record kept by a pass is the fed form of a record present today. */
  lemma KeptFrom(active: seq<Open>, today: map<string, Aspect>, day: int, pos: map<string, real>, t: Tier,
                 kept: seq<Open>, i: nat)
    returns (x: nat)
    requires kept == Advance(active, today, day, pos, t).active
    requires i < |kept|
    ensures x < |active| && active[x].name in today
    ensures kept[i] == Fed(active[x], today, day, pos, t)
  {
    AdvanceKeeps(active, today, day, pos, t);
    assert kept[i] in kept;
    x :| 0 <= x < |active| && active[x].name in today && kept[i] == Fed(active[x], today, day, pos, t);
  }

  /** When every name present today is tracked, the records kept are exactly those of today's names. */
  lemma KeptCovers(w: seq<Open>, today: map<string, Aspect>, day: int, pos: map<string, real>, t: Tier, kept: seq<Open>)
    requires forall n :: n in today ==> Tracked(w, n)
    requires kept == Advance(w, today, day, pos, t).active
    ensures forall n :: Tracked(kept, n) <==> n in today
  {
    AdvanceKeeps(w, today, day, pos, t);
    forall n
      ensures Tracked(kept, n) <==> n in today
    {
      if n in today {
        var x :| 0 <= x < |w| && w[x].name == n;
        var o := Fed(w[x], today, day, pos, t);
        assert o in kept;
        var y :| 0 <= y < |kept| && kept[y] == o;
      }
      if Tracked(kept, n) {
        var y :| 0 <= y < |kept| && kept[y].name == n;
        assert kept[y] in kept;
      }
    }
  }

  /** The events a day closes are well formed and end that day. */
  lemma StepEventsWf(snaps: seq<Snap>, first: int, t: Tier, k: nat, active: seq<Open>, w: seq<Open>)
    requires 0 < k <= |snaps|
    requires ActiveWf(snaps, first, t, k - 1, active)
    requires w == OpenNew(active, FirstNames(snaps[k - 1].aspects), Today(snaps[k - 1]), first + k - 1)
    ensures forall e :: e in Advance(w, Today(snaps[k - 1]), first + k - 1, snaps[k - 1].pos, t).events ==>
      WfEvent(snaps, first, t, e) && e.end == first + k - 1
  {
    var es := Advance(w, Today(snaps[k - 1]), first + k - 1, snaps[k - 1].pos, t).events;
    forall e | e in es
      ensures WfEvent(snaps, first, t, e) && e.end == first + k - 1
    {
      var x := ClosedFrom(w, Today(snaps[k - 1]), first + k - 1, snaps[k - 1].pos, t, es, e);
      ClosedWf(snaps, first, t, k, active, w, x, e);
    }
  }

  /** Each event of a pass finishes a non-empty record absent today. */
  lemma ClosedFrom(active: seq<Open>, today: map<string, Aspect>, day: int, pos: map<string, real>, t: Tier,
                   es: seq<Event>, e: Event)
    returns (x: nat)
    requires es == Advance(active, today, day, pos, t).events
    requires e in es
    ensures x < |active| && active[x].name !in today && |active[x].readings| > 0
    ensures e == Finish(active[x], day, t)
  {
    AdvanceCloses(active, today, day, pos, t);
    x :| 0 <= x < |active| && active[x].name !in today && |active[x].readings| > 0 && e == Finish(active[x], day, t);
  }

  /** A record closed on day k-1 yields a well-formed event ending that day. */
  lemma ClosedWf(snaps: seq<Snap>, first: int, t: Tier, k: nat, active: seq<Open>, w: seq<Open>, x: nat, e: Event)
    requires 0 < k <= |snaps|
    requires ActiveWf(snaps, first, t, k - 1, active)
    requires w == OpenNew(active, FirstNames(snaps[k - 1].aspects), Today(snaps[k - 1]), first + k - 1)
    requires x < |w| && w[x].name !in Today(snaps[k - 1]) && |w[x].readings| > 0
    requires e == Finish(w[x], first + k - 1, t)
    ensures WfEvent(snaps, first, t, e) && e.end == first + k - 1
  {
    OpenedAbsent(snaps, first, t, k, active, w, x);
    ClosedOld(snaps, first, t, k, w[x]);
  }

  /** Appending the events closed on day k-1 to well-formed earlier events keeps them well formed. */
  lemma EventsAppend(snaps: seq<Snap>, first: int, t: Tier, k: nat, prev: seq<Event>, closed: seq<Event>)
    requires 0 < k
    requires EventsWf(snaps, first, t, k - 1, prev)
    requires forall e :: e in closed ==> WfEvent(snaps, first, t, e) && e.end == first + k - 1
    ensures EventsWf(snaps, first, t, k, prev + closed)
  {
    var all := prev + closed;
    forall x | 0 <= x < |all|
      ensures WfEvent(snaps, first, t, all[x]) && all[x].end - first < k
    {
      if x < |prev| {
        assert all[x] == prev[x];
      } else {
        assert all[x] == closed[x - |prev|];
        assert all[x] in closed;
      }
    }
  }

  /** The sweep's invariant: after k days the open records and the events emitted so far are well formed. */
  lemma {:induction false} RunInv(snaps: seq<Snap>, first: int, t: Tier, k: nat)
    requires k <= |snaps|
    ensures ActiveWf(snaps, first, t, k, Run(snaps, first, t, k).active)
    ensures EventsWf(snaps, first, t, k, Run(snaps, first, t, k).events)
  {
    if k > 0 {
      RunInv(snaps, first, t, k - 1);
      var prev := Run(snaps, first, t, k - 1);
      var today := Today(snaps[k - 1]);
      var w := OpenNew(prev.active, FirstNames(snaps[k - 1].aspects), today, first + k - 1);
      StepActiveWf(snaps, first, t, k, prev.active, w);
      StepEventsWf(snaps, first, t, k, prev.active, w);
      var step := Step(prev.active, snaps[k - 1], first + k - 1, t);
      assert step == Advance(w, today, first + k - 1, snaps[k - 1].pos, t);
      EventsAppend(snaps, first, t, k, prev.events, step.events);
    }
  }

  // ---------------------------------------------------------------------------
  // Properties of the sweep
  // ---------------------------------------------------------------------------

  /** Every event the sweep emits is a maximal run closed inside the window (see WfEvent), of the swept tier,
      and ends no later than the window's last day. */
  lemma SweepEventsWellFormed(snaps: seq<Snap>, first: int, t: Tier, e: Event)
    requires e in SweepTier(snaps, first, t)
    ensures WfEvent(snaps, first, t, e)
    ensures e.tier == t
    ensures e.start < e.end <= first + |snaps| - 1
    ensures |e.readings| == e.end - e.start
    ensures forall x :: 0 <= x < |e.readings| ==> e.readings[x].day == e.start + x
    ensures e.exactDate == e.readings[ArgMin(e.readings)].day
    ensures e.start <= e.exactDate < e.end
  {
    RunInv(snaps, first, t, |snaps|);
    var events := SweepTier(snaps, first, t);
    var i :| 0 <= i < |events| && events[i] == e;
    assert WfEvent(snaps, first, t, events[i]);
    WfEventFacts(snaps, first, t, e);
  }

  /** The shape of a well-formed event: its readings are one per day of the run, and its exact day lies inside it. */
  lemma WfEventFacts(snaps: seq<Snap>, first: int, t: Tier, e: Event)
    requires WfEvent(snaps, first, t, e)
    ensures e.tier == t
    ensures e.start < e.end <= first + |snaps| - 1
    ensures |e.readings| == e.end - e.start
    ensures forall x :: 0 <= x < |e.readings| ==> e.readings[x].day == e.start + x
    ensures e.exactDate == e.readings[ArgMin(e.readings)].day
    ensures e.start <= e.exactDate < e.end
  {
    var s := e.start - first;
    forall x | 0 <= x < |e.readings|
      ensures e.readings[x].day == e.start + x
    {
      assert ReadingOn(snaps, first, t, e.name, s + x, e.readings[x]);
    }
  }

  /** Every event a day closes ends on that day and belongs to the swept tier. */
  lemma StepEnds(active: seq<Open>, snap: Snap, day: int, t: Tier)
    ensures forall e :: e in Step(active, snap, day, t).events ==> e.end == day && e.tier == t
  {
    var today := Today(snap);
    AdvanceCloses(OpenNew(active, FirstNames(snap.aspects), today, day), today, day, snap.pos, t);
  }

  /** Events listed in the order of the day they close on. */
  ghost predicate CloseOrdered(es: seq<Event>) {
    forall x, y :: 0 <= x < y < |es| ==> es[x].end <= es[y].end
  }

  /** Every event closed before day d. */
  ghost predicate EndsBefore(es: seq<Event>, d: int) {
    forall x :: 0 <= x < |es| ==> es[x].end < d
  }

  /** Day k-1 appends to the earlier events only events that close on day k-1. */
  lemma RunEventsSplit(snaps: seq<Snap>, first: int, t: Tier, k: nat) returns (closed: seq<Event>)
    requires 0 < k <= |snaps|
    ensures Run(snaps, first, t, k).events == Run(snaps, first, t, k - 1).events + closed
    ensures forall e :: e in closed ==> e.end == first + k - 1
  {
    var prev := Run(snaps, first, t, k - 1);
    closed := Step(prev.active, snaps[k - 1], first + k - 1, t).events;
    StepEnds(prev.active, snaps[k - 1], first + k - 1, t);
  }

  /** Appending the events of day d to events closed earlier keeps them closed in order. */
  lemma AppendDay(prev: seq<Event>, closed: seq<Event>, d: int)
    requires EndsBefore(prev, d)
    requires forall e :: e in closed ==> e.end == d
    ensures EndsBefore(prev + closed, d + 1)
    ensures CloseOrdered(prev) ==> CloseOrdered(prev + closed)
  {
    var all := prev + closed;
    forall x | 0 <= x < |all|
      ensures all[x].end <= d
    {
      if x >= |prev| {
        assert all[x] == closed[x - |prev|];
      } else {
        assert all[x] == prev[x];
      }
    }
    if CloseOrdered(prev) {
      forall x, y | 0 <= x < y < |all|
        ensures all[x].end <= all[y].end
      {
        if y >= |prev| {
          assert all[y] == closed[y - |prev|];
        } else {
          assert all[x] == prev[x] && all[y] == prev[y];
        }
      }
    }
  }

  /** After k days every event has closed on one of those days. */
  lemma {:induction false} RunEnds(snaps: seq<Snap>, first: int, t: Tier, k: nat)
    requires k <= |snaps|
    ensures EndsBefore(Run(snaps, first, t, k).events, first + k)
  {
    if k > 0 {
      RunEnds(snaps, first, t, k - 1);
      var closed := RunEventsSplit(snaps, first, t, k);
      AppendDay(Run(snaps, first, t, k - 1).events, closed, first + k - 1);
    }
  }

  /** Events appear in the order of the day they close on. */
  lemma {:induction false} EventsInCloseOrder(snaps: seq<Snap>, first: int, t: Tier, k: nat)
    requires k <= |snaps|
    ensures CloseOrdered(Run(snaps, first, t, k).events)
  {
    if k > 0 {
      EventsInCloseOrder(snaps, first, t, k - 1);
      RunEnds(snaps, first, t, k - 1);
      var closed := RunEventsSplit(snaps, first, t, k);
      AppendDay(Run(snaps, first, t, k - 1).events, closed, first + k - 1);
    }
  }

  /** The events after k days are a prefix of the events after any later day. */
  lemma {:induction false} EventsGrow(snaps: seq<Snap>, first: int, t: Tier, k: nat, k': nat)
    requires k <= k' <= |snaps|
    ensures Run(snaps, first, t, k).events <= Run(snaps, first, t, k').events
    decreases k' - k
  {
    if k < k' {
      EventsGrow(snaps, first, t, k, k' - 1);
      var closed := RunEventsSplit(snaps, first, t, k');
      PrefixAppend(Run(snaps, first, t, k).events, Run(snaps, first, t, k' - 1).events, closed, Run(snaps, first, t, k').events);
    }
  }

  lemma PrefixAppend<T>(a: seq<T>, b: seq<T>, c: seq<T>, bc: seq<T>)
    requires a <= b
    requires bc == b + c
    ensures a <= bc
  {
    assert bc[..|a|] == b[..|a|];
  }

  /** The record tracking a run that is still going on day en-1 is the one opened on the run's first day. */
  lemma TrackedRun(snaps: seq<Snap>, first: int, t: Tier, n: string, s: nat, en: nat, active: seq<Open>) returns (x: nat)
    requires s < en <= |snaps|
    requires ActiveWf(snaps, first, t, en, active)
    requires RunStartsAt(snaps, n, s)
    requires forall d :: s <= d < en ==> n in Today(snaps[d])
    ensures x < |active| && active[x].name == n && active[x].start == first + s && |active[x].readings| > 0
  {
    assert n in Today(snaps[en - 1]);
    assert Tracked(active, n);
    x :| 0 <= x < |active| && active[x].name == n;
    var o := active[x];
    assert WfOpen(snaps, first, t, en, o);
    RunStartOf(snaps, first, t, n, s, en, o);
  }

  /** A well-formed record for a run present on [s, en) that began at s was opened at s. */
  lemma RunStartOf(snaps: seq<Snap>, first: int, t: Tier, n: string, s: nat, en: nat, o: Open)
    requires s < en <= |snaps|
    requires WfOpen(snaps, first, t, en, o) && o.name == n
    requires RunStartsAt(snaps, n, s)
    requires forall d :: s <= d < en ==> n in Today(snaps[d])
    ensures o.start == first + s
  {
    var s' := o.start - first;
    PresentBefore(snaps, first, t, n, s', o.readings, s);
    PresentAfter(snaps, n, s, en, s');
  }

  /** A name with matching readings from day index s on is present on each of those days. */
  lemma PresentWithin(snaps: seq<Snap>, first: int, t: Tier, n: string, s: nat, rs: seq<Reading>, d: nat)
    requires ReadingsMatch(snaps, first, t, n, s, rs)
    requires s <= d < s + |rs|
    ensures n in Today(snaps[d])
  {
    assert ReadingOn(snaps, first, t, n, s + (d - s), rs[d - s]);
  }

  /** Readings that start before day index d and reach it put the name on day d - 1. */
  lemma PresentBefore(snaps: seq<Snap>, first: int, t: Tier, n: string, s: nat, rs: seq<Reading>, d: nat)
    requires ReadingsMatch(snaps, first, t, n, s, rs)
    ensures s < d <= s + |rs| ==> n in Today(snaps[d - 1])
  {
    if s < d <= s + |rs| {
      PresentWithin(snaps, first, t, n, s, rs, d - 1);
    }
  }

  /** A name present on every day of [s, en) is present the day before any later day of that range. */
  lemma PresentAfter(snaps: seq<Snap>, n: string, s: nat, en: nat, d: int)
    requires en <= |snaps|
    requires forall d' :: s <= d' < en ==> n in Today(snaps[d'])
    ensures s < d < en ==> n in Today(snaps[d - 1])
  {
    if s < d < en {
      PresentOn(snaps, n, s, en, d - 1);
    }
  }

  /** A name present on every day of [s, en) is present on day d of that range. */
  lemma PresentOn(snaps: seq<Snap>, n: string, s: nat, en: nat, d: nat)
    requires en <= |snaps|
    requires forall d' :: s <= d' < en ==> n in Today(snaps[d'])
    requires s <= d < en
    ensures n in Today(snaps[d])
  {
  }

  /** A tracked, non-empty record whose name is absent on a day closes that day. */
  lemma StepClosesTracked(snaps: seq<Snap>, first: int, t: Tier, d: nat, active: seq<Open>, x: nat)
    requires d < |snaps|
    requires x < |active| && active[x].name !in Today(snaps[d]) && |active[x].readings| > 0
    ensures Finish(active[x], first + d, t) in Step(active, snaps[d], first + d, t).events
  {
    var today := Today(snaps[d]);
    var names := FirstNames(snaps[d].aspects);
    OpenNewPrefix(active, names, today, first + d);
    var w := OpenNew(active, names, today, first + d);
    AdvanceCloses(w, today, first + d, snaps[d].pos, t);
    assert w[x] == w[..|active|][x] == active[x];
    assert Step(active, snaps[d], first + d, t).events == Advance(w, today, first + d, snaps[d].pos, t).events;
  }

  /** Completeness: every run of a name that starts inside the window and ends before its last day is emitted. */
  lemma ClosedRunEmitted(snaps: seq<Snap>, first: int, t: Tier, n: string, s: nat, en: nat)
    requires s < en < |snaps|
    requires RunStartsAt(snaps, n, s)
    requires forall d :: s <= d < en ==> n in Today(snaps[d])
    requires n !in Today(snaps[en])
    ensures exists e :: e in SweepTier(snaps, first, t) && e.name == n && e.start == first + s && e.end == first + en
    ensures forall x, y ::
      (&& 0 <= x < |SweepTier(snaps, first, t)| && 0 <= y < |SweepTier(snaps, first, t)|
       && SweepTier(snaps, first, t)[x].name == n && SweepTier(snaps, first, t)[x].start == first + s
       && SweepTier(snaps, first, t)[y].name == n && SweepTier(snaps, first, t)[y].start == first + s) ==> x == y
  {
    RunInv(snaps, first, t, en);
    var st := Run(snaps, first, t, en);
    var x := TrackedRun(snaps, first, t, n, s, en, st.active);
    StepClosesTracked(snaps, first, t, en, st.active, x);
    var e := Finish(st.active[x], first + en, t);
    var step := Step(st.active, snaps[en], first + en, t);
    assert Run(snaps, first, t, en + 1).events == st.events + step.events;
    assert e in Run(snaps, first, t, en + 1).events;
    EventsGrow(snaps, first, t, en + 1, |snaps|);
    assert e in SweepTier(snaps, first, t);
  }

  /** No flush after the loop: a run still present on the window's last day is never emitted. */
  lemma OpenAtEndNotEmitted(snaps: seq<Snap>, first: int, t: Tier, n: string, s: nat)
    requires s < |snaps|
    requires forall d :: s <= d < |snaps| ==> n in Today(snaps[d])
    ensures forall e :: e in SweepTier(snaps, first, t) && e.name == n ==> e.start - first != s
  {
    forall e | e in SweepTier(snaps, first, t) && e.name == n
      ensures e.start - first != s
    {
      SweepEventsWellFormed(snaps, first, t, e);
    }
  }

  // ---------------------------------------------------------------------------
  // Each run is emitted once
  // ---------------------------------------------------------------------------

  /** Events whose names are pairwise different. */
  ghost predicate DistinctEventNames(es: seq<Event>) {
    forall x, y :: 0 <= x < y < |es| ==> es[x].name != es[y].name
  }

  /** Two events of one name are separate runs in emission order: the earlier ends before the later starts. */
  ghost predicate RunsApart(es: seq<Event>) {
    forall x, y :: 0 <= x < y < |es| && es[x].name == es[y].name ==> es[x].end < es[y].start
  }

  /** Records with distinct names close into events with distinct names. */
  lemma {:induction false} AdvanceClosesDistinct(active: seq<Open>, today: map<string, Aspect>, day: int, pos: map<string, real>, t: Tier)
    requires DistinctNames(active)
    ensures DistinctEventNames(Advance(active, today, day, pos, t).events)
  {
    if active != [] {
      var init := active[..|active| - 1];
      var last := active[|active| - 1];
      assert DistinctNames(init) by {
        forall x, y | 0 <= x < y < |init|
          ensures init[x].name != init[y].name
        {
          assert init[x] == active[x] && init[y] == active[y];
        }
      }
      AdvanceClosesDistinct(init, today, day, pos, t);
      var r := Advance(init, today, day, pos, t).events;
      if last.name !in today && |last.readings| > 0 {
        AdvanceCloses(init, today, day, pos, t);
        forall x | 0 <= x < |r|
          ensures r[x].name != last.name
        {
          assert r[x] in r;
          var z :| 0 <= z < |init| && init[z].name !in today && |init[z].readings| > 0 && r[x] == Finish(init[z], day, t);
          assert init[z] == active[z];
        }
        assert Advance(active, today, day, pos, t).events == r + [Finish(last, day, t)];
      }
    }
  }

  /** Day indices [s, en) are a maximal run of `n`: present on each, absent on en and, unless s is 0, on s - 1. */
  ghost predicate MaximalRun(snaps: seq<Snap>, n: string, s: nat, en: nat) {
    && s < en < |snaps|
    && (forall d :: s <= d < en ==> n in Today(snaps[d]))
    && n !in Today(snaps[en])
    && RunStartsAt(snaps, n, s)
  }

  /** A well-formed event covers a maximal run of its name. */
  lemma WfEventRun(snaps: seq<Snap>, first: int, t: Tier, e: Event)
    requires WfEvent(snaps, first, t, e)
    ensures MaximalRun(snaps, e.name, e.start - first, e.end - first)
  {
    var s := e.start - first;
    forall d | s <= d < e.end - first
      ensures e.name in Today(snaps[d])
    {
      PresentWithin(snaps, first, t, e.name, s, e.readings, d);
    }
  }

  /** Two maximal runs of one name, the first ending earlier, have a day of absence between them. */
  lemma RunsOfOneName(snaps: seq<Snap>, n: string, s1: nat, en1: nat, s2: nat, en2: nat)
    requires MaximalRun(snaps, n, s1, en1) && MaximalRun(snaps, n, s2, en2)
    requires en1 < en2
    ensures en1 < s2
  {
  }

  /** Two well-formed events of one name, the first closing earlier, have a day of absence between them. */
  lemma EarlierRunApart(snaps: seq<Snap>, first: int, t: Tier, e1: Event, e2: Event)
    requires WfEvent(snaps, first, t, e1) && WfEvent(snaps, first, t, e2)
    requires e1.name == e2.name && e1.end < e2.end
    ensures e1.end < e2.start
  {
    WfEventRun(snaps, first, t, e1);
    WfEventRun(snaps, first, t, e2);
    RunsOfOneName(snaps, e1.name, e1.start - first, e1.end - first, e2.start - first, e2.end - first);
  }

  /** Appending the events of one day, with distinct names, to earlier events keeps same-name events apart. */
  lemma AppendApart(snaps: seq<Snap>, first: int, t: Tier, k: nat, prev: seq<Event>, closed: seq<Event>, all: seq<Event>)
    requires RunsApart(prev) && DistinctEventNames(closed)
    requires EndsBefore(prev, first + k - 1)
    requires forall e :: e in closed ==> e.end == first + k - 1
    requires all == prev + closed
    requires EventsWf(snaps, first, t, k, all)
    ensures RunsApart(all)
  {
    forall x, y | 0 <= x < y < |all|
      ensures all[x].name == all[y].name ==> all[x].end < all[y].start
    {
      if y < |prev| {
        assert all[x] == prev[x] && all[y] == prev[y];
      } else if x < |prev| {
        assert all[x] == prev[x] && all[y] == closed[y - |prev|];
        assert all[y] in closed;
        if all[x].name == all[y].name {
          EarlierRunApart(snaps, first, t, all[x], all[y]);
        }
      } else {
        assert all[x] == closed[x - |prev|] && all[y] == closed[y - |prev|];
      }
    }
  }

  /** The events a day closes have distinct names and all end that day. */
  lemma DayClosesDistinct(active: seq<Open>, names: seq<string>, today: map<string, Aspect>, day: int,
                          pos: map<string, real>, t: Tier, closed: seq<Event>)
    requires DistinctNames(active)
    requires closed == Advance(OpenNew(active, names, today, day), today, day, pos, t).events
    ensures DistinctEventNames(closed)
    ensures forall e :: e in closed ==> e.end == day
  {
    var w := OpenNew(active, names, today, day);
    OpenNewDistinct(active, names, today, day);
    AdvanceClosesDistinct(w, today, day, pos, t);
    AdvanceCloses(w, today, day, pos, t);
  }

  /** The tracked records after any number of days have distinct names. */
  lemma RunDistinct(snaps: seq<Snap>, first: int, t: Tier, k: nat)
    requires k <= |snaps|
    ensures DistinctNames(Run(snaps, first, t, k).active)
  {
    RunInv(snaps, first, t, k);
  }

  /** The events after any number of days are well formed. */
  lemma RunEventsWf(snaps: seq<Snap>, first: int, t: Tier, k: nat)
    requires k <= |snaps|
    ensures EventsWf(snaps, first, t, k, Run(snaps, first, t, k).events)
  {
    RunInv(snaps, first, t, k);
  }

  /** Day k-1 appends to the earlier events only events of distinct names that close on day k-1. */
  lemma RunDayDistinct(snaps: seq<Snap>, first: int, t: Tier, k: nat) returns (closed: seq<Event>)
    requires 0 < k <= |snaps|
    ensures Run(snaps, first, t, k).events == Run(snaps, first, t, k - 1).events + closed
    ensures DistinctEventNames(closed)
    ensures forall e :: e in closed ==> e.end == first + k - 1
  {
    var prev := Run(snaps, first, t, k - 1);
    RunDistinct(snaps, first, t, k - 1);
    closed := Step(prev.active, snaps[k - 1], first + k - 1, t).events;
    StepDistinct(prev.active, snaps[k - 1], first + k - 1, t);
  }

  /** A day's step closes events of distinct names, all ending that day. */
  lemma StepDistinct(active: seq<Open>, snap: Snap, day: int, t: Tier)
    requires DistinctNames(active)
    ensures DistinctEventNames(Step(active, snap, day, t).events)
    ensures forall e :: e in Step(active, snap, day, t).events ==> e.end == day
  {
    var today := Today(snap);
    var names := FirstNames(snap.aspects);
    DayClosesDistinct(active, names, today, day, snap.pos, t, Step(active, snap, day, t).events);
  }

  /** After k days the events of one name are separate runs in emission order. */
  lemma {:induction false} RunApartInv(snaps: seq<Snap>, first: int, t: Tier, k: nat)
    requires k <= |snaps|
    ensures RunsApart(Run(snaps, first, t, k).events)
  {
    if k > 0 {
      RunApartInv(snaps, first, t, k - 1);
      RunEnds(snaps, first, t, k - 1);
      var closed := RunDayDistinct(snaps, first, t, k);
      RunEventsWf(snaps, first, t, k);
      AppendApart(snaps, first, t, k, Run(snaps, first, t, k - 1).events, closed, Run(snaps, first, t, k).events);
    }
  }

}
