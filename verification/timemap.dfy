/**
 * Shared vocabulary of the time map: the three display tiers, the aspect
 * records a day's snapshot holds, the per-day orb readings an event collects,
 * and the finished events.  Days are integers: offsets from the view's start
 * date, so the day before the start is -1.
 */
module TimeMap {
  import opened Wrappers

  /** The three display tiers, swept independently. */
  datatype Tier = LunarProg | OtherProg | Transits

  /** One aspect of a day's tier list, with the fields the widget reads by key. */
  datatype Aspect = Aspect(name: string, p1: string, p2: string, aspect: string, orb: real)

  /** What the cache holds for one day: the three tier lists and the transiting positions. */
  datatype DayData = DayData(lunarProg: seq<Aspect>, otherProg: seq<Aspect>, transits: seq<Aspect>,
                             transitPos: map<string, real>)

  /** One day's reading of a tracked aspect; transit readings also carry the transiting body's longitude. */
  datatype Reading = Reading(day: int, orb: real, p1Pos: Option<real>)

  /**
   * A finished event.  `exactDates` and `exactPos` are only filled in by the
   * transit merge (the source adds the keys `exact_dates` and `p1_pos_at_exact`
   * there); `passPos` is the source's `p1_pos_at_exact_pass`.
   */
  datatype Event = Event(name: string, tier: Tier, start: int, end: int, exactDate: int,
                         readings: seq<Reading>, data: Aspect, passPos: Option<real>,
                         exactDates: seq<int>, exactPos: Option<real>)

  /** Python's `min(readings, key=orb)`: the first reading whose orb is smallest. */
  function ArgMin(rs: seq<Reading>): (m: nat)
    requires |rs| > 0
    ensures m < |rs|
    ensures forall k :: 0 <= k < |rs| ==> rs[m].orb <= rs[k].orb
    ensures forall k :: 0 <= k < m ==> rs[m].orb < rs[k].orb
  {
    if |rs| == 1 then 0
    else
      var m := ArgMin(rs[..|rs| - 1]);
      if rs[|rs| - 1].orb < rs[m].orb then |rs| - 1 else m
  }

  predicate Sorted(s: seq<int>) {
    forall x, y :: 0 <= x < y < |s| ==> s[x] <= s[y]
  }

  function Insert(v: int, s: seq<int>): (r: seq<int>)
    requires Sorted(s)
    ensures Sorted(r)
    ensures multiset(r) == multiset(s) + multiset{v}
  {
    if s == [] then [v]
    else if v <= s[0] then [v] + s
    else
      var rest := Insert(v, s[1..]);
      assert s == [s[0]] + s[1..];
      assert forall y :: y in rest ==> s[0] <= y by {
        forall y | y in rest
          ensures s[0] <= y
        {
          assert y in multiset(rest);
          if y != v {
            assert y in multiset(s[1..]);
          }
        }
      }
      LeastPrepend(s[0], rest);
      [s[0]] + rest
  }

  lemma LeastPrepend(v: int, s: seq<int>)
    requires Sorted(s) && forall y :: y in s ==> v <= y
    ensures Sorted([v] + s)
  {
    forall x, y | 0 <= x < y < |[v] + s|
      ensures ([v] + s)[x] <= ([v] + s)[y]
    {
      assert ([v] + s)[y] == s[y - 1];
      assert s[y - 1] in s;
      if x > 0 {
        assert ([v] + s)[x] == s[x - 1];
      }
    }
  }

  /** Python's `list.sort()` on dates. */
  function Sort(s: seq<int>): (r: seq<int>)
    ensures Sorted(r)
    ensures multiset(r) == multiset(s)
  {
    if s == [] then []
    else
      assert s == [s[0]] + s[1..];
      Insert(s[0], Sort(s[1..]))
  }
}
