/**
 * The natal house of a longitude.  The chart supplies twelve house cusps
 * (longitudes in degrees, cusp i opening house i + 1); a position lies in a
 * house when it is on that house's arc, from its cusp up to the next one.
 *
 * `HouseAsWritten` is the lookup as the widget performs it: eleven
 * "between two consecutive cusps" tests, then a twelfth-house test that only
 * knows of a wrap through 0 degrees between cusp 12 and cusp 1.  When the wrap
 * through 0 degrees falls inside any other house, that house's arc is never
 * recognised and its positions are reported as house 12.  `HouseOf` is the
 * lookup with every arc allowed to wrap; the two agree on charts whose wrap is
 * between cusp 12 and cusp 1.
 */
module Houses {
  import opened Wrappers

  /** The lookup's outcome: a house number (shown as its decimal string), `"N/A"`, or the IndexError a short cusp list raises. */
  datatype HouseResult = House(n: nat) | NotAvailable | IndexError

  const FullCircle: real := 360.0

  // ---------------------------------------------------------------------------
  // The lookup as written
  // ---------------------------------------------------------------------------

  /**
   * The loop `for i in range(11)`: `cusps[i] <= p < cusps[i + 1]`.  The chained
   * comparison only reads `cusps[i + 1]` when its first half holds, so a short
   * list fails at the first index it actually reads.
   */
  function Slots(cusps: seq<real>, p: real, i: nat): HouseResult
    requires i <= 11
    decreases 11 - i
  {
    if i == 11 then TwelfthAsWritten(cusps, p)
    else if i >= |cusps| then IndexError
    else if cusps[i] <= p then
      if i + 1 >= |cusps| then IndexError
      else if p < cusps[i + 1] then House(i + 1)
      else Slots(cusps, p, i + 1)
    else Slots(cusps, p, i + 1)
  }

  /** `cusps[11] <= p < 360 or 0 <= p < cusps[0]` gives house 12, anything else `"N/A"`. */
  function TwelfthAsWritten(cusps: seq<real>, p: real): HouseResult {
    if |cusps| < 12 then IndexError
    else if cusps[11] <= p < FullCircle || 0.0 <= p < cusps[0] then House(12)
    else NotAvailable
  }

  /**
   * `_get_house_for_position`: no cusps or no position give `"N/A"`; a full
   * cusp list never raises, and a short one never gives `"N/A"`.
   */
  function HouseAsWritten(cusps: seq<real>, pos: Option<real>): (r: HouseResult)
    ensures |cusps| == 0 || pos.None? ==> r == NotAvailable
    ensures r == IndexError ==> 0 < |cusps| < 12
    ensures r == NotAvailable && |cusps| > 0 && pos.Some? ==> |cusps| >= 12
    ensures r.House? ==> 1 <= r.n <= 12 && (|cusps| < 12 ==> r.n < |cusps|)
  {
    if |cusps| == 0 || pos.None? then NotAvailable
    else if |cusps| >= 12 then
      SlotsSpec(cusps, pos.value, 0);
      Slots(cusps, pos.value, 0)
    else
      ShortCuspsRaise(cusps, pos.value, 0);
      Slots(cusps, pos.value, 0)
  }

  /** The consecutive-cusps test of slot `i`. */
  predicate Between(cusps: seq<real>, p: real, i: nat)
    requires i < 11 && |cusps| >= 12
  {
    cusps[i] <= p < cusps[i + 1]
  }

  /**
   * On a full cusp list the written lookup answers house `i + 1` exactly when
   * slot `i` is the first whose test holds, house 12 when no slot's does but
   * the twelfth-house test holds, and `"N/A"` otherwise; it never raises.
   */
  lemma {:induction false} SlotsSpec(cusps: seq<real>, p: real, i: nat)
    requires |cusps| >= 12 && i <= 11
    ensures Slots(cusps, p, i) != IndexError
    ensures forall n :: i < n <= 11 ==>
      (Slots(cusps, p, i) == House(n) <==> Between(cusps, p, n - 1) && forall j :: i <= j < n - 1 ==> !Between(cusps, p, j))
    ensures Slots(cusps, p, i) == House(12) <==>
      (forall j :: i <= j < 11 ==> !Between(cusps, p, j)) && (cusps[11] <= p < FullCircle || 0.0 <= p < cusps[0])
    ensures Slots(cusps, p, i) == NotAvailable <==>
      (forall j :: i <= j < 11 ==> !Between(cusps, p, j)) && !(cusps[11] <= p < FullCircle || 0.0 <= p < cusps[0])
    ensures Slots(cusps, p, i).House? ==> i < Slots(cusps, p, i).n <= 12
    decreases 11 - i
  {
    if i < 11 {
      SlotsSpec(cusps, p, i + 1);
      forall n | i + 1 < n <= 11
        ensures Slots(cusps, p, i) == House(n) <==>
                Between(cusps, p, n - 1) && forall j :: i <= j < n - 1 ==> !Between(cusps, p, j)
      {
        if Between(cusps, p, i) {
          assert Slots(cusps, p, i) == House(i + 1);
        } else {
          assert Slots(cusps, p, i) == Slots(cusps, p, i + 1);
        }
      }
    }
  }

  /** The written lookup on a full cusp list and a position: the first matching slot, else the twelfth-house test. */
  lemma HouseAsWrittenSpec(cusps: seq<real>, p: real, n: nat)
    requires |cusps| >= 12
    ensures HouseAsWritten(cusps, Some(p)) != IndexError
    ensures 1 <= n <= 11 ==>
      (HouseAsWritten(cusps, Some(p)) == House(n) <==>
       Between(cusps, p, n - 1) && forall j :: 0 <= j < n - 1 ==> !Between(cusps, p, j))
    ensures HouseAsWritten(cusps, Some(p)) == House(12) <==>
      (forall j :: 0 <= j < 11 ==> !Between(cusps, p, j)) && (cusps[11] <= p < FullCircle || 0.0 <= p < cusps[0])
    ensures HouseAsWritten(cusps, Some(p)).House? ==> 1 <= HouseAsWritten(cusps, Some(p)).n <= 12
  {
    SlotsSpec(cusps, p, 0);
  }

  /** A cusp list of one to eleven entries never yields `"N/A"`: the lookup finds an early house or raises. */
  lemma {:induction false} ShortCuspsRaise(cusps: seq<real>, p: real, i: nat)
    requires 0 < |cusps| < 12 && i <= 11
    ensures Slots(cusps, p, i) == IndexError || (Slots(cusps, p, i).House? && Slots(cusps, p, i).n < |cusps|)
    decreases 11 - i
  {
    if i < 11 {
      ShortCuspsRaise(cusps, p, i + 1);
    }
  }

  /** Cusps in increasing order inside one turn, wrapping only from cusp 12 back to cusp 1. */
  predicate Ascending(cusps: seq<real>) {
    && |cusps| >= 12
    && (forall i :: 0 <= i < 11 ==> cusps[i] < cusps[i + 1])
    && 0.0 <= cusps[0] && cusps[11] < FullCircle
  }

  /** With ascending cusps a cusp's own longitude lies in the house that cusp opens. */
  lemma CuspOpensHouseAsWritten(cusps: seq<real>, i: nat)
    requires Ascending(cusps) && i < 12
    ensures HouseAsWritten(cusps, Some(cusps[i])) == House(i + 1)
  {
    var p := cusps[i];
    SlotsSpec(cusps, p, 0);
    AscendingMono(cusps);
    if i < 11 {
      assert Between(cusps, p, i);
      forall j | 0 <= j < i
        ensures !Between(cusps, p, j)
      {
        assert cusps[j + 1] <= cusps[i];
      }
    } else {
      forall j | 0 <= j < 11
        ensures !Between(cusps, p, j)
      {
        assert cusps[j + 1] <= cusps[11];
      }
    }
  }

  lemma AscendingMono(cusps: seq<real>)
    requires Ascending(cusps)
    ensures forall a, b :: 0 <= a < b < 12 ==> cusps[a] < cusps[b]
  {
    forall a, b | 0 <= a < b < 12
      ensures cusps[a] < cusps[b]
    {
      AscendingStep(cusps, a, b);
    }
  }

  lemma {:induction false} AscendingStep(cusps: seq<real>, a: nat, b: nat)
    requires Ascending(cusps) && a < b < 12
    ensures cusps[a] < cusps[b]
    decreases b - a
  {
    if a + 1 < b {
      AscendingStep(cusps, a + 1, b);
    }
  }

  // ---------------------------------------------------------------------------
  // The lookup with wrapping arcs
  // ---------------------------------------------------------------------------

  /** The cusp after cusp `i`, going round the circle. */
  function Next(i: nat): nat
    requires i < 12
  {
    if i == 11 then 0 else i + 1
  }

  /** The arc from `lo` up to `hi`, running through 0 degrees when `hi` is below `lo`. */
  predicate InArc(lo: real, hi: real, p: real) {
    if lo <= hi then lo <= p < hi else (lo <= p < FullCircle || 0.0 <= p < hi)
  }

  predicate OnArc(cusps: seq<real>, p: real, i: nat)
    requires |cusps| >= 12 && i < 12
  {
    InArc(cusps[i], cusps[Next(i)], p)
  }

  function FirstArc(cusps: seq<real>, p: real, i: nat): (r: HouseResult)
    requires |cusps| >= 12 && i <= 12
    ensures r.House? ==> i < r.n <= 12 && OnArc(cusps, p, r.n - 1) && forall j :: i <= j < r.n - 1 ==> !OnArc(cusps, p, j)
    ensures r.NotAvailable? <==> forall j :: i <= j < 12 ==> !OnArc(cusps, p, j)
    ensures !r.IndexError?
    decreases 12 - i
  {
    if i == 12 then NotAvailable
    else if OnArc(cusps, p, i) then House(i + 1)
    else FirstArc(cusps, p, i + 1)
  }

  /**
   * The house of a position: the first house whose arc holds it, `"N/A"` when
   * none does or there is no data, and the IndexError of the written lookup
   * for a list of one to eleven cusps.
   */
  function HouseOf(cusps: seq<real>, pos: Option<real>): (r: HouseResult)
    ensures |cusps| == 0 || pos.None? ==> r == NotAvailable
    ensures r == IndexError <==> 0 < |cusps| < 12 && pos.Some?
    ensures r.House? ==>
      && |cusps| >= 12 && pos.Some? && 1 <= r.n <= 12 && OnArc(cusps, pos.value, r.n - 1)
      && forall j :: 0 <= j < r.n - 1 ==> !OnArc(cusps, pos.value, j)
    ensures |cusps| >= 12 && pos.Some? ==> (r == NotAvailable <==> forall j :: 0 <= j < 12 ==> !OnArc(cusps, pos.value, j))
  {
    if |cusps| == 0 || pos.None? then NotAvailable
    else if |cusps| < 12 then IndexError
    else FirstArc(cusps, pos.value, 0)
  }

  /** Cusps going once round the circle: every house's arc runs upward except that of house `w + 1`, which holds 0 degrees. */
  predicate Circular(cusps: seq<real>, w: nat) {
    && |cusps| >= 12 && w < 12
    && (forall i :: 0 <= i < 12 ==> 0.0 <= cusps[i] < FullCircle)
    && (forall i :: 0 <= i < 12 && i != w ==> cusps[i] < cusps[Next(i)])
  }

  /** The k-th cusp met going round from the one after the wrapping house. */
  function Walk(w: nat, k: nat): (j: nat)
    requires w < 12 && k < 12
    ensures j < 12
  {
    if w + 1 + k < 12 then w + 1 + k else w + 1 + k - 12
  }

  lemma WalkNext(w: nat, k: nat)
    requires w < 12 && k < 11
    ensures Walk(w, k + 1) == Next(Walk(w, k))
    ensures Walk(w, 11) == w
    ensures Walk(w, 0) == Next(w)
    ensures Walk(w, k) != w
  {
  }

  /** Going round from the cusp after the wrap, the cusps increase all the way to the wrapping house's cusp. */
  lemma {:induction false} WalkAscends(cusps: seq<real>, w: nat, a: nat, b: nat)
    requires Circular(cusps, w) && a < b <= 11
    ensures cusps[Walk(w, a)] < cusps[Walk(w, b)]
    decreases b - a
  {
    WalkNext(w, a);
    if a + 1 < b {
      WalkAscends(cusps, w, a + 1, b);
    }
  }

  /** Every arc but the wrapping one runs upward, and the wrapping one does hold 0 degrees. */
  lemma WrapArc(cusps: seq<real>, w: nat)
    requires Circular(cusps, w)
    ensures cusps[Next(w)] < cusps[w]
  {
    WalkNext(w, 0);
    WalkAscends(cusps, w, 0, 11);
  }

  /** The house arcs of circular cusps cover the whole circle. */
  lemma ArcsCover(cusps: seq<real>, w: nat, p: real) returns (i: nat)
    requires Circular(cusps, w) && 0.0 <= p < FullCircle
    ensures i < 12 && OnArc(cusps, p, i)
  {
    WrapArc(cusps, w);
    if OnArc(cusps, p, w) {
      return w;
    }
    WalkNext(w, 0);
    i := Climb(cusps, w, p, 0);
  }

  lemma {:induction false} Climb(cusps: seq<real>, w: nat, p: real, k: nat) returns (i: nat)
    requires Circular(cusps, w) && k < 11
    requires cusps[Walk(w, k)] <= p < cusps[w]
    ensures i < 12 && OnArc(cusps, p, i)
    decreases 11 - k
  {
    WalkNext(w, k);
    var j := Walk(w, k);
    if p < cusps[Next(j)] {
      return j;
    }
    i := Climb(cusps, w, p, k + 1);
  }

  /** Arcs of circular cusps do not overlap: a position lies on at most one. */
  lemma ArcsDisjoint(cusps: seq<real>, w: nat, p: real, a: nat, b: nat)
    requires Circular(cusps, w) && a < 12 && b < 12
    requires OnArc(cusps, p, a) && OnArc(cusps, p, b)
    ensures a == b
  {
    var ka := WalkIndex(w, a);
    var kb := WalkIndex(w, b);
    if ka < kb {
      NotTwoArcs(cusps, w, p, ka, kb);
    } else if kb < ka {
      NotTwoArcs(cusps, w, p, kb, ka);
    }
  }

  /** Where cusp `i` comes in the walk from the cusp after the wrap. */
  lemma WalkIndex(w: nat, i: nat) returns (k: nat)
    requires w < 12 && i < 12
    ensures k < 12 && Walk(w, k) == i
    ensures k == 11 <==> i == w
  {
    k := if i > w then i - w - 1 else i + 11 - w;
  }

  /** A position on an arc earlier in the walk is on no later arc. */
  lemma NotTwoArcs(cusps: seq<real>, w: nat, p: real, ka: nat, kb: nat)
    requires Circular(cusps, w) && ka < kb < 12
    requires OnArc(cusps, p, Walk(w, ka))
    ensures !OnArc(cusps, p, Walk(w, kb))
  {
    WalkNext(w, ka);
    WrapArc(cusps, w);
    if kb < 11 {
      WalkNext(w, kb);
      if ka + 1 < kb {
        WalkAscends(cusps, w, ka + 1, kb);
      }
    } else {
      WalkNext(w, 0);
      if ka > 0 {
        WalkAscends(cusps, w, 0, ka);
      }
      if ka + 1 < 11 {
        WalkAscends(cusps, w, ka + 1, 11);
      }
    }
  }

  /**
   * With circular cusps every position on the circle is in exactly one house:
   * the lookup answers house `i + 1` exactly when the position is on house
   * `i + 1`'s arc.
   */
  lemma HouseOfSpec(cusps: seq<real>, w: nat, p: real, i: nat)
    requires Circular(cusps, w) && 0.0 <= p < FullCircle && i < 12
    ensures HouseOf(cusps, Some(p)).House?
    ensures HouseOf(cusps, Some(p)) == House(i + 1) <==> OnArc(cusps, p, i)
  {
    var c := ArcsCover(cusps, w, p);
    var r := FirstArc(cusps, p, 0);
    assert r.House?;
    if OnArc(cusps, p, i) {
      ArcsDisjoint(cusps, w, p, i, r.n - 1);
    }
  }

  /** With circular cusps a cusp's own longitude lies in the house that cusp opens. */
  lemma CuspOpensHouse(cusps: seq<real>, w: nat, i: nat)
    requires Circular(cusps, w) && i < 12
    ensures HouseOf(cusps, Some(cusps[i])) == House(i + 1)
  {
    WrapArc(cusps, w);
    assert OnArc(cusps, cusps[i], i);
    HouseOfSpec(cusps, w, cusps[i], i);
  }

  /** Ascending cusps are circular with the wrap in house 12. */
  lemma AscendingCircular(cusps: seq<real>)
    requires Ascending(cusps)
    ensures Circular(cusps, 11)
  {
    AscendingMono(cusps);
  }

  /** Where no house but the twelfth can hold 0 degrees, the corrected lookup answers as the written one does. */
  lemma {:induction false} AgreeSlots(cusps: seq<real>, p: real, i: nat)
    requires |cusps| >= 12 && i <= 11
    requires forall j :: 0 <= j < 11 ==> cusps[j] <= cusps[j + 1]
    requires cusps[0] < cusps[11]
    ensures Slots(cusps, p, i) == FirstArc(cusps, p, i)
    decreases 11 - i
  {
    if i < 11 {
      AgreeSlots(cusps, p, i + 1);
    }
  }

  /** On ascending cusps, and on any full list whose only downward step is from cusp 12 to cusp 1, both lookups agree. */
  lemma AgreeOnAscending(cusps: seq<real>, pos: Option<real>)
    requires |cusps| >= 12
    requires forall j :: 0 <= j < 11 ==> cusps[j] <= cusps[j + 1]
    requires cusps[0] < cusps[11]
    ensures HouseAsWritten(cusps, pos) == HouseOf(cusps, pos)
  {
    if pos.Some? {
      AgreeSlots(cusps, pos.value, 0);
    }
  }

  /** A chart whose wrap through 0 degrees falls in house 6. */
  const WrappedCusps: seq<real> := [200.0, 230.0, 260.0, 290.0, 320.0, 350.0, 20.0, 50.0, 80.0, 110.0, 140.0, 170.0]

  /**
   * On that chart, 355 degrees lies on house 6's arc (from 350 through 0 to
   * 20), and so do 10 degrees and house 6's own cusp, yet the written lookup
   * puts all three in house 12.
   */
  lemma WrappedHouseAsWritten()
    ensures HouseAsWritten(WrappedCusps, Some(355.0)) == House(12)
    ensures HouseAsWritten(WrappedCusps, Some(350.0)) == House(12)
    ensures HouseAsWritten(WrappedCusps, Some(10.0)) == House(12)
    ensures forall p :: p in [355.0, 350.0, 10.0] ==> OnArc(WrappedCusps, p, 5)
  {
  }

  /** The corrected lookup puts the same three positions in house 6. */
  lemma WrappedHouseCorrected()
    ensures HouseOf(WrappedCusps, Some(355.0)) == House(6)
    ensures HouseOf(WrappedCusps, Some(350.0)) == House(6)
    ensures HouseOf(WrappedCusps, Some(10.0)) == House(6)
  {
    assert Circular(WrappedCusps, 5);
    HouseOfSpec(WrappedCusps, 5, 355.0, 5);
    HouseOfSpec(WrappedCusps, 5, 350.0, 5);
    HouseOfSpec(WrappedCusps, 5, 10.0, 5);
  }
}
