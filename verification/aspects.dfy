/**
 * The single-chart aspect scan: every unordered pair of bodies of one chart is
 * compared once, its angular separation is folded into [0, 180], and every one
 * of the seven aspect kinds whose angle lies within the orb is reported as a
 * string "<first body> <Kind> <second body>".
 *
 * A chart is the source's dictionary from body name to longitude, written as a
 * sequence in the dictionary's key order.  Longitudes are reals: the scan only
 * subtracts, takes absolute values and compares.
 */
module Aspects {

  /** The aspect kinds, in the order in which they are defined and tested. */
  datatype Kind = Conjunction | SemiSextile | Sextile | Square | Trine | Inconjunct | Opposition

  const Kinds: seq<Kind> := [Conjunction, SemiSextile, Sextile, Square, Trine, Inconjunct, Opposition]

  /** Position of a kind in definition order. */
  function Rank(k: Kind): nat {
    match k
    case Conjunction => 0
    case SemiSextile => 1
    case Sextile => 2
    case Square => 3
    case Trine => 4
    case Inconjunct => 5
    case Opposition => 6
  }

  /** The defining angle of a kind, in degrees. */
  function Angle(k: Kind): real {
    match k
    case Conjunction => 0.0
    case SemiSextile => 30.0
    case Sextile => 60.0
    case Square => 90.0
    case Trine => 120.0
    case Inconjunct => 150.0
    case Opposition => 180.0
  }

  /** The name under which a kind is reported. */
  function KindName(k: Kind): string {
    match k
    case Conjunction => "Conjunction"
    case SemiSextile => "Semi-Sextile"
    case Sextile => "Sextile"
    case Square => "Square"
    case Trine => "Trine"
    case Inconjunct => "Inconjunct"
    case Opposition => "Opposition"
  }

  /** One body of a chart and its ecliptic longitude in degrees. */
  datatype Body = Body(name: string, lon: real)

  /** A match found by the scan: the bodies at positions i and j of the chart form `kind`. */
  datatype Hit = Hit(i: nat, j: nat, kind: Kind)

  function Abs(x: real): real {
    if x < 0.0 then -x else x
  }

  function Min(x: real, y: real): real {
    if x <= y then x else y
  }

  predicate IsLongitude(x: real) {
    0.0 <= x < 360.0
  }

  /** Angular separation of two longitudes, folded into [0, 180]. */
  function Separation(a: real, b: real): (sep: real)
    ensures IsLongitude(a) && IsLongitude(b) ==> 0.0 <= sep <= 180.0
    ensures IsLongitude(a) && IsLongitude(b) ==> sep == Min(Abs(a - b), 360.0 - Abs(a - b))
  {
    var angle := Abs(a - b);
    if angle > 180.0 then 360.0 - angle else angle
  }

  /** A separation forms `k` when it is within `orb` of the kind's angle, boundary included. */
  predicate Within(sep: real, k: Kind, orb: real) {
    Abs(sep - Angle(k)) <= orb
  }

  /** The specification of a reported match: a pair i < j of the chart whose separation forms the kind. */
  predicate IsHit(chart: seq<Body>, orb: real, h: Hit) {
    h.i < h.j < |chart| && Within(Separation(chart[h.i].lon, chart[h.j].lon), h.kind, orb)
  }

  /** Pair-major, kind-minor order: the order in which the nested loops visit candidates. */
  predicate Before(a: Hit, b: Hit) {
    a.i < b.i || (a.i == b.i && a.j < b.j) || (a.i == b.i && a.j == b.j && Rank(a.kind) < Rank(b.kind))
  }

  predicate Ascending(hs: seq<Hit>) {
    forall x, y :: 0 <= x < y < |hs| ==> Before(hs[x], hs[y])
  }

  predicate RankAscending(ks: seq<Kind>) {
    forall x, y :: 0 <= x < y < |ks| ==> Rank(ks[x]) < Rank(ks[y])
  }

  /** The kinds of `ks` formed by one pair, in the order of `ks`. */
  function KindHits(i: nat, j: nat, sep: real, orb: real, ks: seq<Kind>): (hs: seq<Hit>)
    ensures forall h :: h in hs ==> h.i == i && h.j == j
    ensures |hs| <= |ks|
  {
    if ks == [] then []
    else (if Within(sep, ks[0], orb) then [Hit(i, j, ks[0])] else []) + KindHits(i, j, sep, orb, ks[1..])
  }

  /** The inner loop: body i against bodies j, j+1, ... of the chart. */
  function RowHits(chart: seq<Body>, i: nat, j: nat, orb: real): (hs: seq<Hit>)
    requires i < |chart|
    ensures forall h :: h in hs ==> h.i == i && j <= h.j < |chart|
    decreases |chart| - j
  {
    if j >= |chart| then []
    else KindHits(i, j, Separation(chart[i].lon, chart[j].lon), orb, Kinds) + RowHits(chart, i, j + 1, orb)
  }

  /** The outer loop from body i on. */
  function ScanFrom(chart: seq<Body>, i: nat, orb: real): (hs: seq<Hit>)
    ensures forall h :: h in hs ==> i <= h.i < h.j < |chart|
    decreases |chart| - i
  {
    if i >= |chart| then []
    else RowHits(chart, i, i + 1, orb) + ScanFrom(chart, i + 1, orb)
  }

  /** All matches of the chart, in the order the source reports them. */
  function Scan(chart: seq<Body>, orb: real): seq<Hit> {
    ScanFrom(chart, 0, orb)
  }

  /** The reported text "<p1> <Kind> <p2>". */
  function Label(p1: string, k: Kind, p2: string): string {
    p1 + " " + KindName(k) + " " + p2
  }

  function Render(chart: seq<Body>, h: Hit): string
    requires h.i < |chart| && h.j < |chart|
  {
    Label(chart[h.i].name, h.kind, chart[h.j].name)
  }

  function RenderAll(chart: seq<Body>, hs: seq<Hit>): seq<string>
    requires forall h :: h in hs ==> h.i < |chart| && h.j < |chart|
  {
    seq(|hs|, x requires 0 <= x < |hs| => Render(chart, hs[x]))
  }

  /** `calculate_aspects(planets, orb)`. */
  function CalculateAspects(chart: seq<Body>, orb: real): (found: seq<string>)
    ensures |found| == |Scan(chart, orb)|
    ensures forall s :: s in found <==> exists h :: IsHit(chart, orb, h) && s == Render(chart, h)
  {
    var hs := Scan(chart, orb);
    var out := RenderAll(chart, hs);
    assert forall s :: s in out ==> exists h :: IsHit(chart, orb, h) && s == Render(chart, h) by {
      forall s | s in out
        ensures exists h :: IsHit(chart, orb, h) && s == Render(chart, h)
      {
        var x :| 0 <= x < |out| && out[x] == s;
        assert hs[x] in hs;
        ScanComplete(chart, orb, hs[x]);
      }
    }
    assert forall h :: IsHit(chart, orb, h) ==> Render(chart, h) in out by {
      forall h | IsHit(chart, orb, h)
        ensures Render(chart, h) in out
      {
        ScanComplete(chart, orb, h);
        assert h in hs;
        var x :| 0 <= x < |hs| && hs[x] == h;
        assert out[x] == Render(chart, h);
      }
    }
    out
  }

  /** The source's nested loops, appending to a list exactly as `calculate_aspects` does: the outer
      loop over first bodies. */
  method CalculateAspectsLoop(chart: seq<Body>, orb: real) returns (found: seq<string>)
    ensures found == CalculateAspects(chart, orb)
  {
    found := [];
    var i := 0;
    while i < |chart|
      invariant 0 <= i <= |chart|
      invariant found + RenderAll(chart, ScanFrom(chart, i, orb)) == RenderAll(chart, Scan(chart, orb))
    {
      var row := RowLoop(chart, i, orb);
      RenderAllAppend(chart, RowHits(chart, i, i + 1, orb), ScanFrom(chart, i + 1, orb));
      found := found + row;
      i := i + 1;
    }
  }

  /** The middle loop: body i against every later body. */
  method RowLoop(chart: seq<Body>, i: nat, orb: real) returns (found: seq<string>)
    requires i < |chart|
    ensures found == RenderAll(chart, RowHits(chart, i, i + 1, orb))
  {
    found := [];
    var j := i + 1;
    while j < |chart|
      invariant i + 1 <= j <= |chart|
      invariant found + RenderAll(chart, RowHits(chart, i, j, orb)) == RenderAll(chart, RowHits(chart, i, i + 1, orb))
    {
      var pair := KindLoop(chart, i, j, orb);
      var here := KindHits(i, j, Separation(chart[i].lon, chart[j].lon), orb, Kinds);
      var later := RowHits(chart, i, j + 1, orb);
      assert RowHits(chart, i, j, orb) == here + later;
      RenderAllAppend(chart, here, later);
      assert (found + pair) + RenderAll(chart, later) == found + RenderAll(chart, here + later);
      found := found + pair;
      j := j + 1;
    }
  }

  /** The inner loop: one pair against the seven kinds in definition order. */
  method KindLoop(chart: seq<Body>, i: nat, j: nat, orb: real) returns (found: seq<string>)
    requires i < j < |chart|
    ensures found == RenderAll(chart, KindHits(i, j, Separation(chart[i].lon, chart[j].lon), orb, Kinds))
  {
    var angle := Abs(chart[i].lon - chart[j].lon);
    if angle > 180.0 {
      angle := 360.0 - angle;
    }
    found := KindsLoop(chart, i, j, angle, orb, Kinds);
  }

  /** The loop over kinds, for any list of kinds. */
  method KindsLoop(chart: seq<Body>, i: nat, j: nat, angle: real, orb: real, ks: seq<Kind>) returns (found: seq<string>)
    requires i < j < |chart|
    ensures found == RenderAll(chart, KindHits(i, j, angle, orb, ks))
  {
    found := [];
    var k := 0;
    while k < |ks|
      invariant 0 <= k <= |ks|
      invariant found + RenderAll(chart, KindHits(i, j, angle, orb, ks[k..]))
                == RenderAll(chart, KindHits(i, j, angle, orb, ks))
    {
      var kind := ks[k];
      var rest := RenderAll(chart, KindHits(i, j, angle, orb, ks[k + 1..]));
      RenderKindStep(chart, i, j, angle, orb, ks[k..]);
      assert ks[k..][1..] == ks[k + 1..];
      if Abs(angle - Angle(kind)) <= orb {
        var text := Label(chart[i].name, kind, chart[j].name);
        assert found + ([text] + rest) == (found + [text]) + rest;
        found := found + [text];
      }
      k := k + 1;
    }
  }

  /** One step of the kind loop: the first kind's report, if any, followed by the reports of the rest. */
  lemma RenderKindStep(chart: seq<Body>, i: nat, j: nat, sep: real, orb: real, ks: seq<Kind>)
    requires i < j < |chart| && ks != []
    ensures RenderAll(chart, KindHits(i, j, sep, orb, ks))
            == (if Within(sep, ks[0], orb) then [Label(chart[i].name, ks[0], chart[j].name)] else [])
               + RenderAll(chart, KindHits(i, j, sep, orb, ks[1..]))
  {
    var head: seq<Hit> := if Within(sep, ks[0], orb) then [Hit(i, j, ks[0])] else [];
    var rest := KindHits(i, j, sep, orb, ks[1..]);
    RenderAllAppend(chart, head, rest);
    assert RenderAll(chart, head) == if Within(sep, ks[0], orb) then [Label(chart[i].name, ks[0], chart[j].name)] else [];
  }

  lemma {:induction false} RenderAllAppend(chart: seq<Body>, a: seq<Hit>, b: seq<Hit>)
    requires forall h :: h in a ==> h.i < |chart| && h.j < |chart|
    requires forall h :: h in b ==> h.i < |chart| && h.j < |chart|
    ensures RenderAll(chart, a + b) == RenderAll(chart, a) + RenderAll(chart, b)
  {
    var l := RenderAll(chart, a + b);
    var r := RenderAll(chart, a) + RenderAll(chart, b);
    assert |l| == |r|;
    forall x | 0 <= x < |l|
      ensures l[x] == r[x]
    {
      if x < |a| {
        assert (a + b)[x] == a[x];
      } else {
        assert (a + b)[x] == b[x - |a|];
      }
    }
  }

  // ---------------------------------------------------------------------------
  // Properties of the scan
  // ---------------------------------------------------------------------------

  /** The separation does not depend on the order of the two longitudes. */
  lemma SeparationSymmetric(a: real, b: real)
    ensures Separation(a, b) == Separation(b, a)
  {
  }

  /** Every unordered pair of distinct positions is examined once, as (i, j) with i < j, and a kind is
      reported for it exactly when the folded separation is within the orb of the kind's angle. */
  lemma {:induction false} ScanComplete(chart: seq<Body>, orb: real, h: Hit)
    ensures h in Scan(chart, orb) <==> IsHit(chart, orb, h)
  {
    ScanFromMembers(chart, 0, orb, h);
    if h.i < |chart| {
      RowMembers(chart, h.i, h.i + 1, orb, h);
    }
  }

  /** A hit is found from row i on exactly when it lies in its own row, at or after row i. */
  lemma {:induction false} ScanFromMembers(chart: seq<Body>, i: nat, orb: real, h: Hit)
    ensures h in ScanFrom(chart, i, orb) <==> i <= h.i < |chart| && h in RowHits(chart, h.i, h.i + 1, orb)
    decreases |chart| - i
  {
    if i < |chart| {
      ScanFromMembers(chart, i + 1, orb, h);
      assert ScanFrom(chart, i, orb) == RowHits(chart, i, i + 1, orb) + ScanFrom(chart, i + 1, orb);
    }
  }

  lemma {:induction false} RowMembers(chart: seq<Body>, i: nat, j: nat, orb: real, h: Hit)
    requires i < |chart|
    requires i < j
    ensures h in RowHits(chart, i, j, orb) <==> h.i == i && j <= h.j && IsHit(chart, orb, h)
    decreases |chart| - j
  {
    if j < |chart| {
      var sep := Separation(chart[i].lon, chart[j].lon);
      var kh := KindHits(i, j, sep, orb, Kinds);
      var rest := RowHits(chart, i, j + 1, orb);
      assert RowHits(chart, i, j, orb) == kh + rest;
      KindMembers(i, j, sep, orb, Kinds, h);
      RowMembers(chart, i, j + 1, orb, h);
      KindListed(h.kind);
      assert h in kh + rest <==> h in kh || h in rest;
    }
  }

  /** Every kind is among the seven the scan tries. */
  lemma KindListed(k: Kind)
    ensures k in Kinds
  {
    match k
    case Conjunction => assert Kinds[0] == k;
    case SemiSextile => assert Kinds[1] == k;
    case Sextile => assert Kinds[2] == k;
    case Square => assert Kinds[3] == k;
    case Trine => assert Kinds[4] == k;
    case Inconjunct => assert Kinds[5] == k;
    case Opposition => assert Kinds[6] == k;
  }

  lemma {:induction false} KindMembers(i: nat, j: nat, sep: real, orb: real, ks: seq<Kind>, h: Hit)
    ensures h in KindHits(i, j, sep, orb, ks) <==> h.i == i && h.j == j && h.kind in ks && Within(sep, h.kind, orb)
  {
    if ks != [] {
      KindMembers(i, j, sep, orb, ks[1..], h);
      assert ks == [ks[0]] + ks[1..];
    }
  }

  /** The scan visits pairs in (i, j) order and, within a pair, kinds in definition order; as the order is
      strict, no match is reported twice. */
  lemma {:induction false} ScanOrdered(chart: seq<Body>, orb: real)
    ensures Ascending(Scan(chart, orb))
  {
    ScanFromOrdered(chart, 0, orb);
  }

  lemma {:induction false} ScanFromOrdered(chart: seq<Body>, i: nat, orb: real)
    ensures Ascending(ScanFrom(chart, i, orb))
    decreases |chart| - i
  {
    if i < |chart| {
      RowOrdered(chart, i, i + 1, orb);
      ScanFromOrdered(chart, i + 1, orb);
      AppendAscending(RowHits(chart, i, i + 1, orb), ScanFrom(chart, i + 1, orb));
    }
  }

  lemma {:induction false} RowOrdered(chart: seq<Body>, i: nat, j: nat, orb: real)
    requires i < |chart|
    ensures Ascending(RowHits(chart, i, j, orb))
    decreases |chart| - j
  {
    if j < |chart| {
      var sep := Separation(chart[i].lon, chart[j].lon);
      KindsOrdered(i, j, sep, orb, Kinds);
      RowOrdered(chart, i, j + 1, orb);
      AppendAscending(KindHits(i, j, sep, orb, Kinds), RowHits(chart, i, j + 1, orb));
    }
  }

  lemma {:induction false} KindsOrdered(i: nat, j: nat, sep: real, orb: real, ks: seq<Kind>)
    requires RankAscending(ks)
    ensures Ascending(KindHits(i, j, sep, orb, ks))
  {
    if ks != [] {
      assert RankAscending(ks[1..]);
      KindsOrdered(i, j, sep, orb, ks[1..]);
      var head: seq<Hit> := if Within(sep, ks[0], orb) then [Hit(i, j, ks[0])] else [];
      forall h | h in KindHits(i, j, sep, orb, ks[1..])
        ensures Rank(ks[0]) < Rank(h.kind)
      {
        KindMembers(i, j, sep, orb, ks[1..], h);
        var y :| 0 <= y < |ks[1..]| && ks[1..][y] == h.kind;
        assert ks[y + 1] == h.kind;
      }
      AppendAscending(head, KindHits(i, j, sep, orb, ks[1..]));
    }
  }

  lemma AppendAscending(a: seq<Hit>, b: seq<Hit>)
    requires Ascending(a) && Ascending(b)
    requires forall x, y :: x in a && y in b ==> Before(x, y)
    ensures Ascending(a + b)
  {
    forall x, y | 0 <= x < y < |a + b|
      ensures Before((a + b)[x], (a + b)[y])
    {
      if y < |a| {
        assert (a + b)[x] == a[x] && (a + b)[y] == a[y];
      } else if x >= |a| {
        assert (a + b)[x] == b[x - |a|] && (a + b)[y] == b[y - |a|];
      } else {
        assert (a + b)[x] == a[x] && (a + b)[y] == b[y - |a|];
        assert a[x] in a && b[y - |a|] in b;
      }
    }
  }

  /** Number of unordered pairs of n bodies, counted the way the loops visit them. */
  function Pairs(n: nat): nat {
    if n == 0 then 0 else (n - 1) + Pairs(n - 1)
  }

  lemma {:induction false} PairsClosedForm(n: nat)
    ensures 2 * Pairs(n) == n * (n - 1)
  {
    if n > 0 {
      PairsClosedForm(n - 1);
      assert (n - 1) * (n - 2) + 2 * (n - 1) == n * (n - 1);
    }
  }

  /** At most seven reports per pair: the output has at most 7 * n(n-1)/2 entries. */
  lemma {:induction false} OutputBound(chart: seq<Body>, orb: real)
    ensures 2 * |CalculateAspects(chart, orb)| <= 7 * |chart| * (|chart| - 1)
  {
    ScanFromBound(chart, 0, orb);
    PairsClosedForm(|chart|);
    assert 7 * (|chart| * (|chart| - 1)) == 7 * |chart| * (|chart| - 1);
  }

  lemma {:induction false} ScanFromBound(chart: seq<Body>, i: nat, orb: real)
    requires i <= |chart|
    ensures |ScanFrom(chart, i, orb)| <= 7 * Pairs(|chart| - i)
    decreases |chart| - i
  {
    if i < |chart| {
      RowBound(chart, i, i + 1, orb);
      ScanFromBound(chart, i + 1, orb);
      assert |chart| - i - 1 == (|chart| - i) - 1;
    }
  }

  lemma {:induction false} RowBound(chart: seq<Body>, i: nat, j: nat, orb: real)
    requires i < |chart| && j <= |chart|
    ensures |RowHits(chart, i, j, orb)| <= 7 * (|chart| - j)
    decreases |chart| - j
  {
    if j < |chart| {
      RowBound(chart, i, j + 1, orb);
    }
  }

  /** A negative orb reports nothing. */
  lemma {:induction false} NegativeOrbReportsNothing(chart: seq<Body>, orb: real)
    requires orb < 0.0
    ensures CalculateAspects(chart, orb) == []
  {
    NegativeOrbScanFrom(chart, 0, orb);
  }

  lemma {:induction false} NegativeOrbScanFrom(chart: seq<Body>, i: nat, orb: real)
    requires orb < 0.0
    ensures ScanFrom(chart, i, orb) == []
    decreases |chart| - i
  {
    if i < |chart| {
      NegativeOrbRow(chart, i, i + 1, orb);
      NegativeOrbScanFrom(chart, i + 1, orb);
    }
  }

  lemma {:induction false} NegativeOrbRow(chart: seq<Body>, i: nat, j: nat, orb: real)
    requires orb < 0.0 && i < |chart|
    ensures RowHits(chart, i, j, orb) == []
    decreases |chart| - j
  {
    if j < |chart| {
      NegativeOrbKinds(i, j, Separation(chart[i].lon, chart[j].lon), orb, Kinds);
      NegativeOrbRow(chart, i, j + 1, orb);
    }
  }

  lemma {:induction false} NegativeOrbKinds(i: nat, j: nat, sep: real, orb: real, ks: seq<Kind>)
    requires orb < 0.0
    ensures KindHits(i, j, sep, orb, ks) == []
  {
    if ks != [] {
      NegativeOrbKinds(i, j, sep, orb, ks[1..]);
    }
  }

  /** There is no deduplication: a pair exactly between two adjacent kinds with an orb of at least 15
      degrees is reported under both kinds. */
  lemma BothAdjacentKindsReported(chart: seq<Body>, orb: real, i: nat, j: nat, r: nat)
    requires i < j < |chart| && r < 6 && orb >= 15.0
    requires Separation(chart[i].lon, chart[j].lon) == Angle(Kinds[r]) + 15.0
    ensures Hit(i, j, Kinds[r]) in Scan(chart, orb) && Hit(i, j, Kinds[r + 1]) in Scan(chart, orb)
    ensures Label(chart[i].name, Kinds[r], chart[j].name) in CalculateAspects(chart, orb)
    ensures Label(chart[i].name, Kinds[r + 1], chart[j].name) in CalculateAspects(chart, orb)
  {
    assert IsHit(chart, orb, Hit(i, j, Kinds[r])) && IsHit(chart, orb, Hit(i, j, Kinds[r + 1])) by {
      assert Angle(Kinds[r + 1]) == Angle(Kinds[r]) + 30.0;
    }
    ScanComplete(chart, orb, Hit(i, j, Kinds[r]));
    ScanComplete(chart, orb, Hit(i, j, Kinds[r + 1]));
    assert Render(chart, Hit(i, j, Kinds[r])) == Label(chart[i].name, Kinds[r], chart[j].name);
    assert Render(chart, Hit(i, j, Kinds[r + 1])) == Label(chart[i].name, Kinds[r + 1], chart[j].name);
  }

  /** The earlier body in key order is always named first: listing the same two bodies in the other
      order reports the same kinds with the two names exchanged. */
  lemma {:induction false} TwoBodyOrder(ab: seq<Body>, ba: seq<Body>, orb: real)
    requires |ab| == 2 && ba == [ab[1], ab[0]]
    ensures |CalculateAspects(ab, orb)| == |CalculateAspects(ba, orb)| == |Scan(ab, orb)|
    ensures forall x :: 0 <= x < |Scan(ab, orb)| ==>
      && CalculateAspects(ab, orb)[x] == Label(ab[0].name, Scan(ab, orb)[x].kind, ab[1].name)
      && CalculateAspects(ba, orb)[x] == Label(ab[1].name, Scan(ab, orb)[x].kind, ab[0].name)
  {
    SeparationSymmetric(ab[0].lon, ab[1].lon);
    var row := KindHits(0, 1, Separation(ab[0].lon, ab[1].lon), orb, Kinds);
    assert RowHits(ab, 0, 1, orb) == row + RowHits(ab, 0, 2, orb);
    assert RowHits(ba, 0, 1, orb) == row + RowHits(ba, 0, 2, orb);
    assert ScanFrom(ab, 1, orb) == RowHits(ab, 1, 2, orb) + ScanFrom(ab, 2, orb);
    assert ScanFrom(ba, 1, orb) == RowHits(ba, 1, 2, orb) + ScanFrom(ba, 2, orb);
    assert Scan(ab, orb) == row;
    assert Scan(ba, orb) == row;
    forall x | 0 <= x < |row|
      ensures row[x].i == 0 && row[x].j == 1
    {
      assert row[x] in row;
    }
  }
}
