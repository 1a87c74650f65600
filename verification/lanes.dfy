/**
 * The lane packing that keeps a tier's drawings from overlapping.  Each event
 * comes with the horizontal span it will occupy on screen; the events are
 * stably sorted by start day and then placed first-fit: an event goes into the
 * lowest lane whose last occupant ends at or before the event's left edge, or
 * opens a new lane when none does.  A lane's vertical position is
 * `yStart + lane * laneHeight`.
 */
module Lanes {
  import opened TimeMap

  /** An event with the horizontal span it occupies, from its left edge `sx` to its right edge `ex`. */
  datatype Box = Box(event: Event, sx: int, ex: int)

  /** A placed event: its box, its lane and its vertical position. */
  datatype Placed = Placed(box: Box, lane: nat, y: int)

  const GridWidth: int := 170
  const LabelPadding: int := 15

  /** A grid box is 170 wide and centred on the x of the exact date. */
  function GridBox(e: Event, exactX: int): (b: Box)
    ensures b.ex - b.sx == GridWidth
    ensures b.sx + b.ex == 2 * exactX
    ensures b.event == e
  {
    Box(e, exactX - GridWidth / 2, exactX - GridWidth / 2 + GridWidth)
  }

  /** A progression line spans its dates, widened on the left by its label's advance and the padding. */
  function LineBox(e: Event, startX: int, endX: int, labelAdvance: int): (b: Box)
    ensures b.ex == endX
    ensures b.ex - b.sx == (endX - startX) + labelAdvance + LabelPadding
    ensures b.event == e
  {
    Box(e, startX - (labelAdvance + LabelPadding), endX)
  }

  predicate WellFormedBox(b: Box) {
    b.sx <= b.ex
  }

  /** Grid boxes are always well formed, and so is a line whose dates are in order and whose label has a width. */
  lemma BoxesWellFormed(e: Event, exactX: int, startX: int, endX: int, labelAdvance: int)
    ensures WellFormedBox(GridBox(e, exactX))
    ensures startX <= endX && labelAdvance >= 0 ==> WellFormedBox(LineBox(e, startX, endX, labelAdvance))
  {
  }

  // ---------------------------------------------------------------------------
  // Stable sort by start day
  // ---------------------------------------------------------------------------

  function Key(b: Box): int {
    b.event.start
  }

  predicate SortedByStart(s: seq<Box>) {
    forall x, y :: 0 <= x < y < |s| ==> Key(s[x]) <= Key(s[y])
  }

  /** The boxes with start day `k`, in their order in `s`. */
  function WithKey(s: seq<Box>, k: int): seq<Box> {
    if s == [] then []
    else (if Key(s[0]) == k then [s[0]] else []) + WithKey(s[1..], k)
  }

  /** Inserts `v` after every box whose start is not later than its own. */
  function InsertBox(v: Box, t: seq<Box>): seq<Box> {
    if t == [] then [v]
    else if Key(v) < Key(t[0]) then [v] + t
    else [t[0]] + InsertBox(v, t[1..])
  }

  /** `sorted(events, key=lambda e: e['start'])` */
  function SortByStart(s: seq<Box>): seq<Box> {
    if s == [] then [] else InsertBox(s[|s| - 1], SortByStart(s[..|s| - 1]))
  }

  lemma {:induction false} InsertBoxMembers(v: Box, t: seq<Box>)
    ensures multiset(InsertBox(v, t)) == multiset(t) + multiset{v}
    ensures forall b :: b in InsertBox(v, t) ==> b == v || b in t
  {
    if t != [] && Key(v) >= Key(t[0]) {
      InsertBoxMembers(v, t[1..]);
      assert t == [t[0]] + t[1..];
    }
  }

  lemma {:induction false} InsertBoxSorted(v: Box, t: seq<Box>)
    requires SortedByStart(t)
    ensures SortedByStart(InsertBox(v, t))
  {
    if t != [] && Key(v) >= Key(t[0]) {
      var rest := InsertBox(v, t[1..]);
      InsertBoxSorted(v, t[1..]);
      InsertBoxMembers(v, t[1..]);
      var r := [t[0]] + rest;
      forall x, y | 0 <= x < y < |r|
        ensures Key(r[x]) <= Key(r[y])
      {
        if x == 0 {
          assert r[y] == rest[y - 1] && rest[y - 1] in rest;
          if rest[y - 1] != v {
            var z :| 0 <= z < |t[1..]| && t[1..][z] == rest[y - 1];
            assert t[1..][z] == t[z + 1];
          }
        } else {
          assert r[x] == rest[x - 1] && r[y] == rest[y - 1];
        }
      }
    }
  }

  lemma {:induction false} WithKeyAbove(t: seq<Box>, k: int)
    requires forall x :: 0 <= x < |t| ==> k < Key(t[x])
    ensures WithKey(t, k) == []
  {
    if t != [] {
      WithKeyAbove(t[1..], k);
    }
  }

  /** Inserting `v` into a sorted list adds it after all boxes of its own start day. */
  lemma {:induction false} InsertBoxStable(v: Box, t: seq<Box>, k: int)
    requires SortedByStart(t)
    ensures WithKey(InsertBox(v, t), k) == WithKey(t, k) + (if Key(v) == k then [v] else [])
  {
    if t == [] {
      assert WithKey([v], k) == (if Key(v) == k then [v] else []) + WithKey([], k);
    } else if Key(v) < Key(t[0]) {
      StableFront(v, t, k);
    } else {
      InsertBoxStable(v, t[1..], k);
      StableLater(v, t, k);
    }
  }

  /** A box that starts before all of a sorted list goes in front, and none of the list shares its day. */
  lemma StableFront(v: Box, t: seq<Box>, k: int)
    requires SortedByStart(t) && t != [] && Key(v) < Key(t[0])
    ensures WithKey(InsertBox(v, t), k) == WithKey(t, k) + (if Key(v) == k then [v] else [])
  {
    assert InsertBox(v, t) == [v] + t;
    assert ([v] + t)[1..] == t;
    if Key(v) == k {
      WithKeyAbove(t, k);
    }
  }

  lemma StableLater(v: Box, t: seq<Box>, k: int)
    requires t != [] && Key(v) >= Key(t[0])
    requires WithKey(InsertBox(v, t[1..]), k) == WithKey(t[1..], k) + (if Key(v) == k then [v] else [])
    ensures WithKey(InsertBox(v, t), k) == WithKey(t, k) + (if Key(v) == k then [v] else [])
  {
    var rest := InsertBox(v, t[1..]);
    var r := [t[0]] + rest;
    assert InsertBox(v, t) == r;
    assert r[0] == t[0] && r[1..] == rest;
    var head: seq<Box> := if Key(t[0]) == k then [t[0]] else [];
    assert WithKey(r, k) == head + WithKey(rest, k);
    assert WithKey(t, k) == head + WithKey(t[1..], k);
  }

  lemma {:induction false} WithKeyAppend(a: seq<Box>, b: seq<Box>, k: int)
    ensures WithKey(a + b, k) == WithKey(a, k) + WithKey(b, k)
  {
    if a != [] {
      WithKeyAppend(a[1..], b, k);
      assert (a + b)[1..] == a[1..] + b;
    } else {
      assert a + b == b;
    }
  }

  /**
   * The sort is a stable sort: its output is ordered by start day and, for
   * every start day, lists exactly the input's boxes of that day in their
   * input order.  So it is also a permutation of the input.
   */
  lemma {:induction false} SortByStartSpec(s: seq<Box>)
    ensures SortedByStart(SortByStart(s))
    ensures forall k :: WithKey(SortByStart(s), k) == WithKey(s, k)
    ensures multiset(SortByStart(s)) == multiset(s)
  {
    if s != [] {
      var init := s[..|s| - 1];
      var v := s[|s| - 1];
      var si := SortByStart(init);
      SortByStartSpec(init);
      assert SortByStart(s) == InsertBox(v, si);
      InsertBoxSorted(v, si);
      InsertBoxMembers(v, si);
      assert s == init + [v];
      forall k
        ensures WithKey(SortByStart(s), k) == WithKey(s, k)
      {
        SortStableStep(init, v, si, k);
      }
    }
  }

  lemma SortStableStep(init: seq<Box>, v: Box, si: seq<Box>, k: int)
    requires SortedByStart(si) && WithKey(si, k) == WithKey(init, k)
    ensures WithKey(InsertBox(v, si), k) == WithKey(init + [v], k)
  {
    InsertBoxStable(v, si, k);
    WithKeyAppend(init, [v], k);
    assert WithKey([v], k) == (if Key(v) == k then [v] else []) + WithKey([], k);
  }

  // ---------------------------------------------------------------------------
  // First-fit lane packing
  // ---------------------------------------------------------------------------

  /** The lowest lane whose last occupant ends at or before `sx`; `|ends|` when none does. */
  function FirstFit(ends: seq<int>, sx: int): (i: nat)
    ensures i <= |ends|
    ensures i < |ends| ==> ends[i] <= sx
    ensures forall k :: 0 <= k < i ==> sx < ends[k]
  {
    if ends == [] then 0
    else if sx >= ends[0] then 0
    else 1 + FirstFit(ends[1..], sx)
  }

  /** Places a box in lane `i`: that lane now ends where the box does (a new lane when `i` is past the end). */
  function Occupy(ends: seq<int>, i: nat, ex: int): seq<int>
    requires i <= |ends|
  {
    if i < |ends| then ends[i := ex] else ends + [ex]
  }

  /** The packing state: the lane of every box so far, and where each lane currently ends. */
  datatype Packing = Packing(lanes: seq<nat>, ends: seq<int>)

  /** The placement loop over boxes already in sorted order. */
  function Pack(bs: seq<Box>): (p: Packing)
    ensures |p.lanes| == |bs|
    ensures |p.ends| <= |bs|
  {
    if bs == [] then Packing([], [])
    else
      var p := Pack(bs[..|bs| - 1]);
      var i := FirstFit(p.ends, bs[|bs| - 1].sx);
      Packing(p.lanes + [i], Occupy(p.ends, i, bs[|bs| - 1].ex))
  }

  /** What the packing keeps true: every box has a lane, every lane is used, and a lane ends no earlier than any of its boxes. */
  ghost predicate PackingInv(bs: seq<Box>, p: Packing) {
    && |p.lanes| == |bs|
    && |p.ends| <= |bs|
    && (forall x :: 0 <= x < |bs| ==> p.lanes[x] < |p.ends|)
    && (forall k :: 0 <= k < |p.ends| ==> k in p.lanes)
    && (forall x :: 0 <= x < |bs| ==> bs[x].ex <= p.ends[p.lanes[x]])
  }

  lemma {:induction false} PackInv(bs: seq<Box>)
    requires forall x :: 0 <= x < |bs| ==> WellFormedBox(bs[x])
    ensures PackingInv(bs, Pack(bs))
  {
    if bs != [] {
      var init := bs[..|bs| - 1];
      var b := bs[|bs| - 1];
      PackInv(init);
      PackStep(init, b, Pack(init));
      assert init + [b] == bs;
    }
  }

  lemma PackStep(init: seq<Box>, b: Box, p: Packing)
    requires WellFormedBox(b)
    requires PackingInv(init, p)
    requires p == Pack(init)
    ensures PackingInv(init + [b], Pack(init + [b]))
  {
    var bs := init + [b];
    assert bs[..|bs| - 1] == init;
    var i := FirstFit(p.ends, b.sx);
    var q := Pack(bs);
    assert q == Packing(p.lanes + [i], Occupy(p.ends, i, b.ex));
    forall x | 0 <= x < |bs|
      ensures bs[x].ex <= q.ends[q.lanes[x]]
    {
      if x < |init| {
        assert bs[x] == init[x] && q.lanes[x] == p.lanes[x];
        if p.lanes[x] == i {
          assert init[x].ex <= p.ends[i] <= b.sx <= b.ex;
        }
      }
    }
    forall k | 0 <= k < |q.ends|
      ensures k in q.lanes
    {
      if k == i {
        assert q.lanes[|init|] == i;
      } else {
        assert k < |p.ends| && k in p.lanes;
        var x :| 0 <= x < |p.lanes| && p.lanes[x] == k;
        assert q.lanes[x] == k;
      }
    }
  }

  /**
   * Boxes in the same lane never overlap: of two well-formed boxes sharing a
   * lane, the earlier-placed one ends at or before the later one begins.
   */
  lemma {:induction false} SameLaneDisjoint(bs: seq<Box>, x: nat, y: nat)
    requires forall z :: 0 <= z < |bs| ==> WellFormedBox(bs[z])
    requires x < y < |bs|
    requires Pack(bs).lanes[x] == Pack(bs).lanes[y]
    ensures bs[x].ex <= bs[y].sx
  {
    var init := bs[..|bs| - 1];
    var p := Pack(init);
    PackInv(bs);
    PackInv(init);
    assert Pack(bs).lanes == p.lanes + [FirstFit(p.ends, bs[|bs| - 1].sx)];
    if y < |bs| - 1 {
      assert init[x] == bs[x] && init[y] == bs[y];
      SameLaneDisjoint(init, x, y);
    } else {
      var i := FirstFit(p.ends, bs[y].sx);
      assert p.lanes[x] == i;
      assert init[x] == bs[x];
      assert bs[x].ex <= p.ends[i];
    }
  }

  /**
   * First fit: a box goes to the lowest lane that is free at its left edge.
   * Every lower lane still ends after the box begins, and a new lane is opened
   * only when every existing lane does.
   */
  lemma FirstFitLowest(bs: seq<Box>, y: nat)
    requires y < |bs|
    ensures var p := Pack(bs[..y]);
      var lane := Pack(bs).lanes[y];
      && lane <= |p.ends|
      && (lane < |p.ends| ==> p.ends[lane] <= bs[y].sx)
      && (forall k :: 0 <= k < lane ==> bs[y].sx < p.ends[k])
  {
    PackPrefix(bs, y + 1);
    assert bs[..y + 1][..y] == bs[..y];
  }

  /** Packing a longer list does not change the lanes already given. */
  lemma {:induction false} PackPrefix(bs: seq<Box>, n: nat)
    requires n <= |bs|
    ensures |Pack(bs).lanes| == |bs|
    ensures Pack(bs).lanes[..n] == Pack(bs[..n]).lanes
    decreases |bs|
  {
    if bs != [] {
      var init := bs[..|bs| - 1];
      PackPrefix(init, if n < |bs| then n else |init|);
      if n < |bs| {
        assert init[..n] == bs[..n];
        assert Pack(bs).lanes[..n] == Pack(init).lanes[..n];
      } else {
        assert bs[..n] == bs;
      }
    }
  }

  /** No more lanes are opened than there are boxes, and every lane holds at least one box. */
  lemma LaneCount(bs: seq<Box>)
    requires forall x :: 0 <= x < |bs| ==> WellFormedBox(bs[x])
    ensures forall x :: 0 <= x < |bs| ==> Pack(bs).lanes[x] < |Pack(bs).ends| <= |bs|
    ensures forall k :: 0 <= k < |Pack(bs).ends| ==> k in Pack(bs).lanes
  {
    PackInv(bs);
  }

  // ---------------------------------------------------------------------------
  // The layout
  // ---------------------------------------------------------------------------

  /**
   * `_perform_layout`: the input boxes, stably sorted by start day (none for no
   * events), each drawn at the height of its lane.
   */
  function Layout(bs: seq<Box>, yStart: int, laneHeight: int): (out: seq<Placed>)
    ensures |out| == |bs|
    ensures SortedByStart(Boxes(out))
    ensures forall k :: WithKey(Boxes(out), k) == WithKey(bs, k)
    ensures multiset(Boxes(out)) == multiset(bs)
    ensures forall x :: 0 <= x < |out| ==> out[x].y == yStart + out[x].lane * laneHeight
  {
    if bs == [] then []
    else
      var sorted := SortByStart(bs);
      SortByStartSpec(bs);
      assert |sorted| == |bs| by {
        assert |multiset(sorted)| == |multiset(bs)|;
      }
      var lanes := Pack(sorted).lanes;
      var out := seq(|sorted|, x requires 0 <= x < |sorted| => Placed(sorted[x], lanes[x], yStart + lanes[x] * laneHeight));
      assert Boxes(out) == sorted;
      out
  }

  /**
   * With boxes that do not run backwards, fewer lanes are used than there are
   * boxes plus one, and two boxes in the same lane do not overlap.
   */
  lemma LayoutSpec(bs: seq<Box>, yStart: int, laneHeight: int)
    requires forall x :: 0 <= x < |bs| ==> WellFormedBox(bs[x])
    ensures var out := Layout(bs, yStart, laneHeight);
      && (forall x :: 0 <= x < |out| ==> out[x].lane < |bs|)
      && (forall x, y :: 0 <= x < y < |out| && out[x].lane == out[y].lane ==> out[x].box.ex <= out[y].box.sx)
  {
    var out := Layout(bs, yStart, laneHeight);
    if bs != [] {
      var sorted := SortByStart(bs);
      SortByStartSpec(bs);
      assert Boxes(out) == sorted;
      forall z | 0 <= z < |sorted|
        ensures WellFormedBox(sorted[z])
      {
        assert sorted[z] in multiset(bs);
      }
      LaneCount(sorted);
      forall x, y | 0 <= x < y < |out| && out[x].lane == out[y].lane
        ensures out[x].box.ex <= out[y].box.sx
      {
        SameLaneDisjoint(sorted, x, y);
      }
    }
  }

  function Boxes(ps: seq<Placed>): (bs: seq<Box>)
    ensures |bs| == |ps|
    ensures forall x :: 0 <= x < |ps| ==> bs[x] == ps[x].box
  {
    seq(|ps|, x requires 0 <= x < |ps| => ps[x].box)
  }
}
