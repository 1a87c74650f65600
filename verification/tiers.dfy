/**
 * The split of a day's progressed aspects into the "lunar" and "other"
 * progression tiers.  The lunar tier takes aspects whose FIRST body is the Moon
 * (and whose second is not); the other tier takes aspects with no Moon at all.
 * An aspect whose second body is the Moon therefore lands in neither tier.
 */
module Tiers {
  import opened TimeMap

  const Moon: string := "Moon"

  /** `[a for a in prog_aspects if a['p1'] == 'Moon' and a['p2'] != 'Moon']` */
  function LunarProgAspects(prog: seq<Aspect>): (r: seq<Aspect>)
    ensures forall a :: a in r <==> a in prog && a.p1 == Moon && a.p2 != Moon
    ensures |r| <= |prog|
  {
    if prog == [] then []
    else (if prog[0].p1 == Moon && prog[0].p2 != Moon then [prog[0]] else []) + LunarProgAspects(prog[1..])
  }

  /** `[a for a in prog_aspects if 'Moon' not in (a['p1'], a['p2'])]` */
  function OtherProgAspects(prog: seq<Aspect>): (r: seq<Aspect>)
    ensures forall a :: a in r <==> a in prog && a.p1 != Moon && a.p2 != Moon
    ensures |r| <= |prog|
  {
    if prog == [] then []
    else (if prog[0].p1 != Moon && prog[0].p2 != Moon then [prog[0]] else []) + OtherProgAspects(prog[1..])
  }

  /** The aspects neither tier takes: those whose second body is the Moon. */
  function Untiered(prog: seq<Aspect>): (r: seq<Aspect>)
    ensures forall a :: a in r <==> a in prog && a.p2 == Moon
  {
    if prog == [] then []
    else (if prog[0].p2 == Moon then [prog[0]] else []) + Untiered(prog[1..])
  }

  /** The two tiers and the untiered rest split the day's aspects exactly, copies included. */
  lemma {:induction false} TiersPartition(prog: seq<Aspect>)
    ensures multiset(LunarProgAspects(prog)) + multiset(OtherProgAspects(prog)) + multiset(Untiered(prog))
            == multiset(prog)
    ensures |LunarProgAspects(prog)| + |OtherProgAspects(prog)| + |Untiered(prog)| == |prog|
  {
    if prog != [] {
      TiersPartition(prog[1..]);
      assert prog == [prog[0]] + prog[1..];
    }
  }

  /** No aspect is in both tiers, and one whose second body is the Moon is in neither. */
  lemma TiersDisjoint(prog: seq<Aspect>, a: Aspect)
    ensures !(a in LunarProgAspects(prog) && a in OtherProgAspects(prog))
    ensures a.p2 == Moon ==> a !in LunarProgAspects(prog) && a !in OtherProgAspects(prog)
  {
  }
}
