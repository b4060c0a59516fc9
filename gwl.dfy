/** The refinement driver `gwl` of main.py: base colours, hop-set
    initialisation, then exactly T synchronous rounds, each expanding the
    hop sets first unless the variant is `igwl`. */
module Gwl {
  import opened Utils
  import opened HopDistance
  import Graph

  /** The hop sets that round k (counted from 1) colours with. */
  function RoundHopSets(G: GraphData, igwl: bool, k: nat): (r: HopSets)
    requires G.Valid()
    ensures |r| == |G.N| && Bounded(r, |G.N|)
  {
    if igwl then InitHopSets(G, 1, true).0
    else ExpandedTimes(G, EmptyHopSets(|G.N|), k)
  }

  /** Each generation holds one set of nodes per node. */
  predicate HopTrace(G: GraphData, trace: seq<HopSets>)
  {
    forall k :: 0 <= k < |trace| ==> |trace[k]| == |G.N| && Bounded(trace[k], |G.N|)
  }

  /** The colours after one round per listed generation of hop sets. */
  function RecolorAlong(G: GraphData, P: Primitives, trace: seq<HopSets>, colors: seq<Color>): (r: seq<Color>)
    requires G.Valid() && |colors| == |G.N| && HopTrace(G, trace)
    ensures |r| == |G.N|
  {
    if trace == [] then colors
    else Recolored(G, P, trace[|trace| - 1], RecolorAlong(G, P, trace[..|trace| - 1], colors))
  }

  /** `gwl`: returns one colour per node. `trace` lists the hop sets each
      round coloured with: there are exactly T rounds, the `igwl` variant
      keeps its starting sets, and round k of the other variant uses k
      expansions of the empty sets. By default, two multi-hop rounds. */
  method RunGwl(G: Graph.GeometricGraph, P: Primitives, numIters: int := 2, igwl: bool := false)
    returns (colors: seq<Color>, ghost trace: seq<HopSets>)
    requires G.Valid()
    ensures |colors| == G.n
    ensures |trace| == if igwl then 1 else if numIters < 0 then 0 else numIters
    ensures forall k :: 0 <= k < |trace| ==> trace[k] == RoundHopSets(G.Data(), igwl, k + 1)
    ensures HopTrace(G.Data(), trace)
    ensures colors == RecolorAlong(G.Data(), P, trace, InitBaseColors(G.Data(), P))
  {
    var data := G.Data();
    colors := InitBaseColors(data, P);
    var (hopSets, T) := InitHopSets(data, numIters, igwl);
    StartingHopSets(data, numIters, igwl);
    ghost var base := colors;
    trace := [];
    var round := 0;
    while round < T
      invariant 0 <= round && (T >= 0 ==> round <= T) && (T < 0 ==> round == 0)
      invariant |trace| == round && HopTrace(data, trace)
      invariant hopSets == RoundHopSets(data, igwl, round)
      invariant forall k :: 0 <= k < round ==> trace[k] == RoundHopSets(data, igwl, k + 1)
      invariant |colors| == |data.N|
      invariant colors == RecolorAlong(data, P, trace, base)
    {
      if !igwl {
        hopSets := ExpandHopSetsOnce(data, hopSets);
      }
      assert hopSets == RoundHopSets(data, igwl, round + 1);
      colors := UpdateColorsOnce(data, P, hopSets, colors);
      assert (trace + [hopSets])[..round] == trace;
      trace := trace + [hopSets];
      round := round + 1;
    }
  }

  /** What `init_hop_sets` hands the loop is round 0's generation. */
  lemma StartingHopSets(G: GraphData, numIters: int, igwl: bool)
    requires G.Valid()
    ensures InitHopSets(G, numIters, igwl).0 == RoundHopSets(G, igwl, 0)
  {
    if !igwl {
      assert InitHopSets(G, numIters, igwl).0 == EmptyHopSets(|G.N|);
    }
  }

  /** In the `igwl` variant every round colours with the node's neighbours
      other than itself, and those are the nodes at distance one. */
  lemma ImmediateRoundsUseDistanceOne(G: GraphData, k: nat, i: nat)
    requires G.Valid() && i < |G.N|
    ensures RoundHopSets(G, true, k)[i] == Ball(G, i, 1)
    ensures forall v :: v in RoundHopSets(G, true, k)[i] <==> v in G.N[i] && v != i
  {
    ImmediateIsOneExpansion(G, 1);
    ExpandedTimesIsBall(G, 1);
  }

  /** In the multi-hop variant, round k colours node i with the nodes
      other than i within k steps of it, a set that grows from round to
      round. */
  lemma MultiHopRoundsUseDistanceK(G: GraphData, k: nat, i: nat)
    requires G.Valid() && i < |G.N|
    ensures RoundHopSets(G, false, k)[i] == Ball(G, i, k)
    ensures RoundHopSets(G, false, k)[i] <= RoundHopSets(G, false, k + 1)[i]
  {
    ExpandedTimesIsBall(G, k);
    ExpandedTimesGrows(G, EmptyHopSets(|G.N|), k, i);
  }
}
