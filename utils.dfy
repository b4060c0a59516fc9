/** The refinement steps of utils/utils.py: base colours, hop-set
    initialisation and expansion, the per-node colouring and one synchronous
    recolouring round.

    The digest `node_coloring` and the floating-point geometry
    `get_invariants` are not modelled: a `Primitives` value carries them as
    arbitrary total functions, so every fact proved here holds whatever they
    compute. */
module Utils {
  import opened Sorting

  /** A coordinate row, `d` reals. */
  type Vec = seq<real>
  /** A colour: the hexadecimal digest string of `node_coloring`. */
  type Color = string
  /** `G.N`: node i's neighbours, in the order the edges listed them. */
  type Adjacency = seq<seq<nat>>
  /** One set of node indices per node. */
  type HopSets = seq<set<nat>>

  /** What the refinement reads of a graph: its coordinates `X` and its
      adjacency lists `N`. The graph does not change during a run. */
  datatype GraphData = GraphData(X: seq<Vec>, N: Adjacency)
  {
    /** One adjacency list per coordinate row, every neighbour index a node,
        every row of the same length. */
    predicate Valid()
    {
      && |N| == |X|
      && (forall i, k :: 0 <= i < |N| && 0 <= k < |N[i]| ==> N[i][k] < |N|)
      && (forall a, b :: 0 <= a < |X| && 0 <= b < |X| ==> |X[a]| == |X[b]|)
    }
  }

  /** Every member of every hop set is a node of an `n`-node graph. */
  predicate Bounded(hops: HopSets, n: nat)
  {
    forall i, v :: 0 <= i < |hops| && v in hops[i] ==> v < n
  }

  /** The dictionary `{"D": ..., "A": ...}` returned by `get_invariants`. */
  datatype Invariants = Invariants(D: seq<real>, A: seq<real>)

  /** The two shapes of value the refinement hashes: `{"deg": k}` for the
      base colours, and the invariants extended with
      `"neigh_color_multiset"` for every later round. */
  datatype Payload =
    | Degree(deg: nat)
    | Signature(inv: Invariants, neighColorMultiset: seq<Color>)

  /** The two library-backed steps: the digest of a payload and the
      geometric invariants of a list of relative vectors. */
  datatype Primitives = Primitives(
    nodeColoring: Payload -> Color,
    getInvariants: seq<Vec> -> Invariants)

  /** The digest tells the base-colour payloads apart: two different
      degrees never share a digest. */
  ghost predicate DegreesDistinct(P: Primitives)
  {
    forall a: nat, b: nat :: P.nodeColoring(Degree(a)) == P.nodeColoring(Degree(b)) ==> a == b
  }

  /** Some digest meets `DegreesDistinct`: one that writes degree k as k
      copies of a single character. */
  lemma DegreesDistinctIsSatisfiable()
    ensures exists P: Primitives :: DegreesDistinct(P)
  {
    var P := Primitives((p: Payload) => if p.Degree? then seq(p.deg, _ => 'a') else "",
                        (vs: seq<Vec>) => Invariants([], []));
    forall a: nat, b: nat | P.nodeColoring(Degree(a)) == P.nodeColoring(Degree(b)) ensures a == b {
      assert |P.nodeColoring(Degree(a))| == a && |P.nodeColoring(Degree(b))| == b;
    }
    assert DegreesDistinct(P);
  }

  // ---------------------------------------------------------------------
  // Base colours

  /** `init_base_colors`: every node coloured by the digest of its degree,
      the length of its adjacency list. */
  function InitBaseColors(G: GraphData, P: Primitives): (r: seq<Color>)
    ensures |r| == |G.N|
    ensures forall i, j :: 0 <= i < |r| && 0 <= j < |r| && |G.N[i]| == |G.N[j]| ==> r[i] == r[j]
  {
    seq(|G.N|, i requires 0 <= i < |G.N| => P.nodeColoring(Degree(|G.N[i]|)))
  }

  /** Nodes of equal degree start with equal colours, in one graph or in
      two; with a digest that tells degrees apart, only they do. */
  lemma BaseColorIsDegreeClass(G1: GraphData, G2: GraphData, P: Primitives, i: nat, j: nat)
    requires i < |G1.N| && j < |G2.N|
    ensures |G1.N[i]| == |G2.N[j]| ==> InitBaseColors(G1, P)[i] == InitBaseColors(G2, P)[j]
    ensures DegreesDistinct(P) && InitBaseColors(G1, P)[i] == InitBaseColors(G2, P)[j] ==> |G1.N[i]| == |G2.N[j]|
  {
    if DegreesDistinct(P) && InitBaseColors(G1, P)[i] == InitBaseColors(G2, P)[j] {
      assert P.nodeColoring(Degree(|G1.N[i]|)) == P.nodeColoring(Degree(|G2.N[j]|));
    }
  }

  // ---------------------------------------------------------------------
  // Colouring one node

  /** `b - a`, coordinate by coordinate. */
  function Minus(b: Vec, a: Vec): Vec
    requires |a| == |b|
  {
    seq(|b|, k requires 0 <= k < |b| => b[k] - a[k])
  }

  /** The vector from node i to each listed node, in the listed order. */
  function RelVectors(G: GraphData, i: nat, idx: seq<nat>): seq<Vec>
    requires G.Valid() && i < |G.N| && forall k :: 0 <= k < |idx| ==> idx[k] < |G.N|
  {
    seq(|idx|, k requires 0 <= k < |idx| => Minus(G.X[idx[k]], G.X[i]))
  }

  /** `_gather_rel_vectors`: the vector from node i to each member of its
      hop set, members taken in ascending index order. */
  function GatherRelVectors(G: GraphData, i: nat, hops: HopSets): (r: seq<Vec>)
    requires G.Valid() && i < |G.N| && |hops| == |G.N| && Bounded(hops, |G.N|)
    ensures |r| == |hops[i]|
  {
    var idx := SortedIndices(hops[i], |G.N|);
    SortedIndicesLength(hops[i], |G.N|);
    assert Below(hops[i], |G.N|) == hops[i];
    assert forall k :: 0 <= k < |idx| ==> idx[k] < |G.N| by {
      forall k | 0 <= k < |idx| ensures idx[k] < |G.N| {
        assert idx[k] in idx;
      }
    }
    RelVectors(G, i, idx)
  }

  /** The relative vectors are those of the hop set's members listed once
      each in ascending index order, whatever order the set was built in. */
  lemma GatherRelVectorsAscending(G: GraphData, i: nat, hops: HopSets)
    requires G.Valid() && i < |G.N| && |hops| == |G.N| && Bounded(hops, |G.N|)
    ensures exists idx: seq<nat> ::
              && Ascending(idx)
              && (forall v :: v in idx <==> v in hops[i])
              && (forall k :: 0 <= k < |idx| ==> idx[k] < |G.N|)
              && GatherRelVectors(G, i, hops) == RelVectors(G, i, idx)
  {
    var idx := SortedIndices(hops[i], |G.N|);
    assert forall k :: 0 <= k < |idx| ==> idx[k] < |G.N| by {
      forall k | 0 <= k < |idx| ensures idx[k] < |G.N| {
        assert idx[k] in idx;
      }
    }
    assert GatherRelVectors(G, i, hops) == RelVectors(G, i, idx);
  }

  /** The previous colours of node i's direct neighbours, one entry per
      adjacency-list entry, so duplicate and self-loop entries count again. */
  function NeighborColors(G: GraphData, i: nat, prev: seq<Color>): (r: seq<Color>)
    requires G.Valid() && i < |G.N| && |prev| == |G.N|
    ensures |r| == |G.N[i]|
  {
    seq(|G.N[i]|, k requires 0 <= k < |G.N[i]| => prev[G.N[i][k]])
  }

  /** The dictionary that `_color_node` hashes for node i: the invariants of
      its relative vectors and the sorted multiset of its neighbours'
      previous colours. */
  function NodeSignature(G: GraphData, P: Primitives, i: nat, hops: HopSets, prev: seq<Color>): (sig: Payload)
    requires G.Valid() && i < |G.N| && |hops| == |G.N| && Bounded(hops, |G.N|) && |prev| == |G.N|
    ensures sig.Signature?
    ensures sig.inv == P.getInvariants(GatherRelVectors(G, i, hops))
    ensures SortedStrs(sig.neighColorMultiset)
    ensures multiset(sig.neighColorMultiset) == multiset(NeighborColors(G, i, prev))
  {
    Signature(P.getInvariants(GatherRelVectors(G, i, hops)), SortStrs(NeighborColors(G, i, prev)))
  }

  /** `_color_node`: node i's colour for the next round, the digest of its
      invariants together with its neighbours' previous colours in sorted
      order, whichever sorted listing of that multiset one takes. */
  function ColorNode(G: GraphData, P: Primitives, i: nat, hops: HopSets, prev: seq<Color>): (c: Color)
    requires G.Valid() && i < |G.N| && |hops| == |G.N| && Bounded(hops, |G.N|) && |prev| == |G.N|
    ensures forall s {:trigger Signature(P.getInvariants(GatherRelVectors(G, i, hops)), s)} ::
              SortedStrs(s) && multiset(s) == multiset(NeighborColors(G, i, prev)) ==>
              c == P.nodeColoring(Signature(P.getInvariants(GatherRelVectors(G, i, hops)), s))
  {
    var sig := NodeSignature(G, P, i, hops, prev);
    SortedListingUnique(sig.neighColorMultiset, NeighborColors(G, i, prev));
    P.nodeColoring(sig)
  }

  /** Two nodes with equal invariants and equal multisets of neighbour
      colours receive the same new colour. */
  lemma ColorNodeAgrees(G: GraphData, P: Primitives, i: nat, j: nat, hops: HopSets, prev: seq<Color>)
    requires G.Valid() && i < |G.N| && j < |G.N| && |hops| == |G.N| && Bounded(hops, |G.N|) && |prev| == |G.N|
    requires P.getInvariants(GatherRelVectors(G, i, hops)) == P.getInvariants(GatherRelVectors(G, j, hops))
    requires multiset(NeighborColors(G, i, prev)) == multiset(NeighborColors(G, j, prev))
    ensures ColorNode(G, P, i, hops, prev) == ColorNode(G, P, j, hops, prev)
  {
    var s := NodeSignature(G, P, j, hops, prev).neighColorMultiset;
    assert ColorNode(G, P, i, hops, prev) == P.nodeColoring(Signature(P.getInvariants(GatherRelVectors(G, i, hops)), s));
    assert ColorNode(G, P, j, hops, prev) == P.nodeColoring(Signature(P.getInvariants(GatherRelVectors(G, j, hops)), s));
  }

  /** A node's new colour depends on the previous colours only through the
      multiset of its neighbours' colours: neither the order of its
      adjacency list nor any other node's colour matters. */
  lemma ColorNodeDependsOnNeighborMultiset(G: GraphData, P: Primitives, i: nat, hops: HopSets,
                                           prev: seq<Color>, prev': seq<Color>)
    requires G.Valid() && i < |G.N| && |hops| == |G.N| && Bounded(hops, |G.N|)
    requires |prev| == |G.N| && |prev'| == |G.N|
    requires multiset(NeighborColors(G, i, prev)) == multiset(NeighborColors(G, i, prev'))
    ensures ColorNode(G, P, i, hops, prev) == ColorNode(G, P, i, hops, prev')
  {
    var a := NodeSignature(G, P, i, hops, prev);
    var b := NodeSignature(G, P, i, hops, prev');
    SortedUnique(a.neighColorMultiset, b.neighColorMultiset);
  }

  /** Listing the same neighbours in another order gives the same colour. */
  lemma ColorNodeIgnoresAdjacencyOrder(G: GraphData, G': GraphData, P: Primitives, i: nat,
                                       hops: HopSets, prev: seq<Color>)
    requires G.Valid() && G'.Valid() && G'.X == G.X && |G'.N| == |G.N|
    requires i < |G.N| && |hops| == |G.N| && Bounded(hops, |G.N|) && |prev| == |G.N|
    requires multiset(G.N[i]) == multiset(G'.N[i])
    ensures ColorNode(G, P, i, hops, prev) == ColorNode(G', P, i, hops, prev)
  {
    PermutationIndexesInto(G.N[i], G'.N[i], |prev|);
    MappedMultiset(G.N[i], G'.N[i], prev);
    assert NeighborColors(G, i, prev) == Mapped(G.N[i], prev);
    assert NeighborColors(G', i, prev) == Mapped(G'.N[i], prev);
    var a := NodeSignature(G, P, i, hops, prev);
    var b := NodeSignature(G', P, i, hops, prev);
    SortedUnique(a.neighColorMultiset, b.neighColorMultiset);
    assert GatherRelVectors(G, i, hops) == GatherRelVectors(G', i, hops);
  }

  /** `[c[j] for j in js]`. */
  function Mapped(js: seq<nat>, c: seq<Color>): seq<Color>
    requires IndexesInto(js, |c|)
  {
    seq(|js|, k requires 0 <= k < |js| => c[js[k]])
  }

  predicate IndexesInto(js: seq<nat>, n: nat)
  {
    forall k :: 0 <= k < |js| ==> js[k] < n
  }

  lemma PermutationIndexesInto(js: seq<nat>, ks: seq<nat>, n: nat)
    requires IndexesInto(js, n) && multiset(js) == multiset(ks)
    ensures IndexesInto(ks, n)
  {
    forall k | 0 <= k < |ks| ensures ks[k] < n {
      assert ks[k] in multiset(js);
    }
  }

  lemma {:induction false} MappedMultiset(js: seq<nat>, ks: seq<nat>, c: seq<Color>)
    requires IndexesInto(js, |c|) && IndexesInto(ks, |c|)
    requires multiset(js) == multiset(ks)
    ensures multiset(Mapped(js, c)) == multiset(Mapped(ks, c))
    decreases |js|
  {
    if js != [] {
      var x := js[0];
      assert x in multiset(ks);
      var m :| 0 <= m < |ks| && ks[m] == x;
      var pre, post := ks[..m], ks[m + 1..];
      RemoveOne(js, ks, m);
      assert IndexesInto(js[1..], |c|);
      PermutationIndexesInto(js[1..], pre + post, |c|);
      MappedMultiset(js[1..], pre + post, c);
      var A, B1, B2 := multiset(Mapped(js[1..], c)), multiset(Mapped(pre, c)), multiset(Mapped(post, c));
      assert Mapped(js, c) == [c[x]] + Mapped(js[1..], c);
      assert Mapped(ks, c) == Mapped(pre, c) + [c[x]] + Mapped(post, c);
      assert Mapped(pre + post, c) == Mapped(pre, c) + Mapped(post, c);
      assert multiset(Mapped(js, c)) == multiset{c[x]} + A;
      assert multiset(Mapped(ks, c)) == B1 + multiset{c[x]} + B2;
      assert A == B1 + B2;
    } else {
      assert |multiset(ks)| == 0;
    }
  }

  lemma RemoveOne(js: seq<nat>, ks: seq<nat>, m: nat)
    requires js != [] && m < |ks| && ks[m] == js[0]
    requires multiset(js) == multiset(ks)
    ensures multiset(js[1..]) == multiset(ks[..m] + ks[m + 1..])
  {
    var x := js[0];
    assert js == [x] + js[1..];
    assert ks == ks[..m] + [x] + ks[m + 1..];
    var A, B1, B2 := multiset(js[1..]), multiset(ks[..m]), multiset(ks[m + 1..]);
    assert multiset(js) == multiset{x} + A;
    assert multiset(ks) == B1 + multiset{x} + B2;
    assert multiset(ks[..m] + ks[m + 1..]) == B1 + B2;
    forall y ensures A[y] == (B1 + B2)[y] {
      assert (multiset{x} + A)[y] == (B1 + multiset{x} + B2)[y];
    }
  }

  // ---------------------------------------------------------------------
  // One recolouring round

  /** All n new colours, each computed from the same previous colours:
      nodes with equal invariants and equal multisets of neighbour colours
      end the round with equal colours. */
  function Recolored(G: GraphData, P: Primitives, hops: HopSets, prev: seq<Color>): (r: seq<Color>)
    requires G.Valid() && |hops| == |G.N| && Bounded(hops, |G.N|) && |prev| == |G.N|
    ensures |r| == |G.N|
    ensures forall i, j {:trigger r[i], r[j]} :: 0 <= i < |G.N| && 0 <= j < |G.N|
              && P.getInvariants(GatherRelVectors(G, i, hops)) == P.getInvariants(GatherRelVectors(G, j, hops))
              && multiset(NeighborColors(G, i, prev)) == multiset(NeighborColors(G, j, prev))
              ==> r[i] == r[j]
  {
    var r := seq(|G.N|, i requires 0 <= i < |G.N| => ColorNode(G, P, i, hops, prev));
    assert forall i, j {:trigger r[i], r[j]} :: 0 <= i < |G.N| && 0 <= j < |G.N|
              && P.getInvariants(GatherRelVectors(G, i, hops)) == P.getInvariants(GatherRelVectors(G, j, hops))
              && multiset(NeighborColors(G, i, prev)) == multiset(NeighborColors(G, j, prev))
              ==> r[i] == r[j] by {
      forall i, j | 0 <= i < |G.N| && 0 <= j < |G.N|
              && P.getInvariants(GatherRelVectors(G, i, hops)) == P.getInvariants(GatherRelVectors(G, j, hops))
              && multiset(NeighborColors(G, i, prev)) == multiset(NeighborColors(G, j, prev))
        ensures r[i] == r[j]
      {
        ColorNodeAgrees(G, P, i, j, hops, prev);
      }
    }
    r
  }

  /** `update_colors_once`: recolours every node in index order, appending
      each new colour; every node reads the unchanged previous colours. */
  method UpdateColorsOnce(G: GraphData, P: Primitives, hops: HopSets, prev: seq<Color>)
    returns (newColors: seq<Color>)
    requires G.Valid() && |hops| == |G.N| && Bounded(hops, |G.N|) && |prev| == |G.N|
    ensures |newColors| == |G.N|
    ensures forall i :: 0 <= i < |G.N| ==> newColors[i] == ColorNode(G, P, i, hops, prev)
    ensures newColors == Recolored(G, P, hops, prev)
  {
    newColors := [];
    for i := 0 to |G.N|
      invariant |newColors| == i
      invariant forall k :: 0 <= k < i ==> newColors[k] == ColorNode(G, P, k, hops, prev)
    {
      var c := ColorNode(G, P, i, hops, prev);
      newColors := newColors + [c];
    }
    RecoloredPointwise(G, P, hops, prev, newColors);
  }

  /** A list holding node k's colour at every index k is the round's result. */
  lemma RecoloredPointwise(G: GraphData, P: Primitives, hops: HopSets, prev: seq<Color>, cs: seq<Color>)
    requires G.Valid() && |hops| == |G.N| && Bounded(hops, |G.N|) && |prev| == |G.N|
    requires |cs| == |G.N| && forall k :: 0 <= k < |G.N| ==> cs[k] == ColorNode(G, P, k, hops, prev)
    ensures cs == Recolored(G, P, hops, prev)
  {
  }

  /** A round is synchronous: node i's new colour is unaffected by the
      previous colour of any node that is not one of its neighbours. */
  lemma RecoloredReadsOnlyNeighbors(G: GraphData, P: Primitives, hops: HopSets,
                                    prev: seq<Color>, prev': seq<Color>, i: nat)
    requires G.Valid() && |hops| == |G.N| && Bounded(hops, |G.N|)
    requires |prev| == |G.N| && |prev'| == |G.N| && i < |G.N|
    requires forall j :: j in G.N[i] ==> prev[j] == prev'[j]
    ensures Recolored(G, P, hops, prev)[i] == Recolored(G, P, hops, prev')[i]
  {
    assert NeighborColors(G, i, prev) == NeighborColors(G, i, prev');
  }

  // ---------------------------------------------------------------------
  // Hop sets

  /** `init_hop_sets`: with `igwl`, each node's neighbours minus itself and
      one round; otherwise n empty sets and `num_iters` rounds. */
  function InitHopSets(G: GraphData, numIters: int, igwl: bool): (r: (HopSets, int))
    requires G.Valid()
    ensures |r.0| == |G.N| && Bounded(r.0, |G.N|)
    ensures r.1 == if igwl then 1 else numIters
    ensures forall i, v :: 0 <= i < |G.N| ==> (v in r.0[i] <==> igwl && v in G.N[i] && v != i)
  {
    if igwl then
      (seq(|G.N|, i requires 0 <= i < |G.N| => (set j | j in G.N[i]) - {i}), 1)
    else
      (seq(|G.N|, i => {}), numIters)
  }

  /** The union of `hops[j]` over the listed nodes j. */
  function UnionOfHops(hops: HopSets, js: seq<nat>): (r: set<nat>)
    requires forall k :: 0 <= k < |js| ==> js[k] < |hops|
    ensures forall v :: v in r <==> exists k :: 0 <= k < |js| && v in hops[js[k]]
  {
    if js == [] then {}
    else
      var r := UnionOfHops(hops, js[..|js| - 1]) + hops[js[|js| - 1]];
      assert forall k :: 0 <= k < |js| - 1 ==> js[..|js| - 1][k] == js[k];
      r
  }

  /** Node i's set after one expansion: its own set, its neighbours and
      their sets, without i itself. */
  function ExpandedHopSet(G: GraphData, hops: HopSets, i: nat): set<nat>
    requires G.Valid() && |hops| == |G.N| && i < |G.N|
  {
    (hops[i] + (set j | j in G.N[i]) + UnionOfHops(hops, G.N[i])) - {i}
  }

  /** What one call of `expand_hop_sets_once` returns. */
  function Expanded(G: GraphData, hops: HopSets): (r: HopSets)
    requires G.Valid() && |hops| == |G.N|
    ensures |r| == |G.N|
    ensures forall i :: 0 <= i < |G.N| ==> i !in r[i]
    ensures forall i, v :: 0 <= i < |G.N| ==>
              (v in r[i] <==> v != i && (v in hops[i] || v in G.N[i] ||
                                         exists j :: j in G.N[i] && v in hops[j]))
    ensures Bounded(hops, |G.N|) ==> Bounded(r, |G.N|)
  {
    var r := seq(|G.N|, i requires 0 <= i < |G.N| => ExpandedHopSet(G, hops, i));
    assert forall i, j :: 0 <= i < |G.N| && j in G.N[i] ==> j < |G.N|;
    r
  }

  /** `expand_hop_sets_once`: builds each node's new set in a fresh set `S`
      (a copy of its old one), reading only the old sets, and appends it. */
  method ExpandHopSetsOnce(G: GraphData, hops: HopSets) returns (newHops: HopSets)
    requires G.Valid() && |hops| == |G.N|
    ensures newHops == Expanded(G, hops)
  {
    newHops := [];
    for i := 0 to |G.N|
      invariant |newHops| == i
      invariant forall k :: 0 <= k < i ==> newHops[k] == ExpandedHopSet(G, hops, k)
    {
      var S := hops[i];
      S := S + (set j | j in G.N[i]);
      for k := 0 to |G.N[i]|
        invariant S == hops[i] + (set j | j in G.N[i]) + UnionOfHops(hops, G.N[i][..k])
      {
        assert G.N[i][..k + 1][..k] == G.N[i][..k];
        S := S + hops[G.N[i][k]];
      }
      assert G.N[i][..|G.N[i]|] == G.N[i];
      S := S - {i};
      newHops := newHops + [S];
    }
  }

  /** Expansion only adds: a set not holding its own node keeps all its
      members. */
  lemma ExpandedGrows(G: GraphData, hops: HopSets, i: nat)
    requires G.Valid() && |hops| == |G.N| && i < |G.N| && i !in hops[i]
    ensures hops[i] <= Expanded(G, hops)[i]
  {
  }

  /** Every expansion puts each neighbour other than the node itself into
      the node's set. */
  lemma ExpandedAddsNeighbors(G: GraphData, hops: HopSets, i: nat)
    requires G.Valid() && |hops| == |G.N| && i < |G.N|
    ensures forall j :: j in G.N[i] && j != i ==> j in Expanded(G, hops)[i]
  {
  }

  /** The `igwl` starting sets are the sets one expansion gives from the
      empty ones. */
  lemma ImmediateIsOneExpansion(G: GraphData, numIters: int)
    requires G.Valid()
    ensures InitHopSets(G, numIters, true).0 == Expanded(G, InitHopSets(G, numIters, false).0)
  {
    var a := InitHopSets(G, numIters, true).0;
    var b := Expanded(G, InitHopSets(G, numIters, false).0);
    forall i | 0 <= i < |G.N| ensures a[i] == b[i] {
      assert forall v :: v in a[i] <==> v in b[i];
    }
  }
}
