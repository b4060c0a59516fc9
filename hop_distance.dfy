/** What repeated `expand_hop_sets_once` computes: after k expansions from
    the empty sets, node i's hop set holds exactly the other nodes within k
    steps of i along adjacency-list entries. */
module HopDistance {
  import opened Utils

  /** A walk: a non-empty list of nodes, each next one on the previous
      one's adjacency list. */
  ghost predicate IsWalk(adj: Adjacency, w: seq<nat>)
  {
    && |w| >= 1
    && w[0] < |adj|
    && forall t :: 0 <= t < |w| - 1 ==> w[t] < |adj| && w[t + 1] in adj[w[t]]
  }

  /** v can be reached from i in at most k steps. */
  ghost predicate WithinHops(adj: Adjacency, i: nat, v: nat, k: nat)
  {
    exists w :: IsWalk(adj, w) && w[0] == i && w[|w| - 1] == v && |w| <= k + 1
  }

  /** The nodes other than i at graph distance at most k from i. */
  ghost function Ball(G: GraphData, i: nat, k: nat): set<nat>
  {
    set v | 0 <= v < |G.N| && v != i && WithinHops(G.N, i, v, k)
  }

  /** n empty hop sets: the multi-hop variant's starting point. */
  function EmptyHopSets(n: nat): (r: HopSets)
    ensures |r| == n && forall i :: 0 <= i < n ==> r[i] == {}
  {
    seq(n, _ => {})
  }

  /** k calls of `expand_hop_sets_once`, each on the previous result. */
  function ExpandedTimes(G: GraphData, hops: HopSets, k: nat): (r: HopSets)
    requires G.Valid() && |hops| == |G.N|
    ensures |r| == |G.N|
    ensures Bounded(hops, |G.N|) ==> Bounded(r, |G.N|)
  {
    if k == 0 then hops else Expanded(G, ExpandedTimes(G, hops, k - 1))
  }

  /** The walk w, one step longer at its front. */
  lemma WalkPrepend(adj: Adjacency, i: nat, w: seq<nat>)
    requires IsWalk(adj, w) && i < |adj| && w[0] in adj[i]
    ensures IsWalk(adj, [i] + w)
  {
    var w' := [i] + w;
    forall t | 0 <= t < |w'| - 1 ensures w'[t] < |adj| && w'[t + 1] in adj[w'[t]] {
      if t > 0 {
        assert w'[t] == w[t - 1] && w'[t + 1] == w[t];
      }
    }
  }

  /** One expansion of the distance-k sets gives the distance-(k+1) sets. */
  lemma ExpandBallStep(G: GraphData, hops: HopSets, k: nat, i: nat)
    requires G.Valid() && |hops| == |G.N| && i < |G.N|
    requires forall j :: 0 <= j < |G.N| ==> hops[j] == Ball(G, j, k)
    ensures Expanded(G, hops)[i] == Ball(G, i, k + 1)
  {
    ExpandStaysInBall(G, hops, k, i);
    ExpandReachesBall(G, hops, k, i);
  }

  /** Whatever one expansion adds lies within k + 1 steps. */
  lemma ExpandStaysInBall(G: GraphData, hops: HopSets, k: nat, i: nat)
    requires G.Valid() && |hops| == |G.N| && i < |G.N|
    requires forall j :: 0 <= j < |G.N| ==> hops[j] == Ball(G, j, k)
    ensures Expanded(G, hops)[i] <= Ball(G, i, k + 1)
  {
    var r := Expanded(G, hops)[i];
    forall v | v in r ensures v in Ball(G, i, k + 1) {
      if v in hops[i] {
        var w :| IsWalk(G.N, w) && w[0] == i && w[|w| - 1] == v && |w| <= k + 1;
        assert |w| <= k + 2;
      } else if v in G.N[i] {
        var w := [i, v];
        assert IsWalk(G.N, w);
        assert v < |G.N| by {
          var m :| 0 <= m < |G.N[i]| && G.N[i][m] == v;
        }
      } else {
        var j :| j in G.N[i] && v in hops[j];
        var m :| 0 <= m < |G.N[i]| && G.N[i][m] == j;
        assert v in Ball(G, j, k);
        var w :| IsWalk(G.N, w) && w[0] == j && w[|w| - 1] == v && |w| <= k + 1;
        WalkPrepend(G.N, i, w);
        assert ([i] + w)[|[i] + w| - 1] == v;
      }
    }
  }

  /** Every node within k + 1 steps is added by one expansion. */
  lemma ExpandReachesBall(G: GraphData, hops: HopSets, k: nat, i: nat)
    requires G.Valid() && |hops| == |G.N| && i < |G.N|
    requires forall j :: 0 <= j < |G.N| ==> hops[j] == Ball(G, j, k)
    ensures Ball(G, i, k + 1) <= Expanded(G, hops)[i]
  {
    var r := Expanded(G, hops)[i];
    forall v | v in Ball(G, i, k + 1) ensures v in r {
      var w :| IsWalk(G.N, w) && w[0] == i && w[|w| - 1] == v && |w| <= k + 2;
      assert |w| >= 2;
      var j := w[1];
      assert j in G.N[i];
      if j != v {
        var m :| 0 <= m < |G.N[i]| && G.N[i][m] == j;
        var w' := w[1..];
        assert IsWalk(G.N, w') by {
          forall t | 0 <= t < |w'| - 1 ensures w'[t] < |G.N| && w'[t + 1] in G.N[w'[t]] {
            assert w'[t] == w[t + 1] && w'[t + 1] == w[t + 2];
          }
        }
        assert w'[|w'| - 1] == v;
        assert v in Ball(G, j, k);
      }
    }
  }

  /** Starting from the empty sets, k expansions give every node the nodes
      other than itself within k steps of it. */
  lemma {:induction false} ExpandedTimesIsBall(G: GraphData, k: nat)
    requires G.Valid()
    ensures forall i :: 0 <= i < |G.N| ==> ExpandedTimes(G, EmptyHopSets(|G.N|), k)[i] == Ball(G, i, k)
  {
    var empty := EmptyHopSets(|G.N|);
    if k == 0 {
      forall i | 0 <= i < |G.N| ensures empty[i] == Ball(G, i, 0) {
        BallZero(G, i);
      }
    } else {
      ExpandedTimesIsBall(G, k - 1);
      ExpandBallGeneration(G, ExpandedTimes(G, empty, k - 1), k - 1);
    }
  }

  /** Every node's set at once: the distance-k generation expands into the
      distance-(k+1) generation. */
  lemma ExpandBallGeneration(G: GraphData, hops: HopSets, k: nat)
    requires G.Valid() && |hops| == |G.N|
    requires forall j :: 0 <= j < |G.N| ==> hops[j] == Ball(G, j, k)
    ensures forall i :: 0 <= i < |G.N| ==> Expanded(G, hops)[i] == Ball(G, i, k + 1)
  {
    forall i | 0 <= i < |G.N| ensures Expanded(G, hops)[i] == Ball(G, i, k + 1) {
      ExpandBallStep(G, hops, k, i);
    }
  }

  /** Within zero steps there is only the node itself. */
  lemma BallZero(G: GraphData, i: nat)
    ensures Ball(G, i, 0) == {}
  {
    assert forall v :: v !in Ball(G, i, 0);
  }

  /** Expansions only add: each set contains the one before it. */
  lemma ExpandedTimesGrows(G: GraphData, hops: HopSets, k: nat, i: nat)
    requires G.Valid() && |hops| == |G.N| && i < |G.N| && i !in hops[i]
    ensures ExpandedTimes(G, hops, k)[i] <= ExpandedTimes(G, hops, k + 1)[i]
  {
  }
}
