/** The graph container of main.py: node coordinates and adjacency lists
    built from an edge list, one append per edge end. */
module Graph {
  import opened Utils

  /** An undirected edge `(u, v)` as the edge list gives it. */
  type Edge = (nat, nat)

  /** What one edge `(a, b)` appends to node u's list: b when a is u, then
      a when b is u. A self-loop `(u, u)` therefore appends u twice. */
  function EdgeEnds(e: Edge, u: nat): seq<nat>
  {
    (if e.0 == u then [e.1] else []) + (if e.1 == u then [e.0] else [])
  }

  /** Node u's adjacency list after the edges, in edge-list order. */
  function Incident(edges: seq<Edge>, u: nat): seq<nat>
  {
    if edges == [] then [] else EdgeEnds(edges[0], u) + Incident(edges[1..], u)
  }

  /** All n adjacency lists. */
  function AdjacencyOf(n: nat, edges: seq<Edge>): (r: Adjacency)
    ensures |r| == n
  {
    seq(n, u requires 0 <= u => Incident(edges, u))
  }

  /** Every edge joins two of the n nodes. */
  predicate EdgesWithin(edges: seq<Edge>, n: nat)
  {
    forall k :: 0 <= k < |edges| ==> edges[k].0 < n && edges[k].1 < n
  }

  /** How many times `(a, b)`, in this orientation, occurs in the list. */
  function EdgeCount(edges: seq<Edge>, a: nat, b: nat): nat
  {
    if edges == [] then 0
    else (if edges[0] == (a, b) then 1 else 0) + EdgeCount(edges[1..], a, b)
  }

  /** Lists are built in edge order: the edges of a longer list add their
      neighbours after those of its prefix. */
  lemma {:induction false} IncidentAppend(e1: seq<Edge>, e2: seq<Edge>, u: nat)
    ensures Incident(e1 + e2, u) == Incident(e1, u) + Incident(e2, u)
  {
    if e1 != [] {
      assert (e1 + e2)[1..] == e1[1..] + e2;
      IncidentAppend(e1[1..], e2, u);
    } else {
      assert e1 + e2 == e2;
    }
  }

  /** v occurs in u's list once for each edge (u, v) and once for each
      edge (v, u): duplicate edges are kept, none is dropped. */
  lemma {:induction false} IncidentCount(edges: seq<Edge>, u: nat, v: nat)
    ensures multiset(Incident(edges, u))[v] == EdgeCount(edges, u, v) + EdgeCount(edges, v, u)
  {
    if edges != [] {
      IncidentCount(edges[1..], u, v);
      var e := edges[0];
      assert multiset(Incident(edges, u)) == multiset(EdgeEnds(e, u)) + multiset(Incident(edges[1..], u));
      assert multiset(EdgeEnds(e, u))[v] ==
             (if e == (u, v) then 1 else 0) + (if e == (v, u) then 1 else 0);
    }
  }

  /** The adjacency is symmetric as a multiset: v appears in u's list as
      often as u appears in v's. */
  lemma AdjacencySymmetric(edges: seq<Edge>, u: nat, v: nat)
    ensures multiset(Incident(edges, u))[v] == multiset(Incident(edges, v))[u]
  {
    IncidentCount(edges, u, v);
    IncidentCount(edges, v, u);
  }

  /** A node lists itself twice for every self-loop on it. */
  lemma SelfLoopsCountTwice(edges: seq<Edge>, u: nat)
    ensures multiset(Incident(edges, u))[u] == 2 * EdgeCount(edges, u, u)
  {
    IncidentCount(edges, u, u);
  }

  /** The sum of the lengths of the adjacency lists. */
  function TotalDegree(adj: Adjacency): nat
  {
    if adj == [] then 0 else TotalDegree(adj[..|adj| - 1]) + |adj[|adj| - 1]|
  }

  /** How many edge ends are the node m. */
  function EndsAt(edges: seq<Edge>, m: nat): nat
  {
    if edges == [] then 0
    else (if edges[0].0 == m then 1 else 0) + (if edges[0].1 == m then 1 else 0) + EndsAt(edges[1..], m)
  }

  /** How many edge ends are below m. */
  function EndsBelow(edges: seq<Edge>, m: nat): nat
  {
    if edges == [] then 0
    else (if edges[0].0 < m then 1 else 0) + (if edges[0].1 < m then 1 else 0) + EndsBelow(edges[1..], m)
  }

  lemma {:induction false} IncidentLength(edges: seq<Edge>, m: nat)
    ensures |Incident(edges, m)| == EndsAt(edges, m)
  {
    if edges != [] {
      IncidentLength(edges[1..], m);
    }
  }

  lemma {:induction false} EndsBelowStep(edges: seq<Edge>, m: nat)
    ensures EndsBelow(edges, m + 1) == EndsBelow(edges, m) + EndsAt(edges, m)
  {
    if edges != [] {
      EndsBelowStep(edges[1..], m);
    }
  }

  lemma {:induction false} EndsBelowAll(edges: seq<Edge>, n: nat)
    requires EdgesWithin(edges, n)
    ensures EndsBelow(edges, n) == 2 * |edges|
  {
    if edges != [] {
      assert EdgesWithin(edges[1..], n) by {
        forall k | 0 <= k < |edges[1..]| ensures edges[1..][k].0 < n && edges[1..][k].1 < n {
          assert edges[1..][k] == edges[k + 1];
        }
      }
      EndsBelowAll(edges[1..], n);
    }
  }

  lemma {:induction false} TotalDegreeBelow(edges: seq<Edge>, m: nat)
    ensures TotalDegree(AdjacencyOf(m, edges)) == EndsBelow(edges, m)
  {
    if m == 0 {
      assert EndsBelow(edges, 0) == 0 by { EndsBelowNone(edges); }
    } else {
      var adj := AdjacencyOf(m, edges);
      assert adj[..m - 1] == AdjacencyOf(m - 1, edges);
      TotalDegreeBelow(edges, m - 1);
      IncidentLength(edges, m - 1);
      EndsBelowStep(edges, m - 1);
    }
  }

  lemma {:induction false} EndsBelowNone(edges: seq<Edge>)
    ensures EndsBelow(edges, 0) == 0
  {
    if edges != [] {
      EndsBelowNone(edges[1..]);
    }
  }

  /** Every edge adds two list entries, one at each end (both at the same
      node for a self-loop): the lists' lengths sum to twice the edge count. */
  lemma DegreeSum(edges: seq<Edge>, n: nat)
    requires EdgesWithin(edges, n)
    ensures TotalDegree(AdjacencyOf(n, edges)) == 2 * |edges|
  {
    TotalDegreeBelow(edges, n);
    EndsBelowAll(edges, n);
  }

  /** Every neighbour that the edges give is a node. */
  lemma IncidentWithin(edges: seq<Edge>, n: nat, u: nat)
    requires EdgesWithin(edges, n)
    ensures forall k :: 0 <= k < |Incident(edges, u)| ==> Incident(edges, u)[k] < n
    decreases |edges|
  {
    if edges != [] {
      assert EdgesWithin(edges[1..], n) by {
        forall k | 0 <= k < |edges[1..]| ensures edges[1..][k].0 < n && edges[1..][k].1 < n {
          assert edges[1..][k] == edges[k + 1];
        }
      }
      IncidentWithin(edges[1..], n, u);
    }
  }

  lemma IncidentStep(edges: seq<Edge>, k: nat)
    requires k < |edges|
    ensures forall w :: Incident(edges[..k + 1], w) == Incident(edges[..k], w) + EdgeEnds(edges[k], w)
  {
    forall w ensures Incident(edges[..k + 1], w) == Incident(edges[..k], w) + EdgeEnds(edges[k], w) {
      assert edges[..k + 1] == edges[..k] + [edges[k]];
      IncidentAppend(edges[..k], [edges[k]], w);
    }
  }

  /** The two appends of one edge `(u, v)` add exactly its ends. */
  lemma AppendBothEnds(A: Adjacency, u: nat, v: nat)
    requires u < |A| && v < |A|
    ensures var B := A[u := A[u] + [v]];
            var C := B[v := B[v] + [u]];
            |C| == |A| && forall w :: 0 <= w < |A| ==> C[w] == A[w] + EdgeEnds((u, v), w)
  {
  }

  /** `GeometricGraph`: the coordinates `X` (n rows of d reals) and the
      adjacency lists `N`, filled in by the constructor. */
  class GeometricGraph {
    const X: seq<Vec>
    const n: nat
    const d: nat
    var N: Adjacency

    ghost predicate Valid()
      reads this
    {
      && |X| == n
      && (forall a :: 0 <= a < n ==> |X[a]| == d)
      && Data().Valid()
    }

    /** The graph as the refinement reads it. */
    function Data(): GraphData
      reads this
    {
      GraphData(X, N)
    }

    /** `__init__`: n empty lists, then for each edge `(u, v)` in order,
        v appended to u's list and u to v's. */
    constructor (X: seq<Vec>, d: nat, edges: seq<Edge>)
      requires forall a :: 0 <= a < |X| ==> |X[a]| == d
      requires EdgesWithin(edges, |X|)
      ensures Valid()
      ensures this.X == X && n == |X| && this.d == d
      ensures N == AdjacencyOf(|X|, edges)
    {
      this.X := X;
      n := |X|;
      this.d := d;
      N := seq(|X|, _ => []);
      new;
      for k := 0 to |edges|
        invariant |N| == n
        invariant forall u :: 0 <= u < n ==> N[u] == Incident(edges[..k], u)
      {
        var (u, v) := edges[k];
        AppendBothEnds(N, u, v);
        IncidentStep(edges, k);
        N := N[u := N[u] + [v]];
        N := N[v := N[v] + [u]];
      }
      assert edges[..|edges|] == edges;
      forall u | 0 <= u < n ensures forall k :: 0 <= k < |N[u]| ==> N[u][k] < n {
        IncidentWithin(edges, n, u);
      }
    }

    /** `neighbors(i)`: node i's adjacency list, every entry a node. */
    function Neighbors(i: nat): (r: seq<nat>)
      reads this
      requires Valid() && i < n
      ensures forall k :: 0 <= k < |r| ==> r[k] < n
    {
      N[i]
    }
  }
}
