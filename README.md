# Geometric Weisfeiler–Leman refinement: a Dafny model

This project models the colour-refinement part of a geometric
Weisfeiler–Leman test. The test gives each node of a geometric graph a
"colour", a digest string. Two graphs whose colour multisets differ cannot
be congruent.

The model covers four things:

- **The graph container.** `GeometricGraph` builds its adjacency lists `N` from an edge list.
- **Hop-set management.** `init_hop_sets` sets up the hop sets and `expand_hop_sets_once` grows them.
- **Synchronous recolouring.** `init_base_colors`, `_color_node`, `_gather_rel_vectors` and `update_colors_once`.
- **The driver loop `gwl`.** It has two variants: `igwl`, one round over direct neighbours, and the multi-hop variant, `num_iters` rounds with growing hop sets.

Modules, one per part of the program:

- `Sorting`: Python's `sorted`, as the refinement uses it. On a list of colour strings it sorts code point by code point. On a set of node indices it lists them in ascending order.
- `Utils` (utils/utils.py): every refinement step. The graph reaches these steps as a `GraphData` value, its coordinates `X` and adjacency lists `N`, because a run never changes the graph.
- `Graph` (main.py): the `GeometricGraph` class. Its constructor fills `N` in a loop over the edges, and the lemmas about the adjacency it builds sit beside it.
- `HopDistance`: what repeated expansion computes. After k expansions from the empty sets, a node's hop set is the set of other nodes within k steps.
- `Gwl` (main.py): the round loop.

The digest `node_coloring` and the geometry `get_invariants` are fields of a
`Primitives` value. They can be any total functions. So every property
below holds whatever digest and geometry the program uses. `_color_node` hashes an
`Invariants` record (`D`, `A`) extended with the sorted neighbour-colour
list. `init_base_colors` hashes `Degree(k)`.

In three places one might expect a stricter behaviour than the code has; the model follows the code:

- **Empty graph.** One might expect a graph with no nodes to be rejected. The code builds zero lists and returns zero colours, and so does the model.
- **Negative `num_iters`.** One might expect `num_iters >= 1` to be required. The code runs `range(num_iters)`, which is empty for a negative count. `RunGwl` promises 0 rounds in that case.
- **Hop-set growth.** One might expect hop sets to grow only in a connected graph of large enough diameter. They never shrink in any graph, and the model proves that for every graph (`ExpandedTimesGrows`).

## Model

| member | source | states |
|---|---|---|
| `Graph.GeometricGraph.constructor` | main.py:14-23 | n = the number of coordinate rows; `N` has one list per node, and node u's list is `Incident(edges, u)`: for each edge `(a, b)` in order, b if a = u, then a if b = u; every entry is a node |
| `Graph.GeometricGraph.Neighbors` | main.py:25-26 | `neighbors(i)` is node i's list, and every entry is a node index below n |
| `Graph.AdjacencyOf` | main.py:20-23 | exactly n adjacency lists, one per node |
| `Graph.IncidentAppend` | main.py:21-23 | lists follow edge order: the lists for `e1 + e2` are those for `e1` followed by those for `e2` |
| `Graph.IncidentCount` | main.py:21-23 | v occurs in u's list once per edge `(u, v)` plus once per edge `(v, u)`: duplicate edges are kept |
| `Graph.AdjacencySymmetric` | main.py:21-23 | symmetric as a multiset: v occurs in u's list as often as u occurs in v's |
| `Graph.SelfLoopsCountTwice` | main.py:21-23 | a self-loop `(u, u)` puts u in its own list twice |
| `Graph.DegreeSum` | main.py:20-23 | when every endpoint is a node, the list lengths sum to 2·\|edges\| |
| `Graph.IncidentWithin` | main.py:21-23 | when every endpoint is below n, every list entry is below n |
| `Utils.InitBaseColors` | utils/utils.py:40-44 | one colour per node; nodes whose lists have equal length get equal colours |
| `Utils.BaseColorIsDegreeClass` | utils/utils.py:44 | in one graph or across two, equal degree gives equal base colour; with a digest that gives different degrees different digests (`DegreesDistinct`, which some digest meets), equal base colour means equal degree |
| `Utils.GatherRelVectors` | utils/utils.py:62-67 | one relative vector per member of node i's hop set |
| `Utils.GatherRelVectorsAscending` | utils/utils.py:66-67 | the relative vectors are `X[v] - X[i]` for an ascending, repetition-free listing of exactly the hop set's members |
| `Sorting.SortedIndices` | utils/utils.py:66 | `sorted(hop_set)`: strictly ascending, and holds exactly the members below n |
| `Sorting.SortedIndicesLength` | utils/utils.py:66 | the listing has one entry per member below n |
| `Utils.NeighborColors` | utils/utils.py:58 | one previous colour per adjacency-list entry, so duplicates and self-loops count again |
| `Utils.NodeSignature` | utils/utils.py:56-58 | the value `_color_node` hashes: the invariants of node i's gathered relative vectors, and a sorted list with the same multiset of previous colours as i's direct neighbours |
| `Utils.ColorNode` | utils/utils.py:47-59 | `_color_node`: the digest of node i's invariants together with any sorted listing of its neighbours' previous colours. Every sorted listing of that multiset gives the same colour, so the colour depends on previous colours only through the neighbour multiset (`ColorNodeDependsOnNeighborMultiset`) |
| `Utils.ColorNodeAgrees` | utils/utils.py:56-59 | two nodes with equal invariants and equal multisets of neighbour colours get the same new colour |
| `Sorting.SortedListingUnique` | utils/utils.py:58 | a multiset of strings has exactly one sorted listing |
| `Sorting.SortStrs` | utils/utils.py:58 | `sorted` on strings returns an ordered permutation of its input |
| `Sorting.SortedUnique` | utils/utils.py:58 | two sorted lists with the same multiset of strings are equal |
| `Sorting.SortStrsPermutationInvariant` | utils/utils.py:58 | sorting forgets the input's order |
| `Utils.ColorNodeDependsOnNeighborMultiset` | utils/utils.py:56-59 | a node's new colour depends on the previous colours only through the multiset of its neighbours' previous colours |
| `Utils.ColorNodeIgnoresAdjacencyOrder` | utils/utils.py:56-59 | reordering a node's adjacency list does not change its new colour |
| `Utils.Recolored` | utils/utils.py:83-100 | the round's result, which `update_colors_once` is proved to compute: n colours, and nodes with equal invariants and equal neighbour-colour multisets end the round with equal colours |
| `Utils.UpdateColorsOnce` | utils/utils.py:83-100 | returns n colours, entry i being node i's colour computed from the same unmodified previous colours |
| `Utils.RecoloredReadsOnlyNeighbors` | utils/utils.py:91-100 | a round is synchronous: node i's new colour ignores every previous colour except its neighbours' |
| `Utils.InitHopSets` | utils/utils.py:70-80 | with `igwl`: v is in node i's set iff v is i's neighbour and v ≠ i, and T = 1; otherwise n empty sets and T = `num_iters` |
| `Utils.UnionOfHops` | utils/utils.py:112-113 | v is in the union iff it is in the hop set of some listed neighbour |
| `Utils.Expanded` | utils/utils.py:103-116 | n sets, no node in its own set, and v ∈ new[i] iff v ≠ i and v is in old[i], in N(i), or in old[j] for some j ∈ N(i); nodes stay nodes |
| `Utils.ExpandHopSetsOnce` | utils/utils.py:103-116 | the loop with a fresh copy `S` per node computes exactly `Expanded` from the unchanged input sets |
| `Utils.ExpandedGrows` | utils/utils.py:110-114 | if i is not in old[i], then old[i] ⊆ new[i] |
| `Utils.ExpandedAddsNeighbors` | utils/utils.py:112-114 | every expansion puts each neighbour j ≠ i into new[i] |
| `Utils.ImmediateIsOneExpansion` | utils/utils.py:74-79 | the `igwl` starting sets are one expansion of the empty sets |
| `HopDistance.EmptyHopSets` | utils/utils.py:78 | n empty sets |
| `HopDistance.ExpandedTimes` | utils/utils.py:103-116 | k expansions keep n sets and keep every member a node |
| `HopDistance.ExpandBallStep` | utils/utils.py:108-116 | expanding the distance-≤k sets gives the distance-≤k+1 sets |
| `HopDistance.ExpandStaysInBall` | utils/utils.py:108-116 | everything one expansion of the distance-≤k sets puts in node i's set lies within k+1 steps of i |
| `HopDistance.ExpandReachesBall` | utils/utils.py:108-116 | every node other than i within k+1 steps of i is put in i's set by one expansion of the distance-≤k sets |
| `HopDistance.ExpandedTimesIsBall` | utils/utils.py:103-116 | after k expansions from empty, node i's set is exactly {v ≠ i : some walk from i reaches v in ≤ k steps} |
| `HopDistance.ExpandedTimesGrows` | utils/utils.py:108-116 | if i is not in its starting set, each expansion keeps every member of node i's set |
| `Gwl.RoundHopSets` | main.py:40-44 | the hop sets round k colours with: n sets of nodes |
| `Gwl.RecolorAlong` | main.py:42-49 | the colours after one synchronous round per generation of hop sets: n colours |
| `Gwl.StartingHopSets` | main.py:40 | what `init_hop_sets` returns is the round-0 generation in both variants |
| `Gwl.RunGwl` | main.py:29-50 | returns n colours after exactly T rounds (1 for `igwl`, `num_iters` otherwise, 0 if negative; by default `num_iters` is 2 and `igwl` is false). Round k's hop sets are the `igwl` starting sets, or k expansions of the empty sets. The colours are those rounds applied in order to the base colours |
| `Gwl.ImmediateRoundsUseDistanceOne` | main.py:43-44 | `igwl` rounds never expand: each uses i's neighbours other than i, which are exactly the nodes at distance 1 |
| `Gwl.MultiHopRoundsUseDistanceK` | main.py:40-44 | multi-hop round k uses the nodes other than i within k steps of i, and round k+1's set contains round k's |

## Left out

- `node_coloring` (utils/utils.py:7-13) is not modelled. It is a JSON serialisation plus SHA-1, and the model takes it as an arbitrary function of the payload. Its 40-character length, its key-order independence and its sensitivity to changes belong to those libraries.
- `normalize` and `get_invariants` (utils/utils.py:16-37) are not modelled. They do floating-point norms, matrix products, clamping and rounding, and the model takes them as an arbitrary function of the ordered relative vectors. Rotation and permutation invariance are not stated.
- `Utils.GatherRelVectors` computes `X[v] - X[i]` on exact reals. The float32 cast of main.py:18 and the tensor device and dtype handling of utils/utils.py:66-67 are not modelled.
- `Graph.GeometricGraph.constructor` requires every endpoint to be below n. Python raises IndexError for an index at or above n, and a negative index wraps around to the end of the list. Neither error path nor the wrap-around is modelled.
- `Graph.GeometricGraph.constructor` takes the coordinate width `d` as an argument. The source reads it from the tensor's shape.
- `Utils.BaseColorIsDegreeClass` proves that different degrees give different colours only under `DegreesDistinct`: the digest must give the payloads `{"deg": a}` and `{"deg": b}` different digests whenever a ≠ b. `Utils.DegreesDistinctIsSatisfiable` shows some digest meets it. For SHA-1 it is a property of the hash, assumed here and not proved.
- The demonstration blocks (utils/utils.py:119-123, main.py:53-78) are not modelled. They compare `Counter`s of colours for random or fixed tensors, and their verdicts depend on float geometry and hash values.
- tests.py is not modelled. It tests only the hash wrapper.
- Python's in-place list and set mutation becomes reassignment of sequence and set values in the model. So "the input list is not modified" holds because the model passes values, not references.
