/** Python's built-in `sorted`, in the two places the refinement uses it:
    on a list of colour strings (ordered code point by code point) and on a
    set of node indices (ascending). */
module Sorting {

  /** Python's `a <= b` on `str`: lexicographic by code point, a proper
      prefix before any of its extensions. */
  predicate StrLe(a: string, b: string)
  {
    |a| == 0 || (|b| > 0 && (a[0] < b[0] || (a[0] == b[0] && StrLe(a[1..], b[1..]))))
  }

  lemma {:induction false} StrLeTotal(a: string, b: string)
    ensures StrLe(a, b) || StrLe(b, a)
  {
    if |a| > 0 && |b| > 0 && a[0] == b[0] {
      StrLeTotal(a[1..], b[1..]);
    }
  }

  lemma {:induction false} StrLeAntisymmetric(a: string, b: string)
    requires StrLe(a, b) && StrLe(b, a)
    ensures a == b
  {
    if |a| > 0 && |b| > 0 {
      StrLeAntisymmetric(a[1..], b[1..]);
      assert a == [a[0]] + a[1..] && b == [b[0]] + b[1..];
    }
  }

  lemma {:induction false} StrLeReflexive(a: string)
    ensures StrLe(a, a)
  {
    if |a| > 0 {
      StrLeReflexive(a[1..]);
    }
  }

  lemma {:induction false} StrLeTransitive(a: string, b: string, c: string)
    requires StrLe(a, b) && StrLe(b, c)
    ensures StrLe(a, c)
  {
    if |a| > 0 && |b| > 0 && |c| > 0 && a[0] == b[0] == c[0] {
      StrLeTransitive(a[1..], b[1..], c[1..]);
    }
  }

  /** Every earlier element is `<=` every later one. */
  predicate SortedStrs(s: seq<string>)
  {
    forall i, j :: 0 <= i < j < |s| ==> StrLe(s[i], s[j])
  }

  /** Puts `x` in its place in the sorted list `s`. */
  function Insert(x: string, s: seq<string>): (r: seq<string>)
    requires SortedStrs(s)
    ensures SortedStrs(r)
    ensures multiset(r) == multiset(s) + multiset{x}
  {
    if s == [] then [x]
    else if StrLe(x, s[0]) then
      InsertBeforeHead(x, s);
      [x] + s
    else
      StrLeTotal(x, s[0]);
      var t := Insert(x, s[1..]);
      assert s == [s[0]] + s[1..];
      HeadBeforeInserted(x, s, t);
      [s[0]] + t
  }

  lemma InsertBeforeHead(x: string, s: seq<string>)
    requires SortedStrs(s) && s != [] && StrLe(x, s[0])
    ensures SortedStrs([x] + s)
  {
    forall j | 0 < j < |s|
      ensures StrLe(x, s[j])
    {
      StrLeTransitive(x, s[0], s[j]);
    }
  }

  lemma HeadBeforeInserted(x: string, s: seq<string>, t: seq<string>)
    requires SortedStrs(s) && s != [] && StrLe(s[0], x)
    requires SortedStrs(t) && multiset(t) == multiset(s[1..]) + multiset{x}
    ensures SortedStrs([s[0]] + t)
  {
    forall k | 0 <= k < |t|
      ensures StrLe(s[0], t[k])
    {
      assert t[k] in multiset(t);
      if t[k] != x {
        assert t[k] in multiset(s[1..]);
        var m :| 0 <= m < |s[1..]| && s[1..][m] == t[k];
        assert s[m + 1] == t[k];
      }
    }
  }

  /** `sorted(s)` on a list of strings: insertion sort. */
  function SortStrs(s: seq<string>): (r: seq<string>)
    ensures SortedStrs(r)
    ensures multiset(r) == multiset(s)
  {
    if s == [] then []
    else
      assert s == [s[0]] + s[1..];
      Insert(s[0], SortStrs(s[1..]))
  }

  /** A sorted arrangement of a multiset of strings is unique: the sorted
      list depends only on which strings occur, and how often. */
  lemma {:induction false} SortedUnique(a: seq<string>, b: seq<string>)
    requires SortedStrs(a) && SortedStrs(b)
    requires multiset(a) == multiset(b)
    ensures a == b
  {
    if a != [] {
      assert b != [] by {
        assert a[0] in multiset(b);
      }
      SortedHeadsEqual(a, b);
      DropHead(a, b);
      SortedUnique(a[1..], b[1..]);
      assert a == [a[0]] + a[1..] && b == [b[0]] + b[1..];
    } else {
      assert |multiset(b)| == 0;
    }
  }

  /** The head of a sorted list is `<=` everything in it. */
  lemma SortedHeadLeast(a: seq<string>, x: string)
    requires SortedStrs(a) && a != [] && x in multiset(a)
    ensures StrLe(a[0], x)
  {
    var k :| 0 <= k < |a| && a[k] == x;
    if k == 0 {
      StrLeReflexive(x);
    }
  }

  lemma SortedHeadsEqual(a: seq<string>, b: seq<string>)
    requires SortedStrs(a) && SortedStrs(b) && a != [] && b != []
    requires multiset(a) == multiset(b)
    ensures a[0] == b[0]
  {
    assert a[0] in multiset(a) && b[0] in multiset(b);
    SortedHeadLeast(a, b[0]);
    SortedHeadLeast(b, a[0]);
    StrLeAntisymmetric(a[0], b[0]);
  }

  lemma DropHead(a: seq<string>, b: seq<string>)
    requires a != [] && b != [] && a[0] == b[0]
    requires multiset(a) == multiset(b)
    ensures multiset(a[1..]) == multiset(b[1..])
  {
    assert a == [a[0]] + a[1..] && b == [b[0]] + b[1..];
    assert multiset(a) == multiset{a[0]} + multiset(a[1..]);
    assert multiset(b) == multiset{a[0]} + multiset(b[1..]);
    forall y ensures multiset(a[1..])[y] == multiset(b[1..])[y] {
      assert (multiset{a[0]} + multiset(a[1..]))[y] == (multiset{a[0]} + multiset(b[1..]))[y];
    }
  }

  /** A multiset of strings has one sorted listing: every sorted list with
      the multiset of `xs` is `t`. */
  lemma SortedListingUnique(t: seq<string>, xs: seq<string>)
    requires SortedStrs(t) && multiset(t) == multiset(xs)
    ensures forall s :: SortedStrs(s) && multiset(s) == multiset(xs) ==> s == t
  {
    forall s | SortedStrs(s) && multiset(s) == multiset(xs) ensures s == t {
      SortedUnique(s, t);
    }
  }

  /** Sorting a list of strings forgets its order: two lists with the same
      elements (as a multiset) sort to the same list. */
  lemma SortStrsPermutationInvariant(s: seq<string>, t: seq<string>)
    requires multiset(s) == multiset(t)
    ensures SortStrs(s) == SortStrs(t)
  {
    SortedUnique(SortStrs(s), SortStrs(t));
  }

  /** Strictly ascending, hence also free of repetitions. */
  predicate Ascending(s: seq<nat>)
  {
    forall i, j :: 0 <= i < j < |s| ==> s[i] < s[j]
  }

  /** `sorted(s)` on a set of node indices, all below `n`: the members in
      ascending order. */
  function SortedIndices(s: set<nat>, n: nat): (r: seq<nat>)
    ensures Ascending(r)
    ensures forall v :: v in r <==> v in s && v < n
  {
    if n == 0 then []
    else
      var below := SortedIndices(s, n - 1);
      assert forall k :: 0 <= k < |below| ==> below[k] in below;
      below + (if n - 1 in s then [n - 1] else [])
  }

  /** The members of `s` below `n`. */
  function Below(s: set<nat>, n: nat): set<nat>
  {
    set v | v in s && v < n
  }

  /** The ascending listing holds each member exactly once. */
  lemma {:induction false} SortedIndicesLength(s: set<nat>, n: nat)
    ensures |SortedIndices(s, n)| == |Below(s, n)|
  {
    if n == 0 {
      assert Below(s, n) == {};
    } else {
      SortedIndicesLength(s, n - 1);
      BelowStep(s, n);
    }
  }

  lemma BelowStep(s: set<nat>, n: nat)
    requires n > 0
    ensures |Below(s, n)| == |Below(s, n - 1)| + (if n - 1 in s then 1 else 0)
  {
    if n - 1 in s {
      assert Below(s, n) == Below(s, n - 1) + {n - 1};
    } else {
      assert Below(s, n) == Below(s, n - 1);
    }
  }
}
