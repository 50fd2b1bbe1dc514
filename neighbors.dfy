/**
 The exact nearest-neighbour index `NearestNeighbors` (index.js:52-80).
 `fit` stores the embeddings; `kneighbors` measures every stored
 embedding's distance to the query, sorts the positions by distance with
 a stable sort, and keeps the first `nNeighbors`.

 Coordinates are integers (a fixed-point reading of the source's floats)
 and distances are exact squared Euclidean distances: the square root
 the source takes is monotone, so it changes no ordering.
 */
module Neighbors {
  import opened Seqs

  type Vector = seq<int>

  /** `x ** 2`. */
  function Square(x: int): (r: int)
    ensures r >= 0
    ensures r == 0 <==> x == 0
  {
    x * x
  }

  /**
   The running sum of the first n squared differences, as the reduce
   `a.reduce((sum, _, i) => sum + (a[i] - b[i]) ** 2, 0)` builds it from
   the left.
   */
  function SumSquares(a: Vector, b: Vector, n: nat): (r: int)
    requires n <= |a| && n <= |b|
    ensures r >= 0
    ensures r == 0 <==> a[..n] == b[..n]
  {
    if n == 0 then 0
    else
      assert a[..n] == a[..n - 1] + [a[n - 1]] && b[..n] == b[..n - 1] + [b[n - 1]];
      assert a[..n] == b[..n] <==> a[..n - 1] == b[..n - 1] && a[n - 1] == b[n - 1];
      SumSquares(a, b, n - 1) + Square(a[n - 1] - b[n - 1])
  }

  /** `distance(a, b)`, squared. */
  function Distance(a: Vector, b: Vector): (r: int)
    requires |a| == |b|
    ensures r >= 0
    ensures r == 0 <==> a == b
  {
    assert a[..|a|] == a && b[..|b|] == b;
    SumSquares(a, b, |a|)
  }

  lemma {:induction false} SumSquaresSymmetric(a: Vector, b: Vector, n: nat)
    requires n <= |a| && n <= |b|
    ensures SumSquares(a, b, n) == SumSquares(b, a, n)
  {
    if n > 0 {
      SumSquaresSymmetric(a, b, n - 1);
      assert Square(a[n - 1] - b[n - 1]) == Square(b[n - 1] - a[n - 1]);
    }
  }

  /** The distance is symmetric. */
  lemma DistanceSymmetric(a: Vector, b: Vector)
    requires |a| == |b|
    ensures Distance(a, b) == Distance(b, a)
  {
    SumSquaresSymmetric(a, b, |a|);
  }

  /** `this.embeddings.map((e) => this.distance(e, embedding))`. */
  function Distances(embeddings: seq<Vector>, q: Vector): (r: seq<int>)
    requires forall k :: 0 <= k < |embeddings| ==> |embeddings[k]| == |q|
    ensures |r| == |embeddings|
  {
    seq(|embeddings|, k requires 0 <= k < |embeddings| => Distance(embeddings[k], q))
  }

  /**
   Position i sorts strictly before position j: it is closer, or as close
   and earlier. A stable sort of the positions 0..n-1 by distance orders
   them exactly by this relation.
   */
  predicate Before(d: seq<int>, i: nat, j: nat)
  {
    i < |d| && j < |d| && (d[i] < d[j] || (d[i] == d[j] && i < j))
  }

  /** Every element of s is a position of d, and s is strictly ordered by Before. */
  ghost predicate SortedBy(d: seq<int>, s: seq<nat>)
  {
    && (forall p :: 0 <= p < |s| ==> s[p] < |d|)
    && (forall p, q :: 0 <= p < q < |s| ==> Before(d, s[p], s[q]))
  }

  /** `array.map((_, i) => i)`: the positions 0..n-1. */
  function Range(n: nat): (r: seq<nat>)
    ensures |r| == n && forall i :: 0 <= i < n ==> r[i] == i
  {
    seq(n, i requires 0 <= i < n => i)
  }

  /** Puts position x into s in front of the first element x sorts before. */
  function Insert(d: seq<int>, x: nat, s: seq<nat>): (r: seq<nat>)
    ensures multiset(r) == multiset(s) + multiset{x}
    ensures |r| == |s| + 1
  {
    if s == [] then [x]
    else if Before(d, x, s[0]) then [x] + s
    else
      assert s == [s[0]] + s[1..];
      [s[0]] + Insert(d, x, s[1..])
  }

  lemma SortedTail(d: seq<int>, s: seq<nat>)
    requires SortedBy(d, s) && s != []
    ensures SortedBy(d, s[1..])
  {
    var t := s[1..];
    forall p, q | 0 <= p < q < |t| ensures Before(d, t[p], t[q]) {
      assert t[p] == s[p + 1] && t[q] == s[q + 1];
    }
  }

  lemma SortedCons(d: seq<int>, y: nat, u: seq<nat>)
    requires SortedBy(d, u) && y < |d|
    requires forall q :: 0 <= q < |u| ==> Before(d, y, u[q])
    ensures SortedBy(d, [y] + u)
  {
    var r := [y] + u;
    forall p | 0 <= p < |r| ensures r[p] < |d| {
      if p > 0 { assert r[p] == u[p - 1]; }
    }
    forall p, q | 0 <= p < q < |r| ensures Before(d, r[p], r[q]) {
      assert r[q] == u[q - 1];
      if p > 0 { assert r[p] == u[p - 1]; }
    }
  }

  lemma {:induction false} InsertSorted(d: seq<int>, x: nat, s: seq<nat>)
    requires SortedBy(d, s) && x < |d| && x !in s
    ensures SortedBy(d, Insert(d, x, s))
  {
    if s == [] {
    } else if Before(d, x, s[0]) {
      forall q | 0 <= q < |s| ensures Before(d, x, s[q]) {
        if q > 0 { assert Before(d, s[0], s[q]); }
      }
      SortedCons(d, x, s);
    } else {
      var t := s[1..];
      SortedTail(d, s);
      assert x !in t;
      InsertSorted(d, x, t);
      var u := Insert(d, x, t);
      assert Before(d, s[0], x) by { assert s[0] != x; }
      forall q | 0 <= q < |u| ensures Before(d, s[0], u[q]) {
        assert u[q] in multiset(t) + multiset{x};
        if u[q] != x {
          assert u[q] in t;
          var j :| 0 <= j < |t| && t[j] == u[q];
          assert s[j + 1] == u[q];
        }
      }
      SortedCons(d, s[0], u);
    }
  }

  /** Inserting the positions 0..n-1 one at a time, in order. */
  function InsertAll(d: seq<int>, n: nat): (r: seq<nat>)
    requires n <= |d|
    ensures multiset(r) == multiset(Range(n))
    ensures SortedBy(d, r)
  {
    if n == 0 then []
    else
      var s := InsertAll(d, n - 1);
      assert Range(n) == Range(n - 1) + [n - 1];
      assert n - 1 !in s by {
        assert n - 1 !in multiset(Range(n - 1));
      }
      InsertSorted(d, n - 1, s);
      Insert(d, n - 1, s)
  }

  /**
   `argsort(array)`: the positions of d, sorted by their values with a
   stable sort (Array.prototype.sort is stable since ECMAScript 2019). The
   result is a permutation of 0..|d|-1 ordered by distance and, among
   equal distances, by position.
   */
  function ArgSort(d: seq<int>): (r: seq<nat>)
    ensures multiset(r) == multiset(Range(|d|))
    ensures SortedBy(d, r)
  {
    InsertAll(d, |d|)
  }

  lemma RangeMembers(n: nat, i: nat)
    ensures i in multiset(Range(n)) <==> i < n
  {
    if i < n {
      assert Range(n)[i] == i;
    }
  }

  /** A permutation of 0..|d|-1 holds each position exactly once. */
  lemma PermutationFacts(d: seq<int>, s: seq<nat>)
    requires multiset(s) == multiset(Range(|d|))
    ensures |s| == |d|
    ensures forall i :: 0 <= i < |d| ==> i in s
    ensures forall p :: 0 <= p < |s| ==> s[p] < |d|
  {
    assert |s| == |multiset(s)| == |multiset(Range(|d|))| == |d|;
    forall i | 0 <= i < |d| ensures i in s {
      RangeMembers(|d|, i);
      assert i in multiset(s);
    }
    forall p | 0 <= p < |s| ensures s[p] < |d| {
      assert s[p] in multiset(s);
      RangeMembers(|d|, s[p]);
    }
  }

  /**
   A strictly ordered permutation is unique: ArgSort is the only
   permutation of the positions ordered by Before, so any stable sort of
   the positions by distance gives it.
   */
  lemma {:induction false} SortedUnique(d: seq<int>, s: seq<nat>, t: seq<nat>)
    requires SortedBy(d, s) && SortedBy(d, t) && multiset(s) == multiset(t)
    ensures s == t
    decreases |s|
  {
    assert |s| == |multiset(s)| == |multiset(t)| == |t|;
    if s != [] {
      SortedHeads(d, s, t);
      MultisetTail(s, t);
      SortedTail(d, s);
      SortedTail(d, t);
      SortedUnique(d, s[1..], t[1..]);
      assert s == [s[0]] + s[1..] && t == [t[0]] + t[1..];
    }
  }

  /** Two strictly ordered permutations of each other start alike. */
  lemma SortedHeads(d: seq<int>, s: seq<nat>, t: seq<nat>)
    requires SortedBy(d, s) && SortedBy(d, t) && multiset(s) == multiset(t) && s != [] && t != []
    ensures s[0] == t[0]
  {
    assert s[0] in multiset(t);
    var j :| 0 <= j < |t| && t[j] == s[0];
    assert t[0] in multiset(s);
    var i :| 0 <= i < |s| && s[i] == t[0];
    assert j > 0 ==> Before(d, t[0], s[0]);
    assert i > 0 ==> Before(d, s[0], t[0]);
  }

  lemma MultisetTail(s: seq<nat>, t: seq<nat>)
    requires s != [] && t != [] && s[0] == t[0] && multiset(s) == multiset(t)
    ensures multiset(s[1..]) == multiset(t[1..])
  {
    assert s == [s[0]] + s[1..] && t == [t[0]] + t[1..];
    assert multiset(s) == multiset{s[0]} + multiset(s[1..]);
    assert multiset(t) == multiset{t[0]} + multiset(t[1..]);
    assert multiset(s[1..]) == multiset(s) - multiset{s[0]} == multiset(t) - multiset{t[0]};
  }

  /** A sequence whose neighbours are ordered by Before is ordered by Before throughout. */
  lemma {:induction false} SortedAdjacent(d: seq<int>, s: seq<nat>)
    requires forall p :: 0 <= p < |s| ==> s[p] < |d|
    requires forall p :: 0 <= p < |s| - 1 ==> Before(d, s[p], s[p + 1])
    ensures SortedBy(d, s)
    decreases |s|
  {
    if s != [] {
      var t := s[1..];
      forall p | 0 <= p < |t| - 1 ensures Before(d, t[p], t[p + 1]) {
        assert t[p] == s[p + 1] && t[p + 1] == s[p + 2];
      }
      SortedAdjacent(d, t);
      if t != [] {
        forall q | 0 <= q < |t| ensures Before(d, s[0], t[q]) {
          assert Before(d, s[0], t[0]);
          if q > 0 { assert Before(d, t[0], t[q]); }
        }
      }
      SortedCons(d, s[0], t);
      assert s == [s[0]] + t;
    }
  }

  /** The neighbour index: the neighbour count and the stored embeddings. */
  class NearestNeighbors {
    var nNeighbors: nat
    var embeddings: seq<Vector>

    /** `new NearestNeighbors(nNeighbors)`: nothing is stored yet. */
    constructor(nNeighbors: nat)
      ensures this.nNeighbors == nNeighbors && embeddings == []
    {
      this.nNeighbors := nNeighbors;
      embeddings := [];
    }

    /** `fit(embeddings)`: store the embeddings, replacing any stored before. */
    method Fit(embeddings: seq<Vector>)
      modifies this
      ensures this.embeddings == embeddings && nNeighbors == old(nNeighbors)
    {
      this.embeddings := embeddings;
    }

    /** Every stored embedding has the query's dimension. */
    predicate Matches(q: Vector)
      reads this
    {
      forall k :: 0 <= k < |embeddings| ==> |embeddings[k]| == |q|
    }

    /**
     `kneighbors(embedding, false)`: the positions of the `nNeighbors`
     stored embeddings nearest the query, nearest first and, among equal
     distances, lowest position first. Fewer embeddings than
     `nNeighbors` give all of them (`slice` clamps).
     */
    function KNeighbors(q: Vector): (r: seq<nat>)
      reads this
      requires Matches(q)
      ensures |r| == Min(nNeighbors, |embeddings|)
      ensures forall p :: 0 <= p < |r| ==> r[p] < |embeddings|
      ensures forall p, p' :: 0 <= p < p' < |r| ==> r[p] != r[p']
      ensures SortedBy(Distances(embeddings, q), r)
      ensures forall p, j :: 0 <= p < |r| && 0 <= j < |embeddings| && j !in r ==>
        Before(Distances(embeddings, q), r[p], j)
      ensures nNeighbors >= |embeddings| ==> multiset(r) == multiset(Range(|embeddings|))
    {
      var d := Distances(embeddings, q);
      var s := ArgSort(d);
      PermutationFacts(d, s);
      var k := Min(nNeighbors, |embeddings|);
      var r := s[..k];
      assert forall p, p' :: 0 <= p < p' < |r| ==> Before(d, r[p], r[p']);
      forall p, j | 0 <= p < |r| && 0 <= j < |embeddings| && j !in r ensures Before(d, r[p], j) {
        assert j in s;
        var q' :| 0 <= q' < |s| && s[q'] == j;
      }
      assert nNeighbors >= |embeddings| ==> r == s;
      r
    }

    /**
     `kneighbors(embedding, true)`: the stored embeddings themselves, at the
     positions KNeighbors selects, in the same order.
     */
    function KNeighborVectors(q: Vector): (r: seq<Vector>)
      reads this
      requires Matches(q)
      ensures var ids := KNeighbors(q);
        |r| == |ids| && forall p :: 0 <= p < |r| ==> r[p] == embeddings[ids[p]]
    {
      Select(embeddings, KNeighbors(q))
    }
  }

  /** `ids.map((i) => xs[i])`. */
  function Select<T>(xs: seq<T>, ids: seq<nat>): (r: seq<T>)
    requires forall p :: 0 <= p < |ids| ==> ids[p] < |xs|
    ensures |r| == |ids|
  {
    seq(|ids|, p requires 0 <= p < |ids| => xs[ids[p]])
  }

  /**
   Any sequence of positions that has the KNeighbors properties is the
   KNeighbors result: the contract determines the selection.
   */
  lemma KNeighborsUnique(nn: NearestNeighbors, q: Vector, t: seq<nat>)
    requires nn.Matches(q)
    requires SortedBy(Distances(nn.embeddings, q), t)
    requires multiset(t) == multiset(Range(|nn.embeddings|)) && |t| == |nn.embeddings|
    ensures nn.KNeighbors(q) == t[..Min(nn.nNeighbors, |nn.embeddings|)]
  {
    var d := Distances(nn.embeddings, q);
    PermutationFacts(d, t);
    SortedUnique(d, ArgSort(d), t);
  }

  /**
   Querying with a stored embedding returns, first, the lowest position
   holding that embedding (when at least one neighbour is asked for).
   */
  lemma SelfQueryFirst(nn: NearestNeighbors, j: nat)
    requires j < |nn.embeddings| && nn.nNeighbors > 0
    requires nn.Matches(nn.embeddings[j])
    requires forall i :: 0 <= i < j ==> nn.embeddings[i] != nn.embeddings[j]
    ensures nn.KNeighbors(nn.embeddings[j])[0] == j
  {
    var q := nn.embeddings[j];
    var d := Distances(nn.embeddings, q);
    var r := nn.KNeighbors(q);
    assert d[j] == 0;
    assert r[0] == j || Before(d, r[0], j) by {
      if j in r {
        var p :| 0 <= p < |r| && r[p] == j;
        if p > 0 { assert Before(d, r[0], r[p]); }
      }
    }
    assert d[r[0]] == 0 ==> nn.embeddings[r[0]] == q;
  }

  /** Distances [3, 1, 4, 1, 5] with two neighbours give [1, 3]: the tie at distance 1 goes to the lower position. */
  lemma ArgSortExample(d: seq<int>)
    requires d == [3, 1, 4, 1, 5]
    ensures ArgSort(d)[..2] == [1, 3]
  {
    var t: seq<nat> := [1, 3, 0, 2, 4];
    ExampleOrder(d, t);
    ExamplePermutation(t);
    SortedUnique(d, ArgSort(d), t);
  }

  lemma ExampleOrder(d: seq<int>, t: seq<nat>)
    requires d == [3, 1, 4, 1, 5] && t == [1, 3, 0, 2, 4]
    ensures SortedBy(d, t)
  {
    forall p | 0 <= p < |t| - 1 ensures Before(d, t[p], t[p + 1]) {
      assert p == 0 || p == 1 || p == 2 || p == 3;
    }
    SortedAdjacent(d, t);
  }

  lemma ExamplePermutation(t: seq<nat>)
    requires t == [1, 3, 0, 2, 4]
    ensures multiset(t) == multiset(Range(5))
  {
    assert Range(5) == [0, 1, 2, 3, 4];
  }
}
