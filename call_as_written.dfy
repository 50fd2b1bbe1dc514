/**
 `SemanticSearch.call` (index.js:29-38) as written, on a fitted search's
 fields, next to the corrected Search.SemanticSearch.Call. Two things differ
 from the evident intent:

 - `inpEmb.arraySync()` is the 1 x D batch holding the query's embedding,
   not the embedding itself, and `kneighbors` subtracts its entries from
   the stored vectors' coordinates. Its first entry is a D-element array
   and every later entry is undefined, so each distance is NaN. A NaN
   comparator result counts as "equal" in `Array.prototype.sort`, and since the
   sort is stable the positions stay in order: the answer is the first k
   positions whatever the query.
 - `returnData` (true by default) is passed on to `kneighbors`, which then
   returns vectors, and `this.data[v]` with a vector v looks up the
   property named by the vector's comma-joined text, which no array
   element has: every text comes back undefined.
 */
module CallAsWritten {
  import opened Seqs
  import opened Neighbors
  import opened Search

  /** A JavaScript number as this arithmetic produces it: a value, or NaN. */
  datatype Num = Value(v: int) | NaN

  /**
   `b[i]` converted to a number, for the batch b: past the end it is
   undefined (NaN); an array converts through its text, which is a
   number only for an array of at most one element.
   */
  function EntryAsNumber(b: seq<Vector>, i: nat): (r: Num)
    ensures i < |b| && |b[i]| > 1 ==> r == NaN
    ensures i >= |b| ==> r == NaN
  {
    if i >= |b| then NaN
    else if |b[i]| == 0 then Value(0)
    else if |b[i]| == 1 then Value(b[i][0])
    else NaN
  }

  /**
   `a.reduce((sum, _, i) => sum + (a[i] - b[i]) ** 2, 0)` over the first n
   coordinates of a, with the batch b in the place of the query (squared,
   as in Neighbors.Distance).
   */
  function DistanceAsWritten(a: Vector, b: seq<Vector>, n: nat): Num
    requires n <= |a|
  {
    if n == 0 then Value(0)
    else
      match (DistanceAsWritten(a, b, n - 1), EntryAsNumber(b, n - 1))
      case (Value(s), Value(x)) => Value(s + Square(a[n - 1] - x))
      case _ => NaN
  }

  /** Once the first subtraction is NaN, so is the whole sum. */
  lemma {:induction false} DistanceNaN(a: Vector, b: seq<Vector>, n: nat)
    requires 0 < n <= |a| && EntryAsNumber(b, 0) == NaN
    ensures DistanceAsWritten(a, b, n) == NaN
  {
    if n > 1 {
      DistanceNaN(a, b, n - 1);
    }
  }

  /** The comparator `array[a] - array[b]` is negative: NaN on either side never is. */
  predicate Less(d: seq<Num>, i: nat, j: nat)
  {
    i < |d| && j < |d| && d[i].Value? && d[j].Value? && d[i].v < d[j].v
  }

  /** A stable insertion: x goes in front of the first element it is strictly less than. */
  function InsertAsWritten(d: seq<Num>, x: nat, s: seq<nat>): (r: seq<nat>)
    ensures |r| == |s| + 1
  {
    if s == [] then [x]
    else if Less(d, x, s[0]) then [x] + s
    else [s[0]] + InsertAsWritten(d, x, s[1..])
  }

  /**
   `array.map((_, i) => i).sort((a, b) => array[a] - array[b])` by stable
   insertion under the as-written comparator; with all keys NaN every pair
   compares equal (ArgSortAllNaN).
   */
  function ArgSortAsWritten(d: seq<Num>, n: nat): (r: seq<nat>)
    requires n <= |d|
    ensures |r| == n
  {
    if n == 0 then [] else InsertAsWritten(d, n - 1, ArgSortAsWritten(d, n - 1))
  }

  /** Ties put the new element last. */
  lemma {:induction false} InsertLast(d: seq<Num>, x: nat, s: seq<nat>)
    requires forall p :: 0 <= p < |s| ==> !Less(d, x, s[p])
    ensures InsertAsWritten(d, x, s) == s + [x]
    decreases |s|
  {
    if s != [] {
      InsertLast(d, x, s[1..]);
      assert [s[0]] + (s[1..] + [x]) == s + [x];
    }
  }

  /** When every key is NaN the sort leaves the positions in order. */
  lemma {:induction false} ArgSortAllNaN(d: seq<Num>, n: nat)
    requires n <= |d| && forall i :: 0 <= i < |d| ==> d[i] == NaN
    ensures ArgSortAsWritten(d, n) == Range(n)
  {
    if n > 0 {
      ArgSortAllNaN(d, n - 1);
      InsertLast(d, n - 1, Range(n - 1));
      assert Range(n - 1) + [n - 1] == Range(n);
    }
  }

  /** `this.embeddings.map((e) => this.distance(e, embedding))` with the batch as the embedding. */
  function DistancesAsWritten(embeddings: seq<Vector>, b: seq<Vector>): (r: seq<Num>)
    ensures |r| == |embeddings|
  {
    seq(|embeddings|, i requires 0 <= i < |embeddings| => DistanceAsWritten(embeddings[i], b, |embeddings[i]|))
  }

  /**
   `this.data[v]` for a vector v: the property named by v's text, which is
   an array index only for a one-element vector.
   */
  function LookupByVector(data: seq<string>, v: Vector): Option<string>
  {
    if |v| == 1 && 0 <= v[0] < |data| then Some(data[v[0]]) else None
  }

  /** `call(text, returnData)` as written, on a fitted search's fields. */
  function WrittenCall(embed: Embedder, data: seq<string>, embeddings: seq<Vector>, k: nat,
                      text: string, returnData: bool): Hits
  {
    var b := embed([text]);
    var ids := ArgSortAsWritten(DistancesAsWritten(embeddings, b), |embeddings|)[..Min(k, |embeddings|)];
    if returnData then
      Texts(seq(|ids|, p requires 0 <= p < |ids| => if ids[p] < |embeddings| then LookupByVector(data, embeddings[ids[p]]) else None))
    else Indices(ids)
  }

  lemma RangeBelow(n: nat)
    ensures forall p :: 0 <= p < n ==> Range(n)[p] < n
  {
  }

  /**
   With a well-formed encoder and stored embeddings of its width, the
   written `call` ignores its query: without returnData it returns the
   first min(k, n) positions, and with returnData every entry is undefined.
   */
  lemma {:induction false} AsWrittenIgnoresQuery(embed: Embedder, data: seq<string>, embeddings: seq<Vector>,
                                                  k: nat, text: string)
    requires WellFormed(embed)
    requires forall i :: 0 <= i < |embeddings| ==> |embeddings[i]| == Dim
    ensures WrittenCall(embed, data, embeddings, k, text, false)
      == Indices(Range(|embeddings|)[..Min(k, |embeddings|)])
    ensures var hits := WrittenCall(embed, data, embeddings, k, text, true);
      hits.Texts? && |hits.texts| == Min(k, |embeddings|) && forall p :: 0 <= p < |hits.texts| ==> hits.texts[p] == None
  {
    var b := embed([text]);
    assert |b| == 1 && |b[0]| == Dim;
    assert EntryAsNumber(b, 0) == NaN;
    var d := DistancesAsWritten(embeddings, b);
    forall i | 0 <= i < |d| ensures d[i] == NaN {
      DistanceNaN(embeddings[i], b, |embeddings[i]|);
    }
    ArgSortAllNaN(d, |embeddings|);
    RangeBelow(|embeddings|);
  }

  /**
   A query the written `call` gets wrong: two different stored
   embeddings, the query embedded exactly as the second. The written code
   answers position 0; the corrected search answers position 1
   (NearestOfTwo, on the same input).
   */
  lemma QueryIgnored(embed: Embedder, data: seq<string>, e0: Vector, e1: Vector, text: string)
    requires WellFormed(embed) && embed([text]) == [e1] && |e0| == Dim && e0 != e1
    ensures WrittenCall(embed, data, [e0, e1], 1, text, false) == Indices([0])
  {
    assert |embed([text])[0]| == Dim && embed([text])[0] == e1;
    AsWrittenIgnoresQuery(embed, data, [e0, e1], 1, text);
    assert Range(2)[..1] == [0];
  }

  /**
   The corrected search on the input of QueryIgnored: fitted with the
   stored embeddings [e0, e1] and one neighbour, a query embedded exactly
   as e1 finds position 1. `call(text, false)` answers Indices of this
   (Search.SemanticSearch.Call).
   */
  lemma NearestOfTwo(s: SemanticSearch, embed: Embedder, e0: Vector, e1: Vector, text: string)
    requires s.Valid() && s.fitted && s.use == Some(embed)
    requires s.embeddings == [e0, e1] && s.nn.nNeighbors == 1
    requires embed([text]) == [e1] && e0 != e1
    ensures s.NearestIds(text) == [1]
  {
    assert s.QueryVector(text) == e1;
    assert |s.embeddings[0]| == |s.embeddings[1]| == Dim;
    NearestOfTwoRanking(s.nn.embeddings, e1);
  }

  /** Of two different stored embeddings, querying with the second finds the second first. */
  lemma NearestOfTwoRanking(es: seq<Vector>, q: Vector)
    requires |es| == 2 && |es[0]| == |es[1]| == |q| && es[1] == q && es[0] != q
    ensures ArgSort(Distances(es, q))[..1] == [1]
  {
    var d := Distances(es, q);
    assert d[1] == 0 && d[0] > 0;
    var t: seq<nat> := [1, 0];
    assert Before(d, 1, 0);
    SortedAdjacent(d, t);
    assert multiset(t) == multiset(Range(2)) by {
      assert Range(2) == [0, 1];
    }
    SortedUnique(d, ArgSort(d), t);
  }
}
