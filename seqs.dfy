/**
 Sequence helpers shared by the chunker and the embedding batcher: the
 `for (i = 0; i < s.length; i += w) s.slice(i, i + w)` walk that both use,
 concatenation of a list of lists, and ceiling division.
 */
module Seqs {

  function Min(a: int, b: int): int
  {
    if a <= b then a else b
  }

  /** Ceiling of n / w: how many pieces of at most w items hold n items. */
  function CeilDiv(n: nat, w: nat): nat
    requires w > 0
    decreases n
  {
    if n == 0 then 0 else if n <= w then 1 else 1 + CeilDiv(n - w, w)
  }

  /** CeilDiv(n, w) is the least c with n <= c * w. */
  lemma {:induction false} CeilDivBounds(n: nat, w: nat)
    requires w > 0
    ensures n <= CeilDiv(n, w) * w
    ensures n > 0 ==> (CeilDiv(n, w) - 1) * w < n
    decreases n
  {
    if n > w {
      CeilDivBounds(n - w, w);
      var c := CeilDiv(n - w, w);
      assert CeilDiv(n, w) * w == c * w + w;
      assert (CeilDiv(n, w) - 1) * w == c * w;
      assert (c - 1) * w == c * w - w;
    }
  }

  /** `s.map(f)`. */
  function Map<A, B>(f: A -> B, s: seq<A>): seq<B>
  {
    seq(|s|, k requires 0 <= k < |s| => f(s[k]))
  }

  lemma MapAppend<A, B>(f: A -> B, a: seq<A>, b: seq<A>)
    ensures Map(f, a + b) == Map(f, a) + Map(f, b)
  {
    var r, t := Map(f, a + b), Map(f, a) + Map(f, b);
    forall k | 0 <= k < |r| ensures r[k] == t[k] {
      if k < |a| {
        assert (a + b)[k] == a[k];
      } else {
        assert (a + b)[k] == b[k - |a|];
      }
    }
  }

  /** Concatenation of a list of lists, in order. */
  function Flatten<T>(xs: seq<seq<T>>): seq<T>
  {
    if xs == [] then [] else xs[0] + Flatten(xs[1..])
  }

  lemma {:induction false} FlattenAppend<T>(xs: seq<seq<T>>, ys: seq<seq<T>>)
    ensures Flatten(xs + ys) == Flatten(xs) + Flatten(ys)
    decreases |xs|
  {
    if xs == [] {
      assert xs + ys == ys;
    } else {
      assert (xs + ys)[1..] == xs[1..] + ys;
      FlattenAppend(xs[1..], ys);
    }
  }

  /**
   The slices visited by a loop that starts at offset i and steps by w,
   taking `s.slice(i, i + w)` each time (JavaScript's slice clamps the end).
   */
  function Strides<T>(s: seq<T>, i: nat, w: nat): seq<seq<T>>
    requires w > 0
    decreases |s| - i
  {
    if i >= |s| then [] else [s[i..Min(i + w, |s|)]] + Strides(s, i + w, w)
  }

  /**
   Every piece holds between 1 and w items, and every piece but the last
   holds exactly w.
   */
  ghost predicate Sized<T>(xs: seq<seq<T>>, w: nat)
  {
    && (forall k :: 0 <= k < |xs| ==> 1 <= |xs[k]| <= w)
    && (forall k :: 0 <= k < |xs| - 1 ==> |xs[k]| == w)
  }

  /** The strides, put back together, are the part of s from offset i on. */
  lemma {:induction false} StridesFlatten<T>(s: seq<T>, i: nat, w: nat)
    requires w > 0
    ensures Flatten(Strides(s, i, w)) == if i < |s| then s[i..] else []
    decreases |s| - i
  {
    if i < |s| {
      var e := Min(i + w, |s|);
      StridesFlatten(s, i + w, w);
      var rest := Strides(s, i + w, w);
      assert Strides(s, i, w) == [s[i..e]] + rest;
      assert ([s[i..e]] + rest)[1..] == rest;
      assert Flatten(rest) == s[e..];
      assert s[i..] == s[i..e] + s[e..];
    }
  }

  lemma {:induction false} StridesSized<T>(s: seq<T>, i: nat, w: nat)
    requires w > 0
    ensures Sized(Strides(s, i, w), w)
    decreases |s| - i
  {
    if i < |s| {
      StridesSized(s, i + w, w);
      var rest := Strides(s, i + w, w);
      var st := Strides(s, i, w);
      assert st == [s[i..Min(i + w, |s|)]] + rest;
      if rest != [] {
        assert i + w < |s|;
      }
      forall k | 0 <= k < |st| ensures 1 <= |st[k]| <= w {
        if k > 0 { assert st[k] == rest[k - 1]; }
      }
      forall k | 0 <= k < |st| - 1 ensures |st[k]| == w {
        if k > 0 { assert st[k] == rest[k - 1]; }
      }
    }
  }

  /** The j-th stride starts at offset i + j*w. */
  lemma {:induction false} StridesAt<T>(s: seq<T>, i: nat, w: nat, j: nat)
    requires w > 0 && j < |Strides(s, i, w)|
    ensures i + j * w < |s|
    ensures Strides(s, i, w)[j] == s[i + j * w..Min(i + j * w + w, |s|)]
    decreases j
  {
    if j > 0 {
      StridesAt(s, i + w, w, j - 1);
      assert i + w + (j - 1) * w == i + j * w;
    }
  }

  /** A Sized list of pieces has exactly ceil(total / w) pieces. */
  lemma {:induction false} SizedCount<T>(xs: seq<seq<T>>, w: nat)
    requires w > 0 && Sized(xs, w)
    ensures |xs| == CeilDiv(|Flatten(xs)|, w)
    decreases |xs|
  {
    if xs != [] {
      var rest := xs[1..];
      assert Sized(rest, w) by {
        forall k | 0 <= k < |rest| ensures 1 <= |rest[k]| <= w { assert rest[k] == xs[k + 1]; }
        forall k | 0 <= k < |rest| - 1 ensures |rest[k]| == w { assert rest[k] == xs[k + 1]; }
      }
      SizedCount(rest, w);
      if rest != [] {
        assert |xs[0]| == w;
        assert |rest[0]| >= 1;
        assert |Flatten(rest)| >= |rest[0]|;
      }
    }
  }

  /** Walking s from 0 in steps of w visits ceil(|s| / w) slices. */
  lemma StridesCount<T>(s: seq<T>, w: nat)
    requires w > 0
    ensures |Strides(s, 0, w)| == CeilDiv(|s|, w)
  {
    StridesFlatten(s, 0, w);
    StridesSized(s, 0, w);
    SizedCount(Strides(s, 0, w), w);
  }
}
