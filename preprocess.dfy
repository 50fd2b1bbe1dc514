/**
 The page-text normaliser `preprocess` (index.js:93-97): every line feed
 becomes a space, then every maximal run of whitespace becomes one space.
 */
module Preprocess {
  import opened JsText

  /** `text.replace(/\n/g, " ")`. */
  function ReplaceNewlines(s: string): (r: string)
    ensures |r| == |s| && forall k :: 0 <= k < |r| ==> r[k] != '\n'
  {
    seq(|s|, k requires 0 <= k < |s| => if s[k] == '\n' then ' ' else s[k])
  }

  /**
   `text.replace(/\s+/g, " ")`: the regular expression is greedy and the
   scan runs left to right, so each maximal whitespace run is one match.
   */
  function CollapseWhitespace(s: string): string
    decreases |s|
  {
    if s == [] then []
    else if IsWhitespace(s[0]) then " " + CollapseWhitespace(TrimStart(s[1..]))
    else [s[0]] + CollapseWhitespace(s[1..])
  }

  function Preprocess(text: string): string
  {
    CollapseWhitespace(ReplaceNewlines(text))
  }

  /** The characters of s that are not whitespace, in order. */
  function NonWhitespace(s: string): string
    decreases |s|
  {
    if s == [] then [] else (if IsWhitespace(s[0]) then [] else [s[0]]) + NonWhitespace(s[1..])
  }

  /** A normal string: its only whitespace is ' ', and no two whitespace characters are adjacent. */
  ghost predicate Normal(s: string)
  {
    && (forall k :: 0 <= k < |s| && IsWhitespace(s[k]) ==> s[k] == ' ')
    && (forall k :: 0 <= k < |s| - 1 ==> !(IsWhitespace(s[k]) && IsWhitespace(s[k + 1])))
  }

  lemma {:induction false} NonWhitespaceAppend(a: string, b: string)
    ensures NonWhitespace(a + b) == NonWhitespace(a) + NonWhitespace(b)
    decreases |a|
  {
    if a == [] {
      assert a + b == b;
    } else {
      assert (a + b)[0] == a[0] && (a + b)[1..] == a[1..] + b;
      NonWhitespaceAppend(a[1..], b);
    }
  }

  lemma {:induction false} NonWhitespaceTrimStart(s: string)
    ensures NonWhitespace(TrimStart(s)) == NonWhitespace(s)
    decreases |s|
  {
    if s != [] && IsWhitespace(s[0]) {
      NonWhitespaceTrimStart(s[1..]);
    }
  }

  /** Collapsing keeps every non-whitespace character, in order. */
  lemma {:induction false} CollapseKeepsText(s: string)
    ensures NonWhitespace(CollapseWhitespace(s)) == NonWhitespace(s)
    decreases |s|
  {
    if s != [] {
      if IsWhitespace(s[0]) {
        var t := TrimStart(s[1..]);
        CollapseKeepsText(t);
        NonWhitespaceAppend(" ", CollapseWhitespace(t));
        NonWhitespaceTrimStart(s[1..]);
      } else {
        CollapseKeepsText(s[1..]);
        NonWhitespaceAppend([s[0]], CollapseWhitespace(s[1..]));
      }
    }
  }

  /** The first character of a collapse is the first character of the input, or ' '. */
  lemma CollapseHead(s: string)
    requires s != []
    ensures CollapseWhitespace(s) != []
    ensures CollapseWhitespace(s)[0] == if IsWhitespace(s[0]) then ' ' else s[0]
  {
  }

  /** Putting a character in front of a normal string keeps it normal, unless it adds whitespace next to whitespace. */
  lemma NormalCons(x: char, c: string)
    requires Normal(c)
    requires IsWhitespace(x) ==> x == ' ' && (c == [] || !IsWhitespace(c[0]))
    ensures Normal([x] + c)
  {
    var r := [x] + c;
    forall k | 0 <= k < |r| && IsWhitespace(r[k]) ensures r[k] == ' ' {
      if k > 0 { assert r[k] == c[k - 1]; }
    }
    forall k | 0 <= k < |r| - 1 ensures !(IsWhitespace(r[k]) && IsWhitespace(r[k + 1])) {
      if k > 0 { assert r[k] == c[k - 1] && r[k + 1] == c[k]; }
    }
  }

  /** Collapsing yields a normal string. */
  lemma {:induction false} CollapseNormal(s: string)
    ensures Normal(CollapseWhitespace(s))
    decreases |s|
  {
    if s != [] {
      if IsWhitespace(s[0]) {
        var t := TrimStart(s[1..]);
        var c := CollapseWhitespace(t);
        CollapseNormal(t);
        if c != [] {
          CollapseHead(t);
        }
        NormalCons(' ', c);
      } else {
        CollapseNormal(s[1..]);
        NormalCons(s[0], CollapseWhitespace(s[1..]));
      }
    }
  }

  /** A normal string is left as it is. */
  lemma {:induction false} CollapseNormalFixed(s: string)
    requires Normal(s)
    ensures CollapseWhitespace(s) == s
    decreases |s|
  {
    if s != [] {
      var t := s[1..];
      assert Normal(t) by {
        forall k | 0 <= k < |t| && IsWhitespace(t[k]) ensures t[k] == ' ' { assert t[k] == s[k + 1]; }
        forall k | 0 <= k < |t| - 1 ensures !(IsWhitespace(t[k]) && IsWhitespace(t[k + 1])) {
          assert t[k] == s[k + 1] && t[k + 1] == s[k + 2];
        }
      }
      CollapseNormalFixed(t);
      if IsWhitespace(s[0]) {
        assert t == [] || !IsWhitespace(t[0]);
        assert TrimStart(t) == t;
        assert s == " " + t;
      } else {
        assert s == [s[0]] + t;
      }
    }
  }

  lemma ReplaceNewlinesFixed(s: string)
    requires '\n' !in s
    ensures ReplaceNewlines(s) == s
  {
  }

  /** The output of `preprocess` holds no line feed and no two adjacent whitespace characters. */
  lemma PreprocessNormal(text: string)
    ensures '\n' !in Preprocess(text)
    ensures forall k :: 0 <= k < |Preprocess(text)| - 1 ==>
      !(IsWhitespace(Preprocess(text)[k]) && IsWhitespace(Preprocess(text)[k + 1]))
  {
    CollapseNormal(ReplaceNewlines(text));
  }

  /** `preprocess` keeps the non-whitespace characters of its input, in order. */
  lemma {:induction false} PreprocessKeepsText(text: string)
    ensures NonWhitespace(Preprocess(text)) == NonWhitespace(text)
  {
    CollapseKeepsText(ReplaceNewlines(text));
    ReplaceNewlinesKeepsText(text);
  }

  lemma {:induction false} ReplaceNewlinesKeepsText(s: string)
    ensures NonWhitespace(ReplaceNewlines(s)) == NonWhitespace(s)
    decreases |s|
  {
    if s != [] {
      ReplaceNewlinesKeepsText(s[1..]);
      assert ReplaceNewlines(s)[1..] == ReplaceNewlines(s[1..]);
    }
  }

  /** `preprocess` is idempotent. */
  lemma PreprocessIdempotent(text: string)
    ensures Preprocess(Preprocess(text)) == Preprocess(text)
  {
    var r := Preprocess(text);
    PreprocessNormal(text);
    ReplaceNewlinesFixed(r);
    CollapseNormal(ReplaceNewlines(text));
    CollapseNormalFixed(r);
  }

  /**
   The line-feed pass is subsumed by the whitespace pass: collapsing alone
   gives the same result, since a line feed is already whitespace.
   */
  lemma {:induction false} NewlinePassRedundant(s: string)
    ensures Preprocess(s) == CollapseWhitespace(s)
    decreases |s|
  {
    if s != [] {
      var n := ReplaceNewlines(s);
      assert n[1..] == ReplaceNewlines(s[1..]);
      assert IsWhitespace(n[0]) == IsWhitespace(s[0]);
      if IsWhitespace(s[0]) {
        TrimStartReplace(s[1..]);
        var t := TrimStart(s[1..]);
        NewlinePassRedundant(t);
      } else {
        assert n[0] == s[0];
        NewlinePassRedundant(s[1..]);
      }
    }
  }

  lemma {:induction false} TrimStartReplace(s: string)
    ensures TrimStart(ReplaceNewlines(s)) == ReplaceNewlines(TrimStart(s))
    decreases |s|
  {
    if s != [] {
      var n := ReplaceNewlines(s);
      assert n[1..] == ReplaceNewlines(s[1..]);
      assert n[0] == if s[0] == '\n' then ' ' else s[0];
      if IsWhitespace(s[0]) {
        assert IsWhitespace(n[0]);
        assert TrimStart(n) == TrimStart(n[1..]);
        assert TrimStart(s) == TrimStart(s[1..]);
        TrimStartReplace(s[1..]);
      } else {
        assert TrimStart(n) == n;
        assert TrimStart(s) == s;
      }
    }
  }
}
