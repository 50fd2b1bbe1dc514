/**
 The chunker `textToChunks` (index.js:117-137). Each page is split on
 single spaces and walked in strides of `wordLength` tokens. A short
 trailing stride on any page but the last is not emitted: it is put in
 front of the next page's tokens. Every other stride is joined with
 spaces, trimmed, and emitted as `[<page>] "<text>"`, where the page number
 is the page's position plus `startPage`.
 */
module Chunker {
  import opened Seqs
  import opened JsText

  /** A stride the chunker emits: the position of the page it came from, and its tokens. */
  datatype Slice = Slice(page: nat, words: seq<string>)

  /** `texts.map((t) => t.split(" "))`. */
  function Tokenize(texts: seq<string>): (r: seq<seq<string>>)
    ensures |r| == |texts|
  {
    seq(|texts|, j requires 0 <= j < |texts| => Split(texts[j]))
  }

  function Tagged(page: nat, strides: seq<seq<string>>): seq<Slice>
  {
    seq(|strides|, k requires 0 <= k < |strides| => Slice(page, strides[k]))
  }

  function Words(slices: seq<Slice>): seq<seq<string>>
  {
    seq(|slices|, k requires 0 <= k < |slices| => slices[k].words)
  }

  /**
   What one page contributes: its strides are emitted, except that on a
   page that is not the last a short final stride is held back as the
   carry for the next page.
   */
  function PageSplit(words: seq<string>, w: nat, isLast: bool): (seq<seq<string>>, seq<string>)
    requires w > 0
  {
    var s := Strides(words, 0, w);
    if !isLast && |s| > 0 && |s[|s| - 1]| < w then (s[..|s| - 1], s[|s| - 1]) else (s, [])
  }

  /**
   The slices emitted from page idx on, given the token lists as they
   stand when the outer loop reaches page idx.
   */
  function SlicesFrom(toks: seq<seq<string>>, idx: nat, w: nat): seq<Slice>
    requires w > 0
    decreases |toks| - idx
  {
    if idx >= |toks| then []
    else
      var split := PageSplit(toks[idx], w, idx + 1 == |toks|);
      Tagged(idx, split.0) + SlicesFrom(Carried(toks, idx, split.1), idx + 1, w)
  }

  /** `textToks[idx + 1] = carry.concat(textToks[idx + 1])`, when there is a next page. */
  function Carried(toks: seq<seq<string>>, idx: nat, carry: seq<string>): (r: seq<seq<string>>)
    ensures |r| == |toks|
  {
    if idx + 1 < |toks| then toks[idx + 1 := carry + toks[idx + 1]] else toks
  }

  /** The slices `textToChunks(texts, w)` emits, before joining and trimming. */
  function Chunks(texts: seq<string>, w: nat): seq<Slice>
    requires w > 0
  {
    SlicesFrom(Tokenize(texts), 0, w)
  }

  /** The template literal `[${page}] "${text}"`. */
  function Render(page: int, text: string): string
  {
    "[" + IntToString(page) + "] \"" + text + "\""
  }

  function RenderSlice(s: Slice, startPage: int): string
  {
    Render(s.page + startPage, Trim(Join(s.words)))
  }

  function Renderer(startPage: int): Slice -> string
  {
    s => RenderSlice(s, startPage)
  }

  /** `chunks`, as the rendered slices in order. */
  function RenderAll(slices: seq<Slice>, startPage: int): seq<string>
  {
    Map(Renderer(startPage), slices)
  }

  lemma RenderAllAppend(a: seq<Slice>, b: seq<Slice>, startPage: int)
    ensures RenderAll(a + b, startPage) == RenderAll(a, startPage) + RenderAll(b, startPage)
  {
    MapAppend(Renderer(startPage), a, b);
  }

  lemma TaggedSnoc(page: nat, strides: seq<seq<string>>, chunk: seq<string>)
    ensures Tagged(page, strides + [chunk]) == Tagged(page, strides) + [Slice(page, chunk)]
  {
    var r, t := Tagged(page, strides + [chunk]), Tagged(page, strides) + [Slice(page, chunk)];
    assert |r| == |t|;
    forall k | 0 <= k < |r| ensures r[k] == t[k] {
      if k < |strides| {
        assert (strides + [chunk])[k] == strides[k];
      }
    }
  }

  lemma RenderTaggedSnoc(page: nat, strides: seq<seq<string>>, chunk: seq<string>, startPage: int)
    ensures RenderAll(Tagged(page, strides + [chunk]), startPage)
      == RenderAll(Tagged(page, strides), startPage) + [RenderSlice(Slice(page, chunk), startPage)]
  {
    var last := Slice(page, chunk);
    TaggedSnoc(page, strides, chunk);
    RenderAllAppend(Tagged(page, strides), [last], startPage);
    assert RenderAll([last], startPage) == [RenderSlice(last, startPage)];
  }

  /**
   `textToChunks`. The token lists live in a fresh array that the loop
   rewrites in place; the caller's `texts` is only read.
   */
  method TextToChunks(texts: array<string>, wordLength: nat := 150, startPage: int := 1)
    returns (chunks: seq<string>)
    requires wordLength > 0
    ensures chunks == RenderAll(Chunks(texts[..], wordLength), startPage)
    ensures |chunks| == CeilDiv(|Flatten(Tokenize(texts[..]))|, wordLength)
  {
    var pages := texts[..];
    var textToks := new seq<string>[texts.Length](j requires 0 <= j < |pages| => Split(pages[j]));
    ghost var toks0 := textToks[..];
    assert toks0 == Tokenize(pages);
    chunks := [];
    ghost var done: seq<Slice> := [];
    var idx := 0;
    while idx < textToks.Length
      invariant 0 <= idx <= textToks.Length == |toks0|
      invariant SlicesFrom(toks0, 0, wordLength) == done + SlicesFrom(textToks[..], idx, wordLength)
      invariant chunks == RenderAll(done, startPage)
    {
      ghost var toks := textToks[..];
      ghost var split := PageSplit(toks[idx], wordLength, idx + 1 == |toks|);
      ghost var page := Tagged(idx, split.0);
      var pageChunks := ChunkPage(textToks, idx, wordLength, startPage);
      SlicesFromStep(toks, idx, wordLength);
      assert done + (page + SlicesFrom(textToks[..], idx + 1, wordLength))
        == (done + page) + SlicesFrom(textToks[..], idx + 1, wordLength);
      RenderAllAppend(done, page, startPage);
      chunks := chunks + pageChunks;
      done := done + page;
      idx := idx + 1;
    }
    assert done + [] == done;
    ChunkCount(pages, wordLength);
  }

  /**
   The inner loop of `textToChunks` for page idx: walk its tokens in
   strides, emit the full ones (and, on the last page, the short one), and
   put a short final stride in front of the next page's tokens.
   */
  method ChunkPage(textToks: array<seq<string>>, idx: nat, wordLength: nat, startPage: int)
    returns (pageChunks: seq<string>)
    requires wordLength > 0 && idx < textToks.Length
    modifies textToks
    ensures var split := PageSplit(old(textToks[idx]), wordLength, idx + 1 == textToks.Length);
      && pageChunks == RenderAll(Tagged(idx, split.0), startPage)
      && textToks[..] == Carried(old(textToks[..]), idx, split.1)
  {
    var w := wordLength;
    var words := textToks[idx];
    var isLast := textToks.Length == idx + 1;
    ghost var toks := textToks[..];
    ghost var visited: seq<seq<string>> := [];
    ghost var emitted: seq<seq<string>> := [];
    ghost var carry: seq<string> := [];
    pageChunks := [];
    var i := 0;
    while i < |words|
      invariant Walked(words, w, isLast, i, visited, emitted, carry)
      invariant forall j :: 0 <= j < textToks.Length && j != idx + 1 ==> textToks[j] == toks[j]
      invariant idx + 1 < textToks.Length ==> textToks[idx + 1] == carry + toks[idx + 1]
      invariant pageChunks == RenderAll(Tagged(idx, emitted), startPage)
      decreases |words| - i
    {
      var chunk := words[i..Min(i + w, |words|)];
      if i + w > |words| && |chunk| < w && textToks.Length != idx + 1 {
        WalkCarry(words, w, isLast, i, visited, emitted, carry);
        textToks[idx + 1] := chunk + textToks[idx + 1];
        carry := chunk;
      } else {
        WalkEmit(words, w, isLast, i, visited, emitted, carry);
        pageChunks := pageChunks + [RenderSlice(Slice(idx, chunk), startPage)];
        RenderTaggedSnoc(idx, emitted, chunk, startPage);
        emitted := emitted + [chunk];
      }
      visited := visited + [chunk];
      i := i + w;
    }
    WalkDone(words, w, isLast, i, visited, emitted, carry);
    assert textToks[..] == Carried(toks, idx, carry);
  }

  /**
   The inner loop's progress at offset i: the strides visited so far and
   the ones still ahead make up the page's strides; the visited ones were
   all emitted, or all but a short final one that was carried; and on a
   page that is not the last the latest emitted stride is full.
   */
  ghost predicate Walked(words: seq<string>, w: nat, isLast: bool, i: nat,
                         visited: seq<seq<string>>, emitted: seq<seq<string>>, carry: seq<string>)
    requires w > 0
  {
    && Strides(words, 0, w) == visited + Strides(words, i, w)
    && (carry == [] ==> visited == emitted)
    && (carry != [] ==> visited == emitted + [carry] && |carry| < w && i >= |words| && !isLast)
    && (carry == [] && !isLast && emitted != [] ==> |emitted[|emitted| - 1]| == w)
  }

  /** The stride at i, the piece of the page the inner loop looks at next. */
  lemma StrideAt(words: seq<string>, w: nat, i: nat, visited: seq<seq<string>>)
    requires w > 0 && i < |words|
    ensures var chunk := words[i..Min(i + w, |words|)];
      visited + Strides(words, i, w) == (visited + [chunk]) + Strides(words, i + w, w)
  {
    var chunk, later := words[i..Min(i + w, |words|)], Strides(words, i + w, w);
    assert Strides(words, i, w) == [chunk] + later;
    assert visited + ([chunk] + later) == (visited + [chunk]) + later;
  }

  /** A short final stride on a page that is not the last is carried: Walked still holds. */
  lemma WalkCarry(words: seq<string>, w: nat, isLast: bool, i: nat,
                  visited: seq<seq<string>>, emitted: seq<seq<string>>, carry: seq<string>)
    requires w > 0 && i < |words| && Walked(words, w, isLast, i, visited, emitted, carry)
    requires i + w > |words| && |words| - i < w && !isLast
    ensures Walked(words, w, isLast, i + w, visited + [words[i..]], emitted, words[i..])
  {
    StrideAt(words, w, i, visited);
    assert words[i..Min(i + w, |words|)] == words[i..];
  }

  /** Any other stride is emitted: Walked still holds. */
  lemma WalkEmit(words: seq<string>, w: nat, isLast: bool, i: nat,
                 visited: seq<seq<string>>, emitted: seq<seq<string>>, carry: seq<string>)
    requires w > 0 && i < |words| && Walked(words, w, isLast, i, visited, emitted, carry)
    requires !(i + w > |words| && |words| - i < w && !isLast)
    ensures var chunk := words[i..Min(i + w, |words|)];
      Walked(words, w, isLast, i + w, visited + [chunk], emitted + [chunk], carry)
  {
    StrideAt(words, w, i, visited);
  }

  /** Once the walk has passed the end, what it emitted and carried is the page's split. */
  lemma WalkDone(words: seq<string>, w: nat, isLast: bool, i: nat,
                 visited: seq<seq<string>>, emitted: seq<seq<string>>, carry: seq<string>)
    requires w > 0 && i >= |words| && Walked(words, w, isLast, i, visited, emitted, carry)
    ensures PageSplit(words, w, isLast) == (emitted, carry)
  {
    assert Strides(words, i, w) == [];
    assert visited + [] == visited;
    WalkIsPageSplit(words, w, isLast, emitted, carry);
  }

  /** What the inner loop has emitted and carried, once it ends, is the page's split. */
  lemma WalkIsPageSplit(words: seq<string>, w: nat, isLast: bool, emitted: seq<seq<string>>, carry: seq<string>)
    requires w > 0
    requires carry == [] ==> Strides(words, 0, w) == emitted
    requires carry != [] ==> Strides(words, 0, w) == emitted + [carry] && |carry| < w && !isLast
    requires carry == [] && !isLast && emitted != [] ==> |emitted[|emitted| - 1]| == w
    ensures PageSplit(words, w, isLast) == (emitted, carry)
  {
    var s := Strides(words, 0, w);
    if carry != [] {
      assert s[..|s| - 1] == emitted;
    }
  }

  /** Facts about one page's split. */
  lemma PageSplitFacts(words: seq<string>, w: nat, isLast: bool)
    requires w > 0
    ensures var (emitted, carry) := PageSplit(words, w, isLast);
      && Flatten(emitted) + carry == words
      && Sized(emitted, w)
      && |carry| < w
      && (isLast ==> carry == [])
      && (!isLast ==> forall k :: 0 <= k < |emitted| ==> |emitted[k]| == w)
  {
    var s := Strides(words, 0, w);
    StridesFlatten(words, 0, w);
    StridesSized(words, 0, w);
    assert Flatten(s) == words;
    if |s| > 0 {
      var n := |s| - 1;
      assert s == s[..n] + [s[n]];
      FlattenAppend(s[..n], [s[n]]);
      assert Flatten([s[n]]) == s[n];
    }
  }

  lemma WordsAppend(a: seq<Slice>, b: seq<Slice>)
    ensures Words(a + b) == Words(a) + Words(b)
  {
    var r, t := Words(a + b), Words(a) + Words(b);
    forall k | 0 <= k < |r| ensures r[k] == t[k] {
      if k < |a| {
        assert (a + b)[k] == a[k];
      } else {
        assert (a + b)[k] == b[k - |a|];
      }
    }
  }

  lemma WordsTagged(page: nat, strides: seq<seq<string>>)
    ensures Words(Tagged(page, strides)) == strides
  {
    assert Words(Tagged(page, strides)) == strides;
  }

  lemma FlattenCons<T>(xs: seq<seq<T>>, i: nat)
    requires i < |xs|
    ensures Flatten(xs[i..]) == xs[i] + Flatten(xs[i + 1..])
  {
    assert xs[i..][1..] == xs[i + 1..];
  }

  /** One step of SlicesFrom: page idx's emitted strides, then the rest from the carried-into lists. */
  lemma SlicesFromStep(toks: seq<seq<string>>, idx: nat, w: nat)
    requires w > 0 && idx < |toks|
    ensures var split := PageSplit(toks[idx], w, idx + 1 == |toks|);
      SlicesFrom(toks, idx, w) == Tagged(idx, split.0) + SlicesFrom(Carried(toks, idx, split.1), idx + 1, w)
  {
  }

  /**
   Word conservation: the emitted slices, put back together in order, are
   all pages' tokens put together in page order. A held-back stride is
   moved onto the next page, never dropped.
   */
  lemma {:induction false} SlicesConserveWords(toks: seq<seq<string>>, idx: nat, w: nat)
    requires w > 0 && idx <= |toks|
    ensures Flatten(Words(SlicesFrom(toks, idx, w))) == Flatten(toks[idx..])
    decreases |toks| - idx
  {
    if idx < |toks| {
      var isLast := idx + 1 == |toks|;
      var split := PageSplit(toks[idx], w, isLast);
      var emitted, carry := split.0, split.1;
      var next := Carried(toks, idx, carry);
      var rest := SlicesFrom(next, idx + 1, w);
      SlicesFromStep(toks, idx, w);
      PageSplitFacts(toks[idx], w, isLast);
      SlicesConserveWords(next, idx + 1, w);
      ConserveStep(toks, idx, emitted, carry, rest);
    }
  }

  lemma ConserveStep(toks: seq<seq<string>>, idx: nat, emitted: seq<seq<string>>, carry: seq<string>, rest: seq<Slice>)
    requires idx < |toks|
    requires Flatten(emitted) + carry == toks[idx]
    requires idx + 1 == |toks| ==> carry == []
    requires Flatten(Words(rest)) == Flatten(Carried(toks, idx, carry)[idx + 1..])
    ensures Flatten(Words(Tagged(idx, emitted) + rest)) == Flatten(toks[idx..])
  {
    FlattenTagged(idx, emitted, rest);
    FlattenCons(toks, idx);
    CarriedFlatten(toks, idx, carry);
    var e, tail := Flatten(emitted), Flatten(toks[idx + 1..]);
    if idx + 1 == |toks| {
      assert toks[idx + 1..] == [] && e + [] == e;
    } else {
      assert e + (carry + tail) == (e + carry) + tail;
    }
  }

  lemma FlattenTagged(page: nat, strides: seq<seq<string>>, rest: seq<Slice>)
    ensures Flatten(Words(Tagged(page, strides) + rest)) == Flatten(strides) + Flatten(Words(rest))
  {
    WordsAppend(Tagged(page, strides), rest);
    WordsTagged(page, strides);
    FlattenAppend(strides, Words(rest));
  }

  /** After the carry is put in front of the next page, the remaining tokens are the carry and then the rest. */
  lemma CarriedFlatten(toks: seq<seq<string>>, idx: nat, carry: seq<string>)
    requires idx < |toks|
    ensures Flatten(Carried(toks, idx, carry)[idx + 1..])
      == if idx + 1 < |toks| then carry + Flatten(toks[idx + 1..]) else []
  {
    var next := Carried(toks, idx, carry);
    if idx + 1 < |toks| {
      FlattenCons(next, idx + 1);
      FlattenCons(toks, idx + 1);
      assert next[idx + 2..] == toks[idx + 2..];
    } else {
      assert next[idx + 1..] == [];
    }
  }

  /** Every slice tagged with a page before the last one holds exactly w tokens. */
  ghost predicate FullBeforeLastPage(s: seq<Slice>, pages: nat, w: nat)
  {
    forall k :: 0 <= k < |s| && s[k].page + 1 < pages ==> |s[k].words| == w
  }

  lemma TaggedAt(page: nat, strides: seq<seq<string>>, rest: seq<Slice>, k: nat)
    requires k < |strides| + |rest|
    ensures (Tagged(page, strides) + rest)[k] == if k < |strides| then Slice(page, strides[k]) else rest[k - |strides|]
  {
  }

  lemma SizedCons(idx: nat, pages: nat, w: nat, emitted: seq<seq<string>>, rest: seq<Slice>)
    requires w > 0 && idx < pages
    requires Sized(emitted, w) && Sized(Words(rest), w) && FullBeforeLastPage(rest, pages, w)
    requires idx + 1 == pages ==> rest == []
    requires idx + 1 < pages ==> forall k :: 0 <= k < |emitted| ==> |emitted[k]| == w
    ensures Sized(Words(Tagged(idx, emitted) + rest), w)
    ensures FullBeforeLastPage(Tagged(idx, emitted) + rest, pages, w)
  {
    var all := Tagged(idx, emitted) + rest;
    WordsAppend(Tagged(idx, emitted), rest);
    WordsTagged(idx, emitted);
    var ws := Words(all);
    assert ws == emitted + Words(rest);
    if idx + 1 == pages {
      assert ws == emitted;
    } else {
      forall k | 0 <= k < |ws| ensures 1 <= |ws[k]| <= w {
        if k >= |emitted| { assert ws[k] == Words(rest)[k - |emitted|]; }
      }
      forall k | 0 <= k < |ws| - 1 ensures |ws[k]| == w {
        if k >= |emitted| { assert ws[k] == Words(rest)[k - |emitted|]; }
      }
    }
    forall k | 0 <= k < |all| && all[k].page + 1 < pages ensures |all[k].words| == w {
      TaggedAt(idx, emitted, rest, k);
    }
  }

  /**
   Chunk sizes: every slice holds between 1 and w tokens; every slice but
   the last overall holds exactly w; and a slice from a page that is not
   the last always holds exactly w.
   */
  lemma {:induction false} SlicesSized(toks: seq<seq<string>>, idx: nat, w: nat)
    requires w > 0
    ensures Sized(Words(SlicesFrom(toks, idx, w)), w)
    ensures FullBeforeLastPage(SlicesFrom(toks, idx, w), |toks|, w)
    decreases |toks| - idx
  {
    if idx < |toks| {
      var isLast := idx + 1 == |toks|;
      var split := PageSplit(toks[idx], w, isLast);
      var next := Carried(toks, idx, split.1);
      SlicesFromStep(toks, idx, w);
      PageSplitFacts(toks[idx], w, isLast);
      SlicesSized(next, idx + 1, w);
      SizedCons(idx, |toks|, w, split.0, SlicesFrom(next, idx + 1, w));
    }
  }

  /** Every slice's page tag lies in [lo, hi). */
  ghost predicate PagesWithin(s: seq<Slice>, lo: nat, hi: nat)
  {
    forall k :: 0 <= k < |s| ==> lo <= s[k].page < hi
  }

  /** The page tags never decrease along s. */
  ghost predicate PagesOrdered(s: seq<Slice>)
  {
    forall k, l :: 0 <= k < l < |s| ==> s[k].page <= s[l].page
  }

  lemma OrderedCons(idx: nat, pages: nat, emitted: seq<seq<string>>, rest: seq<Slice>)
    requires idx < pages && PagesWithin(rest, idx + 1, pages) && PagesOrdered(rest)
    ensures PagesWithin(Tagged(idx, emitted) + rest, idx, pages)
    ensures PagesOrdered(Tagged(idx, emitted) + rest)
  {
    var all := Tagged(idx, emitted) + rest;
    forall k | 0 <= k < |all| ensures idx <= all[k].page < pages {
      TaggedAt(idx, emitted, rest, k);
    }
    forall k, l | 0 <= k < l < |all| ensures all[k].page <= all[l].page {
      TaggedAt(idx, emitted, rest, k);
      TaggedAt(idx, emitted, rest, l);
    }
  }

  /**
   Page tags: every slice is tagged with a page position in [idx, |toks|),
   and the tags never decrease along the output.
   */
  lemma {:induction false} SlicePagesOrdered(toks: seq<seq<string>>, idx: nat, w: nat)
    requires w > 0
    ensures PagesWithin(SlicesFrom(toks, idx, w), idx, |toks|)
    ensures PagesOrdered(SlicesFrom(toks, idx, w))
    decreases |toks| - idx
  {
    if idx < |toks| {
      var split := PageSplit(toks[idx], w, idx + 1 == |toks|);
      var next := Carried(toks, idx, split.1);
      SlicesFromStep(toks, idx, w);
      SlicePagesOrdered(next, idx + 1, w);
      OrderedCons(idx, |toks|, split.0, SlicesFrom(next, idx + 1, w));
    }
  }

  /** The number of chunks is ceil(N / w), N being the total number of tokens. */
  lemma ChunkCount(texts: seq<string>, w: nat)
    requires w > 0
    ensures |Chunks(texts, w)| == CeilDiv(|Flatten(Tokenize(texts))|, w)
  {
    var toks := Tokenize(texts);
    SlicesConserveWords(toks, 0, w);
    SlicesSized(toks, 0, w);
    assert toks[0..] == toks;
    SizedCount(Words(SlicesFrom(toks, 0, w)), w);
  }

  /**
   The chunker's promises for a whole document: the chunks hold all the
   tokens in order, only the last chunk may be short, no short chunk comes
   from a page that is not the last, and the page tags are page positions
   that never decrease. Chunk k is rendered from slice k.
   */
  lemma ChunksFacts(texts: seq<string>, w: nat, startPage: int)
    requires w > 0
    ensures var c := Chunks(texts, w);
      && Flatten(Words(c)) == Flatten(Tokenize(texts))
      && Sized(Words(c), w)
      && FullBeforeLastPage(c, |texts|, w)
      && PagesWithin(c, 0, |texts|)
      && PagesOrdered(c)
      && |RenderAll(c, startPage)| == |c|
      && forall k :: 0 <= k < |c| ==> RenderAll(c, startPage)[k] == Render(c[k].page + startPage, Trim(Join(c[k].words)))
  {
    var toks := Tokenize(texts);
    SlicesConserveWords(toks, 0, w);
    assert toks[0..] == toks;
    SlicesSized(toks, 0, w);
    SlicePagesOrdered(toks, 0, w);
    var c := Chunks(texts, w);
  }
}
