/**
 The worked example of `textToChunks`: two pages, "the quick brown fox
 jumps" and "over the lazy dog", with wordLength 3 and startPage 1. The
 first page's short final stride "fox jumps" is carried onto the second
 page, so the second page gives two full chunks.
 */
module ChunkerExample {
  import opened Chunker
  import opened JsText
  import opened Seqs

  lemma JoinFour(b: string, c: string, d: string, e: string)
    ensures Join([b, c, d, e]) == b + " " + c + " " + d + " " + e
  {
    assert [d, e][1..] == [e];
    assert Join([d, e]) == d + " " + e;
    assert [c, d, e][1..] == [d, e];
    assert Join([c, d, e]) == c + " " + (d + " " + e);
    assert [b, c, d, e][1..] == [c, d, e];
    assert Join([b, c, d, e]) == b + " " + (c + " " + (d + " " + e));
  }

  lemma JoinFive(a: string, b: string, c: string, d: string, e: string)
    ensures Join([a, b, c, d, e]) == a + " " + b + " " + c + " " + d + " " + e
  {
    assert [a, b, c, d, e][1..] == [b, c, d, e];
    JoinFour(b, c, d, e);
    assert Join([a, b, c, d, e]) == a + " " + (b + " " + c + " " + d + " " + e);
  }

  lemma JoinWords0()
    ensures Join(["the", "quick", "brown", "fox", "jumps"]) == "the quick brown fox jumps"
  {
    JoinFive("the", "quick", "brown", "fox", "jumps");
  }

  lemma JoinWords1()
    ensures Join(["over", "the", "lazy", "dog"]) == "over the lazy dog"
  {
    JoinFour("over", "the", "lazy", "dog");
  }

  lemma SplitExample0()
    ensures Split("the quick brown fox jumps") == ["the", "quick", "brown", "fox", "jumps"]
  {
    JoinWords0();
    SplitJoin(["the", "quick", "brown", "fox", "jumps"]);
  }

  lemma SplitExample1()
    ensures Split("over the lazy dog") == ["over", "the", "lazy", "dog"]
  {
    JoinWords1();
    SplitJoin(["over", "the", "lazy", "dog"]);
  }

  lemma StridesTwo<T>(s: seq<T>, w: nat)
    requires 0 < w < |s| <= 2 * w
    ensures Strides(s, 0, w) == [s[..w], s[w..]]
  {
    assert Min(w + w, |s|) == |s| && Min(0 + w, |s|) == w;
    assert Strides(s, w + w, w) == [];
    assert Strides(s, w, w) == [s[w..Min(w + w, |s|)]] + Strides(s, w + w, w);
    assert s[w..Min(w + w, |s|)] == s[w..];
    assert Strides(s, 0, w) == [s[..w]] + Strides(s, w, w);
  }

  /** The carry in action, on token lists of five and four tokens with w = 3. */
  lemma SlicesExample(a: string, b: string, c: string, d: string, e: string, f: string, g: string, h: string, i: string)
    ensures SlicesFrom([[a, b, c, d, e], [f, g, h, i]], 0, 3)
      == [Slice(0, [a, b, c]), Slice(1, [d, e, f]), Slice(1, [g, h, i])]
  {
    var p0, p1 := [a, b, c, d, e], [f, g, h, i];
    var toks := [p0, p1];
    StridesTwo(p0, 3);
    assert p0[..3] == [a, b, c] && p0[3..] == [d, e];
    var next := Carried(toks, 0, [d, e]);
    var p1' := [d, e, f, g, h, i];
    assert [d, e] + p1 == p1';
    assert next == [p0, p1'];
    StridesTwo(p1', 3);
    assert p1'[..3] == [d, e, f] && p1'[3..] == [g, h, i];
    SlicesFromStep(toks, 0, 3);
    SlicesFromStep(next, 1, 3);
    assert SlicesFrom(Carried(next, 1, []), 2, 3) == [];
  }

  lemma ChunksExample()
    ensures Chunks(["the quick brown fox jumps", "over the lazy dog"], 3)
      == [Slice(0, ["the", "quick", "brown"]), Slice(1, ["fox", "jumps", "over"]), Slice(1, ["the", "lazy", "dog"])]
  {
    var texts := ["the quick brown fox jumps", "over the lazy dog"];
    SplitExample0();
    SplitExample1();
    TokenizeTwo(texts, ["the", "quick", "brown", "fox", "jumps"], ["over", "the", "lazy", "dog"]);
    SlicesExample("the", "quick", "brown", "fox", "jumps", "over", "the", "lazy", "dog");
  }

  /** Two pages tokenize into the two pages' pieces. */
  lemma TokenizeTwo(texts: seq<string>, a: seq<string>, b: seq<string>)
    requires |texts| == 2 && Split(texts[0]) == a && Split(texts[1]) == b
    ensures Tokenize(texts) == [a, b]
  {
  }

  /** Trimming changes nothing when a text neither starts nor ends with whitespace. */
  lemma TrimNoop(s: string)
    requires s != [] && !IsWhitespace(s[0]) && !IsWhitespace(s[|s| - 1])
    ensures Trim(s) == s
  {
  }

  lemma RenderExample()
    ensures RenderAll(Chunks(["the quick brown fox jumps", "over the lazy dog"], 3), 1)
      == ["[1] \"the quick brown\"", "[2] \"fox jumps over\"", "[2] \"the lazy dog\""]
  {
    ChunksExample();
    var s0, s1, s2 := Slice(0, ["the", "quick", "brown"]), Slice(1, ["fox", "jumps", "over"]), Slice(1, ["the", "lazy", "dog"]);
    RenderSliceExample0(s0);
    RenderSliceExample1(s1);
    RenderSliceExample2(s2);
    RenderAllThree(s0, s1, s2, 1);
  }

  lemma RenderAllThree(s0: Slice, s1: Slice, s2: Slice, startPage: int)
    ensures RenderAll([s0, s1, s2], startPage) == [RenderSlice(s0, startPage), RenderSlice(s1, startPage), RenderSlice(s2, startPage)]
  {
  }

  /** A lower-case letter is not whitespace. */
  lemma LetterNotWhitespace(c: char)
    requires 'a' <= c <= 'z'
    ensures !IsWhitespace(c)
  {
  }

  /**
   A slice whose joined words are already trimmed renders as its page tag
   and that text, put into the template.
   */
  lemma RenderSliceIs(slice: Slice, startPage: int, tag: string, text: string, out: string)
    requires Join(slice.words) == text && text != []
    requires 'a' <= text[0] <= 'z' && 'a' <= text[|text| - 1] <= 'z'
    requires IntToString(slice.page + startPage) == tag
    requires "[" + tag + "] \"" + text + "\"" == out
    ensures RenderSlice(slice, startPage) == out
  {
    LetterNotWhitespace(text[0]);
    LetterNotWhitespace(text[|text| - 1]);
    TrimNoop(text);
  }

  /*
   The literal facts of the three rendered chunks: one page tag, one joined
   text and one template each, every one in a lemma of its own so that the
   verifier evaluates a single literal string at a time instead of all of
   them in one proof.
   */

  lemma TagOne()
    ensures IntToString(1) == "1"
  {
  }

  lemma TagTwo()
    ensures IntToString(2) == "2"
  {
  }

  lemma JoinExample0()
    ensures Join(["the", "quick", "brown"]) == "the quick brown"
  {
  }

  lemma TemplateExample0()
    ensures "[" + "1" + "] \"" + "the quick brown" + "\"" == "[1] \"the quick brown\""
  {
  }

  lemma RenderSliceExample0(slice: Slice)
    requires slice == Slice(0, ["the", "quick", "brown"])
    ensures RenderSlice(slice, 1) == "[1] \"the quick brown\""
  {
    JoinExample0();
    TagOne();
    TemplateExample0();
    RenderSliceIs(slice, 1, "1", "the quick brown", "[1] \"the quick brown\"");
  }

  lemma JoinExample1()
    ensures Join(["fox", "jumps", "over"]) == "fox jumps over"
  {
  }

  lemma TemplateExample1()
    ensures "[" + "2" + "] \"" + "fox jumps over" + "\"" == "[2] \"fox jumps over\""
  {
  }

  lemma RenderSliceExample1(slice: Slice)
    requires slice == Slice(1, ["fox", "jumps", "over"])
    ensures RenderSlice(slice, 1) == "[2] \"fox jumps over\""
  {
    JoinExample1();
    TagTwo();
    TemplateExample1();
    RenderSliceIs(slice, 1, "2", "fox jumps over", "[2] \"fox jumps over\"");
  }

  lemma JoinExample2()
    ensures Join(["the", "lazy", "dog"]) == "the lazy dog"
  {
  }

  lemma TemplateExample2()
    ensures "[" + "2" + "] \"" + "the lazy dog" + "\"" == "[2] \"the lazy dog\""
  {
  }

  lemma RenderSliceExample2(slice: Slice)
    requires slice == Slice(1, ["the", "lazy", "dog"])
    ensures RenderSlice(slice, 1) == "[2] \"the lazy dog\""
  {
    JoinExample2();
    TagTwo();
    TemplateExample2();
    RenderSliceIs(slice, 1, "2", "the lazy dog", "[2] \"the lazy dog\"");
  }
}
