/**
 The retrieval front end `SemanticSearch` (index.js:10-49): it embeds a
 corpus in batches with a sentence encoder, indexes the embeddings with
 NearestNeighbors, and answers a query with the texts nearest to it.

 The encoder (`use.embed`) is a parameter: a function from a batch of
 texts to their embedding vectors. Loading it (`use.load`) is the
 LoadModel method, taking the loaded encoder as its argument.
 `tf.concat` of the per-batch results and `arraySync` become
 concatenation of sequences.
 */
module Search {
  import opened Seqs
  import opened Neighbors

  /** The width of the Universal Sentence Encoder's embeddings. */
  const Dim: nat := 512

  /** `use.embed(batch)`: one embedding per text of the batch. */
  type Embedder = seq<string> -> seq<Vector>

  /** The encoder returns one Dim-wide vector per input text. */
  ghost predicate WellFormed(embed: Embedder)
  {
    forall b: seq<string> {:trigger embed(b)} :: |embed(b)| == |b| &&
      forall k :: 0 <= k < |embed(b)| ==> |embed(b)[k]| == Dim
  }

  datatype Option<T> = None | Some(value: T)

  /**
   Why a call throws: `this.use` is still null (the model was never
   loaded), `this.nn` is still undefined (never fitted), or the corpus is
   empty, so that `tf.concat` receives no tensor at all.
   */
  datatype Error = NotLoaded | NotFitted | EmptyCorpus

  datatype Result<T> = Ok(value: T) | Err(error: Error)

  /** What `call` returns: neighbour positions, or the texts at those positions. */
  datatype Hits = Indices(ids: seq<nat>) | Texts(texts: seq<Option<string>>)

  /**
   The embedding tensors the batching loop pushes, starting at offset i:
   one `embed` call per slice `texts.slice(i, i + batch)`.
   */
  function BatchEmbeddings(embed: Embedder, texts: seq<string>, i: nat, batch: nat): seq<seq<Vector>>
    requires batch > 0
    decreases |texts| - i
  {
    if i >= |texts| then []
    else [embed(texts[i..Min(i + batch, |texts|)])] + BatchEmbeddings(embed, texts, i + batch, batch)
  }

  /** `tf.concat(embeddings, 0).arraySync()` over all the batches. */
  function EmbedBatches(embed: Embedder, texts: seq<string>, batch: nat): seq<Vector>
    requires batch > 0
  {
    Flatten(BatchEmbeddings(embed, texts, 0, batch))
  }

  /**
   The encoder is called once per slice of the batch walk, in order: the
   j-th call embeds the j-th stride, which starts at j * batch.
   */
  lemma {:induction false} BatchEmbeddingsAt(embed: Embedder, texts: seq<string>, i: nat, batch: nat)
    requires batch > 0
    ensures |BatchEmbeddings(embed, texts, i, batch)| == |Strides(texts, i, batch)|
    ensures forall j :: 0 <= j < |Strides(texts, i, batch)| ==>
      BatchEmbeddings(embed, texts, i, batch)[j] == embed(Strides(texts, i, batch)[j])
    decreases |texts| - i
  {
    if i < |texts| {
      BatchEmbeddingsAt(embed, texts, i + batch, batch);
      var bs, st := BatchEmbeddings(embed, texts, i, batch), Strides(texts, i, batch);
      var bs', st' := BatchEmbeddings(embed, texts, i + batch, batch), Strides(texts, i + batch, batch);
      assert bs == [embed(st[0])] + bs' && st == [st[0]] + st';
      forall j | 0 < j < |st| ensures bs[j] == embed(st[j]) {
        assert bs[j] == bs'[j - 1] && st[j] == st'[j - 1];
      }
    }
  }

  /**
   The batches `getTextEmbedding` hands to the encoder start at 0, batch,
   2 * batch, ...; each holds between 1 and batch texts, only the last
   may be short, and together they are the texts, in order.
   */
  lemma Batches(texts: seq<string>, batch: nat)
    requires batch > 0
    ensures Flatten(Strides(texts, 0, batch)) == texts
    ensures Sized(Strides(texts, 0, batch), batch)
    ensures |Strides(texts, 0, batch)| == CeilDiv(|texts|, batch)
    ensures forall j :: 0 <= j < |Strides(texts, 0, batch)| ==>
      j * batch < |texts| && Strides(texts, 0, batch)[j] == texts[j * batch..Min(j * batch + batch, |texts|)]
  {
    StridesFlatten(texts, 0, batch);
    StridesSized(texts, 0, batch);
    StridesCount(texts, batch);
    forall j | 0 <= j < |Strides(texts, 0, batch)|
      ensures j * batch < |texts| && Strides(texts, 0, batch)[j] == texts[j * batch..Min(j * batch + batch, |texts|)]
    {
      StridesAt(texts, 0, batch, j);
    }
  }

  lemma {:induction false} EmbedFromLength(embed: Embedder, texts: seq<string>, i: nat, batch: nat)
    requires batch > 0 && WellFormed(embed)
    ensures var e := Flatten(BatchEmbeddings(embed, texts, i, batch));
      && |e| == (if i < |texts| then |texts| - i else 0)
      && forall k :: 0 <= k < |e| ==> |e[k]| == Dim
    decreases |texts| - i
  {
    if i < |texts| {
      var end := Min(i + batch, |texts|);
      var head := embed(texts[i..end]);
      var rest := BatchEmbeddings(embed, texts, i + batch, batch);
      EmbedFromLength(embed, texts, i + batch, batch);
      assert ([head] + rest)[1..] == rest;
      var e := Flatten(BatchEmbeddings(embed, texts, i, batch));
      assert e == head + Flatten(rest);
      forall k | 0 <= k < |e| ensures |e[k]| == Dim {
        if k >= |head| { assert e[k] == Flatten(rest)[k - |head|]; }
      }
    }
  }

  /** A well-formed encoder gives exactly one Dim-wide embedding per text. */
  lemma EmbedBatchesLength(embed: Embedder, texts: seq<string>, batch: nat)
    requires batch > 0 && WellFormed(embed)
    ensures |EmbedBatches(embed, texts, batch)| == |texts|
    ensures forall k :: 0 <= k < |texts| ==> |EmbedBatches(embed, texts, batch)[k]| == Dim
  {
    EmbedFromLength(embed, texts, 0, batch);
  }

  /** The encoder embeds each text on its own: batch(b)[k] is one(b[k]). */
  ghost predicate Pointwise(embed: Embedder, one: string -> Vector)
  {
    forall b: seq<string> {:trigger embed(b)} :: embed(b) == Map(one, b)
  }

  lemma {:induction false} EmbedFromPointwise(embed: Embedder, one: string -> Vector, texts: seq<string>, i: nat, batch: nat)
    requires batch > 0 && Pointwise(embed, one) && i <= |texts|
    ensures Flatten(BatchEmbeddings(embed, texts, i, batch)) == Map(one, texts[i..])
    decreases |texts| - i
  {
    if i < |texts| {
      var end := Min(i + batch, |texts|);
      var head := embed(texts[i..end]);
      var rest := BatchEmbeddings(embed, texts, i + batch, batch);
      assert ([head] + rest)[1..] == rest;
      if i + batch < |texts| {
        EmbedFromPointwise(embed, one, texts, i + batch, batch);
        assert texts[i..] == texts[i..end] + texts[end..];
        MapAppend(one, texts[i..end], texts[end..]);
      } else {
        assert rest == [];
        assert texts[i..end] == texts[i..];
      }
    }
  }

  /**
   When the encoder embeds each text independently of its batch, the
   batch size does not change the embeddings: they are the texts
   embedded one by one.
   */
  lemma BatchSizeIrrelevant(embed: Embedder, one: string -> Vector, texts: seq<string>, batch: nat)
    requires batch > 0 && Pointwise(embed, one)
    ensures EmbedBatches(embed, texts, batch) == Map(one, texts)
  {
    EmbedFromPointwise(embed, one, texts, 0, batch);
    assert texts[0..] == texts;
  }

  /** `neighbors.map((i) => this.data[i])`: a position past the end reads as undefined. */
  function Lookup(data: seq<string>, ids: seq<nat>): (r: seq<Option<string>>)
    ensures |r| == |ids|
    ensures forall p :: 0 <= p < |r| ==> (r[p] == None <==> ids[p] >= |data|)
    ensures forall p :: 0 <= p < |r| && ids[p] < |data| ==> r[p] == Some(data[ids[p]])
  {
    seq(|ids|, p requires 0 <= p < |ids| => if ids[p] < |data| then Some(data[ids[p]]) else None)
  }

  class SemanticSearch {
    var use: Option<Embedder>
    var fitted: bool
    var data: seq<string>
    var embeddings: seq<Vector>
    var nn: NearestNeighbors?

    /**
     The loaded encoder is well formed; an index exists exactly when the
     search is fitted, and it holds this search's embeddings (all Dim
     wide) with a neighbour count clamped to their number.
     */
    ghost predicate Valid()
      reads this, nn
    {
      && (use.Some? ==> WellFormed(use.value))
      && (fitted <==> nn != null)
      && (fitted ==> use.Some?)
      && (fitted ==> nn.embeddings == embeddings && nn.nNeighbors <= |embeddings|)
      && (fitted ==> forall k :: 0 <= k < |embeddings| ==> |embeddings[k]| == Dim)
    }

    /** `new SemanticSearch()`: no encoder loaded, not fitted. */
    constructor()
      ensures Valid()
      ensures use == None && !fitted && nn == null
    {
      use := None;
      fitted := false;
      data := [];
      embeddings := [];
      nn := null;
    }

    /** `loadModel()`, with the loaded encoder given as the argument. */
    method LoadModel(encoder: Embedder)
      requires Valid() && WellFormed(encoder)
      modifies this
      ensures Valid()
      ensures use == Some(encoder)
      ensures fitted == old(fitted) && data == old(data) && embeddings == old(embeddings) && nn == old(nn)
    {
      use := Some(encoder);
    }

    /**
     `getTextEmbedding(texts, batch)`: embeds texts.slice(i, i + batch) for
     i = 0, batch, 2 * batch, ... and concatenates the results. An empty
     corpus reaches `tf.concat` with no tensor and throws; a missing
     encoder throws at the first `embed` call.
     */
    method GetTextEmbedding(texts: seq<string>, batch: nat := 1000) returns (r: Result<seq<Vector>>)
      requires batch > 0
      ensures texts == [] ==> r == Err(EmptyCorpus)
      ensures texts != [] && use.None? ==> r == Err(NotLoaded)
      ensures texts != [] && use.Some? ==> r == Ok(EmbedBatches(use.value, texts, batch))
    {
      var pushed: seq<seq<Vector>> := [];
      var i: nat := 0;
      while i < |texts|
        invariant use.Some? || i == 0
        invariant use.Some? ==>
          pushed + BatchEmbeddings(use.value, texts, i, batch) == BatchEmbeddings(use.value, texts, 0, batch)
        invariant (i == 0) == (pushed == [])
        decreases |texts| - i
      {
        if use.None? {
          return Err(NotLoaded);
        }
        var textBatch := texts[i..Min(i + batch, |texts|)];
        var embBatch := use.value(textBatch);
        ghost var later := BatchEmbeddings(use.value, texts, i + batch, batch);
        assert BatchEmbeddings(use.value, texts, i, batch) == [embBatch] + later;
        assert pushed + ([embBatch] + later) == (pushed + [embBatch]) + later;
        pushed := pushed + [embBatch];
        i := i + batch;
      }
      if pushed == [] {
        return Err(EmptyCorpus);
      }
      assert BatchEmbeddings(use.value, texts, i, batch) == [];
      assert pushed + [] == pushed;
      r := Ok(Flatten(pushed));
    }

    /**
     `fit(data, batch, nNeighbors)`: `data` is stored first, so a fit
     that fails still replaces it; on success the embeddings, a fresh
     index with min(nNeighbors, |embeddings|) neighbours, and `fitted`
     follow.
     */
    method Fit(data: seq<string>, batch: nat := 1000, nNeighbors: nat := 5) returns (r: Result<()>)
      requires Valid() && batch > 0
      modifies this
      ensures Valid()
      ensures this.data == data && use == old(use)
      ensures data == [] ==> r == Err(EmptyCorpus)
      ensures data != [] && use.None? ==> r == Err(NotLoaded)
      ensures r.Err? ==> fitted == old(fitted) && embeddings == old(embeddings) && nn == old(nn)
      ensures data != [] && use.Some? ==> r.Ok?
      ensures r.Ok? ==> (use.Some? && fitted && fresh(nn)
        && embeddings == EmbedBatches(use.value, data, batch)
        && |embeddings| == |data|
        && nn.embeddings == embeddings && nn.nNeighbors == Min(nNeighbors, |embeddings|))
    {
      this.data := data;
      var e := GetTextEmbedding(data, batch);
      if e.Err? {
        return Err(e.error);
      }
      EmbedBatchesLength(use.value, data, batch);
      embeddings := e.value;
      var k := Min(nNeighbors, |embeddings|);
      nn := new NearestNeighbors(k);
      nn.Fit(embeddings);
      fitted := true;
      r := Ok(());
    }

    /** The query's embedding, `use.embed([text])`, as a single vector. */
    function QueryVector(text: string): (q: Vector)
      reads this, nn
      requires Valid() && use.Some?
      ensures |q| == Dim
    {
      assert |use.value([text])| == |[text]|;
      use.value([text])[0]
    }

    /** The positions of the stored embeddings nearest the query text. */
    function NearestIds(text: string): (ids: seq<nat>)
      reads this, nn
      requires Valid() && fitted
      ensures |ids| == nn.nNeighbors && forall p :: 0 <= p < |ids| ==> ids[p] < |embeddings|
    {
      nn.KNeighbors(QueryVector(text))
    }

    /**
     `call(text, returnData)`: embeds the query, asks the index for the
     nearest positions and, when returnData holds, reads the texts at
     those positions from `data`.
     */
    method Call(text: string, returnData: bool := true) returns (r: Result<Hits>)
      requires Valid()
      ensures use.None? ==> r == Err(NotLoaded)
      ensures use.Some? && !fitted ==> r == Err(NotFitted)
      ensures use.Some? && fitted ==> (r.Ok? &&
        r.value == if returnData then Texts(Lookup(data, NearestIds(text))) else Indices(NearestIds(text)))
    {
      if use.None? {
        return Err(NotLoaded);
      }
      if nn == null {
        return Err(NotFitted);
      }
      var q := use.value([text])[0];
      var ids := nn.KNeighbors(q);
      if returnData {
        r := Ok(Texts(Lookup(data, ids)));
      } else {
        r := Ok(Indices(ids));
      }
    }
  }

  /**
   After a successful fit (and no failed one since) every position the
   index returns holds a text: the answer is the corpus texts at the
   nearest positions, nearest first, and none of them is undefined.
   */
  lemma FittedTexts(s: SemanticSearch, text: string)
    requires s.Valid() && s.fitted && |s.embeddings| == |s.data|
    ensures var ids := s.NearestIds(text); var hits := Lookup(s.data, ids);
      && |hits| == Min(s.nn.nNeighbors, |s.data|)
      && forall p :: 0 <= p < |hits| ==> hits[p] == Some(s.data[ids[p]])
  {
  }
}
