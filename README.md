# pdfGPT.JS retrieval core in Dafny

pdfGPT.JS answers questions about a PDF. It extracts the PDF's text into a
list of page texts and cuts that list into chunks of `wordLength` words,
each tagged with its position in the list plus `startPage`. It embeds the chunks with the Universal Sentence Encoder and indexes
them in an exact nearest-neighbour index. A question is meant to be embedded
the same way and answered with the chunks nearest to it. As written, `call`
ignores the question and, with its default `returnData`, returns undefined
texts (see Findings). This project models that
retrieval core of `index.js` and proves what it computes:

- `seqs.dfy` (module `Seqs`): the `for (i = 0; i < n; i += w) slice(i, i + w)` walk. The chunker and the embedding batcher both use it. Also concatenation of lists and ceiling division.
- `jstext.dfy` (module `JsText`): the JavaScript string operations the core uses:
  - the `\s`/`trim` whitespace class of ECMA-262;
  - `split(" ")`, `join(" ")` and `trim()`;
  - the decimal text of an integer in a template literal.
- `preprocess.dfy` (module `Preprocess`): the page normaliser `preprocess`.
- `chunker.dfy` (module `Chunker`): `textToChunks`, as a method that rewrites its token array in place. It is proved against the function `Chunks`, which states what is emitted, and lemmas about `Chunks` give the promised properties.
- `chunker_example.dfy` (module `ChunkerExample`): the two-page worked example.
- `neighbors.dfy` (module `Neighbors`): the class `NearestNeighbors` with `fit`, `kneighbors`, `distance` and the stable `argsort`.
- `search.dfy` (module `Search`): the class `SemanticSearch` with `constructor`, `loadModel`, `fit`, `call` and the batched `getTextEmbedding`. The sentence encoder is a function parameter.
- `call_as_written.dfy` (module `CallAsWritten`): `call` as written, on a fitted search's fields, with the two defects listed under Findings.

How the model is built:

- **Coordinates and distances.** Embedding coordinates are integers. Distances are exact squared Euclidean distances.
- **Sorting.** `argsort` is an insertion sort by (distance, position). It is proved to be the only ordering of the positions that is sorted that way. Any stable sort by distance therefore returns it.
- **Error paths.** Each error path of `SemanticSearch` is a `Result`:
  - the model was never loaded;
  - the search was never fitted;
  - the corpus is empty, so `tf.concat` gets no tensor.
- **A failing `fit`.** `fit` stores `data` before it embeds anything. When embedding fails, `data` is already replaced while `embeddings`, `nn` and `fitted` keep their old values; the model does this too.

## Model

| member | source | states |
|---|---|---|
| Seqs.StridesFlatten | index.js:123-124 | The slices visited by the stepping walk, concatenated, are exactly the input from the start offset on. |
| Seqs.StridesSized | index.js:123-124 | Every visited slice holds 1 to w items and every slice but the last holds exactly w. |
| Seqs.StridesAt | index.js:42-43 | The j-th visited slice is the one starting at offset i + j*w (clamped at the end). |
| Seqs.StridesCount | index.js:42 | Walking n items in steps of w visits ceil(n / w) slices. |
| Seqs.CeilDivBounds | index.js:123 | CeilDiv(n, w) is the least c with n <= c*w. |
| JsText.Split | index.js:118 | `split(" ")` always yields at least one piece and no piece holds a space. |
| JsText.Join | index.js:130 | `words.join(" ")`: the words with one space between neighbours; SplitJoin and JoinSplit make it the inverse of `split(" ")`. |
| JsText.JoinSplit | index.js:118 | Joining the pieces of `split(" ")` with single spaces gives back the string. |
| JsText.SplitJoin | index.js:130 | Splitting a space-join of space-free words gives back the words. |
| JsText.IsWhitespace | index.js:95 | The whitespace class that `\s` and `trim` share: the ECMAScript WhiteSpace and LineTerminator code points. |
| JsText.TrimStart | index.js:130 | The result is no longer than the input and does not start with whitespace. |
| JsText.TrimStartDrops | index.js:130 | `trimStart` keeps a suffix and drops only whitespace. |
| JsText.TrimEnd | index.js:130 | `trimEnd`: the result is no longer than the input and does not end with whitespace; TrimEndDrops gives the rest. |
| JsText.TrimEndDrops | index.js:130 | `trimEnd` keeps a prefix and drops only whitespace. |
| JsText.Trim | index.js:130 | The trimmed text neither starts nor ends with whitespace. |
| JsText.TrimInfix | index.js:130 | `trim` returns an infix of its input; everything before and after it is whitespace. |
| JsText.IntToString | index.js:131 | How `${idx + startPage}` renders an integer in decimal, with a leading `-` when negative. |
| Preprocess.Preprocess | index.js:93-97 | `preprocess`: the line-feed replacement followed by the whitespace collapse; the rows below state what it guarantees. |
| Preprocess.ReplaceNewlines | index.js:94 | `replace(/\n/g, " ")`: same length, and no line feed is left. |
| Preprocess.CollapseWhitespace | index.js:95 | `replace(/\s+/g, " ")`: each maximal whitespace run becomes one space (CollapseNormal, CollapseKeepsText). |
| Preprocess.PreprocessNormal | index.js:93-97 | The output of `preprocess` holds no line feed and no two adjacent whitespace characters. |
| Preprocess.PreprocessKeepsText | index.js:93-97 | `preprocess` keeps every non-whitespace character of its input, in order. |
| Preprocess.PreprocessIdempotent | index.js:93-97 | `preprocess(preprocess(t)) == preprocess(t)`. |
| Preprocess.NewlinePassRedundant | index.js:94-95 | The line-feed pass changes nothing that the whitespace pass would not: the result equals collapsing alone. |
| Preprocess.CollapseNormal | index.js:95 | Replacing each maximal whitespace run by one space leaves only single spaces as whitespace. |
| Preprocess.CollapseKeepsText | index.js:95 | The whitespace collapse keeps the non-whitespace characters in order. |
| Preprocess.CollapseNormalFixed | index.js:95 | The collapse leaves an already normal string unchanged. |
| Preprocess.ReplaceNewlinesKeepsText | index.js:94 | Replacing line feeds with spaces keeps the non-whitespace characters. |
| Chunker.Tokenize | index.js:118 | `texts.map((t) => t.split(" "))`: one token list per page. |
| Chunker.PageSplit | index.js:123-129 | One page's walk: the strides it emits, and the short final stride it carries when the page is not the last (PageSplitFacts). |
| Chunker.Carried | index.js:127 | `textToks[idx + 1] = carry.concat(textToks[idx + 1])` when there is a next page; the page count is unchanged. |
| Chunker.SlicesFrom | index.js:122-133 | The outer loop from page idx on: each page's emitted strides tagged with its position, then the rest on the carried token lists. |
| Chunker.Chunks | index.js:117-133 | The slices `textToChunks` emits for the whole document, before rendering (ChunksFacts). |
| Chunker.Render | index.js:131 | The template `[${page}] "${text}"`. |
| Chunker.RenderSlice | index.js:130-131 | A slice rendered as the template around its trimmed, space-joined words. |
| Chunker.TextToChunks | index.js:117-137 | The chunks returned are the rendered `Chunks` of the texts, and there are ceil(N / wordLength) of them, N being the total token count. The caller's `texts` array is not modified (no `modifies`). |
| Chunker.ChunkPage | index.js:122-133 | The inner loop emits the page's full strides (and, on the last page, a short one). A short final stride on another page is put in front of the next page's tokens. No other entry of the token array changes. |
| Chunker.PageSplitFacts | index.js:123-129 | A page's emitted strides followed by its carry are the page's tokens. The emitted strides are 1..w long and only the last may be short. The carry is shorter than w and empty on the last page. On any other page every emitted stride has exactly w tokens. |
| Chunker.SlicesConserveWords | index.js:118-132 | Word conservation: the emitted slices, concatenated in order, are all pages' tokens in page order. A carried stride is moved, never dropped. |
| Chunker.SlicesSized | index.js:124-129 | Every emitted slice has 1..w tokens and all but the last overall have exactly w. A slice from a page that is not the last always has exactly w. |
| Chunker.SlicePagesOrdered | index.js:127-131 | Every slice is tagged with a page position in range, and the tags never decrease along the output. |
| Chunker.ChunkCount | index.js:117-137 | The number of chunks is ceil(N / wordLength). |
| Chunker.ChunksFacts | index.js:117-137 | For a whole document, all the chunker's promises at once:<br>- conservation;<br>- sizes;<br>- no short chunk before the last page;<br>- page tags in range and non-decreasing;<br>- chunk k is `[page + startPage] "<trimmed join>"` of slice k. |
| ChunkerExample.SlicesExample | index.js:124-132 | Pages of 5 and 4 tokens with w = 3 give [a b c] from page 0, then [d e f] and [g h i] from page 1. The short stride [d e] of page 0 is carried. |
| ChunkerExample.ChunksExample | index.js:117-132 | The two pages "the quick brown fox jumps" and "over the lazy dog" with w = 3 give the slices (0, the quick brown), (1, fox jumps over) and (1, the lazy dog). |
| ChunkerExample.RenderExample | index.js:117-137 | The same input with startPage 1 renders as `[1] "the quick brown"`, `[2] "fox jumps over"` and `[2] "the lazy dog"`. |
| Neighbors.SumSquares | index.js:74 | The running sum of squared differences is non-negative and zero exactly when the compared prefixes are equal. |
| Neighbors.Distance | index.js:73-75 | Distance is non-negative and zero exactly when the vectors are equal, so d(a, a) = 0. |
| Neighbors.DistanceSymmetric | index.js:73-75 | d(a, b) == d(b, a). |
| Neighbors.Distances | index.js:62 | One distance per stored embedding. |
| Neighbors.Range | index.js:78 | `array.map((_, i) => i)` is 0..n-1. |
| Neighbors.InsertSorted | index.js:78 | Inserting a new position into a list ordered by (distance, position) keeps it ordered. |
| Neighbors.ArgSort | index.js:77-79 | `argsort` returns a permutation of 0..n-1, ordered by distance and, among equal distances, by position (stability). |
| Neighbors.SortedUnique | index.js:77-79 | Two permutations of the same positions that are both ordered by (distance, position) are equal. So every stable sort by distance gives ArgSort's result. |
| Neighbors.ArgSortExample | index.js:77-79 | The distances [3, 1, 4, 1, 5] give the two nearest positions [1, 3]: the tie is broken by position. |
| Neighbors.NearestNeighbors.constructor | index.js:53-55 | A new index stores the neighbour count and no embeddings. |
| Neighbors.NearestNeighbors.Fit | index.js:57-59 | `fit` replaces the stored embeddings and leaves the neighbour count alone. |
| Neighbors.NearestNeighbors.KNeighbors | index.js:61-71 | `kneighbors(q, false)` returns min(nNeighbors, n) positions. They are:<br>- distinct and each in [0, n);<br>- ordered by distance, with ties by position;<br>- each at least as near as any position not returned.<br>With nNeighbors >= n they are a permutation of 0..n-1. |
| Neighbors.NearestNeighbors.KNeighborVectors | index.js:66-67 | `kneighbors(q, true)` returns the stored embeddings at those positions, in the same order. |
| Neighbors.Select | index.js:67 | `ids.map((i) => xs[i])`: one entry per position. |
| Neighbors.KNeighborsUnique | index.js:61-64 | Any ordering of all positions by (distance, position) gives, cut at nNeighbors, exactly the KNeighbors answer. |
| Neighbors.SelfQueryFirst | index.js:61-64 | Querying with a stored embedding returns first the lowest position holding it. |
| Search.SemanticSearch.constructor | index.js:11-14 | A new search has no encoder, is not fitted and has no index. |
| Search.SemanticSearch.LoadModel | index.js:16-18 | `loadModel` installs the encoder and changes nothing else. |
| Search.SemanticSearch.GetTextEmbedding | index.js:40-49 | `getTextEmbedding` returns:<br>- the per-batch embeddings of `texts.slice(i, i + batch)` for i = 0, batch, 2*batch, …, concatenated, when an encoder is loaded;<br>- an error for an empty corpus (`tf.concat` of nothing);<br>- an error for a missing encoder. |
| Search.BatchEmbeddings | index.js:42-45 | The list `embeddings` the loop pushes: one `embed` result per stride from position i on (BatchEmbeddingsAt, Batches). |
| Search.EmbedBatches | index.js:40-48 | `tf.concat(embeddings, 0).arraySync()`: the pushed batches concatenated in order (EmbedBatchesLength). |
| Search.BatchEmbeddingsAt | index.js:42-45 | The j-th `embed` call receives the j-th stride of the batch walk. |
| Search.Batches | index.js:42-43 | The batches start at 0, batch, 2*batch, …. Each holds 1..batch texts and only the last may be short. There are ceil(n / batch) of them, and in order they partition the texts. |
| Search.EmbedBatchesLength | index.js:40-49 | With a well-formed encoder the concatenated embeddings are one Dim-wide vector per text, so there are as many embeddings as texts. |
| Search.BatchSizeIrrelevant | index.js:40-49 | When the encoder embeds each text on its own, the batch size does not change the embeddings. |
| Search.SemanticSearch.Fit | index.js:20-27 | `fit` replaces `data` first. On success it also sets:<br>- `embeddings` to the batched embedding, one per text;<br>- `nn` to a fresh index of those embeddings with min(nNeighbors, number of embeddings) neighbours;<br>- `fitted` to true.<br>An empty corpus or a missing encoder gives an error and leaves `embeddings`, `nn` and `fitted` as they were. |
| Search.SemanticSearch.QueryVector | index.js:30 | The query's embedding is a single Dim-wide vector. |
| Search.SemanticSearch.NearestIds | index.js:31 | The index returns nNeighbors positions, each a stored position. |
| Search.SemanticSearch.Call | index.js:29-38 | `call` fails when no encoder is loaded or when there has been no fit. Otherwise it returns the index's nearest positions for the query's embedding, or the `data` entries at those positions (undefined past its end). |
| Search.Lookup | index.js:34 | `data[i]` per position: the text there, or undefined exactly when the position is past the end. |
| Search.FittedTexts | index.js:34 | After a successful fit every returned entry is the corpus text at a nearest position; none is undefined. |
| CallAsWritten.WrittenCall | index.js:29-38 | `call` as written, on a fitted search's fields: the nested query batch in the place of the query, `returnData` forwarded, and `this.data[v]` indexed by vectors (AsWrittenIgnoresQuery). |
| CallAsWritten.DistanceAsWritten | index.js:74 | The reduce of `distance` with the batch in the place of the query, where NaN spreads (DistanceNaN). |
| CallAsWritten.ArgSortAsWritten | index.js:78 | The stable sort under the comparator `array[a] - array[b]`, where a NaN difference compares equal; one position per key. |
| CallAsWritten.LookupByVector | index.js:34 | `this.data[v]` for a vector v: a text only when v names an array index (AsWrittenIgnoresQuery). |
| CallAsWritten.EntryAsNumber | index.js:74 | An entry of the nested query batch is NaN when it is missing or is an array of more than one element. |
| CallAsWritten.DistanceNaN | index.js:74 | Once the first subtraction is NaN, the whole reduce is NaN. |
| CallAsWritten.InsertLast | index.js:78 | A stable insertion puts an element that compares equal to all others last. |
| CallAsWritten.ArgSortAllNaN | index.js:78 | With every distance NaN, the stable sort leaves the positions in order. |
| CallAsWritten.AsWrittenIgnoresQuery | index.js:29-38 | As written, `call` ignores its query. Without returnData it returns the first min(k, n) positions. With returnData every entry is undefined. |
| CallAsWritten.QueryIgnored | index.js:30-31 | Two different stored embeddings and a query equal to the second: the written `call` answers position 0. |
| CallAsWritten.NearestOfTwo | index.js:30-31 | On the input of QueryIgnored (stored embeddings [e0, e1], one neighbour, the query embedded as e1), the corrected search, fitted that way, answers position 1. |

## Left out

- `use.load`, the top-level loading block and the global `recommender` (index.js:82-86) are not modelled. `loadModel` takes the loaded encoder as its argument.
- `downloadPDF`, `pdfToText`, `generateText`, `generateAnswer` and `questionAnswer` (index.js:88-115 and 139-211) are not modelled. They are network, file and OpenAI calls around the core. The chunker is modelled on whatever list of page texts it is given. As written, `pdfToText` pushes the whole document's text (`data.text`) once for every page in range (index.js:108-111), so each entry of that list is the full text and the `[n]` tags count copies, not PDF pages.
- `use.embed`, `tf.concat` and `arraySync` are foreign calls. The encoder is a function parameter; concatenation and `arraySync` are sequence concatenation.
- Search.WellFormed: assumes the encoder returns one Dim-wide vector per input text, with Dim = 512, the Universal Sentence Encoder's width. The source relies on it without checking.
- Async/await: every call is modelled as sequential code.
- Neighbors.Distance: coordinates are integers rather than IEEE doubles, and the square root is omitted. The square root is monotone and changes no ordering, but rounding is not modelled.
- Neighbors.NearestNeighbors.KNeighbors: requires every stored embedding to have the query's length. The source reduces over the stored embedding (index.js:62 and 74). A stored embedding longer than the query reads undefined query entries and gets a NaN distance. A shorter one is compared on its own coordinates only, and an empty one is at distance 0. None of these cases is modelled, except for the NaN distances of the nested-query defect (module `CallAsWritten`).
- Neighbors.NearestNeighbors.constructor: the source leaves `embeddings` undefined until `fit`, so `kneighbors` before `fit` throws. The model starts from no embeddings and answers nothing.
- Neighbors.NearestNeighbors: `nNeighbors` is a natural number. Negative or fractional counts, which `slice` would interpret, are not modelled.
- Chunker.TextToChunks: requires `wordLength > 0`, and `wordLength` is a natural number. With 0 the source loops forever; negative and fractional lengths are not modelled.
- Search.SemanticSearch.GetTextEmbedding: requires `batch > 0` (with 0 the source loops forever).
- Search.SemanticSearch.Call: models the corrected call, which embeds the query as one vector and asks `kneighbors` for positions. The source's own behaviour is in module `CallAsWritten` (see Findings).
- CallAsWritten.ArgSortAsWritten: with some distances NaN and others not, the comparator is inconsistent and the order the engine returns is implementation-defined. Only the all-NaN case is stated.
- JsText.IntToString: `startPage` is an integer and the model prints `idx + startPage` in plain decimal for every integer. JavaScript agrees only while |idx + startPage| < 2^53, where the sum is exact, and below 10^21, where `${n}` is plain decimal. Exponent-form tags (such as `1e+21`), rounded sums and fractional tags (such as `1.5`) from a non-integer `startPage` are not modelled.
- Strings are sequences of Unicode code points rather than UTF-16 code units. No whitespace character lies outside the Basic Multilingual Plane, so the whitespace class is unaffected.

## Findings

| source | as written | input that shows it | evidently intended | confidence | as-written member | corrected member |
|---|---|---|---|---|---|---|
| index.js:30-31 | `kneighbors` receives `inpEmb.arraySync()`, the 1 x D batch, instead of the query vector. Every distance is NaN, all positions compare equal, and the stable sort keeps them in order. | Two different stored embeddings, the query embedded as the second, nNeighbors 1: the answer is position 0. | Pass the batch's single row (`arraySync()[0]`): the answer is position 1, the nearest. | high; not executed | CallAsWritten.QueryIgnored | CallAsWritten.NearestOfTwo |
| index.js:31-34 | `returnData` (true by default) is forwarded to `kneighbors`, which then returns vectors, and `this.data[v]` is undefined for a vector v. | Any fitted search and any query, with the default returnData: every returned text is undefined. | Ask `kneighbors` for positions and map them through `data`. | high; not executed | CallAsWritten.AsWrittenIgnoresQuery | Search.FittedTexts |
