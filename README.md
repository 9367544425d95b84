# Retrieval core of a single-document PDF question-answering backend

This project models the retrieval logic of a small Express backend. The backend
answers questions about one uploaded PDF. On upload it does four things:

- It splits the parsed text into pages on form feeds, trims each page and drops the blank ones.
- It cuts each page into 1000-character chunks.
- It tags every chunk with the 1-based position of its page among the non-blank pages that were kept.
- It embeds every chunk and stores it in the global `pdfChunks`, after clearing what was there.

On chat it embeds the question and ranks every stored chunk by similarity. A
stable sort by descending score orders them and the first three are kept. Their
texts, joined by `"\n---\n"`, are the context sent to a language model. The
reply carries one citation per ranked chunk: its first 80 characters plus
`"..."`, and its page.

The separate `InMemoryVectorStore` is modelled too. It is an ordered list of
records with `add`, `clear` and a top-k `search`.

Modules, one per component:

- `Wrappers`: `Option`, `Result` and `Min`.
- `Text`: the JavaScript string built-ins the code uses (`split` on one character, `trim`, `join`), plus concatenation.
- `PdfPages`: the split / trim / drop-blank pipeline of `extractPages`.
- `Chunking`: the `chunkText` loop and the page-tagging loops of the upload route.
- `Ranking`: score all, stable sort by descending score, keep k. Both the store and the chat route use it.
- `VectorStore`: the class `InMemoryVectorStore`.
- `Server`: the class `ServerState` (the loaded embedder and `pdfChunks`) with the upload and chat routes, plus the context, citation and prompt assembly.

The collaborators are parameters:

- The embedding model is a function `string -> Option<Embedding>`. `None` means the call threw.
- The PDF parser's output is an `Option<string>`. `None` means saving or parsing the file threw.
- The cosine similarity is a function `score: (Embedding, Embedding) -> real`. Each file's argument order is kept: `cosine(item, query)` in the store, `cosineSimilarity(question, chunk)` in the server.
- The Groq completion is a function from the request (model, system prompt, user prompt, token budget) to `Option<string>`.

So every ranking property holds for any score function.

Behaviour of the code worth knowing, which the model keeps:

- A page exactly as long as the chunk size gives one chunk.
- Page numbers count only the non-blank pages. Blank form-feed pieces are dropped before the pages are numbered (server.js:61-73). So in "A", form feed, form feed, "B", the chunk "B" is tagged page 2, not page 3.
- `k = 0` is allowed in `search` and gives no results.
- The chat route refuses an empty store before it checks the embedder.
- The upload route refuses a missing embedder before it touches anything.
- An upload whose document has no non-blank page succeeds with 0 chunks. After it, chat answers "No PDF uploaded yet".

The chunk count `ceil(L / size)` is stated without division, as the unique `c` with
`(c - 1) * size < L <= c * size`.

## Model

| member | source | states |
|---|---|---|
| `Text.Trim` | pdfUtils.js:9 | the result has no whitespace at either end; it is an infix `s[i..j]` of the input with only whitespace outside it; it is empty exactly when the input is all whitespace; it has no character the input lacks |
| `Text.Split` | pdfUtils.js:8 | splitting on a character gives one more piece than there are occurrences of it, and no piece contains it |
| `Text.JoinSplit` | pdfUtils.js:8 | joining the pieces of a split with the separator gives back the original string |
| `Text.SplitJoin` | pdfUtils.js:8 | splitting the join of one or more separator-free pieces gives back the pieces |
| `Text.JoinAt` | server.js:129 | in `parts.join(sep)`, piece i sits at its offset, the separator follows it unless it is the last, and the last piece ends the string |
| `PdfPages.DropBlank` | pdfUtils.js:10 | `filter(Boolean)` keeps exactly the non-empty strings: none of its results is empty, membership is "in the input and non-empty", the result is an ordered subsequence of the input, its length is the input length minus the number of empty strings |
| `PdfPages.ExtractPages` | pdfUtils.js:7-10 | every page is non-empty, trimmed at both ends and free of form feeds; the pages are an ordered subsequence of the trimmed form-feed pieces (`TrimAll`, the `map((p) => p.trim())` of pdfUtils.js:9); there are exactly (form feeds + 1 - blank pieces) of them, so at most form feeds + 1 |
| `PdfPages.SinglePage` | pdfUtils.js:7-10 | a text without form feeds and with some non-whitespace character yields exactly one page, the trimmed text |
| `PdfPages.BlankTextHasNoPages` | pdfUtils.js:7-10 | an all-whitespace text, the empty text included, yields no pages |
| `Chunking.Chunks` | server.js:31-37 | the empty text has no chunks; a non-empty text no longer than `size` is one chunk equal to the text |
| `Chunking.ChunkText` | server.js:31-37 | the `for` loop that slices every `size` characters (`size` defaults to 1000) returns exactly the chunk sequence `Chunks(text, size)`; an empty text gives no chunks for any size, the zero size included |
| `Chunking.ChunksConcat` | server.js:33-34 | concatenating the chunks from offset i gives back `text[i..]` exactly |
| `Chunking.ChunkLengths` | server.js:33-34 | every chunk is non-empty and at most `size` long; every chunk except the last is exactly `size` long |
| `Chunking.ChunkCount` | server.js:33 | the number c of chunks of the L remaining characters is 0 for L = 0 and otherwise satisfies (c - 1) * size < L <= c * size, i.e. c = ceil(L / size) |
| `Chunking.ChunksSpec` | server.js:31-37 | for the whole text: exact concatenation, length bounds and the ceil count together |
| `Chunking.TagPages` | server.js:68-74 | the nested `forEach` loops build exactly `Tagged(pages)`: page 1's chunks, then page 2's, each tagged with pageIndex + 1 |
| `Chunking.TaggedOrder` | server.js:69-72 | every tagged chunk carries a page in 1..number of pages, page numbers never decrease along the sequence, and every chunk text is non-empty and at most 1000 long |
| `Chunking.TaggedPageTexts` | server.js:68-74 | the texts tagged with page p are exactly `Chunks(page p, 1000)`, in order, so concatenated they are page p's text; no chunk carries a page number outside 1..number of pages |
| `Chunking.TaggedCount` | server.js:69-73 | when every page is non-empty, every page number 1..number of pages is carried by at least one chunk, and there are at least as many chunks as pages |
| `Chunking.TwoPageExample` | server.js:68-74 | a 1500-character page and a 500-character page give `[(page 1, first 1000), (page 1, last 500), (page 2, all 500)]` in that order |
| `Ranking.SortDescSpec` | vectorStore.js:23 | `SortDesc`, the sort by `b.score - a.score` (also at server.js:126), gives a sequence sorted by nonincreasing score, a permutation of its input (same multiset, same length), and for every score value the elements with that score stay in their original order (stability) |
| `Ranking.SortDescUnique` | vectorStore.js:23 | any sequence that is sorted by descending score and keeps the order of equal-score elements equals the model's sort, so the result does not depend on the engine's stable sort algorithm |
| `Ranking.TopK` | vectorStore.js:18-25 | score, sort and `slice(0, k)` give exactly min(k, n) results with nonincreasing scores; each result is an input element with its own score attached; the results are a sub-multiset of the scored input; no element left out scores higher than any element kept; among equal scores the results are the earliest-inserted ones, in insertion order |
| `VectorStore.InMemoryVectorStore.constructor` | vectorStore.js:9-11 | a new store has no items |
| `VectorStore.InMemoryVectorStore.Add` | vectorStore.js:13-15 | appends exactly one record at the end with the given id, page, text, embedding and summary (default ""), leaving earlier records unchanged |
| `VectorStore.InMemoryVectorStore.Search` | vectorStore.js:18-25 | reads the items without changing them and returns min(k, number of items) results (k defaults to 3), none on an empty store, sorted by nonincreasing `score(item.embedding, query)`, each a stored item with its score, no left-out item scoring higher than a kept one, equal scores in insertion order |
| `VectorStore.InMemoryVectorStore.Clear` | vectorStore.js:27-29 | leaves the store with no items |
| `VectorStore.ClearThenSearch` | vectorStore.js:18-29 | a search after `clear` returns no results, whatever the query and k |
| `Server.EmbeddedStep` | server.js:78-88 | one turn of the embedding loop: a throwing call leaves the stored prefix as the final state; a successful one appends the chunk's text, page and embedding |
| `Server.EmbeddedSpec` | server.js:76-88 | `Embedded`, the chunks the embedding loop stores, is a prefix of the tagged chunks, each with the same text and page and its text's embedding; all are stored exactly when no embedding call throws; when some are missing, the first missing chunk is the one whose embedding call threw |
| `Server.Rank` | server.js:121-127 | `ranked` has min(3, number of chunks) entries with nonincreasing `score(question, chunk.vector)`; each is a stored chunk with its score; it is a sub-multiset of the scored chunks; no left-out chunk scores higher than a kept one; equal scores keep storage order |
| `Server.ContextLayout` | server.js:129 | `Context`, the `join("\n---\n")` of the ranked texts, holds the ranked texts in ranked order, each but the last followed by `"\n---\n"`, and nothing else |
| `Server.Preview` | server.js:151 | the preview is the first min(80, length) characters of the text followed by `"..."`, so it is at most 83 long and ends with the ellipsis even when the text is short |
| `Server.ShortPreview` | server.js:151 | the preview of "Hello world" is "Hello world..." |
| `Server.Citations` | server.js:150-153 | one citation per ranked chunk, in ranked order, with the chunk's page and the preview of its text |
| `Server.ServerState.constructor` | server.js:21-22 | at start no embedder is loaded and there are no chunks |
| `Server.ServerState.LoadEmbedder` | server.js:25-28 | loading the model makes the embedder available and leaves the chunks alone |
| `Server.ServerState.Upload` | server.js:47-99 | without a loaded embedder it fails with EmbedderNotReady and keeps the chunks; if the file cannot be parsed it fails with UploadFailed and keeps the chunks; otherwise the chunks become the embedded tagged chunks of the extracted pages (all of them when every embedding succeeds, with a result of their count; the prefix before the first throwing call otherwise, with UploadFailed) |
| `Server.ServerState.Chat` | server.js:102-158 | fails with NoPdfUploaded exactly when there are no chunks, whatever the embedder state; fails with EmbedderNotReady exactly when there are chunks and no embedder; otherwise succeeds exactly when embedding the question and the completion call both succeed, and fails with QueryFailed exactly when one of them throws; on success the answer is the model's reply to `Completion(Context(ranked), question)`, the request of server.js:132-146 (model, system prompt, `max_tokens` 300, and the user prompt `Prompt`, which puts the context and then the question into the fixed template), and the citations are those of the min(3, chunks) ranked chunks |
| `Server.UploadFillsStore` | server.js:76-92 | for a non-empty list of non-empty pages (what the extraction returns for a document with a non-blank page) whose every chunk embeds successfully, every page number 1..number of pages is carried by some stored chunk, so the store holds at least one chunk per page and chat no longer fails with NoPdfUploaded |

## Left out

- HTTP transport is not modelled: routing, CORS, static files, multer, status codes and JSON bodies (server.js:1-18, 160-162). Only the kind of each error and the order of the checks are kept.
- The upload's response fields `message` and `pdfUrl`, and the `BASE_URL` setting, are not modelled. The chunk count it reports is.
- File system access is not modelled: saving the upload (server.js:55-59) and reading the PDF (pdfUtils.js:5). A failure there, or a missing `req.file`, is the `None` input of `Upload`.
- `pdfParse` is not modelled. Its text output is an input.
- The `@xenova/transformers` model and its asynchronous start-up load are not modelled. `LoadEmbedder` models only the moment the load completes.
- The Groq chat completion is not modelled. It is a function parameter, and its reply is the answer text.
- Cosine similarity arithmetic is not modelled (floating point, `Math.sqrt`, the `1e-10` epsilon of vectorStore.js:5, NaN on zero vectors in server.js:40-45). `cosineSimilarity(a, b)` at server.js:41 takes the dot product over the length of `a`, the question's vector. A chunk vector shorter than that gives `undefined` terms and so NaN. A longer chunk vector gives a finite but wrong score, because the dot product stops at the question's length while the norm covers the whole chunk vector.. The score is an arbitrary function parameter, so every ranking property holds for any score.
- `NaN` scores and a negative `k` in `slice(0, k)` are not modelled: `k` is a `nat` and scores are reals.
- Races are not modelled: the start-up load against requests, and concurrent upload and chat on `pdfChunks`. Each route runs to completion.
- The `await` of each embedding call is not modelled. It only matters for ordering, so the loop is a plain sequential loop.
- Character encoding: strings are sequences of Unicode scalar values, not UTF-16 code units. The source counts UTF-16 code units in `text.length` and `slice` (server.js:33-34) and in `slice(0, 80)` (server.js:151). `Chunking.ChunkText`, `Chunking.ChunkLengths`, `Chunking.ChunkCount` and `Server.Preview` count code points instead. So for text with characters outside the Basic Multilingual Plane, the source's chunks and previews hold fewer characters than the model's, and a cut can fall inside a surrogate pair; the model does not capture either. `IsWs` is unaffected: every whitespace code point `trim` removes is in the Basic Multilingual Plane.
- `Chunking.ChunkText`: requires `size > 0` or an empty text. With `size <= 0` and a non-empty text the source's loop never ends. An empty text gives `[]` for any size, and the model states that case too. A negative `size` is not modelled, since `size` is a `nat`. The only caller passes 1000.
- A request without a `question` field is not modelled. The question is always a string.
