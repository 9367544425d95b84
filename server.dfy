/** The server's retrieval state and its two routes. The state is the
    embedder (absent until the model has loaded) and the global `pdfChunks`.
    `Upload` replaces the chunks of the previous document with those of the
    new one; `Chat` ranks the chunks against the question and asks the
    language model with the three best as context.

    The collaborators are parameters: the embedding model is a function from
    text to an embedding (`None` when the call throws), the PDF parser's
    output is given as text (`None` when saving or parsing the file threw),
    `score` is `cosineSimilarity(question, chunk)`, and `complete` is the
    Groq chat completion (`None` when the call throws). */
module Server {
  import opened Wrappers
  import opened Text
  import opened PdfPages
  import opened Chunking
  import opened Ranking

  /** An element of `pdfChunks`: `{text, vector, page}`. */
  datatype StoredChunk = StoredChunk(text: string, vector: Embedding, page: nat)

  /** An entry of the `citations` list of a chat reply. */
  datatype Citation = Citation(preview: string, page: nat)

  datatype ChatReply = ChatReply(answer: string, citations: seq<Citation>)

  /** The request sent to the chat-completion service. */
  datatype CompletionRequest = CompletionRequest(model: string, system: string, user: string, maxTokens: nat)

  /** The error replies of the two routes. */
  datatype ServerError =
    | EmbedderNotReady   // 503: the embedding model has not loaded yet
    | NoPdfUploaded      // 400: chat before any chunk is stored
    | UploadFailed       // 500: saving, parsing or embedding threw
    | QueryFailed        // 500: embedding the question or the completion threw

  /** How many chunks the chat route keeps as context. */
  const TopChunks: nat := 3
  const ContextSeparator: string := "\n---\n"
  const PreviewLength: nat := 80
  const Ellipsis: string := "..."
  const ModelName: string := "llama-3.1-8b-instant"
  const SystemPrompt: string := "You are a helpful assistant answering questions about a document."
  const MaxTokens: nat := 300

  // ----- Ingestion -----

  /** The stored chunks the embedding loop produces for `chunks`: one per
      chunk, in order, up to the first chunk whose embedding call throws. */
  function Embedded(chunks: seq<PageChunk>, embed: string -> Option<Embedding>): seq<StoredChunk>
  {
    if chunks == [] then []
    else match embed(chunks[0].text)
      case None => []
      case Some(v) => [StoredChunk(chunks[0].text, v, chunks[0].page)] + Embedded(chunks[1..], embed)
  }

  /** Every chunk's embedding call succeeds. */
  predicate AllEmbedded(chunks: seq<PageChunk>, embed: string -> Option<Embedding>)
  {
    forall k :: 0 <= k < |chunks| ==> embed(chunks[k].text).Some?
  }

  lemma {:induction false} EmbeddedAppend(a: seq<PageChunk>, b: seq<PageChunk>, embed: string -> Option<Embedding>)
    requires AllEmbedded(a, embed)
    ensures Embedded(a + b, embed) == Embedded(a, embed) + Embedded(b, embed)
  {
    if a == [] {
      assert a + b == b;
    } else {
      assert AllEmbedded(a[1..], embed) by {
        forall k | 0 <= k < |a[1..]| ensures embed(a[1..][k].text).Some? {
          assert a[1..][k] == a[k + 1];
        }
      }
      EmbeddedAppend(a[1..], b, embed);
      var x := StoredChunk(a[0].text, embed(a[0].text).value, a[0].page);
      assert Embedded(a + b, embed) == [x] + Embedded(a[1..] + b, embed) by {
        assert (a + b)[0] == a[0];
        assert (a + b)[1..] == a[1..] + b;
      }
      assert [x] + (Embedded(a[1..], embed) + Embedded(b, embed)) ==
        ([x] + Embedded(a[1..], embed)) + Embedded(b, embed);
    }
  }

  /** One turn of the upload's embedding loop, after `i` successful calls. */
  lemma EmbeddedStep(chunks: seq<PageChunk>, i: nat, embed: string -> Option<Embedding>)
    requires i < |chunks| && AllEmbedded(chunks[..i], embed)
    ensures embed(chunks[i].text).None? ==>
      Embedded(chunks, embed) == Embedded(chunks[..i], embed) && !AllEmbedded(chunks, embed)
    ensures embed(chunks[i].text).Some? ==>
      AllEmbedded(chunks[..i + 1], embed) &&
      Embedded(chunks[..i + 1], embed) ==
        Embedded(chunks[..i], embed) + [StoredChunk(chunks[i].text, embed(chunks[i].text).value, chunks[i].page)]
  {
    var c := chunks[i];
    if embed(c.text).None? {
      EmbeddedAppend(chunks[..i], chunks[i..], embed);
      assert chunks[..i] + chunks[i..] == chunks;
      assert Embedded(chunks[i..], embed) == [] by { assert chunks[i..][0] == c; }
    } else {
      EmbeddedAppend(chunks[..i], [c], embed);
      assert chunks[..i + 1] == chunks[..i] + [c];
      assert Embedded([c], embed) == [StoredChunk(c.text, embed(c.text).value, c.page)] by {
        assert [c][1..] == [];
      }
      var done := chunks[..i + 1];
      assert AllEmbedded(done, embed) by {
        forall k | 0 <= k < |done| ensures embed(done[k].text).Some? {
          if k < i { assert done[k] == chunks[..i][k]; }
        }
      }
    }
  }

  /** The stored chunks are a prefix of the tagged chunks with their text and
      page unchanged and the embedding of their text attached; all of them are
      stored exactly when no embedding call throws, and otherwise the first
      chunk left out is the one whose call threw. */
  lemma {:induction false} EmbeddedSpec(chunks: seq<PageChunk>, embed: string -> Option<Embedding>)
    ensures |Embedded(chunks, embed)| <= |chunks|
    ensures forall k :: 0 <= k < |Embedded(chunks, embed)| ==>
      embed(chunks[k].text).Some? &&
      Embedded(chunks, embed)[k] == StoredChunk(chunks[k].text, embed(chunks[k].text).value, chunks[k].page)
    ensures |Embedded(chunks, embed)| == |chunks| <==> AllEmbedded(chunks, embed)
    ensures |Embedded(chunks, embed)| < |chunks| ==> embed(chunks[|Embedded(chunks, embed)|].text).None?
  {
    if chunks != [] {
      EmbeddedSpec(chunks[1..], embed);
      if embed(chunks[0].text).Some? {
        var e := Embedded(chunks, embed);
        assert e[1..] == Embedded(chunks[1..], embed);
        if |e| < |chunks| {
          assert chunks[|e|] == chunks[1..][|e| - 1];
        }
        if AllEmbedded(chunks[1..], embed) {
          assert AllEmbedded(chunks, embed) by {
            forall k | 0 <= k < |chunks| ensures embed(chunks[k].text).Some? {
              if k > 0 { assert chunks[k] == chunks[1..][k - 1]; }
            }
          }
        } else {
          var k :| 0 <= k < |chunks[1..]| && embed(chunks[1..][k].text).None?;
          assert chunks[k + 1] == chunks[1..][k];
        }
      }
    }
  }

  // ----- Query -----

  /** The key the chat route sorts by: `cosineSimilarity(questionEmbedding, chunk.vector)`. */
  function Relevance(score: (Embedding, Embedding) -> real, question: Embedding): StoredChunk -> real
  {
    (c: StoredChunk) => score(question, c.vector)
  }

  /** `ranked`: the three best-scoring chunks, best first, equal scores in
      storage order. */
  function Rank(chunks: seq<StoredChunk>, question: Embedding, score: (Embedding, Embedding) -> real)
    : (ranked: seq<Scored<StoredChunk>>)
    ensures |ranked| == Min(TopChunks, |chunks|)
    ensures SortedDesc(ranked)
    ensures forall i :: 0 <= i < |ranked| ==>
      ranked[i].item in chunks && ranked[i].score == score(question, ranked[i].item.vector)
    ensures multiset(ranked) <= multiset(ScoreAll(chunks, Relevance(score, question)))
    ensures forall x, y :: x in multiset(ScoreAll(chunks, Relevance(score, question))) - multiset(ranked) && y in ranked ==>
      x.score <= y.score
    ensures forall v :: WithScore(ranked, v) <= WithScore(ScoreAll(chunks, Relevance(score, question)), v)
  {
    TopK(chunks, Relevance(score, question), TopChunks)
  }

  function Texts(ranked: seq<Scored<StoredChunk>>): (texts: seq<string>)
    ensures |texts| == |ranked|
  {
    seq(|ranked|, i requires 0 <= i < |ranked| => ranked[i].item.text)
  }

  /** `ranked.map((r) => r.text).join("\n---\n")`. */
  function Context(ranked: seq<Scored<StoredChunk>>): string
  {
    Join(Texts(ranked), ContextSeparator)
  }

  /** The context holds the ranked texts in ranked order, each followed by the
      separator except the last, and nothing else. */
  lemma ContextLayout(ranked: seq<Scored<StoredChunk>>, i: nat)
    requires i < |ranked|
    ensures var o := Offset(Texts(ranked), ContextSeparator, i);
      var t := ranked[i].item.text;
      o + |t| <= |Context(ranked)| &&
      Context(ranked)[o..o + |t|] == t &&
      (i + 1 < |ranked| ==> o + |t| + 5 <= |Context(ranked)| && Context(ranked)[o + |t|..o + |t| + 5] == "\n---\n") &&
      (i + 1 == |ranked| ==> o + |t| == |Context(ranked)|)
  {
    JoinAt(Texts(ranked), ContextSeparator, i);
  }

  /** `text.slice(0, 80) + "..."`: the ellipsis is appended even when nothing
      was cut off. */
  function Preview(text: string): (p: string)
    ensures |p| == Min(PreviewLength, |text|) + |Ellipsis| <= 83
    ensures p[..|p| - 3] <= text && p[|p| - 3..] == Ellipsis
    ensures |text| <= PreviewLength ==> p == text + Ellipsis
  {
    text[..Min(PreviewLength, |text|)] + Ellipsis
  }

  /** The preview of "Hello world" is the whole text followed by "...". */
  lemma ShortPreview()
    ensures Preview("Hello world") == "Hello world..."
  {
  }

  /** `ranked.map((r) => ({ preview: ..., page: r.page }))`. */
  function Citations(ranked: seq<Scored<StoredChunk>>): (cs: seq<Citation>)
    ensures |cs| == |ranked|
    ensures forall i :: 0 <= i < |cs| ==>
      cs[i].page == ranked[i].item.page && cs[i].preview == Preview(ranked[i].item.text)
  {
    seq(|ranked|, i requires 0 <= i < |ranked| => Citation(Preview(ranked[i].item.text), ranked[i].item.page))
  }

  /** The user message: the context, then the question. */
  function Prompt(context: string, question: string): string
  {
    "Use the following context to answer the question:\n" + context + "\n\nQuestion: " + question
  }

  function Completion(context: string, question: string): CompletionRequest
  {
    CompletionRequest(ModelName, SystemPrompt, Prompt(context, question), MaxTokens)
  }

  class ServerState {
    /** `embedder`: absent until the model has loaded. */
    var embedder: Option<string -> Option<Embedding>>
    /** `pdfChunks`: the chunks of the current document. */
    var pdfChunks: seq<StoredChunk>

    constructor ()
      ensures embedder == None && pdfChunks == []
    {
      embedder := None;
      pdfChunks := [];
    }

    /** The start-up load of the embedding model. */
    method LoadEmbedder(model: string -> Option<Embedding>)
      modifies this
      ensures embedder == Some(model) && pdfChunks == old(pdfChunks)
    {
      embedder := Some(model);
    }

    /** The upload route. Refused without touching the chunks while the model
        is not loaded or when the file cannot be read; otherwise the chunks
        are reset and refilled, in page order, with the embedded tagged chunks.
        An embedding call that throws ends the upload with the chunks stored
        so far. */
    method Upload(parsed: Option<string>) returns (r: Result<nat, ServerError>)
      modifies this
      ensures embedder == old(embedder)
      ensures old(embedder).None? ==> r == Failure(EmbedderNotReady) && pdfChunks == old(pdfChunks)
      ensures old(embedder).Some? && parsed.None? ==> r == Failure(UploadFailed) && pdfChunks == old(pdfChunks)
      ensures old(embedder).Some? && parsed.Some? ==>
        var chunks := Tagged(ExtractPages(parsed.value));
        pdfChunks == Embedded(chunks, embedder.value) &&
        r == (if AllEmbedded(chunks, embedder.value) then Success(|chunks|) else Failure(UploadFailed))
      ensures r.Success? ==> r.value == |pdfChunks|
    {
      if embedder.None? {
        return Failure(EmbedderNotReady);
      }
      if parsed.None? {
        return Failure(UploadFailed);
      }
      var embed := embedder.value;
      var pages := ExtractPages(parsed.value);
      var chunks := TagPages(pages);
      pdfChunks := [];
      var i := 0;
      while i < |chunks|
        invariant 0 <= i <= |chunks|
        invariant embedder == old(embedder)
        invariant AllEmbedded(chunks[..i], embed)
        invariant pdfChunks == Embedded(chunks[..i], embed)
      {
        var output := embed(chunks[i].text);
        EmbeddedStep(chunks, i, embed);
        if output.None? {
          return Failure(UploadFailed);
        }
        pdfChunks := pdfChunks + [StoredChunk(chunks[i].text, output.value, chunks[i].page)];
        i := i + 1;
      }
      assert chunks[..i] == chunks;
      EmbeddedSpec(chunks, embed);
      r := Success(|pdfChunks|);
    }

    /** The chat route. An empty store is refused before the embedder is
        looked at; on success the answer is the model's reply to the prompt
        built from the ranked chunks, and the citations follow the ranking. */
    function Chat(question: string, score: (Embedding, Embedding) -> real,
                  complete: CompletionRequest -> Option<string>): (r: Result<ChatReply, ServerError>)
      reads this
      ensures r == Failure(NoPdfUploaded) <==> pdfChunks == []
      ensures r == Failure(EmbedderNotReady) <==> pdfChunks != [] && embedder.None?
      ensures r.Success? ==>
        embedder.Some? && embedder.value(question).Some? &&
        var ranked := Rank(pdfChunks, embedder.value(question).value, score);
        complete(Completion(Context(ranked), question)) == Some(r.value.answer) &&
        r.value.citations == Citations(ranked)
      ensures r.Success? ==> |r.value.citations| == Min(TopChunks, |pdfChunks|)
      ensures pdfChunks != [] && embedder.Some? ==>
        (r.Success? <==>
          embedder.value(question).Some? &&
          complete(Completion(Context(Rank(pdfChunks, embedder.value(question).value, score)), question)).Some?)
      ensures r == Failure(QueryFailed) <==> pdfChunks != [] && embedder.Some? && !r.Success?
    {
      if pdfChunks == [] then Failure(NoPdfUploaded)
      else if embedder.None? then Failure(EmbedderNotReady)
      else match embedder.value(question)
        case None => Failure(QueryFailed)
        case Some(q) =>
          var ranked := Rank(pdfChunks, q, score);
          match complete(Completion(Context(ranked), question))
          case None => Failure(QueryFailed)
          case Some(answer) => Success(ChatReply(answer, Citations(ranked)))
    }
  }

  /** Some stored chunk carries page `p`. */
  predicate HasStoredPage(chunks: seq<StoredChunk>, p: nat)
  {
    exists k :: 0 <= k < |chunks| && chunks[k].page == p
  }

  /** A successful upload of a document with at least one non-blank page
      stores at least one chunk for every page, so the store is not empty and
      chat no longer answers "No PDF uploaded yet". `pages` are the pages the
      upload extracts, which are never empty (`ExtractPages`). */
  lemma UploadFillsStore(pages: seq<string>, embed: string -> Option<Embedding>)
    requires pages != []
    requires forall k :: 0 <= k < |pages| ==> pages[k] != []
    requires AllEmbedded(Tagged(pages), embed)
    ensures forall p :: 1 <= p <= |pages| ==> HasStoredPage(Embedded(Tagged(pages), embed), p)
    ensures |Embedded(Tagged(pages), embed)| >= |pages| > 0
  {
    var stored := Embedded(Tagged(pages), embed);
    TaggedCount(pages);
    EmbeddedSpec(Tagged(pages), embed);
    forall p | 1 <= p <= |pages| ensures HasStoredPage(stored, p) {
      assert HasPage(Tagged(pages), p);
      var k :| 0 <= k < |Tagged(pages)| && Tagged(pages)[k].page == p;
      assert stored[k].page == p;
    }
  }
}
