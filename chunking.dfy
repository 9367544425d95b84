/** `chunkText` and the loop of the upload handler that tags every chunk with
    the 1-based position of its page among the non-blank pages left after
    splitting on form feeds, trimming and dropping the blank pieces. */
module Chunking {
  import opened Wrappers
  import opened Text

  /** The chunk size the upload handler passes to `chunkText`. */
  const ChunkSize: nat := 1000

  /** A piece of page text and the page it came from. */
  datatype PageChunk = PageChunk(text: string, page: nat)

  /** The pieces `chunkText` pushes from offset `i` on: `text.slice(i, i + size)`,
      then from `i + size`, while `i` is inside the text. */
  function ChunksFrom(text: string, size: nat, i: nat): seq<string>
    requires size > 0
    decreases |text| - i
  {
    if i >= |text| then []
    else [text[i..Min(i + size, |text|)]] + ChunksFrom(text, size, i + size)
  }

  /** All pieces of `chunkText(text, size)`. */
  function Chunks(text: string, size: nat): (r: seq<string>)
    requires size > 0
    ensures |text| == 0 ==> r == []
    ensures 0 < |text| <= size ==> r == [text]
  {
    assert 0 < |text| <= size ==>
      ChunksFrom(text, size, size) == [] && text[0..Min(size, |text|)] == text;
    ChunksFrom(text, size, 0)
  }

  /** `chunkText(text, size)`: the loop that slices the text every `size` characters. */
  method ChunkText(text: string, size: nat := 1000) returns (chunks: seq<string>)
    requires size > 0 || text == []
    ensures text == [] ==> chunks == []
    ensures size > 0 ==> chunks == Chunks(text, size)
  {
    chunks := [];
    var i := 0;
    while i < |text|
      invariant text == [] ==> chunks == []
      invariant size > 0 ==> chunks + ChunksFrom(text, size, i) == Chunks(text, size)
      decreases |text| - i
    {
      chunks := chunks + [text[i..Min(i + size, |text|)]];
      i := i + size;
    }
  }

  /** Concatenating the chunks gives back the text exactly. */
  lemma {:induction false} ChunksConcat(text: string, size: nat, i: nat)
    requires size > 0 && i <= |text|
    ensures Concat(ChunksFrom(text, size, i)) == text[i..]
    decreases |text| - i
  {
    if i < |text| {
      var j := Min(i + size, |text|);
      ChunksConcat(text, size, j);
      if j == |text| {
        assert ChunksFrom(text, size, i + size) == [];
      } else {
        assert ChunksFrom(text, size, i + size) == ChunksFrom(text, size, j);
      }
      assert text[i..] == text[i..j] + text[j..];
    }
  }

  /** Every chunk is non-empty and at most `size` long; all but the last are
      exactly `size` long. */
  lemma {:induction false} ChunkLengths(text: string, size: nat, i: nat)
    requires size > 0
    ensures forall k :: 0 <= k < |ChunksFrom(text, size, i)| ==>
      0 < |ChunksFrom(text, size, i)[k]| <= size
    ensures forall k :: 0 <= k < |ChunksFrom(text, size, i)| - 1 ==>
      |ChunksFrom(text, size, i)[k]| == size
    decreases |text| - i
  {
    if i < |text| {
      ChunkLengths(text, size, i + size);
      var r := ChunksFrom(text, size, i);
      assert r[1..] == ChunksFrom(text, size, i + size);
      if |r| > 1 {
        assert i + size < |text|;
      }
    }
  }

  /** A text of length L gives ceil(L / size) chunks: the count c is the one
      with (c - 1) * size < L <= c * size, and no chunks for an empty text. */
  lemma {:induction false} ChunkCount(text: string, size: nat, i: nat)
    requires size > 0 && i <= |text|
    ensures var c := |ChunksFrom(text, size, i)|;
      (i == |text| ==> c == 0) &&
      (i < |text| ==> (c - 1) * size < |text| - i <= c * size)
    decreases |text| - i
  {
    if |text| - i > size {
      ChunkCount(text, size, i + size);
      CeilStep(|ChunksFrom(text, size, i + size)|, size, |text| - i);
    }
  }

  lemma CeilStep(c: int, size: int, n: int)
    requires size > 0 && c >= 1 && n > size
    requires (c - 1) * size < n - size <= c * size
    ensures c * size < n <= (c + 1) * size
  {
  }

  /** `chunkText` on the whole text: exact cover, bounded lengths and count. */
  lemma ChunksSpec(text: string, size: nat)
    requires size > 0
    ensures Concat(Chunks(text, size)) == text
    ensures forall k :: 0 <= k < |Chunks(text, size)| ==> 0 < |Chunks(text, size)[k]| <= size
    ensures forall k :: 0 <= k < |Chunks(text, size)| - 1 ==> |Chunks(text, size)[k]| == size
    ensures |text| > 0 ==>
      (|Chunks(text, size)| - 1) * size < |text| <= |Chunks(text, size)| * size
  {
    ChunksConcat(text, size, 0);
    ChunkLengths(text, size, 0);
    ChunkCount(text, size, 0);
  }

  /** The chunks of one page, each tagged with that page number. */
  function Tag(chunks: seq<string>, page: nat): (r: seq<PageChunk>)
    ensures |r| == |chunks|
  {
    seq(|chunks|, k requires 0 <= k < |chunks| => PageChunk(chunks[k], page))
  }

  /** What the upload handler's nested `forEach` builds: the chunks of page 1,
      then those of page 2, and so on. */
  function Tagged(pages: seq<string>): seq<PageChunk>
  {
    if pages == [] then []
    else Tagged(pages[..|pages| - 1]) + Tag(Chunks(pages[|pages| - 1], ChunkSize), |pages|)
  }

  /** The two nested `forEach` loops of the upload handler. */
  method TagPages(pages: seq<string>) returns (chunks: seq<PageChunk>)
    ensures chunks == Tagged(pages)
  {
    chunks := [];
    for pageIndex := 0 to |pages|
      invariant chunks == Tagged(pages[..pageIndex])
    {
      var subChunks := ChunkText(pages[pageIndex], ChunkSize);
      for j := 0 to |subChunks|
        invariant chunks == Tagged(pages[..pageIndex]) + Tag(subChunks[..j], pageIndex + 1)
      {
        chunks := chunks + [PageChunk(subChunks[j], pageIndex + 1)];
      }
      assert pages[..pageIndex + 1][..pageIndex] == pages[..pageIndex];
      assert subChunks[..|subChunks|] == subChunks;
    }
    assert pages[..|pages|] == pages;
  }

  /** The texts of the chunks tagged with page `p`, in order. */
  function TextsOn(chunks: seq<PageChunk>, p: nat): seq<string>
  {
    if chunks == [] then []
    else (if chunks[0].page == p then [chunks[0].text] else []) + TextsOn(chunks[1..], p)
  }

  lemma {:induction false} TextsOnAppend(a: seq<PageChunk>, b: seq<PageChunk>, p: nat)
    ensures TextsOn(a + b, p) == TextsOn(a, p) + TextsOn(b, p)
  {
    if a == [] {
      assert a + b == b;
    } else {
      TextsOnAppend(a[1..], b, p);
      var h := if a[0].page == p then [a[0].text] else [];
      assert TextsOn(a + b, p) == h + TextsOn(a[1..] + b, p) by {
        assert (a + b)[0] == a[0];
        assert (a + b)[1..] == a[1..] + b;
      }
      assert h + (TextsOn(a[1..], p) + TextsOn(b, p)) == (h + TextsOn(a[1..], p)) + TextsOn(b, p);
    }
  }

  lemma {:induction false} TextsOnTag(chunks: seq<string>, page: nat, p: nat)
    ensures TextsOn(Tag(chunks, page), p) == if page == p then chunks else []
  {
    if chunks != [] {
      TextsOnTag(chunks[1..], page, p);
      assert Tag(chunks, page)[1..] == Tag(chunks[1..], page);
    }
  }

  lemma {:induction false} TextsOnAbsent(chunks: seq<PageChunk>, p: nat)
    requires forall k :: 0 <= k < |chunks| ==> chunks[k].page != p
    ensures TextsOn(chunks, p) == []
  {
    if chunks != [] {
      TextsOnAbsent(chunks[1..], p);
    }
  }

  /** Tagged chunks carry pages 1..|pages| in nondecreasing order, and each is a
      non-empty piece of at most ChunkSize characters. */
  lemma {:induction false} TaggedOrder(pages: seq<string>)
    ensures forall k :: 0 <= k < |Tagged(pages)| ==>
      1 <= Tagged(pages)[k].page <= |pages| && 0 < |Tagged(pages)[k].text| <= ChunkSize
    ensures forall k, l :: 0 <= k < l < |Tagged(pages)| ==> Tagged(pages)[k].page <= Tagged(pages)[l].page
  {
    if pages != [] {
      var init := pages[..|pages| - 1];
      TaggedOrder(init);
      var last := Chunks(pages[|pages| - 1], ChunkSize);
      ChunkLengths(pages[|pages| - 1], ChunkSize, 0);
      assert Tagged(pages) == Tagged(init) + Tag(last, |pages|);
    }
  }

  /** The chunks tagged with page p are exactly the chunks of page p, in order,
      so concatenated they are the text of page p; no chunk carries a page
      number outside 1..|pages|. */
  lemma {:induction false} TaggedPageTexts(pages: seq<string>, p: nat)
    ensures 1 <= p <= |pages| ==> TextsOn(Tagged(pages), p) == Chunks(pages[p - 1], ChunkSize)
    ensures 1 <= p <= |pages| ==> Concat(TextsOn(Tagged(pages), p)) == pages[p - 1]
    ensures p == 0 || p > |pages| ==> TextsOn(Tagged(pages), p) == []
  {
    if pages != [] {
      var n := |pages|;
      var init := pages[..n - 1];
      var last := Chunks(pages[n - 1], ChunkSize);
      TaggedPageTexts(init, p);
      assert Tagged(pages) == Tagged(init) + Tag(last, n);
      TextsOnAppend(Tagged(init), Tag(last, n), p);
      TextsOnTag(last, n, p);
      if p == n {
        TaggedOrder(init);
        TextsOnAbsent(Tagged(init), p);
      } else if 1 <= p {
        assert p < n ==> init[p - 1] == pages[p - 1];
      }
    }
    if 1 <= p <= |pages| {
      ChunksConcat(pages[p - 1], ChunkSize, 0);
      assert pages[p - 1][0..] == pages[p - 1];
    }
  }

  /** Some chunk of `chunks` carries page `p`. */
  predicate HasPage(chunks: seq<PageChunk>, p: nat)
  {
    exists k :: 0 <= k < |chunks| && chunks[k].page == p
  }

  /** Some chunk carries page p whenever some text is tagged with p. */
  lemma {:induction false} TextsOnWitness(chunks: seq<PageChunk>, p: nat)
    requires TextsOn(chunks, p) != []
    ensures HasPage(chunks, p)
  {
    if chunks[0].page != p {
      TextsOnWitness(chunks[1..], p);
      var k :| 0 <= k < |chunks[1..]| && chunks[1..][k].page == p;
      assert chunks[k + 1].page == p;
    }
  }

  /** Every non-empty page contributes at least one chunk, so every page
      number 1..|pages| is carried by some chunk and there are at least as
      many chunks as pages. */
  lemma {:induction false} TaggedCount(pages: seq<string>)
    requires forall k :: 0 <= k < |pages| ==> pages[k] != []
    ensures forall p :: 1 <= p <= |pages| ==> HasPage(Tagged(pages), p)
    ensures |Tagged(pages)| >= |pages|
  {
    forall p | 1 <= p <= |pages| ensures HasPage(Tagged(pages), p) {
      TaggedPageTexts(pages, p);
      TextsOnWitness(Tagged(pages), p);
    }
    if pages != [] {
      var n := |pages|;
      TaggedCount(pages[..n - 1]);
      ChunksConcat(pages[n - 1], ChunkSize, 0);
      assert Chunks(pages[n - 1], ChunkSize) != [];
    }
  }

  /** The end-to-end chunking example: a 1500-character page and a 500-character
      page give two chunks on page 1 (1000 and 500 characters) and one on page 2. */
  lemma TwoPageExample(a: string, b: string)
    requires |a| == 1500 && |b| == 500
    ensures Tagged([a, b]) ==
      [PageChunk(a[..1000], 1), PageChunk(a[1000..], 1), PageChunk(b, 2)]
  {
    assert [a, b][..1] == [a];
    assert [a][..0] == [];
    assert ChunksFrom(a, ChunkSize, 2000) == [];
    assert a[1000..Min(2000, 1500)] == a[1000..];
    assert ChunksFrom(a, ChunkSize, 1000) == [a[1000..]];
    assert a[0..Min(1000, 1500)] == a[..1000];
    assert Chunks(a, ChunkSize) == [a[..1000], a[1000..]];
    assert Chunks(b, ChunkSize) == [b];
    assert Tagged([a]) == Tag([a[..1000], a[1000..]], 1);
    assert Tagged([a, b]) == Tagged([a]) + Tag([b], 2);
  }
}
