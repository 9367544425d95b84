/** `InMemoryVectorStore`: an ordered list of records that `add` appends to,
    `clear` empties and `search` ranks against a query embedding. The cosine
    similarity is the `score` parameter of `search`, called as
    `score(item.embedding, queryEmbedding)` like the source's `cosine`. */
module VectorStore {
  import opened Wrappers
  import opened Ranking

  /** One stored record `{id, page, text, embedding, summary}`. */
  datatype Item = Item(id: int, page: int, text: string, embedding: Embedding, summary: string)

  /** The key `search` sorts by: the similarity of an item to the query. */
  function Similarity(score: (Embedding, Embedding) -> real, query: Embedding): Item -> real
  {
    (it: Item) => score(it.embedding, query)
  }

  class InMemoryVectorStore {
    var items: seq<Item>

    constructor ()
      ensures items == []
    {
      items := [];
    }

    /** Appends one record at the end; the summary defaults to "". */
    method Add(id: int, page: int, text: string, embedding: Embedding, summary: string := "")
      modifies this
      ensures items == old(items) + [Item(id, page, text, embedding, summary)]
    {
      items := items + [Item(id, page, text, embedding, summary)];
    }

    /** The `k` (default 3) best-scoring items, best first, equal scores in insertion
        order; reads the items and changes nothing. */
    function Search(queryEmbedding: Embedding, score: (Embedding, Embedding) -> real, k: nat := 3): (r: seq<Scored<Item>>)
      reads this
      ensures |r| == Min(k, |items|)
      ensures items == [] ==> r == []
      ensures SortedDesc(r)
      ensures forall i :: 0 <= i < |r| ==>
        r[i].item in items && r[i].score == score(r[i].item.embedding, queryEmbedding)
      ensures multiset(r) <= multiset(ScoreAll(items, Similarity(score, queryEmbedding)))
      ensures forall x, y :: x in multiset(ScoreAll(items, Similarity(score, queryEmbedding))) - multiset(r) && y in r ==>
        x.score <= y.score
      ensures forall v :: WithScore(r, v) <= WithScore(ScoreAll(items, Similarity(score, queryEmbedding)), v)
    {
      TopK(items, Similarity(score, queryEmbedding), k)
    }

    /** Drops every record. */
    method Clear()
      modifies this
      ensures items == []
    {
      items := [];
    }
  }

  /** After `clear`, `search` finds nothing, whatever the query and k. */
  method ClearThenSearch(store: InMemoryVectorStore, query: Embedding, k: nat, score: (Embedding, Embedding) -> real)
    returns (r: seq<Scored<Item>>)
    modifies store
    ensures r == []
  {
    store.Clear();
    r := store.Search(query, score, k);
  }
}
