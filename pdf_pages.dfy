/** The page pipeline of `extractPages`: the text the PDF parser returns is
    split on form feeds, every piece is trimmed and the blank ones are dropped.
    Reading the file and parsing the PDF are not part of this model: the
    parser's text is the input. */
module PdfPages {
  import opened Text

  /** The character the code splits pages on. */
  const FormFeed: char := '\U{000C}'

  /** `a` is `b` with some elements left out, the rest in their order. */
  predicate IsSubseq<T(==)>(a: seq<T>, b: seq<T>)
    decreases |b|
  {
    if a == [] then true
    else if b == [] then false
    else if a[0] == b[0] then IsSubseq(a[1..], b[1..])
    else IsSubseq(a, b[1..])
  }

  /** Number of empty strings in `xs`. */
  function CountBlank(xs: seq<string>): nat
  {
    if xs == [] then 0 else (if xs[0] == [] then 1 else 0) + CountBlank(xs[1..])
  }

  /** `xs.map((p) => p.trim())`. */
  function TrimAll(xs: seq<string>): (r: seq<string>)
    ensures |r| == |xs|
  {
    seq(|xs|, i requires 0 <= i < |xs| => Trim(xs[i]))
  }

  /** `xs.filter(Boolean)`: exactly the non-empty strings of `xs`, in order. */
  function DropBlank(xs: seq<string>): (r: seq<string>)
    ensures forall i :: 0 <= i < |r| ==> r[i] != []
    ensures forall x :: x in r <==> x in xs && x != []
    ensures IsSubseq(r, xs)
    ensures |r| == |xs| - CountBlank(xs)
  {
    if xs == [] then []
    else if xs[0] == [] then DropBlank(xs[1..])
    else [xs[0]] + DropBlank(xs[1..])
  }

  /** The pages of a document whose extracted text is `text`: non-empty, trimmed,
      free of form feeds, in document order, at most one per form-feed piece. */
  function ExtractPages(text: string): (pages: seq<string>)
    ensures forall i :: 0 <= i < |pages| ==>
      pages[i] != [] && IsTrimmed(pages[i]) && FormFeed !in pages[i]
    ensures IsSubseq(pages, TrimAll(Split(text, FormFeed)))
    ensures |pages| == Count(text, FormFeed) + 1 - CountBlank(TrimAll(Split(text, FormFeed)))
    ensures |pages| <= Count(text, FormFeed) + 1
  {
    var pieces := TrimAll(Split(text, FormFeed));
    TrimmedPieces(Split(text, FormFeed), FormFeed);
    var pages := DropBlank(pieces);
    assert forall i :: 0 <= i < |pages| ==> pages[i] in pieces;
    pages
  }

  /** Trimmed pieces are trimmed and gain no character. */
  lemma TrimmedPieces(xs: seq<string>, c: char)
    requires forall i :: 0 <= i < |xs| ==> c !in xs[i]
    ensures forall x :: x in TrimAll(xs) ==> IsTrimmed(x) && c !in x
  {
    forall x | x in TrimAll(xs) ensures IsTrimmed(x) && c !in x {
      var i :| 0 <= i < |xs| && TrimAll(xs)[i] == x;
      assert x == Trim(xs[i]);
    }
  }

  /** A text without form feeds and with some visible character is one page:
      the text itself, trimmed. */
  lemma {:induction false} SinglePage(text: string)
    requires FormFeed !in text && !AllWs(text)
    ensures ExtractPages(text) == [Trim(text)]
  {
    SplitPiece(text, FormFeed);
    assert TrimAll([text]) == [Trim(text)];
    assert DropBlank([Trim(text)]) == [Trim(text)] + DropBlank([]);
  }

  /** An all-whitespace text, the empty text included, has no pages. */
  lemma {:induction false} BlankTextHasNoPages(text: string)
    requires AllWs(text)
    ensures ExtractPages(text) == []
  {
    var segs := Split(text, FormFeed);
    var pieces := TrimAll(segs);
    JoinSplit(text, FormFeed);
    forall k | 0 <= k < |pieces| ensures pieces[k] == [] {
      SegmentIsInfix(segs, [FormFeed], k);
      assert AllWs(segs[k]) by {
        forall m | 0 <= m < |segs[k]| ensures IsWs(segs[k][m]) {
          assert segs[k][m] in text;
        }
      }
    }
    var pages := DropBlank(pieces);
    assert |pages| == 0 || pages[0] in pieces;
  }

  /** Every piece of a join occurs inside the joined string. */
  lemma {:induction false} SegmentIsInfix(parts: seq<string>, sep: string, k: nat)
    requires k < |parts|
    ensures forall c :: c in parts[k] ==> c in Join(parts, sep)
  {
    JoinAt(parts, sep, k);
    var o := Offset(parts, sep, k);
    forall c | c in parts[k] ensures c in Join(parts, sep) {
      var m :| 0 <= m < |parts[k]| && parts[k][m] == c;
      assert Join(parts, sep)[o + m] == c;
    }
  }
}
