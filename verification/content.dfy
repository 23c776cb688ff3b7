/**
 * Best-effort enrichment of an article's body from its web page, and the
 * choice of text to summarize.
 *
 * The page request and HTML parsing are an input: `None` when the request
 * failed, otherwise the stripped text of every `p` element in page order.
 */
module Content {
  import opened Wrappers
  import opened Text
  import opened Models
  import opened Seqs

  /** Longest content enrichment stores. */
  const MaxChars := 2000

  /** Separator placed between paragraphs. */
  const ParagraphSeparator := "\n\n"

  /** Whether a paragraph has any text. */
  predicate NonEmptyText(p: string) {
    p != ""
  }

  /**
   * The paragraphs of a page with the empty ones dropped, in page order and
   * with repeated paragraphs kept (see `Seqs.Filter`).
   */
  function NonEmptyParagraphs(ps: seq<string>): (r: seq<string>)
    ensures forall k :: 0 <= k < |r| ==> r[k] != "" && r[k] in ps
    ensures forall p :: p in ps && p != "" ==> p in r
  {
    var r := Filter(ps, NonEmptyText);
    assert forall k :: 0 <= k < |r| ==> r[k] in r;
    r
  }

  /** The non-empty paragraphs of a concatenation are those of each part, in order. */
  lemma ParagraphsInOrder(x: seq<string>, y: seq<string>)
    ensures NonEmptyParagraphs(x + y) == NonEmptyParagraphs(x) + NonEmptyParagraphs(y)
    ensures NonEmptyParagraphs([]) == []
    ensures forall p :: NonEmptyParagraphs([p]) == if p == "" then [] else [p]
  {
    FilterAppend(x, y, NonEmptyText);
    forall p ensures NonEmptyParagraphs([p]) == if p == "" then [] else [p] {
      FilterOne(p, NonEmptyText);
    }
  }

  /** A non-empty paragraph is kept as often as the page repeats it; the empty one never. */
  lemma ParagraphsCount(ps: seq<string>)
    ensures forall p :: multiset(NonEmptyParagraphs(ps))[p] == if p == "" then 0 else multiset(ps)[p]
  {
    FilterCount(ps, NonEmptyText);
  }

  /** `text[:n]` when the text is longer than `n`. */
  function Truncate(text: string, n: nat): (r: string)
    ensures r <= text
    ensures |r| <= n
    ensures |text| <= n ==> r == text
    ensures |text| > n ==> |r| == n
  {
    if |text| > n then text[..n] else text
  }

  /** Enrichment replaces the content: the article had none and the page gave some text. */
  predicate Enriches(a: Article, page: Option<seq<string>>) {
    !Present(a.content) && page.Some? && NonEmptyParagraphs(page.value) != []
  }

  /**
   * `enrich_article_content`: an article that already has content, whose page
   * could not be fetched, or whose page has no non-empty paragraph, is
   * returned as it is; otherwise its content becomes the paragraphs joined by
   * blank lines, cut to `MaxChars` characters.
   */
  function Enrich(a: Article, page: Option<seq<string>>): (r: Article)
    ensures !Enriches(a, page) ==> r == a
    ensures r == a.(content := r.content)
    ensures Enriches(a, page) ==>
              var joined := Join(NonEmptyParagraphs(page.value), ParagraphSeparator);
              && r.content.Some?
              && |r.content.value| <= MaxChars
              && r.content.value <= joined
              && (|joined| <= MaxChars ==> r.content.value == joined)
              && (|joined| > MaxChars ==> |r.content.value| == MaxChars)
              && r.content.value != ""
  {
    if Present(a.content) then a
    else
      match page
      case None => a
      case Some(ps) =>
        var paragraphs := NonEmptyParagraphs(ps);
        if paragraphs == [] then a
        else
          JoinNonEmpty(paragraphs, ParagraphSeparator);
          a.(content := Some(Truncate(Join(paragraphs, ParagraphSeparator), MaxChars)))
  }

  /** Joining at least one non-empty string gives a non-empty string. */
  lemma {:induction false} JoinNonEmpty(ws: seq<string>, sep: string)
    requires ws != [] && ws[0] != ""
    ensures Join(ws, sep) != ""
  {
    if |ws| >= 2 {
      assert Join(ws, sep) == ws[0] + sep + Join(ws[1..], sep);
    }
  }

  /** `best_text`: the primary text of the enriched article. */
  function BestText(a: Article, page: Option<seq<string>>): (text: Option<string>)
    ensures Enriches(a, page) ==> text == Enrich(a, page).content && Present(text)
    ensures !Enriches(a, page) ==> text == PrimaryText(a)
  {
    PrimaryText(Enrich(a, page))
  }

  /** An article already carrying content is never enriched: the page is not consulted. */
  lemma ContentSkipsFetch(a: Article, page1: Option<seq<string>>, page2: Option<seq<string>>)
    requires Present(a.content)
    ensures Enrich(a, page1) == Enrich(a, page2) == a
    ensures BestText(a, page1) == a.content
  {
  }

  /**
   * There is text to summarize exactly when the article has content, the page
   * yields a non-empty paragraph, or the article has a non-empty summary; a
   * failed enrichment falls back to the summary.
   */
  lemma BestTextPresent(a: Article, page: Option<seq<string>>)
    ensures Present(BestText(a, page)) <==> Present(a.content) || Enriches(a, page) || Present(a.summary)
    ensures !Present(a.content) && !Enriches(a, page) ==> BestText(a, page) == a.summary
  {
  }
}
