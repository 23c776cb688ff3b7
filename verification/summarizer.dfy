/**
 * Summaries: the extractive summarizer's sentences when they say something,
 * otherwise the opening words of the text.
 *
 * The LSA summarizer (tokenizer, stemmer, stop words, ranking) is an input:
 * a function from text and sentence count to the selected sentences.
 */
module Summarizer {
  import opened Text

  type Extractor = (string, nat) -> seq<string>

  /** Sentence count `summarize_text` uses when the caller gives none. */
  const DefaultSentenceCount: nat := 3

  /** Number of words the fallback keeps. */
  const FallbackWords: nat := 60

  /** The extractive summary: the sentences joined by spaces, stripped. */
  function Extractive(text: string, sentenceCount: nat, extract: Extractor): (r: string)
    ensures Trimmed(r)
    ensures exists i :: Surrounded(Join(extract(text, sentenceCount), " "), r, i)
  {
    Strip(Join(extract(text, sentenceCount), " "))
  }

  /**
   * `" ".join(text.split()[:60])`: the first `FallbackWords` words of the
   * text, separated by single spaces.
   */
  function Fallback(text: string): (r: string)
    ensures Words(r) == Take(Words(text), FallbackWords)
    ensures |Words(r)| <= FallbackWords
    ensures SingleSpaced(r)
    ensures r == "" <==> AllSpace(text)
  {
    var ws := Take(Words(text), FallbackWords);
    assert forall k :: 0 <= k < |ws| ==> ws[k] == Words(text)[k];
    WordsOfJoin(ws);
    JoinSingleSpaced(ws);
    Join(ws, " ")
  }

  /**
   * `summarize_text`: the extractive summary when it is non-empty after
   * stripping, otherwise the fallback.
   */
  function Summarize(text: string, sentenceCount: nat, extract: Extractor): (r: string)
    ensures Extractive(text, sentenceCount, extract) != "" ==> r == Extractive(text, sentenceCount, extract)
    ensures Extractive(text, sentenceCount, extract) == "" ==>
              && Words(r) == Take(Words(text), FallbackWords)
              && SingleSpaced(r)
    ensures r == "" <==> Extractive(text, sentenceCount, extract) == "" && AllSpace(text)
    ensures Trimmed(r)
  {
    var summary := Extractive(text, sentenceCount, extract);
    if summary != "" then summary else Fallback(text)
  }

  /** `batch_summarize`: one summary per text, in order. */
  function BatchSummarize(texts: seq<string>, sentenceCount: nat, extract: Extractor): (r: seq<string>)
    ensures |r| == |texts|
    ensures forall i :: 0 <= i < |texts| ==> r[i] == Summarize(texts[i], sentenceCount, extract)
  {
    seq(|texts|, i requires 0 <= i < |texts| => Summarize(texts[i], sentenceCount, extract))
  }

  /** A text with any non-whitespace character always gets a non-empty summary. */
  lemma SummaryNonEmpty(text: string, sentenceCount: nat, extract: Extractor)
    requires !AllSpace(text)
    ensures Summarize(text, sentenceCount, extract) != ""
    ensures |Words(Summarize(text, sentenceCount, extract))| >= 1
  {
  }
}
