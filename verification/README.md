# PayPal daily digest — a Dafny model

This project models the pipeline of `paypal_digest`. The pipeline collects
PayPal news from three sources, drops what an earlier run already handled,
orders the rest newest first, summarizes it and renders a dated Markdown
report. The model covers these parts:

- **seqs** (`seqs.dfy`): the order-preserving selection that the list
  comprehension and the skipping loop of `build_digest` and the paragraph
  filter of enrichment all perform.
- **models** (`models.dfy`): the `Article` record. An article's identity is
  the hash of `name::url`. Its primary text is the content when that is
  non-empty, otherwise the summary.
- **fetchers** (`fetchers.dfy`): the three fetchers are NewsAPI, Google News
  RSS and the PYMNTS listing page.
  - Each receives its already-parsed response, or the fact that the request
    failed.
  - An entry without a title or a url is skipped.
  - The `fetch` calls are aggregated in `collect_articles`. A fetcher that
    raised is skipped. An id already accepted is skipped. So is an article
    that mentions neither `paypal` nor `pypl` in any letter case.
  - The loop is proved equal to a declarative description: it keeps the
    first relevant occurrence of each id.
- **state** (`state.dfy`): the JSON history, a map from id to title. It
  loads as empty when the file is missing or its text is not JSON. A file
  that cannot be decoded as text makes loading raise, because only
  `JSONDecodeError` is caught. Saving and loading give back the same store.
- **content** (`content.dfy`): page enrichment.
  - It skips articles that already have content.
  - It gives up when the request fails or the page has no non-empty
    paragraph.
  - Otherwise it joins the paragraphs with blank lines and keeps the first
    2000 characters.
- **summarizer** (`summarizer.dfy`): the extractive summary, or else the
  first 60 words of the text joined by single spaces.
- **digest** (`digest.dfy`): `build_digest`.
  - It keeps the fresh articles, sorts them newest first and keeps those
    with text.
  - Each kept article becomes one item. Its id is recorded in the history
    with its title.
  - Cross-run properties are proved: no id is processed twice, and re-running
    on the same input yields nothing.
- **markdown** (`markdown.dfy`): `Digest.to_markdown`.
- **run** (`run.dfy`): `run`. It loads the history, collects, builds and
  saves. It produces a report only when there is at least one item. It
  raises, before collecting anything, when the state file cannot be decoded.

The model's inputs stand for everything it cannot see:

- the hash (SHA-256 in the program);
- the date parser (`dateutil`);
- the page fetch and paragraph extraction of enrichment;
- the LSA sentence extractor;
- the timestamp formatter (`strftime`);
- each fetcher's parsed response.

Timestamps are natural numbers counted from Python's `datetime.min`. The
report date is given already formatted.

Behaviours of the code that the model keeps:

- The NewsAPI fetcher can raise, because a body that is not JSON fails in
  `response.json()` outside any `try`. `collect_articles` catches it
  (`Fetched.Raised`).
- Within one batch, the article that wins is the first *relevant* one with
  its id, not the first one encountered. An irrelevant article does not
  record its id (fetchers.py:188-196).
- A missing timestamp sorts as `datetime.min`. It ties with an article
  published exactly at `datetime.min`, and among tied articles the stable
  sort keeps input order (see `SortIsStable`).
- A state file whose bytes are not valid text raises `UnicodeDecodeError`
  in `read_text`. The handler catches only `JSONDecodeError`, so the build
  aborts before collecting (`RunOutcome.LoadFailed`).
- `summarize_text` returns "" for a non-empty text made only of whitespace
  when the extractor yields nothing. `Summarize` states exactly when the
  result is empty.

## Model

| member | source | states |
|---|---|---|
| Seqs.Filter | paypal_digest/digest.py:59 | an order-preserving selection keeps exactly the elements that pass the test and is never longer than its input |
| Seqs.FilterCount | paypal_digest/digest.py:59 | an element that passes is kept as often as it occurs, one that fails never |
| Seqs.FilterAppend | paypal_digest/digest.py:59 | selecting from a concatenation selects from each part in turn, so kept elements stay in input order |
| Seqs.FilterCommutes | paypal_digest/digest.py:59-70 | two selections give the same result in either order |
| Models.PrimaryText | paypal_digest/models.py:23-28 | the result is the content when that is non-empty, otherwise the summary (possibly missing or empty); it is always one of the two |
| Models.IdKey | paypal_digest/fetchers.py:30-31 | the hashed text is the fetcher name, then "::", then the url, each recoverable from its position |
| Models.CanonicalId | paypal_digest/fetchers.py:30-32 | the id is the hash of `name::url` and nothing else; its meaning is stated by IdKeysDiffer and FetcherKeysDiffer |
| Models.IdKeysDiffer | paypal_digest/fetchers.py:30-32 | for names without ':', equal hashed texts mean equal names and equal urls, so only a hash collision can make two origins share an id |
| Fetchers.Normalize | paypal_digest/fetchers.py:61-79 | every emitted article is the conversion of some entry, every accepted entry's article is emitted, and there are never more articles than entries |
| Fetchers.ParseDateTime | paypal_digest/fetchers.py:84-90 | a missing or empty value has no time; otherwise the date parser decides, failures included (a plain definition, relied on by the converters' contracts) |
| Fetchers.FetcherKeysDiffer | paypal_digest/fetchers.py:30-32 | two different (fetcher, url) pairs among the three fetchers hash different texts |
| Fetchers.NormalizeAppend | paypal_digest/fetchers.py:61-79 | converting a concatenation converts each part in turn; with one entry the result is its article or nothing, so articles come out in entry order |
| Fetchers.NewsApiArticle | paypal_digest/fetchers.py:61-79 | an item becomes an article exactly when its title and url are both non-empty; the article carries the item's title, url, parsed time, description as summary, content and author; its id is the hash of `newsapi::url` and its source defaults to "NewsAPI" |
| Fetchers.FetchNewsApi | paypal_digest/fetchers.py:40-81 | no key or a failed request gives an empty list; the fetch raises exactly when a key is set and the body is not JSON; otherwise the articles are the payload items converted in order, those without title or url skipped |
| Fetchers.GoogleNewsArticle | paypal_digest/fetchers.py:108-126 | an entry becomes an article exactly when title and link are non-empty; it carries the entry's title, link, source title (default "Google News"), parsed time and summary text, has no content and no author, and its id is the hash of `google_news::link` |
| Fetchers.FetchGoogleNews | paypal_digest/fetchers.py:98-128 | never raises; a failed request gives no article; otherwise the articles are the feed entries converted in order, those without title or link skipped |
| Fetchers.PymntsArticle | paypal_digest/fetchers.py:147-170 | a card becomes an article exactly when it has a header link with non-empty text and href; it carries that text and href, the parsed time and the excerpt as summary; the source is "PYMNTS", and there is no content or author |
| Fetchers.FetchPymnts | paypal_digest/fetchers.py:137-172 | never raises; a failed request gives no article; otherwise the articles are the cards converted in order, those without a usable header link skipped, each with source "PYMNTS" |
| Fetchers.MentionRelevant | paypal_digest/fetchers.py:202-205 | any letter-case spelling of a keyword in the title or in the summary makes the article relevant |
| Fetchers.PayPalInTitleRelevant | paypal_digest/fetchers.py:202-205 | a title containing "PayPal" makes the article relevant |
| Fetchers.Relevant | paypal_digest/fetchers.py:202-205 | a keyword occurs in the lowercased title, a space and the lowercased summary; its meaning is stated by RelevantIffMention |
| Fetchers.RelevantIffMention | paypal_digest/fetchers.py:202-205 | an article is relevant exactly when its title or its summary contains some letter-case spelling of a keyword; no match spans the joining space |
| Fetchers.RelevantMention | paypal_digest/fetchers.py:202-205 | a relevant article has a spelling of a keyword in its title or in its summary |
| Fetchers.KeptBelow | paypal_digest/fetchers.py:188-196 | the reference description of aggregation: the positions, ascending, that hold the first relevant occurrence of their id, and all such positions |
| Fetchers.Collected | paypal_digest/fetchers.py:175-199 | the reference result of aggregation: the articles at the kept positions of the concatenated fetcher output, in order |
| Fetchers.FirstRelevantExists | paypal_digest/fetchers.py:188-196 | every relevant article's id has a first relevant occurrence at or before it |
| Fetchers.TracksStep | paypal_digest/fetchers.py:188-196 | each step of the inner loop (skip a seen id, skip an irrelevant article, or accept and record the id) keeps the loop state equal to the reference description |
| Fetchers.RaisedContributesNothing | paypal_digest/fetchers.py:182-187 | a fetcher that raised leaves the concatenated output as if it were absent, so the other fetchers are collected unchanged |
| Fetchers.CollectFrom | paypal_digest/fetchers.py:188-196 | the inner loop over one fetcher's list moves the state from the list's first position to past its last |
| Fetchers.CollectFetcher | paypal_digest/fetchers.py:182-196 | one fetcher's turn, raising or not, moves the loop state past that fetcher's contribution |
| Fetchers.CollectArticles | paypal_digest/fetchers.py:175-199 | the result equals the reference `Collected`: exactly the first relevant occurrence of each id across the fetchers, in fetcher order; ids are unique, all are relevant, and every relevant id is represented |
| Text.Strip | paypal_digest/summarizer.py:26 | the result is a slice of the input with only whitespace before and after it and none at either of its ends; it is empty exactly when the input is all whitespace |
| Text.Words | paypal_digest/summarizer.py:29 | `split()` yields whitespace-free non-empty words, and none exactly when the text is all whitespace |
| Text.WordsGaps | paypal_digest/summarizer.py:29 | every text is its words in order with whitespace gaps around them, the gaps between neighbouring words non-empty |
| Text.WordsOfInterleave | paypal_digest/summarizer.py:29 | words laid out with such gaps split back into exactly those words |
| Text.WordsCharacterized | paypal_digest/summarizer.py:29 | `split()` gives `ws` exactly when the `ws` are tokens that, with whitespace gaps non-empty between neighbours, make up the text |
| Text.WordsOfJoin | paypal_digest/summarizer.py:29 | joining words with single spaces and splitting again gives the same words back |
| Text.JoinSingleSpaced | paypal_digest/summarizer.py:29 | words joined by " " form a single-spaced string, empty only for no words |
| Text.Lower | paypal_digest/fetchers.py:203 | lowercasing keeps the length and maps each ASCII capital to its small letter, leaving other characters alone |
| Text.LowerContains | paypal_digest/fetchers.py:203-205 | an occurrence of a needle survives lowercasing both sides |
| Text.LowerSlice | paypal_digest/fetchers.py:203 | lowercasing a slice is the slice of the lowercased text |
| Text.ContainsAt | paypal_digest/fetchers.py:205 | `needle in text` holds exactly when the needle occurs at some offset |
| Text.StripKeepsFirstLine | paypal_digest/digest.py:45 | a first line that begins and ends with a visible character is still the first line after stripping and appending the final newline |
| State.StateStore.SeenIds | paypal_digest/state.py:34-36 | the seen ids are exactly the keys of the history |
| State.StateStore.MarkSeen | paypal_digest/state.py:38-39 | records the title for the id, adds exactly that id to the seen ids and leaves every other entry as it was |
| State.Load | paypal_digest/state.py:21-28 | a missing file or text that is not JSON gives an empty history; an undecodable file raises; a stored map is taken as it is |
| State.Save | paypal_digest/state.py:30-32 | saving writes a stored file that loads back to the same history |
| Content.NonEmptyParagraphs | paypal_digest/content.py:33 | keeps every non-empty paragraph and nothing else |
| Content.ParagraphsInOrder | paypal_digest/content.py:33 | the paragraphs of a concatenation are those of each part, so page order is kept |
| Content.ParagraphsCount | paypal_digest/content.py:33 | a non-empty paragraph is kept as often as the page repeats it |
| Content.Truncate | paypal_digest/content.py:37-40 | the result is a prefix of the text, at most the limit long, the whole text when it fits and exactly the limit long otherwise |
| Content.Enrich | paypal_digest/content.py:16-42 | an article with content, a failed request or a page without paragraphs leaves the article unchanged; otherwise only the content changes, to a non-empty prefix of the paragraphs joined by blank lines, the whole join when it fits in 2000 characters and exactly 2000 characters otherwise |
| Content.BestText | paypal_digest/content.py:45-49 | after enrichment the enriched content is used; otherwise the primary text of the article as it was |
| Content.ContentSkipsFetch | paypal_digest/content.py:22-23 | an article with content gets the same result whatever the page, and its text is its content |
| Content.BestTextPresent | paypal_digest/content.py:45-49 | there is text exactly when the article has content, the page gives a paragraph, or the summary is non-empty; a failed enrichment falls back to the summary |
| Summarizer.Fallback | paypal_digest/summarizer.py:29 | the fallback's words are the first 60 words of the text, single-spaced; it is empty exactly when the text is all whitespace |
| Summarizer.Extractive | paypal_digest/summarizer.py:25-26 | the extractor's sentences joined by spaces, with only whitespace removed from either end, so the result is trimmed |
| Summarizer.Summarize | paypal_digest/summarizer.py:18-30 | a non-empty extractive summary is returned as it is; otherwise the fallback's words are returned; the result is empty exactly when both are; it is trimmed |
| Summarizer.SummaryNonEmpty | paypal_digest/summarizer.py:18-30 | a text with a visible character always gets a summary of at least one word |
| Summarizer.BatchSummarize | paypal_digest/summarizer.py:33-36 | one summary per text, in order, each the one `summarize_text` gives |
| Digests.Fresh | paypal_digest/digest.py:59 | keeps exactly the articles whose id is not in the history |
| Digests.FreshInOrder | paypal_digest/digest.py:59 | the fresh articles of a concatenation are those of each part, so input order is kept |
| Digests.FreshCount | paypal_digest/digest.py:59 | a fresh article occurs as often as in the input, any other not at all |
| Digests.Insert | paypal_digest/digest.py:60 | inserting into a newest-first list keeps it newest first and adds nothing but the article |
| Digests.InsertPermutes | paypal_digest/digest.py:60 | insertion adds exactly one copy of the article |
| Digests.SortByPublished | paypal_digest/digest.py:60 | the sorted list is newest first, with a missing timestamp counting as `datetime.min` |
| Digests.SortPermutes | paypal_digest/digest.py:60 | sorting is a permutation of its input |
| Digests.SortIsStable | paypal_digest/digest.py:60 | for every key, the articles carrying it keep their relative order |
| Digests.MissingSortsLast | paypal_digest/digest.py:60 | everything after an article without a timestamp has none either, or is at `datetime.min` |
| Digests.MissingTimestampSortsLast | paypal_digest/digest.py:60 | articles stamped T, unstamped and stamped T-1, in that order and with T-1 after `datetime.min` (t >= 2), come out as T, T-1, unstamped |
| Digests.WithText | paypal_digest/digest.py:66-70 | keeps exactly the articles whose best text is present |
| Digests.WithTextInOrder | paypal_digest/digest.py:66-70 | the kept articles of a concatenation are those of each part, so order is kept |
| Digests.WithTextCount | paypal_digest/digest.py:66-70 | an article with text occurs as often as in the input, any other not at all |
| Digests.WithTextSorted | paypal_digest/digest.py:66-70 | skipping articles without text keeps the newest-first order |
| Digests.FirstWithId | paypal_digest/digest.py:86 | a found article is in the list and carries the id; no result means no article carries it |
| Digests.FirstWithIdIsFirst | paypal_digest/digest.py:86 | the found article is the first one carrying the id: no earlier position has it |
| Digests.ItemFor | paypal_digest/digest.py:71-80 | an item carries its article's title, source, url and time, and as summary the (trimmed) `summarize_text` result, with the default three sentences, of its best text |
| Digests.RecordAll | paypal_digest/digest.py:85-87 | the history gains exactly the processed ids; untouched ids keep their title, and each processed id maps to the title of the first fresh article with it |
| Digests.Selected | paypal_digest/digest.py:59-70 | the processed articles are exactly the new ones with text, newest first |
| Digests.BuildDigest | paypal_digest/digest.py:54-91 | the digest is dated as given, has one id per item, and the history gains exactly the processed ids; the full statement is BuildDigestSpec |
| Digests.SelectedIsStableSort | paypal_digest/digest.py:59-70 | the processed articles are a permutation of the new articles with text in input order, and for each publication time they keep that input order |
| Digests.SelectedCount | paypal_digest/digest.py:59-70 | as many articles are processed as there are new articles with text |
| Digests.SelectedOnce | paypal_digest/digest.py:59-70 | when the input ids are distinct, no id is processed twice |
| Digests.IdsWithKeyOf | paypal_digest/digest.py:63-81 | the items published at a time carry the ids of the articles published at that time, in order |
| Digests.ItemsFollowReference | paypal_digest/digest.py:59-81 | there is one id per new article with text, ids are distinct when the input ids are, and per publication time they follow input order |
| Digests.BuildDigestSpec | paypal_digest/digest.py:54-91 | the digest is dated as given; each item is the summary of a new article with text, one per such article and every one processed, newest first with ties in input order, ids distinct when the input ids are; the history is the old one plus the processed ids, with old entries untouched and each processed id mapped to its item's title |
| Digests.BuildDigestItems | paypal_digest/digest.py:59-81 | item k comes from a new article with text carrying id k; every new article with text gets exactly one item; items are newest first, ties in input order |
| Digests.BuildDigestHistory | paypal_digest/digest.py:85-88 | the history keeps its old entries and gains the processed ids; each maps to its item's title; nothing changes when nothing was processed |
| Digests.SkippedNotRecorded | paypal_digest/digest.py:66-88 | an article without text gets no item and, when new, is not recorded, so a later run considers it again |
| Digests.BuildDigestIds | paypal_digest/digest.py:59-88 | processed ids were not in the history before and are afterwards, and the history only grows |
| Digests.BuildDigestCovers | paypal_digest/digest.py:59-88 | every article with text ends up in the history a build leaves |
| Digests.NoReprocessing | paypal_digest/digest.py:54-91 | a second run, on any articles, never processes an id the first run processed or the history held |
| Digests.SecondRunIsEmpty | paypal_digest/digest.py:54-91 | re-running on the same articles and pages with the saved history produces no item |
| Digests.UniqueIdsDetermine | paypal_digest/fetchers.py:188-196 | in a list whose ids are pairwise distinct, an id determines its article |
| Markdown.MarkdownLines | paypal_digest/digest.py:35-44 | the report has 2 + 7 lines per item and opens with the dated heading and a blank line |
| Markdown.MarkdownItemLines | paypal_digest/digest.py:36-44 | item k occupies exactly lines 2+7k to 2+7k+6, which hold its block |
| Markdown.ItemBlock | paypal_digest/digest.py:37-44 | the seven lines of one item: its `## title`, source and time, a blank, its stripped summary, a blank, its link and a blank; stated line by line by TitleLine, SourceLine, SummaryLine and LinkLine |
| Markdown.TitleLine | paypal_digest/digest.py:38 | item k's first line is `## ` and its title |
| Markdown.SourceLine | paypal_digest/digest.py:37-39 | item k's second line names its source and its published time, which reads "Unknown" when there is none |
| Markdown.SummaryLine | paypal_digest/digest.py:41 | item k's fourth line is its summary, stripped |
| Markdown.LinkLine | paypal_digest/digest.py:43 | item k's sixth line is its `[Read more](url)` link |
| Markdown.ToMarkdown | paypal_digest/digest.py:45 | the document is non-empty and ends with a newline |
| Markdown.MarkdownStartsWithHeading | paypal_digest/digest.py:35-45 | when the date ends in a visible character, the document starts with the heading on its own line |
| Runs.Run | paypal_digest/digest.py:54-108 | the run raises exactly when the state file cannot be decoded; otherwise its result and saved history are those `BuildDigest` gives for the collected articles (`Collected`) and the loaded history, a report is produced exactly when there is an item, and it is the digest's Markdown; processed ids were not in the loaded history; the saved history is the loaded one plus the processed ids, each mapped to its item's title; nothing changes when there is no item |

## Left out

- Transport and parsing: HTTP requests, timeouts, JSON decoding, RSS parsing and HTML element selection. Each fetcher receives the parsed response or the failure.
- A NewsAPI payload that is valid JSON but not an object makes `payload.get` raise, and so do `"articles": null` (iterating `None`) and an `articles` entry that is not an object (`item.get`), at fetchers.py:61-62. A `source` or feed `source` that is present but null, or not an object, does the same. The model folds these into `ApiUndecodable`, or into the default source name.
- Fetchers.NewsApiArticle: a `source` object whose `name` is present but null gives the article a source of `None`, which the report prints as "None". The parsed item carries the name as an optional string, so the decoder is expected to hand such a name over as `Some("None")`; a null name is not distinguished from that text.
- Fetchers.CollectArticles: the fetchers' results are given as a list. `collect_articles` replaces an empty or missing fetcher list by the three default fetchers (fetchers.py:178); `run` always calls it without a list, so the defaults are always used, and an explicitly empty list is not modelled.
- `dateutil` parsing is an input (`DateParser`), total with `None` for an unparseable value.
- Fetchers.ParseDateTime: the model does not tell naive from aware datetimes, so it leaves out the comparison error Python raises when sorting a mix of the two.
- Models.CanonicalId: SHA-256 is an input function. Collision resistance is not modelled: the model proves that different origins or urls give different hashed texts (IdKeysDiffer), not different ids.
- Models.Article: the constructor defaults (`author=None`, `id=""`) are not modelled separately. Every fetcher sets `id`, and the Google News and PYMNTS article constructors state that `author` is missing.
- The LSA summarizer (tokenizer, stemmer, stop words, ranking) is an input (`Extractor`).
- Summarizer.Extractive: the extractor always returns sentences. In the code `summarize_text` calls sumy without a `try` (summarizer.py:21-26), so an exception there (such as `LookupError` for a missing NLTK tokenizer) propagates out of `build_digest` at digest.py:71, before the history is saved at digest.py:88; the run then writes neither history nor report. That abort is not modelled.
- `strftime` is an input: the report date arrives formatted, and item times go through a formatter function.
- Text.Lower: only ASCII letters are lowercased. The keywords are ASCII and contain no `k` or `i`. Python's non-ASCII case mappings never produce the letters `p`, `a`, `y` or `l`. So the keyword match has the same result as with full Unicode lowercasing.
- Content.Enrich: `enrich_article_content` mutates the article in place. The model returns the updated article instead; nothing else holds the article during a build.
- State.Load: a state file whose JSON is not an object (`null`, a list) makes later calls fail in Python. The model treats every parseable file as a map of strings. Other read errors (permissions, a directory in the file's place) are not modelled.
- Logging, printing the report, creating directories and writing the report file are left out. `run` returns the report text it would write and print.
- `config.py` (environment variables, defaults) and `__main__.py` (command line) are not part of this model.
- Digests.MissingSortsLast: an article without a timestamp sorts after every article with a timestamp later than `datetime.min`. It ties with one stamped exactly `datetime.min`, as the `or datetime.min` key makes it.
