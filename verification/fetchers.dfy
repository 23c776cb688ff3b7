/**
 * The three source fetchers and the aggregation of their outputs.
 *
 * Transport and parsing (HTTP, JSON decoding, RSS parsing, HTML selection,
 * date parsing, hashing) are inputs: each fetcher receives the already
 * parsed response, or the fact that the request failed, and decides which
 * entries become articles.
 */
module Fetchers {
  import opened Wrappers
  import opened Text
  import opened Models

  /** What one call of a fetcher's `fetch` produced: an escaped exception, or a list. */
  datatype Fetched = Raised | Returned(articles: seq<Article>)

  /** The articles a fetch contributes to the aggregate; a raising fetcher contributes none. */
  function Contributed(f: Fetched): seq<Article> {
    if f.Returned? then f.articles else []
  }

  /** `dateutil.parser.parse` turned total: `None` where parsing raises. */
  type DateParser = string -> Option<Timestamp>

  /** `_parse_datetime`: a missing or empty value has no timestamp; otherwise the parser decides. */
  function ParseDateTime(parse: DateParser, value: Option<string>): Option<Timestamp> {
    if Present(value) then parse(value.value) else None
  }

  /**
   * The three fetchers hash distinct texts for distinct (fetcher, url) pairs,
   * because no fetcher name contains a ':'.
   */
  lemma FetcherKeysDiffer(name1: string, url1: string, name2: string, url2: string)
    requires name1 in FetcherNames && name2 in FetcherNames
    requires name1 != name2 || url1 != url2
    ensures IdKey(name1, url1) != IdKey(name2, url2)
  {
    assert FetcherNames == ["newsapi", "google_news", "pymnts"];
    if IdKey(name1, url1) == IdKey(name2, url2) {
      IdKeysDiffer(name1, url1, name2, url2);
    }
  }

  /** The names `_canonical_id` is given by the three fetchers. */
  const FetcherNames := [NewsApiName, GoogleNewsName, PymntsName]

  /** What every fetcher guarantees of each article it emits. */
  predicate Emitted(a: Article, hash: Hash, name: string) {
    a.title != "" && a.url != "" && a.id == CanonicalId(hash, name, a.url)
  }

  /** Turns entries into articles in order, skipping those `convert` rejects. */
  function Normalize<E>(entries: seq<E>, convert: E -> Option<Article>): (r: seq<Article>)
    ensures |r| <= |entries|
    ensures forall k :: 0 <= k < |r| ==>
              exists i :: 0 <= i < |entries| && convert(entries[i]) == Some(r[k])
    ensures forall i :: 0 <= i < |entries| && convert(entries[i]).Some? ==> convert(entries[i]).value in r
  {
    if entries == [] then []
    else
      var head := match convert(entries[0]) case Some(a) => [a] case None => [];
      var tail := Normalize(entries[1..], convert);
      assert forall i :: 1 <= i < |entries| ==> entries[i] == entries[1..][i - 1];
      head + tail
  }

  /**
   * Normalizing a concatenation normalizes each part; with the one-entry case
   * this says the articles come out in entry order.
   */
  lemma {:induction false} NormalizeAppend<E>(x: seq<E>, y: seq<E>, convert: E -> Option<Article>)
    ensures Normalize(x + y, convert) == Normalize(x, convert) + Normalize(y, convert)
    decreases |x|
  {
    if x != [] {
      var head := match convert(x[0]) case Some(a) => [a] case None => [];
      assert (x + y)[0] == x[0] && (x + y)[1..] == x[1..] + y;
      assert Normalize(x + y, convert) == head + Normalize(x[1..] + y, convert);
      NormalizeAppend(x[1..], y, convert);
      assert Normalize(x, convert) == head + Normalize(x[1..], convert);
    } else {
      assert x + y == y;
    }
  }

  /** One entry yields its article when it is accepted and nothing otherwise. */
  lemma NormalizeOne<E>(e: E, convert: E -> Option<Article>)
    ensures Normalize([e], convert) == if convert(e).Some? then [convert(e).value] else []
  {
    assert [e][1..] == [];
  }

  // ---------------------------------------------------------------- NewsAPI

  const NewsApiName := "newsapi"

  /** One element of the `articles` array of a NewsAPI response (absent keys are `None`). */
  datatype ApiItem = ApiItem(
    title: Option<string>,
    url: Option<string>,
    sourceName: Option<string>,
    publishedAt: Option<string>,
    description: Option<string>,
    content: Option<string>,
    author: Option<string>)

  /**
   * The outcome of the NewsAPI request: a transport or HTTP-status failure,
   * a body that is not JSON (the decode error escapes `fetch`), or the
   * decoded `articles` list (empty when the key is absent).
   */
  datatype ApiResponse = ApiRequestFailed | ApiUndecodable | ApiPayload(items: seq<ApiItem>)

  function NewsApiArticle(hash: Hash, parse: DateParser, item: ApiItem): (r: Option<Article>)
    ensures r.Some? <==> Present(item.title) && Present(item.url)
    ensures r.Some? ==> Emitted(r.value, hash, NewsApiName)
    ensures r.Some? ==> r.value.source == item.sourceName.GetOr("NewsAPI")
    ensures r.Some? ==>
              && r.value.title == item.title.value && r.value.url == item.url.value
              && r.value.publishedAt == ParseDateTime(parse, item.publishedAt)
              && r.value.summary == item.description && r.value.content == item.content
              && r.value.author == item.author
  {
    if !Present(item.title) || !Present(item.url) then None
    else Some(Article(
      title := item.title.value,
      url := item.url.value,
      source := item.sourceName.GetOr("NewsAPI"),
      publishedAt := ParseDateTime(parse, item.publishedAt),
      summary := item.description,
      content := item.content,
      author := item.author,
      id := CanonicalId(hash, NewsApiName, item.url.value)))
  }

  /** The per-item conversion of the NewsAPI loop. */
  function NewsApiConvert(hash: Hash, parse: DateParser): ApiItem -> Option<Article> {
    item => NewsApiArticle(hash, parse, item)
  }

  /** `NewsAPIFetcher.fetch` */
  function FetchNewsApi(apiKey: Option<string>, response: ApiResponse, hash: Hash, parse: DateParser): (r: Fetched)
    ensures !Present(apiKey) ==> r == Returned([])
    ensures response.ApiRequestFailed? ==> r == Returned([])
    ensures r.Raised? <==> Present(apiKey) && response.ApiUndecodable?
    ensures r.Returned? ==> forall a :: a in r.articles ==> Emitted(a, hash, NewsApiName)
    ensures Present(apiKey) && response.ApiPayload? ==>
              forall i :: 0 <= i < |response.items| && Present(response.items[i].title) && Present(response.items[i].url) ==>
                NewsApiArticle(hash, parse, response.items[i]).value in r.articles
    ensures Present(apiKey) && response.ApiPayload? ==>
              r == Returned(Normalize(response.items, NewsApiConvert(hash, parse)))
  {
    if !Present(apiKey) then Returned([])
    else
      match response
      case ApiRequestFailed => Returned([])
      case ApiUndecodable => Raised
      case ApiPayload(items) =>
        var convert := NewsApiConvert(hash, parse);
        var arts := Normalize(items, convert);
        assert forall a :: a in arts ==> Emitted(a, hash, NewsApiName) by {
          forall a | a in arts ensures Emitted(a, hash, NewsApiName) {
            var k :| 0 <= k < |arts| && arts[k] == a;
            var i :| 0 <= i < |items| && convert(items[i]) == Some(arts[k]);
          }
        }
        Returned(arts)
  }

  // ------------------------------------------------------------ Google News

  const GoogleNewsName := "google_news"

  /**
   * One RSS entry: title, link, the text of the summary HTML ("" when the
   * entry has none), the `published` field and the source title.
   */
  datatype FeedEntry = FeedEntry(
    title: Option<string>,
    link: Option<string>,
    summaryText: string,
    published: Option<string>,
    sourceTitle: Option<string>)

  datatype FeedResponse = FeedRequestFailed | Feed(entries: seq<FeedEntry>)

  function GoogleNewsArticle(hash: Hash, parse: DateParser, entry: FeedEntry): (r: Option<Article>)
    ensures r.Some? <==> Present(entry.title) && Present(entry.link)
    ensures r.Some? ==> Emitted(r.value, hash, GoogleNewsName)
    ensures r.Some? ==> r.value.content.None? && r.value.author.None?
    ensures r.Some? ==>
              && r.value.title == entry.title.value && r.value.url == entry.link.value
              && r.value.source == entry.sourceTitle.GetOr("Google News")
              && r.value.publishedAt == ParseDateTime(parse, entry.published)
              && r.value.summary == Some(entry.summaryText)
  {
    if !Present(entry.title) || !Present(entry.link) then None
    else Some(Article(
      title := entry.title.value,
      url := entry.link.value,
      source := entry.sourceTitle.GetOr("Google News"),
      publishedAt := ParseDateTime(parse, entry.published),
      summary := Some(entry.summaryText),
      content := None,
      author := None,
      id := CanonicalId(hash, GoogleNewsName, entry.link.value)))
  }

  /** The per-entry conversion of the Google News loop. */
  function GoogleNewsConvert(hash: Hash, parse: DateParser): FeedEntry -> Option<Article> {
    e => GoogleNewsArticle(hash, parse, e)
  }

  /** `GoogleNewsFetcher.fetch`; it never raises. */
  function FetchGoogleNews(response: FeedResponse, hash: Hash, parse: DateParser): (r: Fetched)
    ensures r.Returned?
    ensures response.FeedRequestFailed? ==> r.articles == []
    ensures forall a :: a in r.articles ==> Emitted(a, hash, GoogleNewsName) && a.content.None?
    ensures response.Feed? ==>
              forall i :: 0 <= i < |response.entries| && Present(response.entries[i].title) && Present(response.entries[i].link) ==>
                GoogleNewsArticle(hash, parse, response.entries[i]).value in r.articles
    ensures response.Feed? ==> r.articles == Normalize(response.entries, GoogleNewsConvert(hash, parse))
  {
    match response
    case FeedRequestFailed => Returned([])
    case Feed(entries) =>
      var convert := GoogleNewsConvert(hash, parse);
      var arts := Normalize(entries, convert);
      assert forall a :: a in arts ==> Emitted(a, hash, GoogleNewsName) && a.content.None? by {
        forall a | a in arts ensures Emitted(a, hash, GoogleNewsName) && a.content.None? {
          var k :| 0 <= k < |arts| && arts[k] == a;
          var i :| 0 <= i < |entries| && convert(entries[i]) == Some(arts[k]);
        }
      }
      Returned(arts)
  }

  // ----------------------------------------------------------------- PYMNTS

  const PymntsName := "pymnts"

  /** The `h2.entry-title a` link of a post card: its stripped text and `href`. */
  datatype CardHeader = CardHeader(text: string, href: Option<string>)

  /**
   * One `article.post` card: the header link if any, the stripped excerpt
   * paragraph if any, and the `datetime` attribute of its `time` element if any.
   */
  datatype Card = Card(header: Option<CardHeader>, excerpt: Option<string>, datetime: Option<string>)

  datatype PageResponse = PageRequestFailed | Page(cards: seq<Card>)

  function PymntsArticle(hash: Hash, parse: DateParser, card: Card): (r: Option<Article>)
    ensures r.Some? <==> card.header.Some? && card.header.value.text != "" && Present(card.header.value.href)
    ensures r.Some? ==> Emitted(r.value, hash, PymntsName)
    ensures r.Some? ==> r.value.source == "PYMNTS" && r.value.content.None? && r.value.author.None?
    ensures r.Some? ==>
              && r.value.title == card.header.value.text && r.value.url == card.header.value.href.value
              && r.value.publishedAt == ParseDateTime(parse, card.datetime)
              && r.value.summary == card.excerpt
  {
    match card.header
    case None => None
    case Some(header) =>
      if header.text == "" || !Present(header.href) then None
      else Some(Article(
        title := header.text,
        url := header.href.value,
        source := "PYMNTS",
        publishedAt := ParseDateTime(parse, card.datetime),
        summary := card.excerpt,
        content := None,
        author := None,
        id := CanonicalId(hash, PymntsName, header.href.value)))
  }

  /** The per-card conversion of the PYMNTS loop. */
  function PymntsConvert(hash: Hash, parse: DateParser): Card -> Option<Article> {
    c => PymntsArticle(hash, parse, c)
  }

  /** `PYMNTSFetcher.fetch`; it never raises. */
  function FetchPymnts(response: PageResponse, hash: Hash, parse: DateParser): (r: Fetched)
    ensures r.Returned?
    ensures response.PageRequestFailed? ==> r.articles == []
    ensures forall a :: a in r.articles ==> Emitted(a, hash, PymntsName) && a.source == "PYMNTS"
    ensures response.Page? ==>
              forall i :: 0 <= i < |response.cards| && PymntsArticle(hash, parse, response.cards[i]).Some? ==>
                PymntsArticle(hash, parse, response.cards[i]).value in r.articles
    ensures response.Page? ==> r.articles == Normalize(response.cards, PymntsConvert(hash, parse))
  {
    match response
    case PageRequestFailed => Returned([])
    case Page(cards) =>
      var convert := PymntsConvert(hash, parse);
      var arts := Normalize(cards, convert);
      assert forall a :: a in arts ==> Emitted(a, hash, PymntsName) && a.source == "PYMNTS" by {
        forall a | a in arts ensures Emitted(a, hash, PymntsName) && a.source == "PYMNTS" {
          var k :| 0 <= k < |arts| && arts[k] == a;
          var i :| 0 <= i < |cards| && convert(cards[i]) == Some(arts[k]);
        }
      }
      Returned(arts)
  }

  // -------------------------------------------------------------- relevance

  const Keywords: seq<string> := ["paypal", "pypl"]

  /** The lowercased `title + " " + (summary or "")` the keywords are searched in. */
  function RelevanceText(a: Article): string {
    Lower(a.title + " " + a.summary.GetOr(""))
  }

  /** `_is_relevant`: some keyword occurs in the relevance text. */
  predicate Relevant(a: Article) {
    exists k :: 0 <= k < |Keywords| && Contains(RelevanceText(a), Keywords[k])
  }

  /**
   * The match ignores case: an article whose title or summary contains any
   * spelling `m` of a keyword (such as "PayPal" or "PYPL") is relevant.
   */
  lemma MentionRelevant(a: Article, m: string, k: nat)
    requires k < |Keywords| && Lower(m) == Keywords[k]
    requires Contains(a.title, m) || (a.summary.Some? && Contains(a.summary.value, m))
    ensures Relevant(a)
  {
    var summary := a.summary.GetOr("");
    LowerConcat(a.title, " ");
    LowerConcat(a.title + " ", summary);
    var text := Lower(a.title) + Lower(" ") + Lower(summary);
    assert RelevanceText(a) == text;
    if Contains(a.title, m) {
      LowerContains(a.title, m);
      ContainsConcat(Lower(a.title), Lower(" "), Keywords[k]);
    } else {
      LowerContains(summary, m);
    }
    ContainsConcat(Lower(a.title) + Lower(" "), Lower(summary), Keywords[k]);
  }

  /** `m` is a spelling of one of the keywords, in any letter case. */
  predicate KeywordSpelling(m: string) {
    exists k :: 0 <= k < |Keywords| && Lower(m) == Keywords[k]
  }

  /** The article's title, or its summary when it has one, contains `m`. */
  predicate Mentions(a: Article, m: string) {
    Contains(a.title, m) || (a.summary.Some? && Contains(a.summary.value, m))
  }

  /**
   * `_is_relevant` exactly: an article is relevant if and only if its title
   * or its summary contains some spelling of a keyword. A match cannot span
   * the " " that joins the two, since no keyword contains a space.
   */
  lemma RelevantIffMention(a: Article)
    ensures Relevant(a) <==> exists m :: KeywordSpelling(m) && Mentions(a, m)
  {
    if exists m :: KeywordSpelling(m) && Mentions(a, m) {
      var m :| KeywordSpelling(m) && Mentions(a, m);
      var k :| 0 <= k < |Keywords| && Lower(m) == Keywords[k];
      MentionRelevant(a, m, k);
    }
    if Relevant(a) {
      var m := RelevantMention(a);
    }
  }

  /** The spelling a relevant article's match comes from. */
  lemma RelevantMention(a: Article) returns (m: string)
    requires Relevant(a)
    ensures KeywordSpelling(m) && Mentions(a, m)
  {
    var k :| 0 <= k < |Keywords| && Contains(RelevanceText(a), Keywords[k]);
    var kw, summary := Keywords[k], a.summary.GetOr("");
    LowerConcat(a.title, " ");
    LowerConcat(a.title + " ", summary);
    assert RelevanceText(a) == Lower(a.title) + " " + Lower(summary) by { assert Lower(" ") == " "; }
    KeywordsHaveNoSpace();
    var inTitle, j := SpaceSplit(Lower(a.title), Lower(summary), kw);
    if inTitle {
      m := SliceSpelling(a.title, j, |kw|, kw);
    } else {
      m := SliceSpelling(summary, j, |kw|, kw);
    }
  }

  /**
   * A needle without spaces found in `x + " " + y` is found wholly in `x`
   * (when `inFirst`) or wholly in `y`, at position `j`.
   */
  lemma SpaceSplit(x: string, y: string, needle: string) returns (inFirst: bool, j: nat)
    requires Contains(x + " " + y, needle)
    requires forall p :: 0 <= p < |needle| ==> needle[p] != ' '
    ensures inFirst ==> j + |needle| <= |x| && x[j..j + |needle|] == needle
    ensures !inFirst ==> j + |needle| <= |y| && y[j..j + |needle|] == needle
  {
    var text := x + " " + y;
    ContainsAt(text, needle);
    var i :| OccursAt(text, needle, i);
    assert text[|x|] == ' ';
    NoStraddle(text, |x|, needle, i);
    var n := |needle|;
    if i + n <= |x| {
      inFirst, j := true, i;
      assert x[i..i + n] == text[i..i + n];
    } else {
      inFirst, j := false, i - |x| - 1;
      assert y[j..j + n] == text[i..i + n];
    }
  }

  /** The slice of `s` whose lowercase form is `kw` is a spelling of `kw` that `s` contains. */
  lemma SliceSpelling(s: string, i: nat, n: nat, kw: string) returns (m: string)
    requires i + n <= |s| && Lower(s)[i..i + n] == kw
    ensures Lower(m) == kw && Contains(s, m)
  {
    m := s[i..i + n];
    LowerSlice(s, i, i + n);
    assert OccursAt(s, m, i);
    ContainsAt(s, m);
  }

  /** An occurrence of a needle without spaces lies wholly before or wholly after a space. */
  lemma NoStraddle(text: string, at: nat, needle: string, i: int)
    requires at < |text| && text[at] == ' ' && OccursAt(text, needle, i)
    requires forall j :: 0 <= j < |needle| ==> needle[j] != ' '
    ensures i + |needle| <= at || at < i
  {
    assert forall p :: i <= p < i + |needle| ==> text[p] == needle[p - i] by {
      assert forall p :: i <= p < i + |needle| ==> text[i..i + |needle|][p - i] == text[p];
    }
  }

  /** The keywords are lowercase words, non-empty and without spaces. */
  lemma KeywordsHaveNoSpace()
    ensures forall k, j :: 0 <= k < |Keywords| && 0 <= j < |Keywords[k]| ==> Keywords[k][j] != ' '
    ensures forall k :: 0 <= k < |Keywords| ==> |Keywords[k]| > 0
  {
    assert Keywords[0] == "paypal" && Keywords[1] == "pypl";
  }

  /** The company's name in its usual spelling in a title makes the article relevant. */
  lemma PayPalInTitleRelevant(a: Article)
    requires Contains(a.title, "PayPal")
    ensures Relevant(a)
  {
    assert Lower("PayPal") == Keywords[0];
    MentionRelevant(a, "PayPal", 0);
  }

  // ------------------------------------------------------------ aggregation

  /** The fetchers' outputs concatenated in fetcher order. */
  function Flatten(results: seq<Fetched>): seq<Article>
    decreases |results|
  {
    if results == [] then []
    else Flatten(results[..|results| - 1]) + Contributed(results[|results| - 1])
  }

  /** `arts[i]` is relevant and no earlier relevant article has its id. */
  predicate FirstRelevantAt(arts: seq<Article>, i: int)
    requires 0 <= i < |arts|
  {
    Relevant(arts[i]) && forall j :: 0 <= j < i && Relevant(arts[j]) ==> arts[j].id != arts[i].id
  }

  /**
   * The positions below `n` holding the first relevant occurrence of an id,
   * in increasing order: the reference description of what aggregation keeps.
   */
  function KeptBelow(arts: seq<Article>, n: nat): (kept: seq<nat>)
    requires n <= |arts|
    ensures forall k :: 0 <= k < |kept| ==> kept[k] < n && FirstRelevantAt(arts, kept[k])
    ensures forall k, l :: 0 <= k < l < |kept| ==> kept[k] < kept[l]
    ensures forall i :: 0 <= i < n && FirstRelevantAt(arts, i) ==> i in kept
    decreases n
  {
    if n == 0 then []
    else KeptBelow(arts, n - 1) + (if FirstRelevantAt(arts, n - 1) then [n - 1] else [])
  }

  function KeptIndices(arts: seq<Article>): seq<nat> {
    KeptBelow(arts, |arts|)
  }

  /**
   * The reference result of `collect_articles`: the articles at the kept
   * positions of the concatenated fetcher output, in order.
   */
  function Collected(results: seq<Fetched>): (r: seq<Article>)
    ensures |r| == |KeptIndices(Flatten(results))|
    ensures forall k :: 0 <= k < |r| ==> r[k] == Flatten(results)[KeptIndices(Flatten(results))[k]]
  {
    var arts := Flatten(results);
    var kept := KeptIndices(arts);
    seq(|kept|, k requires 0 <= k < |kept| => arts[kept[k]])
  }

  /** The ids of the relevant articles among the first `n`. */
  function RelevantIdsBelow(arts: seq<Article>, n: nat): set<string>
    requires n <= |arts|
  {
    set i | 0 <= i < n && Relevant(arts[i]) :: arts[i].id
  }

  function IdsOf(arts: seq<Article>): set<string> {
    set k | 0 <= k < |arts| :: arts[k].id
  }

  predicate UniqueIds(arts: seq<Article>) {
    forall k, l :: 0 <= k < l < |arts| ==> arts[k].id != arts[l].id
  }

  /** Whether position `p` is kept depends only on relevance and the ids already accepted. */
  lemma FirstRelevantStep(arts: seq<Article>, p: nat)
    requires p < |arts|
    ensures FirstRelevantAt(arts, p) <==> Relevant(arts[p]) && arts[p].id !in RelevantIdsBelow(arts, p)
  {
    if Relevant(arts[p]) && arts[p].id in RelevantIdsBelow(arts, p) {
      var j :| 0 <= j < p && Relevant(arts[j]) && arts[j].id == arts[p].id;
    }
  }

  lemma RelevantIdsStep(arts: seq<Article>, p: nat)
    requires p < |arts|
    ensures RelevantIdsBelow(arts, p + 1) ==
            RelevantIdsBelow(arts, p) + (if Relevant(arts[p]) then {arts[p].id} else {})
  {
  }

  /** Every relevant article has a first relevant occurrence of its id, at or before it. */
  lemma {:induction false} FirstRelevantExists(arts: seq<Article>, i: nat)
    requires i < |arts| && Relevant(arts[i])
    ensures exists j :: 0 <= j <= i && FirstRelevantAt(arts, j) && arts[j].id == arts[i].id
    decreases i
  {
    if !FirstRelevantAt(arts, i) {
      var j :| 0 <= j < i && Relevant(arts[j]) && arts[j].id == arts[i].id;
      FirstRelevantExists(arts, j);
    }
  }

  /** Prefixes of the fetcher list flatten to prefixes of the concatenation. */
  lemma {:induction false} FlattenPrefix(results: seq<Fetched>, f: nat)
    requires f <= |results|
    ensures Flatten(results[..f]) <= Flatten(results)
    decreases |results|
  {
    if f < |results| {
      var init := results[..|results| - 1];
      FlattenPrefix(init, f);
      assert init[..f] == results[..f];
    } else {
      assert results[..f] == results;
    }
  }

  lemma {:induction false} FlattenAppend(a: seq<Fetched>, b: seq<Fetched>)
    ensures Flatten(a + b) == Flatten(a) + Flatten(b)
    decreases |b|
  {
    if b == [] {
      assert a + b == a;
    } else {
      var init, last := b[..|b| - 1], Contributed(b[|b| - 1]);
      FlattenAppend(a, init);
      assert (a + b)[..|a + b| - 1] == a + init;
      assert (a + b)[|a + b| - 1] == b[|b| - 1];
      calc {
        Flatten(a + b);
        Flatten(a + init) + last;
        (Flatten(a) + Flatten(init)) + last;
        Flatten(a) + (Flatten(init) + last);
        Flatten(a) + Flatten(b);
      }
    }
  }

  /**
   * A fetcher that raised contributes nothing: aggregating with it gives the
   * same concatenation as leaving it out, so the other fetchers' articles are
   * collected exactly as they would be without it.
   */
  lemma RaisedContributesNothing(results: seq<Fetched>, k: nat)
    requires k < |results| && results[k].Raised?
    ensures Flatten(results) == Flatten(results[..k] + results[k + 1..])
  {
    var before, after := results[..k], results[k + 1..];
    assert results == (before + [results[k]]) + after;
    FlattenAppend(before + [results[k]], after);
    assert Flatten(before + [results[k]]) == Flatten(before) by {
      assert (before + [results[k]])[..k] == before;
    }
    FlattenAppend(before, after);
  }

  /** The loop state of `collect_articles` after the first `n` articles of the concatenation. */
  predicate Tracks(arts: seq<Article>, n: nat, aggregated: seq<Article>, seen: set<string>) {
    && n <= |arts|
    && |aggregated| == |KeptBelow(arts, n)|
    && (forall k :: 0 <= k < |aggregated| ==> aggregated[k] == arts[KeptBelow(arts, n)[k]])
    && seen == RelevantIdsBelow(arts, n)
  }

  /** Before the first article, nothing is kept and no id is recorded. */
  lemma TracksStart(arts: seq<Article>)
    ensures Tracks(arts, 0, [], {})
  {
    assert RelevantIdsBelow(arts, 0) == {};
  }

  /** One iteration of the inner loop of `collect_articles` keeps the loop state in step. */
  lemma TracksStep(arts: seq<Article>, n: nat, aggregated: seq<Article>, seen: set<string>)
    requires n < |arts| && Tracks(arts, n, aggregated, seen)
    ensures arts[n].id in seen ==> Tracks(arts, n + 1, aggregated, seen)
    ensures arts[n].id !in seen && !Relevant(arts[n]) ==> Tracks(arts, n + 1, aggregated, seen)
    ensures arts[n].id !in seen && Relevant(arts[n]) ==>
              Tracks(arts, n + 1, aggregated + [arts[n]], seen + {arts[n].id})
  {
    FirstRelevantStep(arts, n);
    RelevantIdsStep(arts, n);
  }

  /**
   * `collect_articles`: runs through every fetcher's output in fetcher order,
   * skipping a fetcher that raised, an article whose id was already accepted,
   * and an irrelevant article; an id is recorded only once its article passes
   * the relevance check.
   */
  method CollectArticles(results: seq<Fetched>) returns (aggregated: seq<Article>)
    ensures var arts := Flatten(results);
            var kept := KeptIndices(arts);
            && |aggregated| == |kept|
            && (forall k :: 0 <= k < |kept| ==> aggregated[k] == arts[kept[k]])
            && (forall k, l :: 0 <= k < l < |kept| ==> kept[k] < kept[l])
    ensures UniqueIds(aggregated)
    ensures forall k :: 0 <= k < |aggregated| ==> Relevant(aggregated[k])
    ensures var arts := Flatten(results);
            forall i :: 0 <= i < |arts| && Relevant(arts[i]) ==> arts[i].id in IdsOf(aggregated)
    ensures aggregated == Collected(results)
  {
    ghost var arts := Flatten(results);
    aggregated := [];
    var seen: set<string> := {};
    TracksStart(arts);
    for f := 0 to |results|
      invariant Tracks(arts, |Flatten(results[..f])|, aggregated, seen)
    {
      aggregated, seen := CollectFetcher(results, f, aggregated, seen);
    }
    assert results[..|results|] == results;
    CollectedProperties(arts, aggregated, seen);
  }

  /**
   * Fetcher `f`'s turn in `collect_articles`: a fetcher that raised is logged
   * and skipped; otherwise its articles go through the inner loop.
   */
  method CollectFetcher(results: seq<Fetched>, f: nat,
                        aggregated0: seq<Article>, seen0: set<string>)
    returns (aggregated: seq<Article>, seen: set<string>)
    requires f < |results|
    requires Tracks(Flatten(results), |Flatten(results[..f])|, aggregated0, seen0)
    ensures Tracks(Flatten(results), |Flatten(results[..f + 1])|, aggregated, seen)
  {
    ghost var arts, p := Flatten(results), |Flatten(results[..f])|;
    FlattenNext(results, f);
    match results[f]
    case Raised =>
      aggregated, seen := aggregated0, seen0;
    case Returned(items) =>
      aggregated, seen := CollectFrom(arts, p, |Flatten(results[..f + 1])|, items, aggregated0, seen0);
  }

  /**
   * The inner loop of `collect_articles` over one fetcher's articles, which
   * sit at positions `p ..` of the concatenation `arts`.
   */
  method CollectFrom(ghost arts: seq<Article>, ghost p: nat, ghost q: nat, items: seq<Article>,
                     aggregated0: seq<Article>, seen0: set<string>)
    returns (aggregated: seq<Article>, seen: set<string>)
    requires q == p + |items| <= |arts| && arts[p..q] == items
    requires Tracks(arts, p, aggregated0, seen0)
    ensures Tracks(arts, q, aggregated, seen)
  {
    aggregated, seen := aggregated0, seen0;
    for j := 0 to |items|
      invariant Tracks(arts, p + j, aggregated, seen)
    {
      var article := items[j];
      assert article == arts[p + j] by { assert arts[p..q][j] == arts[p + j]; }
      TracksStep(arts, p + j, aggregated, seen);
      if article.id in seen {
        continue;
      }
      if !Relevant(article) {
        continue;
      }
      seen := seen + {article.id};
      aggregated := aggregated + [article];
    }
  }

  /** The next fetcher's contribution follows the earlier ones inside the full concatenation. */
  lemma FlattenNext(results: seq<Fetched>, f: nat)
    requires f < |results|
    ensures results[f].Raised? ==> Flatten(results[..f + 1]) == Flatten(results[..f])
    ensures var pre, next := Flatten(results[..f]), Contributed(results[f]);
            && |Flatten(results[..f + 1])| == |pre| + |next|
            && |pre| + |next| <= |Flatten(results)|
            && Flatten(results)[|pre|..|pre| + |next|] == next
  {
    var pre, next := Flatten(results[..f]), Contributed(results[f]);
    assert results[..f + 1][..f] == results[..f];
    FlattenPrefix(results, f + 1);
    var whole := Flatten(results);
    assert whole[..|pre| + |next|] == pre + next;
    assert whole[|pre|..|pre| + |next|] == (pre + next)[|pre|..];
  }

  /** What the kept articles are, read off the reference description. */
  lemma CollectedProperties(arts: seq<Article>, aggregated: seq<Article>, seen: set<string>)
    requires Tracks(arts, |arts|, aggregated, seen)
    ensures var kept := KeptIndices(arts);
            && |aggregated| == |kept|
            && (forall k :: 0 <= k < |kept| ==> aggregated[k] == arts[kept[k]])
            && (forall k, l :: 0 <= k < l < |kept| ==> kept[k] < kept[l])
    ensures UniqueIds(aggregated)
    ensures forall k :: 0 <= k < |aggregated| ==> Relevant(aggregated[k])
    ensures forall i :: 0 <= i < |arts| && Relevant(arts[i]) ==> arts[i].id in IdsOf(aggregated)
  {
    KeptAreUnique(arts);
    KeptCoverRelevant(arts);
    var kept := KeptIndices(arts);
    forall i | 0 <= i < |arts| && Relevant(arts[i]) ensures arts[i].id in IdsOf(aggregated) {
      var k :| 0 <= k < |kept| && arts[kept[k]].id == arts[i].id;
      assert aggregated[k].id == arts[i].id;
    }
  }

  /** The kept articles carry pairwise distinct ids. */
  lemma KeptAreUnique(arts: seq<Article>)
    ensures var kept := KeptIndices(arts);
            forall k, l :: 0 <= k < l < |kept| ==> arts[kept[k]].id != arts[kept[l]].id
  {
  }

  /** Every relevant article's id is the id of some kept article. */
  lemma KeptCoverRelevant(arts: seq<Article>)
    ensures var kept := KeptIndices(arts);
            forall i :: 0 <= i < |arts| && Relevant(arts[i]) ==>
              exists k :: 0 <= k < |kept| && arts[kept[k]].id == arts[i].id
  {
    var kept := KeptIndices(arts);
    forall i | 0 <= i < |arts| && Relevant(arts[i])
      ensures exists k :: 0 <= k < |kept| && arts[kept[k]].id == arts[i].id
    {
      FirstRelevantExists(arts, i);
      var j :| 0 <= j <= i && FirstRelevantAt(arts, j) && arts[j].id == arts[i].id;
      var k :| 0 <= k < |kept| && kept[k] == j;
    }
  }
}
