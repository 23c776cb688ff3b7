/**
 * Building the daily digest: drop articles already in the history, order the
 * rest newest first, summarize those with text, record them in the history,
 * and render the report.
 */
module Digests {
  import opened Wrappers
  import opened Text
  import opened Models
  import opened Fetchers
  import opened Content
  import opened Summarizer
  import opened State
  import opened Seqs

  datatype DigestItem = DigestItem(
    title: string,
    source: string,
    url: string,
    publishedAt: Option<Timestamp>,
    summary: string)

  /** A report: the run's date (already formatted as `YYYY-MM-DD`) and its items. */
  datatype Digest = Digest(createdDate: string, items: seq<DigestItem>)

  datatype DigestResult = DigestResult(digest: Digest, newArticleIds: seq<string>)

  /** What a build returns, together with the history it leaves behind. */
  datatype Build = Build(result: DigestResult, store: StateStore)

  /** The page fetch of enrichment, by url: `None` when the request fails. */
  type PageFetcher = string -> Option<seq<string>>

  // ---------------------------------------------------------- fresh articles

  /** The test of the comprehension: the article's id is not in `seen`. */
  function NotIn(seen: set<string>): Article -> bool {
    (a: Article) => a.id !in seen
  }

  /**
   * `[article for article in articles if article.id not in seen_ids]`: the
   * articles whose id is not in `seen`, in their original order and with
   * their repetitions (see `Seqs.Filter`).
   */
  function Fresh(articles: seq<Article>, seen: set<string>): (r: seq<Article>)
    ensures forall a :: a in r <==> a in articles && a.id !in seen
    ensures |r| <= |articles|
  {
    Filter(articles, NotIn(seen))
  }

  /** The fresh articles of a concatenation are those of each part, in order. */
  lemma FreshInOrder(x: seq<Article>, y: seq<Article>, seen: set<string>)
    ensures Fresh(x + y, seen) == Fresh(x, seen) + Fresh(y, seen)
    ensures Fresh([], seen) == []
    ensures forall a :: Fresh([a], seen) == if a.id in seen then [] else [a]
  {
    FilterAppend(x, y, NotIn(seen));
    forall a ensures Fresh([a], seen) == if a.id in seen then [] else [a] {
      FilterOne(a, NotIn(seen));
    }
  }

  /** A fresh article occurs exactly as often as in the input; any other article not at all. */
  lemma FreshCount(articles: seq<Article>, seen: set<string>)
    ensures forall a :: multiset(Fresh(articles, seen))[a] == if a.id in seen then 0 else multiset(articles)[a]
  {
    FilterCount(articles, NotIn(seen));
  }

  // ---------------------------------------------------------------- ordering

  /** `published_at or datetime.min` */
  function SortKey(a: Article): Timestamp {
    a.publishedAt.GetOr(MinTimestamp)
  }

  predicate SortedDesc(s: seq<Article>) {
    forall i, j :: 0 <= i < j < |s| ==> SortKey(s[i]) >= SortKey(s[j])
  }

  /** Whether an article's sort key is `t`. */
  function KeyIs(t: Timestamp): Article -> bool {
    (a: Article) => SortKey(a) == t
  }

  /** The articles of `s` whose sort key is `t`, in order. */
  function WithKey(s: seq<Article>, t: Timestamp): seq<Article> {
    Filter(s, KeyIs(t))
  }

  /** An article no older than any of a sorted sequence can go in front of it. */
  lemma SortedCons(x: Article, s: seq<Article>)
    requires SortedDesc(s)
    requires forall y :: y in s ==> SortKey(x) >= SortKey(y)
    ensures SortedDesc([x] + s)
  {
    var r := [x] + s;
    forall i, j | 0 <= i < j < |r| ensures SortKey(r[i]) >= SortKey(r[j]) {
      assert r[j] == s[j - 1];
      if i > 0 { assert r[i] == s[i - 1]; }
    }
  }

  /** Places `x` before the first article whose key is not larger than its own. */
  function Insert(x: Article, s: seq<Article>): (r: seq<Article>)
    requires SortedDesc(s)
    ensures SortedDesc(r)
    ensures forall y :: y in r ==> y == x || y in s
    decreases |s|
  {
    if s == [] || SortKey(s[0]) <= SortKey(x) then
      SortedCons(x, s);
      [x] + s
    else
      var rest := Insert(x, s[1..]);
      assert forall y :: y in rest ==> SortKey(s[0]) >= SortKey(y) by {
        forall y | y in rest ensures SortKey(s[0]) >= SortKey(y) {
          if y != x {
            var k :| 0 <= k < |s[1..]| && s[1..][k] == y;
            assert s[k + 1] == y;
          }
        }
      }
      SortedCons(s[0], rest);
      [s[0]] + rest
  }

  /** Inserting adds exactly `x`: the result is a permutation of `s` with `x`. */
  lemma {:induction false} InsertPermutes(x: Article, s: seq<Article>)
    requires SortedDesc(s)
    ensures multiset(Insert(x, s)) == multiset(s) + multiset{x}
    decreases |s|
  {
    if s != [] && SortKey(s[0]) > SortKey(x) {
      InsertPermutes(x, s[1..]);
      assert s == [s[0]] + s[1..];
    }
  }

  /** Inserting `x` adds it in front of the articles with its key and leaves the other keys' runs alone. */
  lemma {:induction false} InsertWithKey(x: Article, s: seq<Article>, t: Timestamp)
    requires SortedDesc(s)
    ensures WithKey(Insert(x, s), t) == if SortKey(x) == t then [x] + WithKey(s, t) else WithKey(s, t)
    decreases |s|
  {
    var r := Insert(x, s);
    if s == [] || SortKey(s[0]) <= SortKey(x) {
      assert r[1..] == s;
    } else {
      var rest := Insert(x, s[1..]);
      assert r[1..] == rest;
      InsertWithKey(x, s[1..], t);
    }
  }

  /**
   * `fresh_articles.sort(key=..., reverse=True)`: newest first, a missing
   * timestamp counting as `datetime.min`, and articles with equal keys kept
   * in their original relative order (Python's sort is stable, also when
   * reversed).
   */
  function SortByPublished(s: seq<Article>): (r: seq<Article>)
    ensures SortedDesc(r)
  {
    if s == [] then []
    else Insert(s[0], SortByPublished(s[1..]))
  }

  /** Sorting only reorders: the result is a permutation of the input. */
  lemma {:induction false} SortPermutes(s: seq<Article>)
    ensures multiset(SortByPublished(s)) == multiset(s)
  {
    if s != [] {
      var tail := SortByPublished(s[1..]);
      SortPermutes(s[1..]);
      InsertPermutes(s[0], tail);
      assert SortByPublished(s) == Insert(s[0], tail);
      assert s == [s[0]] + s[1..];
      assert multiset(s) == multiset{s[0]} + multiset(s[1..]);
    }
  }

  /** Everything after an article without a timestamp has none either, or the earliest one. */
  lemma MissingSortsLast(s: seq<Article>)
    ensures var r := SortByPublished(s);
            forall i, j :: 0 <= i < j < |r| && r[i].publishedAt.None? ==> SortKey(r[j]) == MinTimestamp
  {
  }

  /**
   * The sort is stable: for every key, the articles carrying it appear in the
   * same relative order before and after sorting.
   */
  lemma {:induction false} SortIsStable(s: seq<Article>, t: Timestamp)
    ensures WithKey(SortByPublished(s), t) == WithKey(s, t)
  {
    if s != [] {
      SortIsStable(s[1..], t);
      InsertWithKey(s[0], SortByPublished(s[1..]), t);
    }
  }

  /** Articles stamped T, unstamped and stamped T-1, in that order, come out as T, T-1, unstamped. */
  lemma MissingTimestampSortsLast(a: Article, b: Article, c: Article, t: Timestamp)
    requires a.publishedAt == Some(t) && b.publishedAt.None? && c.publishedAt == Some(t - 1) && t >= 2
    ensures SortByPublished([a, b, c]) == [a, c, b]
  {
    SortMissingAfter(b, c);
    SortCons(a, [b, c]);
    assert [a] + [b, c] == [a, b, c];
    assert Insert(a, [c, b]) == [a] + [c, b] by { assert SortKey(c) <= SortKey(a); }
    assert [a] + [c, b] == [a, c, b];
  }

  /** An article with a timestamp after the epoch sorts before one without. */
  lemma SortMissingAfter(b: Article, c: Article)
    requires b.publishedAt.None? && c.publishedAt.Some? && c.publishedAt.value > MinTimestamp
    ensures SortByPublished([b, c]) == [c, b]
  {
    SortCons(c, []);
    assert [c] + [] == [c];
    assert Insert(c, []) == [c];
    SortCons(b, [c]);
    assert [b] + [c] == [b, c];
    assert Insert(b, [c]) == [c] + Insert(b, []) by { assert [c][1..] == []; }
    assert Insert(b, []) == [b];
    assert [c] + [b] == [c, b];
  }

  /** Sorting a sequence inserts its first article into the sorted rest. */
  lemma SortCons(x: Article, s: seq<Article>)
    ensures SortByPublished([x] + s) == Insert(x, SortByPublished(s))
  {
    assert ([x] + s)[1..] == s;
  }

  // -------------------------------------------------------------- processing

  /** `if not text`: the article has text to summarize after enrichment. */
  predicate HasText(a: Article, pages: PageFetcher) {
    Present(BestText(a, pages(a.url)))
  }

  /** The test of the skip in the loop of `build_digest`. */
  function HasTextWith(pages: PageFetcher): Article -> bool {
    (a: Article) => HasText(a, pages)
  }

  /** The articles the loop of `build_digest` does not skip: those with text, in order. */
  function WithText(s: seq<Article>, pages: PageFetcher): (r: seq<Article>)
    ensures forall a :: a in r <==> a in s && HasText(a, pages)
  {
    Filter(s, HasTextWith(pages))
  }

  /** The articles with text of a concatenation are those of each part, in order. */
  lemma WithTextInOrder(x: seq<Article>, y: seq<Article>, pages: PageFetcher)
    ensures WithText(x + y, pages) == WithText(x, pages) + WithText(y, pages)
    ensures WithText([], pages) == []
    ensures forall a :: WithText([a], pages) == if HasText(a, pages) then [a] else []
  {
    FilterAppend(x, y, HasTextWith(pages));
    forall a ensures WithText([a], pages) == if HasText(a, pages) then [a] else [] {
      FilterOne(a, HasTextWith(pages));
    }
  }

  /** An article with text occurs exactly as often as in the input; any other article not at all. */
  lemma WithTextCount(s: seq<Article>, pages: PageFetcher)
    ensures forall a :: multiset(WithText(s, pages))[a] == if HasText(a, pages) then multiset(s)[a] else 0
  {
    FilterCount(s, HasTextWith(pages));
  }

  /** Dropping the articles without text keeps the newest-first order. */
  lemma {:induction false} WithTextSorted(s: seq<Article>, pages: PageFetcher)
    requires SortedDesc(s)
    ensures SortedDesc(WithText(s, pages))
  {
    if s != [] {
      var rest := WithText(s[1..], pages);
      WithTextSorted(s[1..], pages);
      forall y | y in rest ensures SortKey(s[0]) >= SortKey(y) {
        var j :| 0 <= j < |s| - 1 && s[j + 1] == y;
      }
      SortedCons(s[0], rest);
      assert WithText(s, pages) == rest || WithText(s, pages) == [s[0]] + rest;
    }
  }

  /** The digest item for an article with text: its fields and the summary of its best text. */
  function ItemFor(a: Article, pages: PageFetcher, extract: Extractor): (item: DigestItem)
    requires HasText(a, pages)
    ensures item.title == a.title && item.source == a.source && item.url == a.url
    ensures item.publishedAt == a.publishedAt
    ensures Trimmed(item.summary)
    ensures item.summary == Summarize(BestText(a, pages(a.url)).value, DefaultSentenceCount, extract)
  {
    DigestItem(a.title, a.source, a.url, a.publishedAt,
               Summarize(BestText(a, pages(a.url)).value, DefaultSentenceCount, extract))
  }

  /** `next((a for a in arts if a.id == id), None)` */
  function FirstWithId(arts: seq<Article>, id: string): (r: Option<Article>)
    ensures r.Some? ==> r.value in arts && r.value.id == id
    ensures r.None? ==> forall a :: a in arts ==> a.id != id
  {
    if arts == [] then None
    else if arts[0].id == id then Some(arts[0])
    else FirstWithId(arts[1..], id)
  }

  /** The article found is the first one carrying the id: no article before it does. */
  lemma {:induction false} FirstWithIdIsFirst(arts: seq<Article>, id: string)
    ensures FirstWithId(arts, id).Some? ==>
              exists i :: 0 <= i < |arts| && arts[i] == FirstWithId(arts, id).value &&
                          forall j :: 0 <= j < i ==> arts[j].id != id
    decreases |arts|
  {
    if arts != [] && arts[0].id != id {
      var rest := arts[1..];
      FirstWithIdIsFirst(rest, id);
      if FirstWithId(rest, id).Some? {
        var i :| 0 <= i < |rest| && rest[i] == FirstWithId(rest, id).value &&
                 forall j :: 0 <= j < i ==> rest[j].id != id;
        assert arts[i + 1] == rest[i];
        forall j | 0 <= j < i + 1 ensures arts[j].id != id {
          if j > 0 { assert arts[j] == rest[j - 1]; }
        }
      }
    }
  }

  /** The title recorded for `id`: that of the first article with the id, "" if there is none. */
  function TitleFor(id: string, arts: seq<Article>): string {
    match FirstWithId(arts, id)
    case Some(a) => a.title
    case None => ""
  }

  function ToSet(ids: seq<string>): set<string> {
    set id | id in ids
  }

  /** The state update loop: `mark_seen` of every processed id, in order. */
  function RecordAll(store: StateStore, ids: seq<string>, arts: seq<Article>): (r: StateStore)
    ensures r.SeenIds() == store.SeenIds() + ToSet(ids)
    ensures forall key :: key in store.data && key !in ids ==> r.data[key] == store.data[key]
    ensures forall id :: id in ids ==> id in r.data && r.data[id] == TitleFor(id, arts)
    decreases |ids|
  {
    if ids == [] then store
    else
      var r := RecordAll(store.MarkSeen(ids[0], TitleFor(ids[0], arts)), ids[1..], arts);
      assert ToSet(ids) == {ids[0]} + ToSet(ids[1..]);
      r
  }

  /** The fresh articles with text, newest first: those that become digest items. */
  function Selected(articles: seq<Article>, seen: set<string>, pages: PageFetcher): (kept: seq<Article>)
    ensures forall a :: a in kept <==> a in articles && a.id !in seen && HasText(a, pages)
    ensures SortedDesc(kept)
  {
    var ordered := SortByPublished(Fresh(articles, seen));
    SortPermutes(Fresh(articles, seen));
    assert forall a :: a in ordered <==> a in Fresh(articles, seen) by {
      forall a ensures a in ordered <==> a in Fresh(articles, seen) {
        assert a in ordered <==> a in multiset(ordered);
      }
    }
    WithTextSorted(ordered, pages);
    WithText(ordered, pages)
  }

  /**
   * The processed articles are a stable sort of the new articles with text:
   * the same articles with the same repetitions, and for every timestamp the
   * articles carrying it in collection order.
   */
  lemma SelectedIsStableSort(articles: seq<Article>, seen: set<string>, pages: PageFetcher)
    ensures var kept, reference := Selected(articles, seen, pages), WithText(Fresh(articles, seen), pages);
            && multiset(kept) == multiset(reference)
            && forall t :: WithKey(kept, t) == WithKey(reference, t)
  {
    var newOnes := Fresh(articles, seen);
    var sorted := SortByPublished(newOnes);
    var kept, reference := Selected(articles, seen, pages), WithText(newOnes, pages);
    assert kept == Filter(sorted, HasTextWith(pages));
    SortPermutes(newOnes);
    FilterCount(sorted, HasTextWith(pages));
    FilterCount(newOnes, HasTextWith(pages));
    assert forall a :: multiset(kept)[a] == multiset(reference)[a];
    forall t ensures WithKey(kept, t) == WithKey(reference, t) {
      FilterCommutes(sorted, HasTextWith(pages), KeyIs(t));
      SortIsStable(newOnes, t);
      FilterCommutes(newOnes, HasTextWith(pages), KeyIs(t));
    }
  }

  /** When the collected ids are unique, no article is processed twice. */
  lemma SelectedOnce(articles: seq<Article>, seen: set<string>, pages: PageFetcher)
    requires UniqueIds(articles)
    ensures var kept := Selected(articles, seen, pages);
            forall k, l :: 0 <= k < l < |kept| ==> kept[k].id != kept[l].id
  {
    var newOnes := Fresh(articles, seen);
    var kept := Selected(articles, seen, pages);
    DistinctCount(articles);
    FilterCount(articles, NotIn(seen));
    FilterCount(newOnes, HasTextWith(pages));
    SelectedIsStableSort(articles, seen, pages);
    assert forall a :: multiset(kept)[a] <= 1;
    CountDistinct(kept);
    UniqueIdsDetermine(articles);
  }

  /** Each article determines its id: no two different articles share one. */
  predicate IdsDetermine(arts: seq<Article>) {
    forall a, b :: a in arts && b in arts && a.id == b.id ==> a == b
  }

  lemma UniqueIdsDetermine(arts: seq<Article>)
    requires UniqueIds(arts)
    ensures IdsDetermine(arts)
  {
    forall a, b | a in arts && b in arts && a.id == b.id ensures a == b {
      var i :| 0 <= i < |arts| && arts[i] == a;
      var j :| 0 <= j < |arts| && arts[j] == b;
    }
  }

  /**
   * `build_digest` on the collected articles and the loaded history: the
   * articles whose id is new, newest first, that have text become items (in
   * that order) and their ids are recorded in the history with their titles.
   * What it guarantees is stated by `BuildDigestSpec` below.
   */
  function BuildDigest(articles: seq<Article>, store: StateStore, pages: PageFetcher,
                       extract: Extractor, date: string): (b: Build)
    ensures b.result.digest.createdDate == date
    ensures |b.result.digest.items| == |b.result.newArticleIds|
    ensures b.store.SeenIds() == store.SeenIds() + ToSet(b.result.newArticleIds)
  {
    var seen := store.SeenIds();
    var ordered := SortByPublished(Fresh(articles, seen));
    var kept := Selected(articles, seen, pages);
    Build(DigestResult(Digest(date, ItemsOf(kept, pages, extract)), IdList(kept)),
          RecordAll(store, IdList(kept), ordered))
  }

  /** One item per article, in order. */
  function ItemsOf(kept: seq<Article>, pages: PageFetcher, extract: Extractor): (items: seq<DigestItem>)
    requires forall a :: a in kept ==> HasText(a, pages)
    ensures |items| == |kept|
    ensures forall k :: 0 <= k < |kept| ==> items[k] == ItemFor(kept[k], pages, extract)
  {
    seq(|kept|, k requires 0 <= k < |kept| => ItemFor(kept[k], pages, extract))
  }

  /** The articles' ids, in order. */
  function IdList(kept: seq<Article>): (ids: seq<string>)
    ensures |ids| == |kept|
    ensures forall k :: 0 <= k < |kept| ==> ids[k] == kept[k].id
  {
    seq(|kept|, k requires 0 <= k < |kept| => kept[k].id)
  }

  /** `item` is the digest item of an article with id `id` that is not in `seen` and has text. */
  predicate ItemOfNewArticle(articles: seq<Article>, seen: set<string>, pages: PageFetcher, extract: Extractor,
                             item: DigestItem, id: string) {
    exists a :: a in articles && a.id == id && a.id !in seen && HasText(a, pages) && item == ItemFor(a, pages, extract)
  }

  /**
   * The items are exactly the new articles with text, one each, newest first:
   * item k comes from an article that carries id k, was not in the history
   * and has text; every such article is processed.
   */
  ghost predicate ProcessesNewArticles(articles: seq<Article>, store: StateStore, pages: PageFetcher,
                                 extract: Extractor, r: DigestResult) {
    var items, ids := r.digest.items, r.newArticleIds;
    && |items| == |ids|
    && (forall k :: 0 <= k < |ids| ==> ItemOfNewArticle(articles, store.SeenIds(), pages, extract, items[k], ids[k]))
    && (forall a :: a in articles && a.id !in store.SeenIds() && HasText(a, pages) ==> a.id in ids)
    && (forall k, l :: 0 <= k < l < |items| ==>
          items[k].publishedAt.GetOr(MinTimestamp) >= items[l].publishedAt.GetOr(MinTimestamp))
    && |ids| == |WithText(Fresh(articles, store.SeenIds()), pages)|
    && (UniqueIds(articles) ==> forall k, l :: 0 <= k < l < |ids| ==> ids[k] != ids[l])
    && (forall t :: IdsWithKey(items, ids, t) == IdList(WithKey(WithText(Fresh(articles, store.SeenIds()), pages), t)))
  }

  /** The ids of the items published at `t` (a missing time counting as `datetime.min`), in order. */
  function IdsWithKey(items: seq<DigestItem>, ids: seq<string>, t: Timestamp): seq<string>
    requires |items| == |ids|
  {
    if ids == [] then []
    else (if items[0].publishedAt.GetOr(MinTimestamp) == t then [ids[0]] else [])
         + IdsWithKey(items[1..], ids[1..], t)
  }

  /** Picking the items published at `t` picks the ids of the articles published at `t`. */
  lemma {:induction false} IdsWithKeyOf(kept: seq<Article>, items: seq<DigestItem>, ids: seq<string>, t: Timestamp)
    requires |items| == |kept| && forall k :: 0 <= k < |kept| ==> items[k].publishedAt == kept[k].publishedAt
    requires |ids| == |kept| && forall k :: 0 <= k < |kept| ==> ids[k] == kept[k].id
    ensures IdsWithKey(items, ids, t) == IdList(WithKey(kept, t))
    decreases |kept|
  {
    if kept != [] {
      var head := if SortKey(kept[0]) == t then [kept[0]] else [];
      IdsWithKeyOf(kept[1..], items[1..], ids[1..], t);
      assert WithKey(kept, t) == head + WithKey(kept[1..], t);
      IdListAppend(head, WithKey(kept[1..], t));
    }
  }

  /** The ids of a concatenation are the ids of its parts. */
  lemma IdListAppend(x: seq<Article>, y: seq<Article>)
    ensures IdList(x + y) == IdList(x) + IdList(y)
  {
    assert forall k :: 0 <= k < |x| ==> (x + y)[k] == x[k];
    assert forall k :: |x| <= k < |x| + |y| ==> (x + y)[k] == y[k - |x|];
  }

  /**
   * The history after the build: the old ids plus the processed ones, old
   * entries untouched, each processed id mapped to its item's title (when no
   * two articles share an id), and nothing changed when nothing was processed.
   */
  predicate RecordsProcessed(articles: seq<Article>, store: StateStore, r: DigestResult, updated: StateStore)
    requires |r.digest.items| == |r.newArticleIds|
  {
    var items, ids := r.digest.items, r.newArticleIds;
    && updated.SeenIds() == store.SeenIds() + ToSet(ids)
    && (forall key :: key in store.data ==> key in updated.data && updated.data[key] == store.data[key])
    && (IdsDetermine(articles) ==>
          forall k :: 0 <= k < |ids| ==> ids[k] in updated.data && updated.data[ids[k]] == items[k].title)
    && (ids == [] ==> updated == store)
  }

  lemma BuildDigestSpec(articles: seq<Article>, store: StateStore, pages: PageFetcher,
                        extract: Extractor, date: string)
    ensures var b := BuildDigest(articles, store, pages, extract, date);
            && b.result.digest.createdDate == date
            && ProcessesNewArticles(articles, store, pages, extract, b.result)
            && RecordsProcessed(articles, store, b.result, b.store)
  {
    BuildDigestItems(articles, store, pages, extract, date);
    BuildDigestHistory(articles, store, pages, extract, date);
  }

  lemma BuildDigestItems(articles: seq<Article>, store: StateStore, pages: PageFetcher,
                         extract: Extractor, date: string)
    ensures ProcessesNewArticles(articles, store, pages, extract, BuildDigest(articles, store, pages, extract, date).result)
  {
    var kept := Selected(articles, store.SeenIds(), pages);
    var items, ids := ItemsOf(kept, pages, extract), IdList(kept);
    ItemsFromNewArticles(articles, store, pages, extract, kept, items, ids);
    NewArticlesProcessed(articles, store, pages, kept, ids);
    ItemsNewestFirst(pages, extract, kept, items);
    ItemsFollowReference(articles, store.SeenIds(), pages, extract, kept, items, ids);
  }

  /**
   * The items are as many as the new articles with text, distinct when the
   * input ids are, and in input order among equal publication times.
   */
  lemma ItemsFollowReference(articles: seq<Article>, seen: set<string>, pages: PageFetcher, extract: Extractor,
                             kept: seq<Article>, items: seq<DigestItem>, ids: seq<string>)
    requires kept == Selected(articles, seen, pages)
    requires |items| == |kept| && forall k :: 0 <= k < |kept| ==> items[k] == ItemFor(kept[k], pages, extract)
    requires |ids| == |kept| && forall k :: 0 <= k < |kept| ==> ids[k] == kept[k].id
    ensures |ids| == |WithText(Fresh(articles, seen), pages)|
    ensures UniqueIds(articles) ==> forall k, l :: 0 <= k < l < |ids| ==> ids[k] != ids[l]
    ensures forall t :: IdsWithKey(items, ids, t) == IdList(WithKey(WithText(Fresh(articles, seen), pages), t))
  {
    SelectedCount(articles, seen, pages);
    if UniqueIds(articles) {
      SelectedOnce(articles, seen, pages);
      IdsDistinct(kept, ids);
    }
    ItemsPerKey(articles, seen, pages, extract, kept, items, ids);
  }

  /** Ids that follow articles with pairwise distinct ids are pairwise distinct. */
  lemma IdsDistinct(kept: seq<Article>, ids: seq<string>)
    requires forall k, l :: 0 <= k < l < |kept| ==> kept[k].id != kept[l].id
    requires |ids| == |kept| && forall k :: 0 <= k < |kept| ==> ids[k] == kept[k].id
    ensures forall k, l :: 0 <= k < l < |ids| ==> ids[k] != ids[l]
  {
  }

  /** Per publication time, the build's ids are those of the new articles with text, in input order. */
  lemma ItemsPerKey(articles: seq<Article>, seen: set<string>, pages: PageFetcher, extract: Extractor,
                    kept: seq<Article>, items: seq<DigestItem>, ids: seq<string>)
    requires kept == Selected(articles, seen, pages)
    requires |items| == |kept| && forall k :: 0 <= k < |kept| ==> items[k] == ItemFor(kept[k], pages, extract)
    requires |ids| == |kept| && forall k :: 0 <= k < |kept| ==> ids[k] == kept[k].id
    ensures forall t :: IdsWithKey(items, ids, t) == IdList(WithKey(WithText(Fresh(articles, seen), pages), t))
  {
    SelectedIsStableSort(articles, seen, pages);
    assert forall k :: 0 <= k < |kept| ==> items[k].publishedAt == kept[k].publishedAt;
    IdsWithEachKey(kept, WithText(Fresh(articles, seen), pages), items, ids);
  }

  /** Items and ids that follow `kept` pick, per publication time, the ids of `reference`. */
  lemma IdsWithEachKey(kept: seq<Article>, reference: seq<Article>, items: seq<DigestItem>, ids: seq<string>)
    requires forall t :: WithKey(kept, t) == WithKey(reference, t)
    requires |items| == |kept| && forall k :: 0 <= k < |kept| ==> items[k].publishedAt == kept[k].publishedAt
    requires |ids| == |kept| && forall k :: 0 <= k < |kept| ==> ids[k] == kept[k].id
    ensures forall t :: IdsWithKey(items, ids, t) == IdList(WithKey(reference, t))
  {
    forall t ensures IdsWithKey(items, ids, t) == IdList(WithKey(reference, t)) {
      IdsWithKeyOf(kept, items, ids, t);
    }
  }

  /** The build keeps as many articles as there are new articles with text. */
  lemma SelectedCount(articles: seq<Article>, seen: set<string>, pages: PageFetcher)
    ensures |Selected(articles, seen, pages)| == |WithText(Fresh(articles, seen), pages)|
  {
    var kept := Selected(articles, seen, pages);
    SelectedIsStableSort(articles, seen, pages);
    assert |kept| == |multiset(kept)|;
  }

  lemma BuildDigestHistory(articles: seq<Article>, store: StateStore, pages: PageFetcher,
                           extract: Extractor, date: string)
    ensures var b := BuildDigest(articles, store, pages, extract, date);
            |b.result.digest.items| == |b.result.newArticleIds| && RecordsProcessed(articles, store, b.result, b.store)
  {
    var ordered := SortByPublished(Fresh(articles, store.SeenIds()));
    var kept := Selected(articles, store.SeenIds(), pages);
    var items, ids := ItemsOf(kept, pages, extract), IdList(kept);
    SelectedFromOrdered(articles, store.SeenIds(), pages);
    HistoryUpdate(articles, store, pages, extract, kept, ordered, items, ids);
  }

  /** Every item comes from a new article with text, and its id is that article's. */
  lemma ItemsFromNewArticles(articles: seq<Article>, store: StateStore, pages: PageFetcher, extract: Extractor,
                             kept: seq<Article>, items: seq<DigestItem>, ids: seq<string>)
    requires forall a :: a in kept ==> a in articles && a.id !in store.SeenIds() && HasText(a, pages)
    requires |items| == |kept| && forall k :: 0 <= k < |kept| ==> items[k] == ItemFor(kept[k], pages, extract)
    requires |ids| == |kept| && forall k :: 0 <= k < |kept| ==> ids[k] == kept[k].id
    ensures forall k :: 0 <= k < |ids| ==> ItemOfNewArticle(articles, store.SeenIds(), pages, extract, items[k], ids[k])
  {
    forall k | 0 <= k < |ids|
      ensures ItemOfNewArticle(articles, store.SeenIds(), pages, extract, items[k], ids[k])
    {
      var a := kept[k];
      assert a in kept;
      assert a in articles && a.id == ids[k] && a.id !in store.SeenIds()
             && HasText(a, pages) && items[k] == ItemFor(a, pages, extract);
    }
  }

  /** Every new article with text is processed. */
  lemma NewArticlesProcessed(articles: seq<Article>, store: StateStore, pages: PageFetcher,
                             kept: seq<Article>, ids: seq<string>)
    requires kept == Selected(articles, store.SeenIds(), pages)
    requires |ids| == |kept| && forall k :: 0 <= k < |kept| ==> ids[k] == kept[k].id
    ensures forall a :: a in articles && a.id !in store.SeenIds() && HasText(a, pages) ==> a.id in ids
  {
    forall a | a in articles && a.id !in store.SeenIds() && HasText(a, pages) ensures a.id in ids {
      var k :| 0 <= k < |kept| && kept[k] == a;
      assert ids[k] == a.id;
    }
  }

  /** Items appear newest first. */
  lemma ItemsNewestFirst(pages: PageFetcher, extract: Extractor, kept: seq<Article>, items: seq<DigestItem>)
    requires SortedDesc(kept) && forall a :: a in kept ==> HasText(a, pages)
    requires |items| == |kept| && forall k :: 0 <= k < |kept| ==> items[k] == ItemFor(kept[k], pages, extract)
    ensures forall k, l :: 0 <= k < l < |items| ==>
              items[k].publishedAt.GetOr(MinTimestamp) >= items[l].publishedAt.GetOr(MinTimestamp)
  {
    forall k, l | 0 <= k < l < |items|
      ensures items[k].publishedAt.GetOr(MinTimestamp) >= items[l].publishedAt.GetOr(MinTimestamp)
    {
      assert items[k].publishedAt == kept[k].publishedAt;
      assert items[l].publishedAt == kept[l].publishedAt;
      assert SortKey(kept[k]) >= SortKey(kept[l]);
    }
  }

  /** The selected articles come from the ordered fresh ones, which come from the input and are new. */
  lemma SelectedFromOrdered(articles: seq<Article>, seen: set<string>, pages: PageFetcher)
    ensures var ordered := SortByPublished(Fresh(articles, seen));
            && (forall a :: a in Selected(articles, seen, pages) ==> a in ordered && HasText(a, pages))
            && (forall a :: a in ordered ==> a in articles && a.id !in seen)
  {
    var ordered := SortByPublished(Fresh(articles, seen));
    SortPermutes(Fresh(articles, seen));
    forall a | a in ordered ensures a in articles && a.id !in seen {
      assert a in multiset(ordered);
    }
    forall a | a in Selected(articles, seen, pages) ensures a in ordered {
      assert a in multiset(Fresh(articles, seen));
      assert a in multiset(ordered);
    }
  }

  /** The history keeps its old entries and maps each new id to its item's title. */
  lemma HistoryUpdate(articles: seq<Article>, store: StateStore, pages: PageFetcher, extract: Extractor,
                      kept: seq<Article>, ordered: seq<Article>, items: seq<DigestItem>, ids: seq<string>)
    requires forall a :: a in ordered ==> a in articles && a.id !in store.SeenIds()
    requires forall a :: a in kept ==> a in ordered && HasText(a, pages)
    requires |items| == |kept| && forall k :: 0 <= k < |kept| ==> items[k] == ItemFor(kept[k], pages, extract)
    requires |ids| == |kept| && forall k :: 0 <= k < |kept| ==> ids[k] == kept[k].id
    ensures var updated := RecordAll(store, ids, ordered);
            && (forall key :: key in store.data ==> key in updated.data && updated.data[key] == store.data[key])
            && (IdsDetermine(articles) ==>
                  forall k :: 0 <= k < |ids| ==> ids[k] in updated.data && updated.data[ids[k]] == items[k].title)
  {
    var updated := RecordAll(store, ids, ordered);
    forall k | 0 <= k < |ids| ensures ids[k] !in store.data {
      assert kept[k] in kept;
    }
    if IdsDetermine(articles) {
      forall k | 0 <= k < |ids| ensures ids[k] in updated.data && updated.data[ids[k]] == items[k].title {
        assert ids[k] in ids;
        assert kept[k] in kept;
        var found := FirstWithId(ordered, ids[k]);
        assert found.Some?;
        assert found.value == kept[k];
      }
    }
  }

  /**
   * An article without text yields no item and its id is not recorded, so it
   * is considered again on the next run.
   */
  lemma SkippedNotRecorded(articles: seq<Article>, store: StateStore, pages: PageFetcher,
                           extract: Extractor, date: string, a: Article)
    requires a in articles && !HasText(a, pages) && IdsDetermine(articles)
    ensures var b := BuildDigest(articles, store, pages, extract, date);
            && a.id !in b.result.newArticleIds
            && (a.id !in store.SeenIds() ==> a.id !in b.store.SeenIds())
  {
    BuildDigestSpec(articles, store, pages, extract, date);
  }

  /**
   * The ids a build processes were not in the history before and are in it
   * afterwards, which also holds every id that was there before.
   */
  lemma BuildDigestIds(articles: seq<Article>, store: StateStore, pages: PageFetcher,
                       extract: Extractor, date: string)
    ensures var b := BuildDigest(articles, store, pages, extract, date);
            && (forall id :: id in b.result.newArticleIds ==> id !in store.SeenIds() && id in b.store.SeenIds())
            && store.SeenIds() <= b.store.SeenIds()
  {
    var kept := Selected(articles, store.SeenIds(), pages);
    var ids := IdList(kept);
    forall id | id in ids ensures id !in store.SeenIds() && id in ToSet(ids) {
      var k :| 0 <= k < |ids| && ids[k] == id;
      assert kept[k] in kept;
    }
  }

  /** Every new article with text ends up in the history a build leaves. */
  lemma BuildDigestCovers(articles: seq<Article>, store: StateStore, pages: PageFetcher,
                          extract: Extractor, date: string)
    ensures var b := BuildDigest(articles, store, pages, extract, date);
            forall a :: a in articles && HasText(a, pages) ==> a.id in b.store.SeenIds()
  {
    var kept := Selected(articles, store.SeenIds(), pages);
    var ids := IdList(kept);
    NewArticlesProcessed(articles, store, pages, kept, ids);
    forall a | a in articles && HasText(a, pages) && a.id !in store.SeenIds() ensures a.id in ToSet(ids) {
      assert a.id in ids;
    }
  }

  /**
   * Across runs: whatever the second run's articles, pages and summarizer, it
   * produces no item whose id the first run processed or the history already held.
   */
  lemma NoReprocessing(articles1: seq<Article>, articles2: seq<Article>, store: StateStore,
                       pages1: PageFetcher, pages2: PageFetcher, extract1: Extractor, extract2: Extractor,
                       date1: string, date2: string)
    ensures var b1 := BuildDigest(articles1, store, pages1, extract1, date1);
            var b2 := BuildDigest(articles2, b1.store, pages2, extract2, date2);
            forall id :: id in b2.result.newArticleIds ==> id !in b1.result.newArticleIds && id !in store.SeenIds()
  {
    var b1 := BuildDigest(articles1, store, pages1, extract1, date1);
    BuildDigestIds(articles1, store, pages1, extract1, date1);
    BuildDigestIds(articles2, b1.store, pages2, extract2, date2);
  }

  /**
   * Running the build again on the same articles, pages and summarizer with
   * the history the first run left produces no item at all.
   */
  lemma SecondRunIsEmpty(articles: seq<Article>, store: StateStore, pages: PageFetcher,
                         extract: Extractor, date: string)
    ensures var b1 := BuildDigest(articles, store, pages, extract, date);
            BuildDigest(articles, b1.store, pages, extract, date).result.digest.items == []
  {
    var b1 := BuildDigest(articles, store, pages, extract, date);
    BuildDigestCovers(articles, store, pages, extract, date);
    NoMembersEmpty(Selected(articles, b1.store.SeenIds(), pages));
  }
}
