/** One daily run: load the history, collect, build, save, and report. */
module Runs {
  import opened Wrappers
  import opened Models
  import opened Fetchers
  import opened Summarizer
  import opened State
  import opened Digests
  import opened Markdown

  /**
   * What a run ends with: it raised while loading the history (nothing
   * collected, nothing saved), or it completed with the build's result, the
   * report text when there is one, and the saved state file.
   */
  datatype RunOutcome = LoadFailed | Completed(result: DigestResult, report: Option<string>, saved: StateFile)

  /**
   * `run` together with the `build_digest` steps around it: load the history,
   * collect the articles, build, save the history, and produce the report
   * text to write and print only when there is at least one item.
   */
  method Run(results: seq<Fetched>, file: StateFile, pages: PageFetcher, extract: Extractor,
             date: string, format: Timestamp -> string)
    returns (outcome: RunOutcome)
    ensures outcome.LoadFailed? <==> file.Undecodable?
    ensures outcome.Completed? ==> Load(outcome.saved).Some?
    ensures outcome.Completed? ==>
              var result, report, saved := outcome.result, outcome.report, outcome.saved;
              var before, after := Load(file).value, Load(saved).value;
              && (report.Some? <==> |result.digest.items| > 0)
              && (report.Some? ==> report.value == ToMarkdown(result.digest, format))
              && (forall id :: id in result.newArticleIds ==> id !in before.SeenIds())
              && after.SeenIds() == before.SeenIds() + ToSet(result.newArticleIds)
              && |result.digest.items| == |result.newArticleIds|
              && (forall k :: 0 <= k < |result.newArticleIds| ==>
                    result.newArticleIds[k] in after.data &&
                    after.data[result.newArticleIds[k]] == result.digest.items[k].title)
              && (result.digest.items == [] ==> after == before)
    ensures outcome.Completed? ==>
              var b := BuildDigest(Collected(results), Load(file).value, pages, extract, date);
              outcome.result == b.result && outcome.saved == Save(b.store)
  {
    var loaded := Load(file);
    if loaded.None? {
      return LoadFailed;
    }
    var store := loaded.value;
    var articles := CollectArticles(results);
    UniqueIdsDetermine(articles);
    var b := BuildDigest(articles, store, pages, extract, date);
    BuildDigestHistory(articles, store, pages, extract, date);
    BuildDigestIds(articles, store, pages, extract, date);
    var saved := Save(b.store);
    var result := b.result;
    var report := None;
    if |result.digest.items| > 0 {
      report := Some(ToMarkdown(result.digest, format));
    }
    outcome := Completed(result, report, saved);
  }
}
