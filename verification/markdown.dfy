/** The report text of a digest: `Digest.to_markdown`. */
module Markdown {
  import opened Wrappers
  import opened Text
  import opened Models
  import opened Digests

  /** The report's first line. */
  function Heading(date: string): string {
    "# PayPal Daily Digest \U{2014} " + date
  }

  /** The published column: the formatted timestamp, or "Unknown" when there is none. */
  function PublishedText(t: Option<Timestamp>, format: Timestamp -> string): string {
    match t
    case Some(v) => format(v)
    case None => "Unknown"
  }

  /** The line naming an item's source and its publication time. */
  function SourceLineText(item: DigestItem, format: Timestamp -> string): string {
    "*Source:* " + item.source + " \U{2014} *Published:* " + PublishedText(item.publishedAt, format)
  }

  /** Seven lines in the given order. */
  function Lines7(l0: string, l1: string, l2: string, l3: string, l4: string, l5: string, l6: string): (b: seq<string>)
    ensures |b| == 7
    ensures b[0] == l0 && b[1] == l1 && b[2] == l2 && b[3] == l3
    ensures b[4] == l4 && b[5] == l5 && b[6] == l6
  {
    [l0, l1, l2, l3, l4, l5, l6]
  }

  /** The seven lines one item contributes. */
  function ItemBlock(item: DigestItem, format: Timestamp -> string): seq<string> {
    Lines7("## " + item.title, SourceLineText(item, format), "", Strip(item.summary), "",
           "[Read more](" + item.url + ")", "")
  }

  /** The blocks one after the other, as the loop of `to_markdown` extends `lines`. */
  function Concat(blocks: seq<seq<string>>): seq<string> {
    if blocks == [] then [] else blocks[0] + Concat(blocks[1..])
  }

  /** In a concatenation of seven-line blocks, line j of block k sits at position 7k+j. */
  lemma {:induction false} ConcatAt(blocks: seq<seq<string>>, k: nat, j: nat)
    requires forall i :: 0 <= i < |blocks| ==> |blocks[i]| == 7
    requires k < |blocks| && j < 7
    ensures |Concat(blocks)| == 7 * |blocks|
    ensures Concat(blocks)[7 * k + j] == blocks[k][j]
    decreases |blocks|
  {
    if k == 0 {
      if |blocks| > 1 {
        ConcatAt(blocks[1..], 0, 0);
      }
    } else {
      ConcatAt(blocks[1..], k - 1, j);
      assert blocks[1..][k - 1] == blocks[k];
    }
  }

  /** After a two-line header, line j of block k sits at position 2+7k+j. */
  lemma LinesAfterHeader(header: seq<string>, blocks: seq<seq<string>>, k: nat, j: nat)
    requires |header| == 2
    requires forall i :: 0 <= i < |blocks| ==> |blocks[i]| == 7
    requires k < |blocks| && j < 7
    ensures |header + Concat(blocks)| == 2 + 7 * |blocks|
    ensures (header + Concat(blocks))[2 + 7 * k + j] == blocks[k][j]
  {
    ConcatAt(blocks, k, j);
  }

  /** The blocks of all items, in order. */
  function ItemBlocks(items: seq<DigestItem>, format: Timestamp -> string): (blocks: seq<seq<string>>)
    ensures |blocks| == |items|
    ensures forall k :: 0 <= k < |items| ==> blocks[k] == ItemBlock(items[k], format) && |blocks[k]| == 7
  {
    seq(|items|, k requires 0 <= k < |items| => ItemBlock(items[k], format))
  }

  /**
   * The `lines` list of `to_markdown`: the dated heading and a blank line,
   * then the seven lines of each item (see `MarkdownItemLines`).
   */
  function MarkdownLines(d: Digest, format: Timestamp -> string): (lines: seq<string>)
    ensures |lines| == 2 + 7 * |d.items|
    ensures lines[0] == Heading(d.createdDate) && lines[1] == ""
  {
    var blocks := ItemBlocks(d.items, format);
    assert |Concat(blocks)| == 7 * |blocks| by {
      if blocks != [] { ConcatAt(blocks, 0, 0); }
    }
    [Heading(d.createdDate), ""] + Concat(blocks)
  }

  /**
   * Item k occupies lines 2+7k .. 2+7k+6, which are exactly its block: its
   * `## title`, its source and published time, a blank, its stripped summary,
   * a blank, its `[Read more](url)` link and a blank.
   */
  lemma MarkdownItemLines(d: Digest, format: Timestamp -> string, k: nat)
    requires k < |d.items|
    ensures 2 + 7 * k + 7 <= |MarkdownLines(d, format)|
    ensures forall j :: 0 <= j < 7 ==> MarkdownLines(d, format)[2 + 7 * k + j] == ItemBlock(d.items[k], format)[j]
  {
    var blocks := ItemBlocks(d.items, format);
    var lines := MarkdownLines(d, format);
    assert lines == [Heading(d.createdDate), ""] + Concat(blocks);
    forall j | 0 <= j < 7 ensures lines[2 + 7 * k + j] == blocks[k][j] {
      LinesAfterHeader([Heading(d.createdDate), ""], blocks, k, j);
    }
  }

  /** Item k's first line is its `## title` heading. */
  lemma TitleLine(d: Digest, format: Timestamp -> string, k: nat)
    requires k < |d.items|
    ensures 2 + 7 * k < |MarkdownLines(d, format)|
    ensures MarkdownLines(d, format)[2 + 7 * k] == "## " + d.items[k].title
  {
    MarkdownItemLines(d, format, k);
    assert MarkdownLines(d, format)[2 + 7 * k + 0] == ItemBlock(d.items[k], format)[0];
  }

  /**
   * Item k's second line names its source and its publication time, which
   * reads "Unknown" when the item has none.
   */
  lemma SourceLine(d: Digest, format: Timestamp -> string, k: nat)
    requires k < |d.items|
    ensures 2 + 7 * k + 1 < |MarkdownLines(d, format)|
    ensures MarkdownLines(d, format)[2 + 7 * k + 1] == SourceLineText(d.items[k], format)
    ensures d.items[k].publishedAt.None? ==> PublishedText(d.items[k].publishedAt, format) == "Unknown"
  {
    MarkdownItemLines(d, format, k);
    assert MarkdownLines(d, format)[2 + 7 * k + 1] == ItemBlock(d.items[k], format)[1];
  }

  /** Item k's fourth line is its summary, stripped. */
  lemma SummaryLine(d: Digest, format: Timestamp -> string, k: nat)
    requires k < |d.items|
    ensures 2 + 7 * k + 3 < |MarkdownLines(d, format)|
    ensures MarkdownLines(d, format)[2 + 7 * k + 3] == Strip(d.items[k].summary)
  {
    MarkdownItemLines(d, format, k);
    assert MarkdownLines(d, format)[2 + 7 * k + 3] == ItemBlock(d.items[k], format)[3];
  }

  /** Item k's sixth line links to its url. */
  lemma LinkLine(d: Digest, format: Timestamp -> string, k: nat)
    requires k < |d.items|
    ensures 2 + 7 * k + 5 < |MarkdownLines(d, format)|
    ensures MarkdownLines(d, format)[2 + 7 * k + 5] == "[Read more](" + d.items[k].url + ")"
  {
    MarkdownItemLines(d, format, k);
    assert MarkdownLines(d, format)[2 + 7 * k + 5] == ItemBlock(d.items[k], format)[5];
  }

  /** `to_markdown`: the lines joined by newlines, stripped, with one final newline. */
  function ToMarkdown(d: Digest, format: Timestamp -> string): (doc: string)
    ensures doc != [] && doc[|doc| - 1] == '\n'
  {
    Strip(Join(MarkdownLines(d, format), "\n")) + "\n"
  }

  /**
   * The report opens with its dated heading on a line of its own, whenever
   * the date text ends in a visible character (as `YYYY-MM-DD` does).
   */
  lemma MarkdownStartsWithHeading(d: Digest, format: Timestamp -> string)
    requires d.createdDate != [] && !IsSpace(d.createdDate[|d.createdDate| - 1])
    ensures Heading(d.createdDate) + "\n" <= ToMarkdown(d, format)
  {
    var h := Heading(d.createdDate);
    assert h[|h| - 1] == d.createdDate[|d.createdDate| - 1];
    StripKeepsFirstOfLines(MarkdownLines(d, format));
  }
}
