/**
 * The normalized article every fetcher produces, its identity and the text
 * chosen for summarization.
 */
module Models {
  import opened Wrappers
  import opened Text

  /**
   * A publication time, counted upwards from Python's `datetime.min`
   * (0 is `datetime.min` itself); the unit does not matter to the model.
   */
  type Timestamp = nat

  /** The earliest representable time; a missing timestamp sorts as this value. */
  const MinTimestamp: Timestamp := 0

  /** A cryptographic digest rendered as text (SHA-256 hex in the program). */
  type Hash = string -> string

  datatype Article = Article(
    title: string,
    url: string,
    source: string,
    publishedAt: Option<Timestamp>,
    summary: Option<string>,
    content: Option<string>,
    author: Option<string>,
    id: string)

  /** Separator `_canonical_id` places between its parts. */
  const IdSeparator := "::"

  /** `"::".join((name, url))`: the text `_canonical_id` hashes. */
  function IdKey(name: string, url: string): (key: string)
    ensures |key| == |name| + |IdSeparator| + |url|
    ensures key[..|name|] == name && key[|name| + |IdSeparator|..] == url
    ensures key[|name|] == ':'
  {
    name + IdSeparator + url
  }

  /**
   * The identity of the article a fetcher called `name` emits for `url`:
   * the hash of `name::url`. It depends on nothing else, so the same origin
   * and url always give the same identity.
   */
  function CanonicalId(hash: Hash, name: string, url: string): string {
    hash(IdKey(name, url))
  }

  /**
   * For fetcher names without a ':', as all three are, different origins or
   * urls give different hashed texts: the id can coincide only through a
   * collision of the hash.
   */
  lemma IdKeysDiffer(name1: string, url1: string, name2: string, url2: string)
    requires forall i :: 0 <= i < |name1| ==> name1[i] != ':'
    requires forall i :: 0 <= i < |name2| ==> name2[i] != ':'
    requires IdKey(name1, url1) == IdKey(name2, url2)
    ensures name1 == name2 && url1 == url2
  {
    var key := IdKey(name1, url1);
    assert |name1| <= |name2| by {
      assert key[..|name2|] == name2;
      assert forall i :: 0 <= i < |name2| ==> key[i] == name2[i];
    }
    assert |name2| <= |name1| by {
      assert key[..|name1|] == name1;
      assert forall i :: 0 <= i < |name1| ==> key[i] == name1[i];
    }
  }

  /**
   * `Article.primary_text`: the content when it is non-empty, otherwise the
   * summary, which may itself be missing or empty.
   */
  function PrimaryText(a: Article): (text: Option<string>)
    ensures Present(a.content) ==> text == a.content
    ensures !Present(a.content) ==> text == a.summary
    ensures text == a.content || text == a.summary
  {
    if Present(a.content) then a.content else a.summary
  }
}
