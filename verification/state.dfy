/**
 * The persisted history of processed articles: a map from article id to the
 * title it was last recorded with.
 */
module State {
  import opened Wrappers

  /**
   * The state file as found on disk: absent, present but not decodable as
   * text (`read_text` raises `UnicodeDecodeError`), text that is not JSON,
   * or a JSON object of id to title.
   */
  datatype StateFile = Missing | Undecodable | Unparseable | Stored(entries: map<string, string>)

  datatype StateStore = StateStore(data: map<string, string>) {

    /** `seen_ids`: the ids recorded so far. */
    function SeenIds(): (ids: set<string>)
      ensures forall id :: id in ids <==> id in data
    {
      data.Keys
    }

    /**
     * `mark_seen`: records `title` for `id`, replacing any earlier title, and
     * leaves every other entry as it was.
     */
    function MarkSeen(id: string, title: string): (s: StateStore)
      ensures id in s.data && s.data[id] == title
      ensures s.SeenIds() == SeenIds() + {id}
      ensures forall other :: other != id && other in data ==> s.data[other] == data[other]
    {
      StateStore(data[id := title])
    }
  }

  /**
   * The store constructed from the state file: missing or unparseable means
   * empty; an undecodable file raises (`None`), since only `JSONDecodeError`
   * is caught.
   */
  function Load(file: StateFile): (s: Option<StateStore>)
    ensures s.None? <==> file.Undecodable?
    ensures file.Missing? || file.Unparseable? ==> s.Some? && s.value.SeenIds() == {}
    ensures file.Stored? ==> s.Some? && s.value.data == file.entries
  {
    match file
    case Missing => Some(StateStore(map[]))
    case Undecodable => None
    case Unparseable => Some(StateStore(map[]))
    case Stored(entries) => Some(StateStore(entries))
  }

  /** `save`: the whole map is written out; loading it back gives the same store. */
  function Save(s: StateStore): (file: StateFile)
    ensures file.Stored?
    ensures Load(file) == Some(s)
  {
    Stored(s.data)
  }
}
