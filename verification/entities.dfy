/** The catalog entities the "recent" listing works on, in the canonical
    in-memory shape, and the raw rows the text-JSON backend returns. */
module Entities {
  import opened Wrappers

  /** The two entity kinds: anime (progress under `episodes`) and manga
      (progress under `chapters`). */
  datatype Kind = Anime | Manga

  /** The `latest` record nested in the progress object. `count` is
      `latestEpisode` for anime and `latestChapter` for manga. `updatedAt`
      is `None` when the stored value's string form is empty, otherwise the
      stored epoch milliseconds. */
  datatype Latest = Latest(count: int, updatedAt: Option<int>)

  /** An opaque parsed JSON value. The listing never looks inside one. */
  datatype Json =
    | JNull
    | JBool(b: bool)
    | JNum(n: int)
    | JStr(s: string)
    | JArr(items: seq<Json>)
    | JObj(members: seq<(string, Json)>)

  /** The parsed `episodes` (anime) or `chapters` (manga) object: its
      `latest` record and everything else it holds. */
  datatype Progress = Progress(latest: Latest, rest: Json)

  /** One entity as the listing handles it.
      - `season` is the free-text season (anime only; `None` for SQL NULL);
      - `payload` holds the opaque structured fields (title, mappings,
        synonyms, rating, popularity, relations, genres, tags, artwork,
        characters) in column order;
      - `derived` is the top-level `updatedAt` property that the listing
        attaches for sorting and deletes before returning. */
  datatype Entity = Entity(
    id: string,
    kind: Kind,
    format: string,
    season: Option<string>,
    progress: Progress,
    payload: seq<Json>,
    derived: Option<int>)
  {
    /** The nested `latest` record: `episodes.latest` or `chapters.latest`. */
    function LatestRecord(): Latest {
      progress.latest
    }
  }

  /** A row of the text-JSON backend: every structured column is still JSON
      text, and `season` may arrive wrapped in literal quote characters.
      `kind` is the row's stored `type` column, which normalisation does not
      rewrite. */
  datatype RawRow = RawRow(
    id: string,
    kind: Kind,
    format: string,
    season: Option<string>,
    progress: string,
    fields: seq<string>)

  /** The `JSON.parse` the text-JSON backend applies to each structured
      column, as two total functions: `None` stands for a thrown parse error.
      `progress` parses the `episodes`/`chapters` column. */
  datatype Parser = Parser(
    value: string -> Option<Json>,
    progress: string -> Option<Progress>)
}
