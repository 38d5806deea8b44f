# Recent listing of anime and manga — Dafny model

This project models the `recent` function of the Anify backend
(`anify-backend/src/database/impl/fetch/recent.ts`). Given an entity kind
(anime or manga), a list of format tags, a page number and a page size, it
returns the most recently updated entities of that page. The function runs
on one of two storage backends:

- the structured backend (`dbType === "postgresql"`), which returns
  entities whose structured columns are already parsed;
- the text-JSON backend (any other `dbType`), which returns rows whose
  structured columns are JSON text. Each row is parsed inside a `try`, and
  a row that throws is dropped.

On both backends the fetched page then goes through the same in-memory
steps:

1. drop every entity whose latest count is 0 (`episodes.latest.latestEpisode`
   for anime, `chapters.latest.latestChapter` for manga);
2. attach a derived top-level `updatedAt`: 0 when the stored timestamp's
   string form is empty, otherwise the stored epoch milliseconds;
3. sort descending by that value;
4. delete the derived field from every entity.

The page offset is `perPage * (page - 1)` for a positive page and 0
otherwise. The last page number is `Math.ceil(total / perPage)`. The
source computes it and then discards it.

Modules (one file each):

- `Wrappers` (`wrappers.dfy`): `Option`.
- `Entities` (`entities.dfy`): the entity kind, the `latest` record, the
  progress object, the opaque JSON payload, the entity and the raw text row.
  It also defines the parser. `JSON.parse` is a parameter: a record of two
  total functions that return `None` where the real call throws.
- `Pager` (`pager.dfy`): offset and last-page arithmetic.
- `Normalize` (`normalize.dfy`): quote stripping of `season`, per-row
  normalisation and the parse-or-drop loop.
- `Recency` (`recency.dfy`): the zero-latest filter, decoration, the
  descending insertion sort and the stripping of the derived field.
- `Listing` (`listing.dfy`): the whole `recent` function. Storage is a
  parameter: a function from the page query to the rows it returns.

The entity carries a field `derived: Option<int>`. It stands for the
top-level `updatedAt` property that the object spread adds and `delete`
removes. This makes "no returned entity carries the derived field" a
checked postcondition rather than a fact about types.

`recent` has no configuration error: every `dbType` other than
`"postgresql"` takes the text-JSON path (recent.ts:9, :96), and
`Listing.FetchRecent` does the same.

On the text-JSON path the requested kind only selects the loop (and so
whether `season` is rewritten). Each entity keeps the `type` column stored
in its row, because `Object.assign` replaces only the listed JSON columns
(recent.ts:124-137, 177-189).

## Model

| member | source | states |
|---|---|---|
| Pager.Skip | anify-backend/src/database/impl/fetch/recent.ts:10 | the offset is `perPage * (page - 1)` for a page of at least 1 and 0 for every page up to 1, so page 0 and page 1 both start at row 0 (the same formula appears again at line 96) |
| Pager.PageOfRow | anify-backend/src/database/impl/fetch/recent.ts:44-51 | with a positive page size, row `i` of the full listing lies, among pages numbered 1 and up, in the window `[offset, offset + perPage)` of exactly one page, page `i / perPage + 1`, so pages 1, 2, ... tile the listing with no gap and no overlap (pages 0 and below repeat page 1's window) |
| Pager.CeilDiv | anify-backend/src/database/impl/fetch/recent.ts:118 | `Math.ceil(a / b)` for a nonzero divisor of either sign: the result `q` satisfies `(q - 1) * b < a <= q * b` for `b > 0` and the mirrored inequality for `b < 0` |
| Pager.LastPage | anify-backend/src/database/impl/fetch/recent.ts:71 | `ceil(total / perPage)`: with `perPage > 0`, `(lastPage - 1) * perPage < total <= lastPage * perPage`; it is 0 for an empty count and at least 1 for a non-empty one; there is no page number when `perPage` is 0 (JavaScript gives Infinity or NaN) |
| Pager.LastPageHoldsLastRow | anify-backend/src/database/impl/fetch/recent.ts:170-171 | for a non-empty count and a positive page size, the last page starts before the last row and reaches it, and the page after it starts past the end |
| Normalize.StripQuotes | anify-backend/src/database/impl/fetch/recent.ts:126 | `replace(/"/g, "")` leaves no `"` in the season, is no longer than its input, and keeps the number of occurrences of every other character |
| Normalize.StripQuotesAppend | anify-backend/src/database/impl/fetch/recent.ts:126 | stripping quotes distributes over concatenation, so the kept characters stay in their original relative order |
| Normalize.StripQuotesUnquoted | anify-backend/src/database/impl/fetch/recent.ts:126 | a season with no `"` is unchanged, so stripping twice is the same as stripping once |
| Normalize.NormalizeSeason | anify-backend/src/database/impl/fetch/recent.ts:126 | for anime the season is rewritten without quotes and a NULL season throws; for manga the season column is passed through untouched |
| Normalize.ParseFields | anify-backend/src/database/impl/fetch/recent.ts:125-136 | parsing the structured columns succeeds exactly when every column parses, and then yields each column's parsed value in column order |
| Normalize.NormalizeRow | anify-backend/src/database/impl/fetch/recent.ts:122-141 | a row normalises exactly when its progress column and every structured column parse and, for anime, the season is not NULL; the entity then keeps the row's id, stored kind and format, carries the parsed values, has no derived field, and has an anime season equal to the stored one without quotes |
| Normalize.Parsed | anify-backend/src/database/impl/fetch/recent.ts:121-142 | the parse loop's output has no more entities than rows, and every entity has no derived field and, when anime were requested, a quote-free season |
| Normalize.ParsedAppend | anify-backend/src/database/impl/fetch/recent.ts:174-194 | parsing a concatenation of row batches gives the concatenation of their results, so no row affects whether or where another row's entity appears |
| Normalize.ParsedSingle | anify-backend/src/database/impl/fetch/recent.ts:191-193 | a single row contributes its normalised entity, or nothing when normalisation throws |
| Normalize.RowInPlace | anify-backend/src/database/impl/fetch/recent.ts:139-141 | the entities of a batch are those of the rows before row `i`, then row `i`'s own (its entity, or nothing), then those of the rows after it |
| Normalize.ParsedAllGood | anify-backend/src/database/impl/fetch/recent.ts:123-138 | when every row parses nothing is dropped: the result has one entity per row, entity `i` coming from row `i` |
| Normalize.NormalizeRows | anify-backend/src/database/impl/fetch/recent.ts:174-194 | the loop that skips a row whose parse throws computes exactly the parse-or-drop result |
| Recency.Timestamp | anify-backend/src/database/impl/fetch/recent.ts:81 | the derived timestamp is 0 for a stored value whose string form is empty and the stored milliseconds otherwise |
| Recency.Decorate | anify-backend/src/database/impl/fetch/recent.ts:149-152 | the spread sets the derived field to the entity's own timestamp and changes no other field |
| Recency.Clear | anify-backend/src/database/impl/fetch/recent.ts:211 | `delete` leaves the entity without the derived field and changes no other field |
| Recency.ClearDecorate | anify-backend/src/database/impl/fetch/recent.ts:79-82 | decorating and then deleting the field gives back the entity's contents, and decoration does not touch the latest record |
| Recency.IsZeroLatest | anify-backend/src/database/impl/fetch/recent.ts:145 | the skip test: the latest count (`latestEpisode` or `latestChapter`) is exactly 0 (lines 75, 145 and 197) |
| Recency.Live | anify-backend/src/database/impl/fetch/recent.ts:144-145 | the zero-latest filter keeps no entity with latest count 0, adds nothing and duplicates nothing (its output is a sub-multiset of its input) |
| Recency.LiveCounts | anify-backend/src/database/impl/fetch/recent.ts:196-197 | only zero-latest entities are removed: every other entity survives the filter exactly as often as it occurs in the input |
| Recency.DecorateAll | anify-backend/src/database/impl/fetch/recent.ts:196-205 | each pushed copy carries its entity's timestamp as the derived field and is otherwise the same entity, in input order |
| Recency.Strip | anify-backend/src/database/impl/fetch/recent.ts:89-91 | deleting the derived field from every entity keeps the order and the length and changes nothing else |
| Recency.SortedCons | anify-backend/src/database/impl/fetch/recent.ts:208 | putting an element no smaller than the head in front of a sequence sorted descending keeps it sorted |
| Recency.Insert | anify-backend/src/database/impl/fetch/recent.ts:208 | inserting into a sequence sorted descending by the derived key keeps it sorted and adds exactly the inserted entity |
| Recency.SortDesc | anify-backend/src/database/impl/fetch/recent.ts:86 | the sort returns a permutation of its input, non-increasing in the derived key (tie order unspecified) |
| Recency.StripPermutation | anify-backend/src/database/impl/fetch/recent.ts:208-212 | stripping two arrangements of the same entities gives two arrangements of the same stripped entities |
| Recency.StripUndecorated | anify-backend/src/database/impl/fetch/recent.ts:210-212 | entities that have no derived field come out of the strip loop unchanged |
| Recency.Recent | anify-backend/src/database/impl/fetch/recent.ts:73-93 | the in-page pipeline returns only entities with a nonzero latest count and none with the derived field; they are newest first by the latest record's timestamp and form a permutation of the stripped zero-latest-filtered input |
| Listing.FetchRecent | anify-backend/src/database/impl/fetch/recent.ts:8-215 | storage is asked for `perPage` rows from the computed offset. On both backends the result has the properties of the in-page pipeline relative to the fetched entities. On the text-JSON backend it is a permutation of the parsed, zero-latest-filtered rows, with no derived field and, when anime were requested, quote-free seasons |
| Listing.TextPathNormalized | anify-backend/src/database/impl/fetch/recent.ts:99-153 | on the text-JSON path the stripped candidates are the parsed entities themselves, so every returned entity is one of them |
| Listing.CorruptRowDropped | anify-backend/src/database/impl/fetch/recent.ts:139-141 | a text-JSON row that fails to parse changes nothing but its own absence: the parsed entities equal those of the other rows alone, without an error |
| Listing.CorruptRowPage | anify-backend/src/database/impl/fetch/recent.ts:191-193 | the returned page with a corrupt row equals the page the other rows alone give |
| Listing.ZeroDroppedPermutation | anify-backend/src/database/impl/fetch/recent.ts:196-212 | of three entities where only the first has latest count 0, the page holds the other two, without the derived field, in some order |
| Listing.ZeroDroppedNewestFirst | anify-backend/src/database/impl/fetch/recent.ts:196-212 | of three entities where only the first has latest count 0 and the other two have distinct timestamps, the page is the other two without the derived field, the newer first, in either fetch order |
| Listing.Candidates | anify-backend/src/database/impl/fetch/recent.ts:9-96 | the backend dispatch: with `dbType` `"postgresql"` the fetched entities are used as they are, with any other `dbType` the fetched rows go through the parse-or-drop loop |
| Listing.ThreeEntityExample | anify-backend/src/database/impl/fetch/recent.ts:144-153 | three concrete anime, one with latest count 0, one updated at 1000 and one updated at 2000, give the page `[third, second]` |

## Left out

- SQL text: the format `IN (...)` predicate, the latest-count `!= '0'` predicate and the storage-level `ORDER BY` are string templates for Prisma and bun:sqlite and are not modelled. This includes the raw interpolation of format tags (lines 18, 29, 98), the malformed `WHERE`/`AND` combinations when `formats` is empty, and the text-JSON query that reads `latestEpisode` outside `latest` (lines 104, 112, 157, 165). `PageQuery` only records what is asked for.
- Which entities land on which page: this depends on the storage-level order, which is only approximated by the in-page re-sort.
- `prisma.$transaction`, `db.query(...).get()/.all()` and `Promise.all`: I/O and async plumbing. Fetched rows are the result of a function parameter. The count query is not modelled, and `LastPage` is not part of the returned value (the source discards it too).
- `JSON.parse` internals: the parser is an opaque parameter returning `Option`.
- `Number(...)` and `new Date(...).getTime()` float semantics: the stored timestamp is modelled as an optional integer. A non-numeric or out-of-range timestamp yields NaN in JavaScript, and the comparator then behaves inconsistently; none of this is modelled.
- The crash when a parsed progress object lacks `latest` (line 147 dereferences it without `?.`): `latest` is always present in the model.
- Listing.FetchRecent: does not promise that text-JSON entities are of the requested kind. Each entity keeps its row's stored `type`, and which table the rows come from is decided by the SQL text, which is not modelled.
- Pager.Skip: page and page size are integers. A fractional page between 0 and 1 would give a negative offset in JavaScript, and the model does not cover it.
- Pager.LastPage: JavaScript numbers are floats. For counts beyond 2^53 the quotient is rounded before `Math.ceil`, and the model uses exact integers.
- Listing.FetchRecent: states the result up to the order of entities with equal timestamps. JavaScript's sort is stable and the insertion sort here is too, but stability is not proved, because the listing does not promise a tie order.
- The top-level `updatedAt` property: if a stored entity already had a top-level property of that name, the spread would overwrite it and `delete` would remove it. The model's `derived` field covers this, and `Recent` therefore relates its output to the stripped input.
