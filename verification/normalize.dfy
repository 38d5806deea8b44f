/** Row normalisation on the text-JSON backend: every structured column is
    JSON-parsed, the anime `season` has its quote characters removed as
    plain text, and a row on which any of this throws is dropped without
    failing the page. */
module Normalize {
  import opened Wrappers
  import opened Entities

  /** `season.replace(/"/g, "")`: every `"` removed, everything else kept
      in order. */
  function StripQuotes(s: string): (r: string)
    ensures '"' !in r
    ensures |r| <= |s|
    ensures forall c :: c != '"' ==> multiset(r)[c] == multiset(s)[c]
  {
    if |s| == 0 then []
    else if s[0] == '"' then
      assert s == [s[0]] + s[1..];
      StripQuotes(s[1..])
    else
      var rest := StripQuotes(s[1..]);
      assert s == [s[0]] + s[1..];
      [s[0]] + rest
  }

  /** Removing quotes works piece by piece, so the characters that remain
      keep their original relative order. */
  lemma {:induction false} StripQuotesAppend(a: string, b: string)
    ensures StripQuotes(a + b) == StripQuotes(a) + StripQuotes(b)
    decreases |a|
  {
    if |a| == 0 {
      assert a + b == b;
    } else {
      assert (a + b)[1..] == a[1..] + b;
      StripQuotesAppend(a[1..], b);
    }
  }

  /** A season without quote characters is left exactly as it is; in
      particular stripping twice is the same as stripping once. */
  lemma {:induction false} StripQuotesUnquoted(s: string)
    requires '"' !in s
    ensures StripQuotes(s) == s
    decreases |s|
  {
    if |s| > 0 {
      assert s[0] != '"';
      assert '"' !in s[1..] by {
        assert forall k :: 0 <= k < |s[1..]| ==> s[1..][k] == s[k + 1];
      }
      StripQuotesUnquoted(s[1..]);
      assert s == [s[0]] + s[1..];
    }
  }

  /** `JSON.parse` applied to every structured column in order: a value for
      each column when every parse succeeds, nothing when any one throws. */
  function ParseFields(fields: seq<string>, parse: string -> Option<Json>): (r: Option<seq<Json>>)
    ensures r.Some? <==> forall i :: 0 <= i < |fields| ==> parse(fields[i]).Some?
    ensures r.Some? ==>
      && |r.value| == |fields|
      && forall i :: 0 <= i < |fields| ==> r.value[i] == parse(fields[i]).value
  {
    if |fields| == 0 then Some([])
    else
      match parse(fields[0])
      case None => None
      case Some(v) =>
        match ParseFields(fields[1..], parse)
        case None =>
          assert forall i :: 0 <= i < |fields[1..]| ==> fields[1..][i] == fields[i + 1];
          None
        case Some(vs) => Some([v] + vs)
  }

  /** The season after normalisation: for anime, the stored text with its
      quotes removed (a NULL season makes `.replace` throw, so `None`); for
      manga the column is not touched. */
  function NormalizeSeason(kind: Kind, season: Option<string>): (r: Option<Option<string>>)
    ensures r.None? <==> kind == Anime && season.None?
    ensures r.Some? && kind == Anime ==> r.value.Some? && '"' !in r.value.value
    ensures kind == Manga ==> r == Some(season)
  {
    match kind
    case Anime => (if season.None? then None else Some(Some(StripQuotes(season.value))))
    case Manga => Some(season)
  }

  /** One row of the text-JSON backend, as the body of the `try` block:
      the canonical entity, or `None` when any parse (or the season
      rewrite) throws. `kind` is the requested kind, which picks the loop
      and so whether `season` is rewritten; the entity keeps the row's own
      stored kind, since `Object.assign` only replaces the listed columns. */
  function NormalizeRow(kind: Kind, row: RawRow, parser: Parser): (r: Option<Entity>)
    ensures r.Some? <==>
      && parser.progress(row.progress).Some?
      && (forall i :: 0 <= i < |row.fields| ==> parser.value(row.fields[i]).Some?)
      && (kind == Anime ==> row.season.Some?)
    ensures r.Some? ==>
      && r.value.id == row.id
      && r.value.kind == row.kind
      && r.value.format == row.format
      && r.value.progress == parser.progress(row.progress).value
      && |r.value.payload| == |row.fields|
      && (forall i :: 0 <= i < |row.fields| ==> r.value.payload[i] == parser.value(row.fields[i]).value)
      && r.value.derived.None?
    ensures r.Some? && kind == Anime ==>
      r.value.season == Some(StripQuotes(row.season.value)) && '"' !in r.value.season.value
    ensures r.Some? && kind == Manga ==> r.value.season == row.season
  {
    match (parser.progress(row.progress), ParseFields(row.fields, parser.value), NormalizeSeason(kind, row.season))
    case (Some(progress), Some(payload), Some(season)) =>
      Some(Entity(row.id, row.kind, row.format, season, progress, payload, None))
    case _ => None
  }

  /** A normalised entity as the text-JSON backend produces it for a
      request of `kind`: without the derived sort field and, when anime were
      requested, with a season free of quote characters. */
  predicate WellNormalized(kind: Kind, e: Entity)
  {
    && e.derived.None?
    && (kind == Anime ==> e.season.Some? && '"' !in e.season.value)
  }

  /** The entities the parse loop collects from `rows`, in row order: every
      row that normalises contributes its entity, every other row nothing. */
  function Parsed(kind: Kind, rows: seq<RawRow>, parser: Parser): (r: seq<Entity>)
    ensures |r| <= |rows|
    ensures forall i :: 0 <= i < |r| ==> WellNormalized(kind, r[i])
  {
    if |rows| == 0 then []
    else
      var prefix := Parsed(kind, rows[..|rows| - 1], parser);
      match NormalizeRow(kind, rows[|rows| - 1], parser)
      case None => prefix
      case Some(e) => prefix + [e]
  }

  /** Parsing a batch is parsing its parts: no row influences whether or
      where another row's entity appears. */
  lemma {:induction false} ParsedAppend(kind: Kind, a: seq<RawRow>, b: seq<RawRow>, parser: Parser)
    ensures Parsed(kind, a + b, parser) == Parsed(kind, a, parser) + Parsed(kind, b, parser)
    decreases |b|
  {
    if |b| == 0 {
      assert a + b == a;
    } else {
      var b' := b[..|b| - 1];
      assert (a + b)[..|a + b| - 1] == a + b';
      assert (a + b)[|a + b| - 1] == b[|b| - 1];
      ParsedAppend(kind, a, b', parser);
    }
  }

  /** The entities of a single row: its normalisation, or nothing. */
  lemma ParsedSingle(kind: Kind, row: RawRow, parser: Parser)
    ensures NormalizeRow(kind, row, parser).None? ==> Parsed(kind, [row], parser) == []
    ensures NormalizeRow(kind, row, parser).Some? ==>
      Parsed(kind, [row], parser) == [NormalizeRow(kind, row, parser).value]
  {
    assert [row][..0] == [];
  }

  /** Each row's contribution stays in place: the entities of a batch are
      those of the rows before row `i`, then row `i`'s own (its entity, or
      nothing when it fails to parse), then those of the rows after it. */
  lemma RowInPlace(kind: Kind, rows: seq<RawRow>, i: nat, parser: Parser)
    requires i < |rows|
    ensures Parsed(kind, rows, parser)
      == Parsed(kind, rows[..i], parser) + Parsed(kind, [rows[i]], parser) + Parsed(kind, rows[i + 1..], parser)
  {
    var before, after := rows[..i], rows[i + 1..];
    assert Parsed(kind, rows, parser) == Parsed(kind, before, parser) + Parsed(kind, [rows[i]] + after, parser) by {
      assert rows == before + ([rows[i]] + after);
      ParsedAppend(kind, before, [rows[i]] + after, parser);
    }
    ParsedAppend(kind, [rows[i]], after, parser);
  }

  /** When every row parses, nothing is dropped: entity `i` is row `i`. */
  lemma {:induction false} ParsedAllGood(kind: Kind, rows: seq<RawRow>, parser: Parser)
    requires forall i :: 0 <= i < |rows| ==> NormalizeRow(kind, rows[i], parser).Some?
    ensures |Parsed(kind, rows, parser)| == |rows|
    ensures forall i :: 0 <= i < |rows| ==>
      Parsed(kind, rows, parser)[i] == NormalizeRow(kind, rows[i], parser).value
    decreases |rows|
  {
    if |rows| > 0 {
      var front := rows[..|rows| - 1];
      assert forall i :: 0 <= i < |front| ==> front[i] == rows[i];
      ParsedAllGood(kind, front, parser);
    }
  }

  /** The parse-or-drop loop: each row is normalised inside a `try`, a row
      that throws is skipped and the loop carries on. */
  method NormalizeRows(kind: Kind, rows: seq<RawRow>, parser: Parser) returns (parsed: seq<Entity>)
    ensures parsed == Parsed(kind, rows, parser)
  {
    parsed := [];
    var i := 0;
    while i < |rows|
      invariant 0 <= i <= |rows|
      invariant parsed == Parsed(kind, rows[..i], parser)
    {
      assert rows[..i + 1][..i] == rows[..i];
      var r := NormalizeRow(kind, rows[i], parser);
      if r.Some? {
        parsed := parsed + [r.value];
      }
      i := i + 1;
    }
    assert rows[..|rows|] == rows;
  }
}
