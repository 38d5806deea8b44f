/** The `recent` listing end to end: the page query it hands to storage and
    the entity sequence it returns, on either backend. Storage itself is a
    parameter: a function from the page query to the rows it returns. */
module Listing {
  import opened Wrappers
  import opened Entities
  import opened Normalize
  import opened Recency
  import opened Pager

  /** What the page query asks storage for: entities of `kind` in one of
      `formats`, at most `limit` of them starting at row `offset`. */
  datatype PageQuery = PageQuery(kind: Kind, formats: seq<string>, limit: int, offset: int)

  /** The configured storage engine identifier that selects the structured
      backend; any other identifier takes the text-JSON path. */
  const Structured: string := "postgresql"

  /** The entities the in-page post-processing starts from: the structured
      backend returns them ready-made, the text-JSON backend returns rows
      that go through the parse-or-drop loop first. */
  function Candidates(dbType: string, kind: Kind, q: PageQuery,
                      structured: PageQuery -> seq<Entity>,
                      text: PageQuery -> seq<RawRow>, parser: Parser): seq<Entity>
  {
    if dbType == Structured then structured(q) else Parsed(kind, text(q), parser)
  }

  /** `recent(type, formats, page, perPage)`. The returned page keeps every
      fetched entity with a nonzero latest count and nothing else, each
      once, newest first, with the derived field deleted; the storage was
      asked for `perPage` rows from offset `Skip(page, perPage)`. */
  function FetchRecent(dbType: string, kind: Kind, formats: seq<string>, page: int, perPage: int,
                       structured: PageQuery -> seq<Entity>,
                       text: PageQuery -> seq<RawRow>, parser: Parser): (r: seq<Entity>)
    ensures var q := PageQuery(kind, formats, perPage, Skip(page, perPage));
      var fetched := Candidates(dbType, kind, q, structured, text, parser);
      && (forall i :: 0 <= i < |r| ==> !IsZeroLatest(r[i]) && r[i].derived.None?)
      && TimeSortedDesc(r)
      && multiset(r) == multiset(Strip(Live(fetched)))
    ensures dbType != Structured ==>
      var q := PageQuery(kind, formats, perPage, Skip(page, perPage));
      && multiset(r) == multiset(Live(Parsed(kind, text(q), parser)))
      && forall i :: 0 <= i < |r| ==> WellNormalized(kind, r[i])
  {
    var q := PageQuery(kind, formats, perPage, Skip(page, perPage));
    var fetched := Candidates(dbType, kind, q, structured, text, parser);
    var r := Recent(fetched);
    if dbType != Structured then
      TextPathNormalized(kind, text(q), parser, r);
      r
    else
      r
  }

  /** On the text-JSON path the stripped candidates are the parsed entities
      themselves, and every returned entity is one of them. */
  lemma TextPathNormalized(kind: Kind, rows: seq<RawRow>, parser: Parser, r: seq<Entity>)
    requires multiset(r) == multiset(Strip(Live(Parsed(kind, rows, parser))))
    ensures multiset(r) == multiset(Live(Parsed(kind, rows, parser)))
    ensures forall i :: 0 <= i < |r| ==> WellNormalized(kind, r[i])
  {
    var parsed := Parsed(kind, rows, parser);
    var live := Live(parsed);
    forall i | 0 <= i < |live|
      ensures live[i].derived.None? && WellNormalized(kind, live[i])
    {
      assert live[i] in multiset(live);
      assert live[i] in multiset(parsed);
      var j :| 0 <= j < |parsed| && parsed[j] == live[i];
    }
    StripUndecorated(live);
    forall i | 0 <= i < |r|
      ensures WellNormalized(kind, r[i])
    {
      assert r[i] in multiset(live);
      var j :| 0 <= j < |live| && live[j] == r[i];
    }
  }

  /** A row of the text-JSON page that fails to parse changes nothing but
      its own absence: the parsed entities are those of the other rows. */
  lemma CorruptRowDropped(kind: Kind, rows: seq<RawRow>, i: nat, parser: Parser)
    requires i < |rows| && NormalizeRow(kind, rows[i], parser).None?
    ensures Parsed(kind, rows, parser) == Parsed(kind, rows[..i] + rows[i + 1..], parser)
  {
    var before, after := rows[..i], rows[i + 1..];
    assert Parsed(kind, rows, parser) == Parsed(kind, before, parser) + Parsed(kind, after, parser) by {
      RowInPlace(kind, rows, i, parser);
      ParsedSingle(kind, rows[i], parser);
    }
    ParsedAppend(kind, before, after, parser);
  }

  /** ... and so the returned page is the one the other rows alone give. */
  lemma CorruptRowPage(kind: Kind, rows: seq<RawRow>, i: nat, parser: Parser)
    requires i < |rows| && NormalizeRow(kind, rows[i], parser).None?
    ensures Recent(Parsed(kind, rows, parser)) == Recent(Parsed(kind, rows[..i] + rows[i + 1..], parser))
  {
    CorruptRowDropped(kind, rows, i, parser);
  }

  lemma LiveDropsFirst(e1: Entity, e2: Entity, e3: Entity)
    requires IsZeroLatest(e1) && !IsZeroLatest(e2) && !IsZeroLatest(e3)
    ensures Live([e1, e2, e3]) == [e2, e3]
  {
    assert [e1, e2, e3][..2] == [e1, e2];
    assert [e1, e2][..1] == [e1];
    assert [e1][..0] == [];
  }

  /** A timestamp-sorted arrangement of two entities with distinct
      timestamps puts the newer one first. */
  lemma SortedPair(r: seq<Entity>, newer: Entity, older: Entity)
    requires multiset(r) == multiset{newer, older}
    requires TimeSortedDesc(r)
    requires Timestamp(older.LatestRecord()) < Timestamp(newer.LatestRecord())
    ensures r == [newer, older]
  {
    assert |r| == 2;
    assert r == [r[0], r[1]];
    assert r[0] in multiset(r) && r[1] in multiset(r);
  }

  /** With the first of three entities at a zero latest count, the page
      holds the other two, without the derived field, in some order. */
  lemma ZeroDroppedPermutation(e1: Entity, e2: Entity, e3: Entity)
    requires IsZeroLatest(e1) && !IsZeroLatest(e2) && !IsZeroLatest(e3)
    ensures multiset(Recent([e1, e2, e3])) == multiset{Clear(e2), Clear(e3)}
  {
    LiveDropsFirst(e1, e2, e3);
    assert Strip([e2, e3]) == [Clear(e2), Clear(e3)];
  }

  /** Of three fetched entities, the first with a zero latest count and the
      other two with distinct timestamps, the page holds the other two
      without the derived field, newest first, whichever order they were
      fetched in. */
  lemma ZeroDroppedNewestFirst(e1: Entity, e2: Entity, e3: Entity)
    requires IsZeroLatest(e1) && !IsZeroLatest(e2) && !IsZeroLatest(e3)
    requires Timestamp(e2.LatestRecord()) != Timestamp(e3.LatestRecord())
    ensures Recent([e1, e2, e3])
      == if Timestamp(e2.LatestRecord()) < Timestamp(e3.LatestRecord())
         then [Clear(e3), Clear(e2)]
         else [Clear(e2), Clear(e3)]
  {
    var r := Recent([e1, e2, e3]);
    var c2, c3 := Clear(e2), Clear(e3);
    ZeroDroppedPermutation(e1, e2, e3);
    assert c2.LatestRecord() == e2.LatestRecord() && c3.LatestRecord() == e3.LatestRecord();
    if Timestamp(e2.LatestRecord()) < Timestamp(e3.LatestRecord()) {
      SortedPair(r, c3, c2);
    } else {
      SortedPair(r, c2, c3);
    }
  }

  /** Three concrete anime: one with latest count 0, one updated at 1000
      and one updated at 2000. The page holds the last two, newest first. */
  lemma ThreeEntityExample(progress: Json, payload: seq<Json>)
    ensures var e1 := Entity("1", Anime, "TV", Some("WINTER"), Progress(Latest(0, None), progress), payload, None);
      var e2 := Entity("2", Anime, "TV", Some("WINTER"), Progress(Latest(5, Some(1000)), progress), payload, None);
      var e3 := Entity("3", Anime, "OVA", Some("WINTER"), Progress(Latest(2, Some(2000)), progress), payload, None);
      Recent([e1, e2, e3]) == [e3, e2]
  {
    var e1 := Entity("1", Anime, "TV", Some("WINTER"), Progress(Latest(0, None), progress), payload, None);
    var e2 := Entity("2", Anime, "TV", Some("WINTER"), Progress(Latest(5, Some(1000)), progress), payload, None);
    var e3 := Entity("3", Anime, "OVA", Some("WINTER"), Progress(Latest(2, Some(2000)), progress), payload, None);
    ZeroDroppedNewestFirst(e1, e2, e3);
    assert Clear(e2) == e2 && Clear(e3) == e3;
  }
}
