/** The recency post-processing of a fetched page: drop entities whose
    latest count is zero, attach the derived `updatedAt` sort key, sort by
    it descending, and delete it again. */
module Recency {
  import opened Wrappers
  import opened Entities

  /** The derived sort key of a `latest` record: 0 when the stored value's
      string form is empty, otherwise the stored epoch milliseconds. */
  function Timestamp(l: Latest): (t: int)
    ensures l.updatedAt.None? ==> t == 0
    ensures l.updatedAt.Some? ==> t == l.updatedAt.value
  {
    match l.updatedAt
    case None => 0
    case Some(millis) => millis
  }

  /** True when the entity's latest count (`latestEpisode` or
      `latestChapter`) is zero: such entities are skipped. */
  predicate IsZeroLatest(e: Entity)
  {
    e.LatestRecord().count == 0
  }

  /** `{...e, updatedAt: <timestamp>}`: the entity with the derived field
      set and every other field as it was. */
  function Decorate(e: Entity): (d: Entity)
    ensures d.derived == Some(Timestamp(e.LatestRecord()))
    ensures d.(derived := e.derived) == e
  {
    e.(derived := Some(Timestamp(e.LatestRecord())))
  }

  /** `delete e.updatedAt`: the entity without the derived field and every
      other field as it was. */
  function Clear(e: Entity): (c: Entity)
    ensures c.derived.None?
    ensures c.(derived := e.derived) == e
  {
    e.(derived := None)
  }

  /** Decorating and then deleting the derived field gives back the entity
      (less any field of that name it carried before). */
  lemma ClearDecorate(e: Entity)
    ensures Clear(Decorate(e)) == Clear(e)
    ensures Decorate(e).LatestRecord() == e.LatestRecord()
  {
  }

  /** The entities that survive the zero-latest check, in input order. */
  function Live(s: seq<Entity>): (r: seq<Entity>)
    ensures |r| <= |s|
    ensures forall i :: 0 <= i < |r| ==> !IsZeroLatest(r[i])
    ensures multiset(r) <= multiset(s)
  {
    if |s| == 0 then []
    else
      var front := s[..|s| - 1];
      var last := s[|s| - 1];
      assert s == front + [last];
      var prefix := Live(front);
      if IsZeroLatest(last) then prefix else prefix + [last]
  }

  /** Only zero-latest entities are removed: every other entity survives
      the filter exactly as often as it occurs in the input. */
  lemma {:induction false} LiveCounts(s: seq<Entity>, e: Entity)
    ensures multiset(Live(s))[e] == if IsZeroLatest(e) then 0 else multiset(s)[e]
    decreases |s|
  {
    if |s| > 0 {
      var front := s[..|s| - 1];
      var last := s[|s| - 1];
      assert s == front + [last];
      LiveCounts(front, e);
    }
  }

  /** The decorated copies, one per entity, in order. */
  function DecorateAll(s: seq<Entity>): (r: seq<Entity>)
    ensures |r| == |s|
    ensures forall i :: 0 <= i < |s| ==>
      r[i].derived == Some(Timestamp(s[i].LatestRecord())) && r[i].(derived := s[i].derived) == s[i]
  {
    seq(|s|, i requires 0 <= i < |s| => Decorate(s[i]))
  }

  /** The entities without the derived field, one per entity, in order. */
  function Strip(s: seq<Entity>): (r: seq<Entity>)
    ensures |r| == |s|
    ensures forall i :: 0 <= i < |s| ==> r[i].derived.None? && r[i].(derived := s[i].derived) == s[i]
  {
    seq(|s|, i requires 0 <= i < |s| => Clear(s[i]))
  }

  /** The comparator's view of an entity: its derived `updatedAt`. Every
      entity that reaches the sort is decorated, so the default is never
      read there. */
  function Key(e: Entity): int
  {
    match e.derived
    case Some(t) => t
    case None => 0
  }

  /** Non-increasing in the derived key (ties in any order). */
  predicate SortedDesc(s: seq<Entity>)
  {
    forall i, j :: 0 <= i < j < |s| ==> Key(s[i]) >= Key(s[j])
  }

  /** Non-increasing in the timestamp of the `latest` record. */
  predicate TimeSortedDesc(s: seq<Entity>)
  {
    forall i, j :: 0 <= i < j < |s| ==> Timestamp(s[i].LatestRecord()) >= Timestamp(s[j].LatestRecord())
  }

  /** Prepending an element no smaller than the head keeps a sequence sorted. */
  lemma SortedCons(h: Entity, t: seq<Entity>)
    requires SortedDesc(t)
    requires |t| == 0 || Key(h) >= Key(t[0])
    ensures SortedDesc([h] + t)
  {
    var r := [h] + t;
    forall i, j | 0 <= i < j < |r|
      ensures Key(r[i]) >= Key(r[j])
    {
      if i == 0 && j > 1 {
        assert Key(t[0]) >= Key(t[j - 1]);
      }
    }
  }

  /** Inserts `x` into a descending sequence before the first element whose
      key is not larger. */
  function Insert(x: Entity, s: seq<Entity>): (r: seq<Entity>)
    requires SortedDesc(s)
    ensures SortedDesc(r)
    ensures multiset(r) == multiset(s) + multiset{x}
    ensures |r| > 0 && (r[0] == x || (|s| > 0 && r[0] == s[0]))
  {
    if |s| == 0 || Key(x) >= Key(s[0]) then
      SortedCons(x, s);
      [x] + s
    else
      var t := s[1..];
      assert SortedDesc(t) by {
        assert forall i :: 0 <= i < |t| ==> t[i] == s[i + 1];
      }
      var rest := Insert(x, t);
      assert SortedDesc([s[0]] + rest) by {
        assert |t| > 0 ==> Key(s[0]) >= Key(t[0]);
        SortedCons(s[0], rest);
      }
      assert multiset([s[0]] + rest) == multiset(s) + multiset{x} by {
        assert s == [s[0]] + t;
      }
      [s[0]] + rest
  }

  /** `results.sort((a, b) => b.updatedAt - a.updatedAt)`: the same
      entities, non-increasing in the derived key. */
  function SortDesc(s: seq<Entity>): (r: seq<Entity>)
    ensures SortedDesc(r)
    ensures multiset(r) == multiset(s)
    ensures |r| == |s|
  {
    if |s| == 0 then []
    else
      assert s == [s[0]] + s[1..];
      Insert(s[0], SortDesc(s[1..]))
  }

  /** Taking out one element of a sequence takes one occurrence of it out
      of the multiset. */
  lemma MultisetRemove(s: seq<Entity>, k: nat)
    requires k < |s|
    ensures multiset(s[..k] + s[k + 1..]) == multiset(s) - multiset{s[k]}
  {
    assert s == s[..k] + [s[k]] + s[k + 1..];
  }

  lemma StripAppend(a: seq<Entity>, b: seq<Entity>)
    ensures Strip(a + b) == Strip(a) + Strip(b)
  {
  }

  /** Stripping a sequence is stripping it without element `k`, plus the
      stripped element `k`. */
  lemma StripRemove(s: seq<Entity>, k: nat)
    requires k < |s|
    ensures multiset(Strip(s)) == multiset(Strip(s[..k] + s[k + 1..])) + multiset{Clear(s[k])}
  {
    var p, q := s[..k], s[k + 1..];
    assert s == p + [s[k]] + q;
    StripAppend(p + [s[k]], q);
    StripAppend(p, [s[k]]);
    StripAppend(p, q);
  }

  /** Deleting the derived field from two arrangements of the same entities
      gives two arrangements of the same stripped entities. */
  lemma {:induction false} StripPermutation(a: seq<Entity>, b: seq<Entity>)
    requires multiset(a) == multiset(b)
    ensures multiset(Strip(a)) == multiset(Strip(b))
    decreases |a|
  {
    if |a| > 0 {
      var x := a[0];
      assert x in multiset(b);
      var k :| 0 <= k < |b| && b[k] == x;
      var a' := a[..0] + a[1..];
      var b' := b[..k] + b[k + 1..];
      assert multiset(a') == multiset(b') by {
        MultisetRemove(a, 0);
        MultisetRemove(b, k);
      }
      StripPermutation(a', b');
      assert multiset(Strip(a)) == multiset(Strip(a')) + multiset{Clear(x)} by {
        StripRemove(a, 0);
      }
      assert multiset(Strip(b)) == multiset(Strip(b')) + multiset{Clear(x)} by {
        StripRemove(b, k);
      }
    }
  }

  /** Entities already without the derived field are left as they are. */
  lemma StripUndecorated(s: seq<Entity>)
    requires forall i :: 0 <= i < |s| ==> s[i].derived.None?
    ensures Strip(s) == s
  {
  }

  /** An entity as it enters the sort: decorated with the timestamp of its
      own `latest` record, and with a nonzero latest count. */
  predicate Ready(e: Entity)
  {
    e.derived == Some(Timestamp(e.LatestRecord())) && !IsZeroLatest(e)
  }

  lemma DecoratedLiveReady(s: seq<Entity>)
    ensures forall i :: 0 <= i < |DecorateAll(Live(s))| ==> Ready(DecorateAll(Live(s))[i])
  {
    var live := Live(s);
    var d := DecorateAll(live);
    forall i | 0 <= i < |d|
      ensures Ready(d[i])
    {
      assert Clear(d[i]) == Clear(live[i]);
      assert d[i].LatestRecord() == Clear(d[i]).LatestRecord();
    }
  }

  /** Rearranging entities keeps them all ready. */
  lemma ReadyPermutation(a: seq<Entity>, b: seq<Entity>)
    requires multiset(a) == multiset(b)
    requires forall j :: 0 <= j < |b| ==> Ready(b[j])
    ensures forall i :: 0 <= i < |a| ==> Ready(a[i])
  {
    forall i | 0 <= i < |a|
      ensures Ready(a[i])
    {
      assert a[i] in multiset(b);
      var j :| 0 <= j < |b| && b[j] == a[i];
    }
  }

  /** Once sorted by the derived key, ready entities are in timestamp order,
      and deleting the key does not disturb that order. */
  lemma StripSortedReady(sorted: seq<Entity>)
    requires SortedDesc(sorted)
    requires forall i :: 0 <= i < |sorted| ==> Ready(sorted[i])
    ensures TimeSortedDesc(Strip(sorted))
    ensures forall i :: 0 <= i < |Strip(sorted)| ==> !IsZeroLatest(Strip(sorted)[i])
  {
    var r := Strip(sorted);
    assert forall i :: 0 <= i < |r| ==> r[i].LatestRecord() == sorted[i].LatestRecord();
  }

  /** The whole in-page pipeline: filter, decorate, sort, strip. The result
      keeps exactly the entities with a nonzero latest count, each once,
      without the derived field, newest first. */
  function Recent(s: seq<Entity>): (r: seq<Entity>)
    ensures forall i :: 0 <= i < |r| ==> !IsZeroLatest(r[i])
    ensures forall i :: 0 <= i < |r| ==> r[i].derived.None?
    ensures TimeSortedDesc(r)
    ensures multiset(r) == multiset(Strip(Live(s)))
  {
    var live := Live(s);
    var decorated := DecorateAll(live);
    var sorted := SortDesc(decorated);
    assert Strip(decorated) == Strip(live);
    StripPermutation(sorted, decorated);
    DecoratedLiveReady(s);
    ReadyPermutation(sorted, decorated);
    StripSortedReady(sorted);
    Strip(sorted)
  }
}
