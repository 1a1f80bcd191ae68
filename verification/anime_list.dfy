/** The list operations behind the watched list and the watchlist: the
    `some` test that de-duplicates additions, the `filter` that deletes, and
    the de-duplicating append itself. */
module AnimeList {
  import opened Wrappers

  /** An anime record as the screens see it: the two identity fields they
      compare, either of which may be undefined, and the rest of the API
      record, which the lists never look into. */
  datatype Anime = Anime(malId: Option<int>, id: Option<int>, payload: string)

  /** Which identity field a comparison reads. */
  datatype Key = MalId | Id

  function KeyOf(a: Anime, key: Key): Option<int>
  {
    match key
    case MalId => a.malId
    case Id => a.id
  }

  /** `list.some(item => item[key] === v)`. */
  function AnyHas(list: seq<Anime>, key: Key, v: Option<int>): (b: bool)
    ensures b <==> exists i :: 0 <= i < |list| && KeyOf(list[i], key) == v
  {
    if |list| == 0 then false
    else if KeyOf(list[0], key) == v then true
    else
      var b := AnyHas(list[1..], key, v);
      assert forall i :: 1 <= i < |list| ==> list[i] == list[1..][i - 1];
      b
  }

  /** `list.filter(item => item[key] !== v)`: the entries kept are exactly
      those whose key differs from `v`. */
  function Without(list: seq<Anime>, key: Key, v: Option<int>): (r: seq<Anime>)
    ensures forall x :: x in r <==> x in list && KeyOf(x, key) != v
  {
    if |list| == 0 then []
    else
      var rest := Without(list[1..], key, v);
      assert list == [list[0]] + list[1..];
      if KeyOf(list[0], key) != v then [list[0]] + rest else rest
  }

  /** Deletion keeps each entry whose key differs from `v` exactly as often
      as it occurred, and drops every occurrence of the others. */
  lemma {:induction false} WithoutCounts(list: seq<Anime>, key: Key, v: Option<int>)
    ensures forall x :: multiset(Without(list, key, v))[x] == if KeyOf(x, key) != v then multiset(list)[x] else 0
  {
    if |list| > 0 {
      WithoutCounts(list[1..], key, v);
      assert list == [list[0]] + list[1..];
    }
  }

  /** No two entries share a value of `key`; two undefined values count as
      shared. */
  ghost predicate DistinctKeys(list: seq<Anime>, key: Key)
  {
    forall i, j :: 0 <= i < j < |list| ==> KeyOf(list[i], key) != KeyOf(list[j], key)
  }

  /** The list step of `addToWatched` and `addToWatchlist`: `a` goes on the
      end unless some entry already has its mal_id. */
  function AppendUnique(list: seq<Anime>, a: Anime): (r: seq<Anime>)
    ensures |r| == |list| || |r| == |list| + 1
    ensures r[..|list|] == list
    ensures |r| == |list| + 1 <==> forall i :: 0 <= i < |list| ==> list[i].malId != a.malId
    ensures |r| == |list| + 1 ==> r[|list|] == a
  {
    if AnyHas(list, MalId, a.malId) then list else list + [a]
  }

  /** Filtering a concatenation filters each part and keeps them in order,
      so deletion never reorders the entries it keeps. */
  lemma {:induction false} WithoutAppend(a: seq<Anime>, b: seq<Anime>, key: Key, v: Option<int>)
    ensures Without(a + b, key, v) == Without(a, key, v) + Without(b, key, v)
  {
    if |a| == 0 {
      assert a + b == b;
    } else {
      assert (a + b)[1..] == a[1..] + b;
      WithoutAppend(a[1..], b, key, v);
    }
  }

  /** Deleting a key no entry has leaves the list as it was. */
  lemma {:induction false} WithoutAbsent(list: seq<Anime>, key: Key, v: Option<int>)
    requires forall i :: 0 <= i < |list| ==> KeyOf(list[i], key) != v
    ensures Without(list, key, v) == list
  {
    if |list| > 0 {
      WithoutAbsent(list[1..], key, v);
      assert list == [list[0]] + list[1..];
    }
  }

  /** Deleting twice is deleting once. */
  lemma WithoutIdempotent(list: seq<Anime>, key: Key, v: Option<int>)
    ensures Without(Without(list, key, v), key, v) == Without(list, key, v)
  {
    var r := Without(list, key, v);
    assert forall i :: 0 <= i < |r| ==> r[i] in r;
    WithoutAbsent(r, key, v);
  }

  /** The entries deletion drops are exactly those carrying the target key:
      the list shrinks by the number of them and no other. */
  lemma {:induction false} WithoutDropsOnlyTarget(list: seq<Anime>, key: Key, v: Option<int>)
    ensures |Without(list, key, v)| == |list| - Count(list, key, v)
  {
    if |list| > 0 {
      WithoutDropsOnlyTarget(list[1..], key, v);
    }
  }

  /** The number of entries whose `key` equals `v`. */
  function Count(list: seq<Anime>, key: Key, v: Option<int>): (n: nat)
    ensures n <= |list|
  {
    if |list| == 0 then 0
    else (if KeyOf(list[0], key) == v then 1 else 0) + Count(list[1..], key, v)
  }

  /** Deletion keeps keys pairwise distinct. */
  lemma {:induction false} WithoutKeepsDistinct(list: seq<Anime>, key: Key, v: Option<int>)
    requires DistinctKeys(list, key)
    ensures DistinctKeys(Without(list, key, v), key)
  {
    if |list| > 0 {
      var tail := list[1..];
      assert DistinctKeys(tail, key) by {
        forall i, j | 0 <= i < j < |tail|
          ensures KeyOf(tail[i], key) != KeyOf(tail[j], key)
        {
          assert tail[i] == list[i + 1] && tail[j] == list[j + 1];
        }
      }
      WithoutKeepsDistinct(tail, key, v);
      if KeyOf(list[0], key) != v {
        var rest := Without(tail, key, v);
        assert HeadKeyFresh: forall y :: y in rest ==> KeyOf(list[0], key) != KeyOf(y, key) by {
          forall y | y in rest
            ensures KeyOf(list[0], key) != KeyOf(y, key)
          {
            var k :| 0 <= k < |tail| && tail[k] == y;
            assert list[k + 1] == y;
          }
        }
        ConsDistinct(list[0], rest, key);
      }
    }
  }

  /** Putting an entry with a fresh key in front of a distinct list keeps it
      distinct. */
  lemma ConsDistinct(h: Anime, rest: seq<Anime>, key: Key)
    requires DistinctKeys(rest, key)
    requires forall y :: y in rest ==> KeyOf(h, key) != KeyOf(y, key)
    ensures DistinctKeys([h] + rest, key)
  {
    var r := [h] + rest;
    forall i, j | 0 <= i < j < |r|
      ensures KeyOf(r[i], key) != KeyOf(r[j], key)
    {
      assert r[j] == rest[j - 1];
      if i > 0 {
        assert r[i] == rest[i - 1];
      } else {
        assert rest[j - 1] in rest;
      }
    }
  }

  /** Adding an anime whose mal_id is not yet present and then deleting by
      that mal_id gives back the original list. */
  lemma AddFreshThenDeleteRestores(list: seq<Anime>, a: Anime)
    requires forall i :: 0 <= i < |list| ==> list[i].malId != a.malId
    ensures Without(AppendUnique(list, a), MalId, a.malId) == list
  {
    assert AppendUnique(list, a) == list + [a];
    WithoutAppend(list, [a], MalId, a.malId);
    WithoutAbsent(list, MalId, a.malId);
    assert Without([a], MalId, a.malId) == [];
  }

  /** Appending the same anime a second time changes nothing. */
  lemma AppendUniqueIdempotent(list: seq<Anime>, a: Anime)
    ensures AppendUnique(AppendUnique(list, a), a) == AppendUnique(list, a)
  {
    var r := AppendUnique(list, a);
    assert r[|r| - 1].malId == a.malId || exists i :: 0 <= i < |list| && list[i].malId == a.malId;
    if |r| == |list| {
      var i :| 0 <= i < |list| && list[i].malId == a.malId;
      assert r[i] == list[i];
    }
  }

  /** The de-duplicating append keeps mal_ids pairwise distinct. */
  lemma AppendUniqueKeepsDistinct(list: seq<Anime>, a: Anime)
    requires DistinctKeys(list, MalId)
    ensures DistinctKeys(AppendUnique(list, a), MalId)
  {
    var r := AppendUnique(list, a);
    if |r| == |list| + 1 {
      forall i, j | 0 <= i < j < |r|
        ensures KeyOf(r[i], MalId) != KeyOf(r[j], MalId)
      {
        assert r[i] == list[i];
        if j < |list| {
          assert r[j] == list[j];
        }
      }
    }
  }
}
