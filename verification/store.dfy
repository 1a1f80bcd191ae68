/** The watched list and the watchlist as the anime screens hold them in
    memory, together with the key-value storage that backs them. Every
    handler sets the in-memory list first and then writes the whole list
    under its key. */
module Store {
  import opened Wrappers
  import opened AnimeList

  const WatchedKey: string := "watched"
  const WatchlistKey: string := "watchlist"

  /** Key-value storage. Each value is the array written under the key;
      serialising it and parsing it back is taken to be the identity. */
  type Storage = map<string, seq<Anime>>

  /** Whether a storage call succeeds; the environment decides. */
  datatype Io = Succeeds | Fails

  /** Whether the screen holding a delete handler was given its list
      setter. The screens declare a setter prop, but the tab navigator mounts
      them with the list alone; calling the missing setter throws a
      TypeError. The environment decides, as it does for `Io`. */
  datatype Mount = WithSetter | NoSetter

  /** How an async handler's promise settles: it resolves, or it rejects
      because a storage call failed and nothing caught the error. */
  datatype Settled = Resolved | Rejected

  /** The two lists. */
  datatype List = Watched | Watchlist

  datatype State = State(watched: seq<Anime>, watchlist: seq<Anime>, storage: Storage)

  /** The state after a handler ran, and how its promise settled. */
  datatype Step = Step(state: State, settled: Settled)

  function StorageKey(l: List): string
  {
    match l
    case Watched => WatchedKey
    case Watchlist => WatchlistKey
  }

  function Other(l: List): List
  {
    match l
    case Watched => Watchlist
    case Watchlist => Watched
  }

  function Get(s: State, l: List): seq<Anime>
  {
    match l
    case Watched => s.watched
    case Watchlist => s.watchlist
  }

  function Set(s: State, l: List, v: seq<Anime>): (r: State)
    ensures Get(r, l) == v && Get(r, Other(l)) == Get(s, Other(l)) && r.storage == s.storage
  {
    match l
    case Watched => s.(watched := v)
    case Watchlist => s.(watchlist := v)
  }

  /** Storage agrees with memory for list `l`: its key holds exactly the
      in-memory list. */
  ghost predicate Synced(s: State, l: List)
  {
    StorageKey(l) in s.storage && s.storage[StorageKey(l)] == Get(s, l)
  }

  /** `addToWatched` / `addToWatchlist`: if no entry of list `l` has the
      anime's mal_id, the list with the anime appended becomes the in-memory
      list and is then written under the list's key; a failed write is not
      caught. */
  function Add(s: State, l: List, anime: Anime, write: Io): (r: Step)
    ensures Get(r.state, l) == AppendUnique(Get(s, l), anime)
    ensures Get(r.state, Other(l)) == Get(s, Other(l))
    ensures AnyHas(Get(s, l), MalId, anime.malId) ==> r == Step(s, Resolved)
    ensures !AnyHas(Get(s, l), MalId, anime.malId) && write == Succeeds ==>
              r.state.storage == s.storage[StorageKey(l) := Get(s, l) + [anime]] && r.settled == Resolved
    ensures !AnyHas(Get(s, l), MalId, anime.malId) && write == Fails ==>
              r.state.storage == s.storage && r.settled == Rejected
  {
    if AnyHas(Get(s, l), MalId, anime.malId) then Step(s, Resolved)
    else
      var updated := Get(s, l) + [anime];
      var s1 := Set(s, l, updated);
      match write
      case Succeeds => Step(s1.(storage := s.storage[StorageKey(l) := updated]), Resolved)
      case Fails => Step(s1, Rejected)
  }

  function AddToWatched(s: State, anime: Anime, write: Io): (r: Step)
    ensures r.state.watched == AppendUnique(s.watched, anime)
    ensures r.state.watchlist == s.watchlist
    ensures WatchlistKey in s.storage <==> WatchlistKey in r.state.storage
    ensures WatchlistKey in s.storage ==> r.state.storage[WatchlistKey] == s.storage[WatchlistKey]
    ensures write == Succeeds ==> r.settled == Resolved
  {
    Add(s, Watched, anime, write)
  }

  function AddToWatchlist(s: State, anime: Anime, write: Io): (r: Step)
    ensures r.state.watchlist == AppendUnique(s.watchlist, anime)
    ensures r.state.watched == s.watched
    ensures WatchedKey in s.storage <==> WatchedKey in r.state.storage
    ensures WatchedKey in s.storage ==> r.state.storage[WatchedKey] == s.storage[WatchedKey]
    ensures write == Succeeds ==> r.settled == Resolved
  {
    Add(s, Watchlist, anime, write)
  }

  /** `loadAnimeLists`: both keys are read, then each list whose key holds a
      value is replaced by it. A failed read rejects before either list is
      set. */
  function LoadAnimeLists(s: State, read: Io): (r: Step)
    ensures r.state.storage == s.storage
    ensures read == Fails ==> r == Step(s, Rejected)
    ensures read == Succeeds ==> r.settled == Resolved
    ensures read == Succeeds && WatchedKey in s.storage ==> r.state.watched == s.storage[WatchedKey]
    ensures read == Succeeds && WatchedKey !in s.storage ==> r.state.watched == s.watched
    ensures read == Succeeds && WatchlistKey in s.storage ==> r.state.watchlist == s.storage[WatchlistKey]
    ensures read == Succeeds && WatchlistKey !in s.storage ==> r.state.watchlist == s.watchlist
  {
    match read
    case Fails => Step(s, Rejected)
    case Succeeds =>
      var watched := if WatchedKey in s.storage then s.storage[WatchedKey] else s.watched;
      var watchlist := if WatchlistKey in s.storage then s.storage[WatchlistKey] else s.watchlist;
      Step(s.(watched := watched, watchlist := watchlist), Resolved)
  }

  /** The delete handlers: list `l` keeps the entries whose `key` differs
      from the target's and is handed to the list setter before the write.
      With a setter, it becomes the in-memory list, and a failed write is
      caught and logged, so the handler resolves. Without one, the setter
      call throws before the `try`: nothing is set or written, and the
      handler rejects. */
  function Delete(s: State, l: List, key: Key, target: Anime, mount: Mount, write: Io): (r: Step)
    ensures mount == NoSetter ==> r == Step(s, Rejected)
    ensures mount == WithSetter ==> Get(r.state, l) == Without(Get(s, l), key, KeyOf(target, key))
    ensures Get(r.state, Other(l)) == Get(s, Other(l))
    ensures mount == WithSetter ==> r.settled == Resolved
    ensures mount == WithSetter && write == Succeeds ==>
              r.state.storage == s.storage[StorageKey(l) := Get(r.state, l)]
    ensures write == Fails ==> r.state.storage == s.storage
  {
    var updated := Without(Get(s, l), key, KeyOf(target, key));
    match mount
    case NoSetter => Step(s, Rejected)
    case WithSetter =>
      var s1 := Set(s, l, updated);
      match write
      case Succeeds => Step(s1.(storage := s.storage[StorageKey(l) := updated]), Resolved)
      case Fails => Step(s1, Resolved)
  }

  /** `deleteFromWatched` as written, with the setter the screen declares:
      it compares `id`, not `mal_id`. */
  function DeleteFromWatched(s: State, anime: Anime, write: Io): (r: Step)
    ensures r.state.watched == Without(s.watched, Id, anime.id)
    ensures forall x :: x in r.state.watched <==> x in s.watched && x.id != anime.id
    ensures r.state.watchlist == s.watchlist
    ensures write == Succeeds ==> r.state.storage == s.storage[WatchedKey := r.state.watched]
  {
    Delete(s, Watched, Id, anime, WithSetter, write)
  }

  /** `deleteFromWatched` comparing `mal_id`, the key additions
      de-duplicate on, with the setter the screen declares. */
  function DeleteFromWatchedByMalId(s: State, anime: Anime, write: Io): (r: Step)
    ensures r.state.watched == Without(s.watched, MalId, anime.malId)
    ensures forall x :: x in r.state.watched <==> x in s.watched && x.malId != anime.malId
    ensures r.state.watchlist == s.watchlist
    ensures write == Succeeds ==> r.state.storage == s.storage[WatchedKey := r.state.watched]
  {
    Delete(s, Watched, MalId, anime, WithSetter, write)
  }

  /** `deleteFromWatchlist`, with the setter the screen declares: compares
      `mal_id`. */
  function DeleteFromWatchlist(s: State, anime: Anime, write: Io): (r: Step)
    ensures r.state.watchlist == Without(s.watchlist, MalId, anime.malId)
    ensures forall x :: x in r.state.watchlist <==> x in s.watchlist && x.malId != anime.malId
    ensures r.state.watched == s.watched
    ensures write == Succeeds ==> r.state.storage == s.storage[WatchlistKey := r.state.watchlist]
  {
    Delete(s, Watchlist, MalId, anime, WithSetter, write)
  }

  /** As the tab navigator mounts the screens, without a setter, deleting a
      listed anime leaves it in the list and in storage, and the handler
      rejects. With a setter, as the screens declare, the same delete removes
      every entry carrying the target's key and resolves. */
  lemma MountedDeleteKeepsTarget(s: State, l: List, key: Key, target: Anime, write: Io)
    requires target in Get(s, l)
    ensures var mounted := Delete(s, l, key, target, NoSetter, write);
            && target in Get(mounted.state, l)
            && mounted.state.storage == s.storage
            && mounted.settled == Rejected
    ensures var declared := Delete(s, l, key, target, WithSetter, write);
            && (forall x :: x in Get(declared.state, l) ==> KeyOf(x, key) != KeyOf(target, key))
            && target !in Get(declared.state, l)
            && declared.settled == Resolved
  {
  }

  /** Adding the same anime twice leaves memory and storage as adding it
      once, whatever the second write would do. */
  lemma AddTwiceIsAddOnce(s: State, l: List, anime: Anime, first: Io, second: Io)
    ensures Add(Add(s, l, anime, first).state, l, anime, second).state == Add(s, l, anime, first).state
  {
    var s1 := Add(s, l, anime, first).state;
    AppendUniqueIdempotent(Get(s, l), anime);
    var r := Get(s1, l);
    if !AnyHas(Get(s, l), MalId, anime.malId) {
      assert r[|r| - 1] == anime;
    }
  }

  /** A successful add leaves the list's key holding the in-memory list,
      provided it did so before or the anime was new. */
  lemma AddKeepsSynced(s: State, l: List, anime: Anime)
    requires Synced(s, l) || !AnyHas(Get(s, l), MalId, anime.malId)
    ensures Synced(Add(s, l, anime, Succeeds).state, l)
  {
  }

  /** A successful delete leaves the list's key holding the in-memory
      list. */
  lemma DeleteSyncs(s: State, l: List, key: Key, target: Anime)
    ensures Synced(Delete(s, l, key, target, WithSetter, Succeeds).state, l)
  {
  }

  /** Loading a synced list gives back the in-memory list: what was stored
      is what is loaded. */
  lemma LoadSyncedIsIdentity(s: State, l: List)
    requires Synced(s, l)
    ensures Get(LoadAnimeLists(s, Succeeds).state, l) == Get(s, l)
  {
  }

  /** After a successful add of a new anime, loading yields the same list. */
  lemma AddThenLoad(s: State, l: List, anime: Anime)
    requires !AnyHas(Get(s, l), MalId, anime.malId)
    ensures var added := Add(s, l, anime, Succeeds).state;
            Get(LoadAnimeLists(added, Succeeds).state, l) == Get(added, l)
  {
    AddKeepsSynced(s, l, anime);
    LoadSyncedIsIdentity(Add(s, l, anime, Succeeds).state, l);
  }

  /** Deleting twice leaves memory and storage as deleting once, whether
      or not the screen has its setter. */
  lemma DeleteTwiceIsDeleteOnce(s: State, l: List, key: Key, target: Anime, mount: Mount, write: Io)
    ensures Delete(Delete(s, l, key, target, mount, write).state, l, key, target, mount, write).state
            == Delete(s, l, key, target, mount, write).state
  {
    if mount == WithSetter {
      var v := KeyOf(target, key);
      var u := Without(Get(s, l), key, v);
      WithoutIdempotent(Get(s, l), key, v);
      var s1 := Delete(s, l, key, target, mount, write).state;
      assert Get(s1, l) == u;
      var s2 := Delete(s1, l, key, target, mount, write).state;
      assert Get(s2, l) == u;
    }
  }

  /** Deleting a key no entry has leaves the in-memory list unchanged. */
  lemma DeleteAbsentKeepsList(s: State, l: List, key: Key, target: Anime, mount: Mount, write: Io)
    requires forall i :: 0 <= i < |Get(s, l)| ==> KeyOf(Get(s, l)[i], key) != KeyOf(target, key)
    ensures Get(Delete(s, l, key, target, mount, write).state, l) == Get(s, l)
  {
    WithoutAbsent(Get(s, l), key, KeyOf(target, key));
  }

  /** Adding an anime with a fresh mal_id to the watchlist and then deleting
      it restores the watchlist, and on success its stored value too. */
  lemma WatchlistAddThenDeleteRestores(s: State, anime: Anime, first: Io, second: Io)
    requires forall i :: 0 <= i < |s.watchlist| ==> s.watchlist[i].malId != anime.malId
    ensures DeleteFromWatchlist(AddToWatchlist(s, anime, first).state, anime, second).state.watchlist
            == s.watchlist
    ensures second == Succeeds ==>
              DeleteFromWatchlist(AddToWatchlist(s, anime, first).state, anime, second).state.storage[WatchlistKey]
              == s.watchlist
  {
    AddFreshThenDeleteRestores(s.watchlist, anime);
  }

  /** Once deletion compares mal_id, adding an anime with a fresh mal_id to
      the watched list and then deleting it restores the watched list, and on
      success its stored value too. */
  lemma WatchedAddThenDeleteByMalIdRestores(s: State, anime: Anime, first: Io, second: Io)
    requires forall i :: 0 <= i < |s.watched| ==> s.watched[i].malId != anime.malId
    ensures DeleteFromWatchedByMalId(AddToWatched(s, anime, first).state, anime, second).state.watched
            == s.watched
    ensures second == Succeeds ==>
              DeleteFromWatchedByMalId(AddToWatched(s, anime, first).state, anime, second).state.storage[WatchedKey]
              == s.watched
  {
    AddFreshThenDeleteRestores(s.watched, anime);
  }

  /** As written, deleting one watched anime that has no `id` also deletes
      every other entry without an `id`, whatever its mal_id: two entries
      with different mal_ids both go. */
  lemma WatchedDeleteDropsOtherAnime(a: Anime, b: Anime, storage: Storage)
    requires a.id == None && b.id == None && a.malId != b.malId
    ensures var s := State([a], [], storage);
            var added := AddToWatched(s, b, Succeeds).state;
            added.watched == [a, b] && DeleteFromWatched(added, a, Succeeds).state.watched == []
  {
    var s := State([a], [], storage);
    var added := AddToWatched(s, b, Succeeds).state;
    assert added.watched == [a, b];
    var r := DeleteFromWatched(added, a, Succeeds).state.watched;
    assert r == Without([a, b], Id, None);
    assert [a, b][1..] == [b] && [b][1..] == [];
    assert Without([b], Id, None) == [];
  }

  /** Deleting a target without an `id` removes every entry without an
      `id`. */
  lemma DeleteWithoutIdDropsAllWithoutId(s: State, anime: Anime, write: Io)
    requires anime.id == None
    ensures forall x :: x in DeleteFromWatched(s, anime, write).state.watched ==> x.id.Some?
  {
  }
}
