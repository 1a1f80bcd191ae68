# AnimeVerse anime lists, description sanitiser and splash carousel in Dafny

This project models the small pieces of pure logic in the AnimeVerse mobile app's anime screens and splash screen:

- **The watched list and the watchlist** (`AnimeList`, `Store`). `addToWatched` and `addToWatchlist` append an anime unless an entry with the same `mal_id` is already there. `deleteFromWatched` filters by `id` and `deleteFromWatchlist` filters by `mal_id`. `loadAnimeLists` replaces each list whose storage key holds a value. An anime is a record with two identity fields, `malId` and `id`. Either may be undefined (`Option<int>`). Undefined equals undefined, as under `===`. The rest of the record is an opaque payload. Storage is a map from key to the stored array. Each handler sets the in-memory list first and then writes the whole list under `"watched"` or `"watchlist"`.
- **The description sanitiser** (`Sanitize`). `sanitizeDescription` applies three global regular-expression replacements: line-break tags become `"\n"`, italic tags are removed, then every other tag is removed. A tag still open at the end of the text is removed up to the end. Each expression is stated declaratively (`Matches`). A direct matcher (`Match`) is proved sound and complete against it. The global replacement is a left-to-right scan (`ReplaceAll`).
- **The collapsed preview** (`Preview`). The text is split on single spaces (`split(" ")`, where consecutive spaces give empty words). The first fifty words are joined back and followed by `"..."`. The Read More toggle appears exactly when there are more than fifty words.
- **The splash carousel** (`Carousel`). The index starts at 0 and moves to `(i + 1) % 6` after each completed slide. The sliding layer shows image `(i + 1) % 6`.

Storage calls are not executed. Whether a write or read succeeds is a parameter (`Io`). Each handler's promise either resolves or rejects (`Settled`):

- A failed write in an add is not caught, so the add rejects. The in-memory list has already been updated; storage is unchanged.
- A failed write in a delete is caught and logged, so the delete resolves.
- A delete on a screen mounted without its list setter throws at the setter call, before the write, so the delete rejects and nothing changes. Whether the setter was passed is a second parameter (`Mount`).
- A failed read in a load rejects before either list is set.

Serialising to JSON and parsing back is taken to be the identity. Stored values are always serialised arrays, which are never the empty string. So the source's truthiness test on the stored value is the same as the key being present.

Three facts about the code shape the model:

- `loadAnimeLists` calls `JSON.parse` on each stored value without a `try`/`catch` (app/screens/SearchAnime.jsx:56-57). Nothing recovers from a corrupt value.
- Additions de-duplicate on `mal_id` (app/screens/SearchAnime.jsx:37 and :45), not on `id`.
- Every handler sets the in-memory list before it writes to storage (app/screens/SearchAnime.jsx:39, app/screens/Watched.jsx:34, app/screens/Watchlist.jsx:33). A failed write therefore leaves memory already changed.

## Model

| member | source | states |
|---|---|---|
| AnimeList.AnyHas | app/screens/SearchAnime.jsx:37 | the `some` test is true exactly when some entry's `mal_id` equals the anime's, with undefined equal to undefined |
| AnimeList.AppendUnique | app/screens/SearchAnime.jsx:37-38 | the list grows by 0 or 1 and keeps every existing entry in place. It grows exactly when no entry has an equal `mal_id`, and then the new last entry is the anime |
| AnimeList.AppendUniqueIdempotent | app/screens/SearchAnime.jsx:37-38 | appending the same anime a second time changes nothing |
| AnimeList.AppendUniqueKeepsDistinct | app/screens/SearchAnime.jsx:37-38 | if `mal_id`s were pairwise distinct before an add, they still are after it |
| AnimeList.Without | app/screens/Watchlist.jsx:30-32 | an entry is in the result exactly when it is in the list and its key differs from the target's |
| AnimeList.WithoutCounts | app/screens/Watchlist.jsx:30-32 | `filter` keeps each entry whose key differs from the target's as many times as it occurred, and drops every occurrence of the others |
| AnimeList.WithoutAppend | app/screens/Watched.jsx:33 | filtering a concatenation filters each part in order, so kept entries keep their relative order |
| AnimeList.WithoutAbsent | app/screens/Watchlist.jsx:30-32 | deleting a key that no entry has leaves the list unchanged |
| AnimeList.WithoutIdempotent | app/screens/Watchlist.jsx:30-32 | deleting twice equals deleting once |
| AnimeList.WithoutDropsOnlyTarget | app/screens/Watchlist.jsx:30-32 | the list shrinks by exactly the number of entries carrying the target key |
| AnimeList.WithoutKeepsDistinct | app/screens/Watchlist.jsx:30-32 | deletion keeps keys pairwise distinct |
| AnimeList.AddFreshThenDeleteRestores | app/screens/Watchlist.jsx:30-32 | appending an anime with a fresh `mal_id`, then filtering that `mal_id` out, gives back the original list |
| Store.Add | app/screens/SearchAnime.jsx:36-50 | on a duplicate `mal_id`, memory and storage are untouched and the add resolves. Otherwise memory gets the appended list. On a successful write the list's key holds exactly that list; on a failed write storage is unchanged and the add rejects. The other list is never touched |
| Store.AddToWatched | app/screens/SearchAnime.jsx:36-42 | the watched list becomes the de-duplicated append. The watchlist and its storage key are unchanged |
| Store.AddToWatchlist | app/screens/SearchAnime.jsx:44-50 | the watchlist becomes the de-duplicated append. The watched list and its storage key are unchanged |
| Store.LoadAnimeLists | app/screens/SearchAnime.jsx:52-58 | storage is unchanged. Each list is replaced by its stored value when its key is present and kept as it was when absent. A failed read rejects and sets nothing |
| Store.Delete | app/screens/Watchlist.jsx:29-40 | with the list setter the screens declare, memory holds the filtered list whatever the write does, the call resolves, and on success the key holds the filtered list. Without a setter, as the tab navigator mounts the screens (app/(tabs)/anilist.jsx:35 and :38), the setter call throws first: nothing changes and the call rejects. Either way the other list is untouched, and a failed write leaves storage unchanged |
| Store.DeleteFromWatched | app/screens/Watched.jsx:32-41 | the watched list becomes the `id` filter of the old one: the entries whose `id` differs from the target's `id`, in their order and with their multiplicity. On success `"watched"` holds that list. The watchlist is untouched |
| Store.DeleteFromWatchedByMalId | app/screens/Watched.jsx:32-41 | corrected deletion: the watched list becomes the `mal_id` filter of the old one, in order and with multiplicity |
| Store.DeleteFromWatchlist | app/screens/Watchlist.jsx:29-40 | the watchlist becomes the `mal_id` filter of the old one: the entries whose `mal_id` differs from the target's, in their order and with their multiplicity. On success `"watchlist"` holds that list. The watched list is untouched |
| Store.MountedDeleteKeepsTarget | app/screens/Watchlist.jsx:29-35 | as mounted, without a setter, deleting a listed anime leaves it in the list and storage unchanged, and the delete rejects. With a setter, as the screens declare, every entry with its key is removed and the delete resolves |
| Store.AddTwiceIsAddOnce | app/screens/SearchAnime.jsx:36-50 | adding the same anime twice leaves memory and storage as adding it once |
| Store.AddKeepsSynced | app/screens/SearchAnime.jsx:38-40 | after a successful add of a new anime, or any add to an already synced list, the key holds exactly the in-memory list |
| Store.DeleteSyncs | app/screens/Watchlist.jsx:30-35 | after a successful delete with the setter, the key holds exactly the in-memory list |
| Store.LoadSyncedIsIdentity | app/screens/SearchAnime.jsx:53-57 | loading a list whose key holds the in-memory list gives that list back |
| Store.AddThenLoad | app/screens/SearchAnime.jsx:38-57 | after a successful add of a new anime, a load yields the same list |
| Store.DeleteTwiceIsDeleteOnce | app/screens/Watched.jsx:33-36 | deleting twice leaves memory and storage as deleting once, with or without the setter |
| Store.DeleteAbsentKeepsList | app/screens/Watchlist.jsx:30-33 | deleting a key no entry has leaves the in-memory list unchanged, with or without the setter |
| Store.WatchlistAddThenDeleteRestores | app/screens/Watchlist.jsx:30-33 | adding an anime with a fresh `mal_id` to the watchlist and then deleting it restores the watchlist. When the delete's write succeeds, `"watchlist"` holds the original list again |
| Store.WatchedAddThenDeleteByMalIdRestores | app/screens/Watched.jsx:33 | with corrected deletion, the same add-then-delete round trip restores the watched list. When the delete's write succeeds, `"watched"` holds the original list again |
| Store.WatchedDeleteDropsOtherAnime | app/screens/Watched.jsx:33 | as written: two watched entries without `id` but with different `mal_id`s are both deleted when one of them is |
| Store.DeleteWithoutIdDropsAllWithoutId | app/screens/Watched.jsx:33 | when the target has no `id`, every entry without an `id` is removed |
| Sanitize.Match | app/screens/Watched.jsx:45-47 | a match, if any, is at least two characters long, fits in the text, and opens with a '<' that is not followed by '>' |
| Sanitize.MatchSound | app/screens/Watched.jsx:45-47 | what the matcher finds is a match of the regular expression |
| Sanitize.MatchComplete | app/screens/Watched.jsx:45-47 | every match of the regular expression at the scan position is the one the matcher finds |
| Sanitize.ReplaceAll | app/screens/Watched.jsx:44-47 | no replacement pass makes the text longer |
| Sanitize.SanitizeDescription | app/screens/Watched.jsx:43-48 | the sanitised output is never longer than the input |
| Sanitize.IsSpace | app/screens/Watched.jsx:45 | a `\s` character is never '<', '/' or '>', so a whitespace run cannot swallow the tag's own punctuation |
| Sanitize.ReplaceMatch | app/screens/Watched.jsx:45-47 | a match at the scan position becomes its replacement once, and scanning resumes right after it |
| Sanitize.BreakAnywhere | app/screens/Watched.jsx:45 | every `<br>`, `<br/>` or `<br />`, wherever it stands in the text, becomes exactly one newline. This holds in either case and with any whitespace run before the optional slash. The text before it and the text after it are replaced independently |
| Sanitize.ReplaceCopies | app/screens/Watched.jsx:44-47 | a character other than '<' is copied unchanged |
| Sanitize.ReplaceKeepsClosed | app/screens/Watched.jsx:45-47 | text in which every '<' is last or followed by '>' is unchanged by each of the three passes |
| Sanitize.TagPassClosesTags | app/screens/Watched.jsx:47 | after the generic tag pass, every '<' is last or followed by '>' |
| Sanitize.SanitizedHasNoOpenTag | app/screens/Watched.jsx:43-48 | the sanitised output leaves no tag open |
| Sanitize.SanitizeWithoutTags | app/screens/Watched.jsx:43-48 | a description without '<' is returned unchanged |
| Sanitize.SanitizeIdempotent | app/screens/Watched.jsx:43-48 | sanitising twice equals sanitising once |
| Sanitize.UnclosedTagRunsToEnd | app/screens/Watched.jsx:47 | an unclosed tag is removed up to the end of the text, so "ab<c" becomes "ab" |
| Preview.Split | app/screens/Watched.jsx:106 | `split(" ")` yields at least one word, and no word contains a space |
| Preview.Collapsed | app/screens/Watched.jsx:105-108 | the collapsed text ends with "..." |
| Preview.Join | app/screens/Watched.jsx:108 | joining n >= 1 space-free words puts exactly n - 1 spaces in the result |
| Preview.PreviewBody | app/screens/Watched.jsx:105-108 | the collapsed body is a prefix of the text with one space fewer than the min(50, n) words it keeps |
| Preview.HasReadMore | app/screens/Watched.jsx:110-111 | the toggle's condition, more than fifty words, holds exactly when the text has at least fifty spaces |
| Preview.CollapsedDescription | app/screens/Watched.jsx:103-111 | the collapsed view ends with "..." after a prefix of the sanitised description. With fewer than fifty spaces it is the whole sanitised text plus "..." |
| Preview.ShowsReadMore | app/screens/Watched.jsx:103-111 | Read More appears for a stored description exactly when its sanitised text has at least fifty spaces |
| Preview.JoinSplit | app/screens/Watched.jsx:106-108 | joining the split words with single spaces restores the text |
| Preview.SplitJoin | app/screens/Watched.jsx:106-108 | splitting a join of space-free words gives back those words |
| Preview.SplitLength | app/screens/Watched.jsx:110-111 | the word count is the number of spaces plus one |
| Preview.JoinTakeIsPrefix | app/screens/Watched.jsx:105-108 | the first k words joined are a prefix of the text with k - 1 spaces. When words remain, a space follows that prefix |
| Preview.ShortTextShownWhole | app/screens/Watched.jsx:103-111 | with at most fifty words, the collapsed text is the whole text plus "..." and there is no Read More toggle |
| Preview.LongTextCutAtFiftiethSpace | app/screens/Watched.jsx:103-111 | Read More appears exactly when there are at least fifty spaces. The collapsed body is then the text cut just before its fiftieth space |
| Preview.PreviewBodyKeepsWords | app/screens/Watched.jsx:105-108 | the collapsed body is a prefix of the text, and splitting it gives exactly the first min(50, n) words |
| Preview.DescriptionPreview | app/screens/Watched.jsx:103-111 | for a stored description, on its sanitised text: Read More appears exactly when there are at least fifty spaces. Otherwise the collapsed view is the whole sanitised text plus "..." |
| Carousel.Advance | app/index.jsx:39 | after a slide the index stays in [0, 6). It moves to the next index, wrapping from 5 to 0 |
| Carousel.BackgroundIndex | app/index.jsx:61-67 | the sliding image's index is in [0, 6) and differs from the foreground index |
| Carousel.AdvanceTimes | app/index.jsx:39 | the index after any number of slides stays in [0, 6) |
| Carousel.AdvanceTimesShifts | app/index.jsx:39 | n slides move the index n places, modulo 6 |
| Carousel.SixSlidesReturn | app/index.jsx:39 | six consecutive slides return the index to where it started |
| Carousel.ReachableIndices | app/index.jsx:20-39 | starting from index 0, after n slides the index is n mod 6. The image sliding in is the one shown after the next slide |

## Left out

- `searchAnime` (app/screens/SearchAnime.jsx:26-34) is a network request to an external API. It is not modelled.
- Rendering is not modelled: list items, modals, `showModal`/`hideModal`, `keyExtractor` fallbacks and toggling `isReadMore`. These are presentation only. The text shown collapsed and the Read More condition are modelled.
- AsyncStorage and JSON text are abstracted. Storage is a key-to-array map, and serialisation round-trips exactly.
- `LoadAnimeLists` takes one outcome for both reads, because either failing rejects before any list is set.
- Overlapping async handlers can race on the same storage key. Those interleavings are not modelled; each handler runs to completion on its own.
- The slide animation, the interval timer and navigation (app/index.jsx:30-49) are not modelled.
- Font scaling (app/responsiveFontSize.jsx) is device-dependent floating-point arithmetic and is not modelled.
- The photo album, study timer and shop tabs are outside the anime lists and carousel and are not part of this model.
- The tab navigator (app/(tabs)/anilist.jsx:35 and :38) mounts the Watched and Watchlist screens with a list but no setter. Calling the missing setter throws a TypeError before the `try`, so the delete rejects, nothing is written and the modal stays open. `Store.Delete` takes whether the setter was passed (`Mount`) as a parameter and models both cases. `DeleteFromWatched`, `DeleteFromWatchedByMalId` and `DeleteFromWatchlist` model the handlers as the screens declare them, with a setter. The modal is not modelled.
- Sanitize.SanitizeDescription: is modelled on strings only. A record with no `description` field makes `.replace` throw, and that error path is not modelled.
- Sanitize.SanitizeDescription: characters are Unicode scalar values, not UTF-16 code units. The three expressions and `split(" ")` treat a surrogate pair the same way in both views. Only lengths counted in code units differ.

## Findings

| source | as written | input that shows it | evidently intended | confidence | as-written member | corrected member |
|---|---|---|---|---|---|---|
| app/screens/Watched.jsx:33 | `deleteFromWatched` keeps entries whose `id` differs from the target's `id`. Additions (app/screens/SearchAnime.jsx:37) de-duplicate on `mal_id`, and the records they add come from a search API keyed by `mal_id`. | a watched list `[a, b]` where neither entry has an `id` and their `mal_id`s differ, and the screen has its setter. Deleting `a` leaves `[]`. From the Watched tab the records must carry a `description`: the detail modal sanitises `selectedAnime.description` while rendering (app/screens/Watched.jsx:104-110), which throws on a search record that only has `synopsis`, before the Delete button is shown | delete only the selected anime, keyed by `mal_id` like the additions | medium, not executed | Store.WatchedDeleteDropsOtherAnime | Store.DeleteFromWatchedByMalId |
| app/screens/Watchlist.jsx:33 | The tab navigator (app/(tabs)/anilist.jsx:35 and :38) gives the Watched and Watchlist tabs `watched` or `watchlist` but no `setWatched` or `setWatchlist`. Each delete handler calls the missing setter (app/screens/Watched.jsx:34, app/screens/Watchlist.jsx:33) before its `try`. Modelled by `Store.Delete` with `NoSetter`. | any listed anime deleted from the Watchlist tab, or, from the Watched tab, any listed anime that carries a `description` (the detail modal sanitises it while rendering, app/screens/Watched.jsx:104-110, and throws on a record without one before the Delete button is shown). It stays in the list and in storage, and the handler rejects with a TypeError | pass the setters, so the anime is removed from memory and storage | high, not executed | Store.MountedDeleteKeepsTarget | Store.Delete |
