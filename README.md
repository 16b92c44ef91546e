# Manga reader client: persisted-state model

A Dafny model of the client-side state layer of a browser manga reader. The
client lists manga from a remote catalog, keeps a personal library with the
reading progress of each title, and shows chapters with resume/continue
behaviour. The model covers the four parts of the client that hold real
invariants:

- **Catalog client** (`services/api.ts`, module `Catalog`). It normalises a
  decoded listing payload into `Manga` records: it unwraps an array or a
  `{data}` envelope, takes `recent_chapters[0]` as the latest chapter, drops
  records without a slug or chapter identifier, derives the thumbnail and URL
  fields, and de-duplicates by slug with the first occurrence winning. It also
  builds the chapter-content URL.
- **Pagination cache** (`components/Browse.tsx`, module `Browse`). This is the
  browse list, the page cursor and the "more pages may exist" flag. New pages
  are merged in without repeating a slug. All three fields are persisted after
  every change. The page advances only when the sentinel is visible, more pages
  may exist and no fetch is running.
- **Library store and session** (`App.tsx`, module `App`). Opening a manga
  finds or creates its library entry by slug, then records the session triple
  `(slug, hid, chapter)`. Going back writes the final progress into the entry
  and clears the triple. The module also covers the start-up restore and the
  clear-browse-cache action.
- **Reader session manager** (`components/Reader.tsx`, module `Reader`). It
  covers the post-processing of a chapter load: the title fix-up, the failed
  state and the chapter-identifier (hid) correction. It also covers scroll
  offsets and the restore decision, Next/Prev over the chapter list in reading
  order, the dropdown jump and the button flags.

Browser storage is the class `Storage.LocalStore`. It has one typed field per
logical key (`None` means the key is absent), instead of JSON strings. Each
state-changing operation is a method whose `modifies` clause names exactly
the storage keys and component fields it may write, so "nothing else
changes" is part of every contract. Each method's new state is tied to pure
functions (`NormalizedList`, `UniqueBySlug`, `Upsert`, `RecordProgress`,
`LoadedData`, `SyncedHid`, `NextPrevTarget`, ...). The properties the client
depends on are proved about those functions.

Rules that only TypeScript's types and the host enforce become explicit here:

- JavaScript truthiness is `Present` (present and non-empty).
- `findIndex` is `Seqs.FindIndex`, which returns `-1` when nothing matches, as
  the source does. `find` is `Seqs.Find`, which returns `None` (standing for
  `undefined`) when nothing matches.
- The numeric value that `parseFloat` gives a chapter label becomes an integer
  key function that the reader session is given.
- The host's stable sort becomes an insertion sort.
- JSON numbers are integers.

Four facts about the code that are easy to get wrong:

- The chapter list is stored once per manga (`chapter_list_{slug}`), not once
  per chapter.
- Library progress is written when a manga is opened and when the reader is
  closed, not on every chapter change. A chapter change writes the scroll
  offset of the old chapter and the two session keys, and does not touch the
  library.
- With distinct identifiers, Next followed by Prev returns to the start only
  when Next moved, that is, when the start is not the *last* chapter. At the
  last chapter, Next is a no-op.
- When the current identifier is not in the list and the list is not empty,
  the Next button is enabled, but pressing it does nothing.
  `Reader.ButtonsMatchMoves` states this.

Module `Scenarios` (and `Browse.EmptyPageScenario`) is client code. It checks
the end-to-end scenarios listed below against the contracts alone:

- the first open of a manga; reading on to chapter 42, reloading (which
  reopens chapter 42), going back and reopening (which resumes it);
- the hid correction;
- a malformed chapter response;
- the page-1 cold start and the end of results;
- clearing the browse cache.

## Model

| member | source | states |
|---|---|---|
| `Seqs.FindIndex` | App.tsx:44 | `findIndex`: the result is -1 exactly when no element matches; otherwise it is the first matching index |
| `Seqs.Find` | components/Reader.tsx:56 | `find`: the result is `None` exactly when nothing matches; otherwise it is a matching element with no match before it |
| `Seqs.FindIndexAgree` | App.tsx:87 | two searches that judge corresponding elements alike return the same index (so updating progress does not move an entry) |
| `Seqs.FilterMap` | services/api.ts:19-48 | `items.map(f).filter(x => x !== null)` with `None` for `null`: no more results than inputs; its append and membership properties are `Seqs.FilterMapAppend` and `Seqs.FilterMapMember` |
| `Seqs.FilterMapAppend` | services/api.ts:19-48 | `map` followed by the null filter distributes over concatenation, for any per-element mapping |
| `Seqs.FilterMapMember` | services/api.ts:19-48 | a value survives `map` and the null filter exactly when some input element maps to it |
| `SlugDedupe.UniqueBySlug` | services/api.ts:50-59 | the de-duplicated list is no longer than its input, and holds only input entries whose slug was not seen before |
| `SlugDedupe.UniqueBySlugDistinct` | services/api.ts:50-59 | the de-duplicated list has pairwise distinct slugs |
| `SlugDedupe.UniqueBySlugSubsequence` | services/api.ts:54-58 | the de-duplicated list is an order-preserving subsequence of the input: nothing is invented or reordered |
| `SlugDedupe.UniqueBySlugFirstWins` | services/api.ts:54-58 | for every slug, the kept entry is the first input entry with that slug; a slug seen beforehand keeps none |
| `SlugDedupe.FindBySlugAppend` | components/Browse.tsx:77 | looking up a slug in `prev ++ new` finds the entry of `prev` if `prev` has one, and otherwise searches `new` |
| `SlugDedupe.FindBySlugFound` | components/Browse.tsx:69 | a slug is found exactly when it is in the set of listed slugs, and what is found carries that slug |
| `SlugDedupe.AppendFreshDistinct` | components/Browse.tsx:77 | appending entries whose slugs are distinct and not yet listed keeps a distinct list distinct |
| `Catalog.ItemsOf` | services/api.ts:17 | the records are the payload itself when it is an array, else its `data`, else none (also for a falsy payload); used by `FetchMangaList` |
| `Catalog.IntToString` | services/api.ts:46 | `String(n)` of an integral number is never empty |
| `Catalog.UrlLabel` | services/api.ts:46 | the URL label `String(last_chapter \|\| '1')` is never empty |
| `Catalog.ChapterUrl` | services/api.ts:71 | the URL is the fixed prefix `.../comics/{slug}/{hid}-chapter-`, then the label, then `-en`; `Catalog.ChapterUrlRoundTrip` reads the label back |
| `Catalog.ChapterUrlRoundTrip` | services/api.ts:71 | the chapter label can be read back out of `.../comics/{slug}/{hid}-chapter-{label}-en`, and only a URL of that shape yields that label |
| `Catalog.ProxiedThumbnail` | services/api.ts:33-36 | the thumbnail is empty iff the original is; otherwise it is the proxy prefix followed by the original URL |
| `Catalog.MapItem` | services/api.ts:19-47 | a record is kept iff its slug is non-empty and `recent_chapters[0]` exists with a non-empty hid. If kept: `title` = `slug`, `display_title` = title or `""`, `latest_chapter_hid`/`last_chapter` come from `recent_chapters[0]`, the thumbnail is proxied, and `manga_url` is the chapter URL of the latest chapter |
| `Catalog.MangaUrlIsChapterUrl` | services/api.ts:46 | a kept record's `manga_url` has the chapter-endpoint shape and reads back its non-empty label |
| `Catalog.MapAndFilter` | services/api.ts:19-48 | every mapped record has a non-empty slug and hid; there are no more of them than input records |
| `Catalog.MapAndFilterAppend` | services/api.ts:19-48 | the mapping distributes over concatenation, so records keep their input order |
| `Catalog.MapAndFilterMembers` | services/api.ts:19-48 | the mapped list holds exactly the mappings of the kept input records |
| `Catalog.NormalizedList` | services/api.ts:15-61 | the page for a decoded payload: `[]` for a falsy payload or an envelope without `data`, no more records than input records, each with a non-empty slug and hid; its distinctness, order and first-wins properties are the ensures of `Catalog.FetchMangaList` |
| `Catalog.DedupeBySlug` | services/api.ts:50-61 | the `seen`-set loop computes `UniqueBySlug(mapped, {})`: distinct slugs, an order-preserving subsequence, first occurrence per slug |
| `Catalog.FetchMangaList` | services/api.ts:15-61 | a falsy payload or an envelope without `data` gives `[]`. The result has only records with non-empty slug and hid, one per slug, each the first qualifying record of its slug, in input order |
| `Storage.ScrollKey` | components/Reader.tsx:30-32 | the key is the prefix `reader_scroll_position_`, then the slug, `_` and the hid |
| `Storage.ScrollKeyInjectiveInHid` | components/Reader.tsx:30-32 | within one manga, different chapter identifiers get different scroll keys |
| `Storage.ScrollKeyCollision` | components/Reader.tsx:30-32 | across manga the key is not injective: (`a_b`, `c`) and (`a`, `b_c`) share a key |
| `Storage.ChapterListKey` | components/Reader.tsx:68 | the key is `chapter_list_` followed by the slug alone: one list per manga |
| `Storage.ChapterListKeyInjective` | components/Reader.tsx:68 | different manga keep their chapter lists under different keys |
| `Storage.LocalStore.Library` | App.tsx:43 | the stored library, with an absent `manga_library` key reading as `[]` |
| `Browse.MergeUnique` | components/Browse.tsx:66-78 | the `existingSlugs` loop computes the previous list ++ the new entries whose slug is neither listed nor earlier in the batch (`UniqueBySlug`); what that list is states `Browse.MergedFacts` |
| `Browse.MergedFacts` | components/Browse.tsx:66-78 | the merged list keeps the old list as its prefix, grows by at most the batch, equals the old list for an empty batch, keeps slugs distinct, and keeps the old entry for every slug already listed |
| `Browse.MergeWellFormed` | components/Browse.tsx:66-78 | merging a page of well-formed records into a list of well-formed records leaves only well-formed records |
| `Browse.BrowseState.constructor` | components/Browse.tsx:18-40 | each browse key that is absent takes its default: list `[]`, page `1`, `hasMore` true; not loading |
| `Browse.BrowseState.Persist` | components/Browse.tsx:42-48 | the three browse keys hold list, page and flag; no other key is written |
| `Browse.BrowseState.BeginLoad` | components/Browse.tsx:57 | a fetch is marked running |
| `Browse.BrowseState.CompleteLoad` | components/Browse.tsx:58-78 | an empty page keeps the list and clears `hasMore` only for page > 1. A non-empty page merges its unseen entries. The page is unchanged, `hasMore` never goes from false to true, the entries stay well formed and one per slug, and the state is persisted |
| `Browse.BrowseState.Mount` | components/Browse.tsx:82-87 | at mount, page 1 is requested exactly when the list is empty |
| `Browse.BrowseState.OnIntersect` | components/Browse.tsx:89-95 | the page advances by exactly 1 and that page is requested only when intersecting, more pages may exist and no fetch is running; otherwise page, list and storage are unchanged |
| `App.IndexOfSlug` | App.tsx:44 | `findIndex(item => item.slug === slug)` over the library: -1 exactly when no entry has the slug, otherwise the first entry that has it (`Seqs.FindIndex` on the slug test) |
| `App.MergeMetadata` | App.tsx:52 | `{ ...libraryEntry, ...manga }` for a metadata-only `manga`: the metadata is the new one and the reading progress is the entry's; used by `App.Upsert` |
| `App.Upsert` | App.tsx:40-61 | a new slug appends one entry at chapter `"1"` and `latest_chapter_hid`, and opens that pair. A known slug opens its stored progress, replaces only that entry's metadata and leaves the length and other entries alone. No entry's progress changes, and one entry per slug is preserved |
| `App.RecordProgress` | App.tsx:86-96 | only the progress fields of the first entry for the slug change; an absent slug leaves the library as it was |
| `App.UpsertIdempotent` | App.tsx:43-61 | opening the same manga again gives the same library and the same chapter to open |
| `App.UpsertResumesRecordedProgress` | App.tsx:44-52 | after progress is recorded for a library entry, reopening that manga opens the recorded chapter, not chapter `"1"` |
| `App.RestoreReaderView` | App.tsx:20-26 | the restored reader view exists iff all three session keys hold non-empty strings, and then it carries them |
| `App.RestoreTab` | App.tsx:29-31 | the active tab is the stored non-empty string, else `'browse'` |
| `App.AppState.constructor` | App.tsx:16-31 | the initial reader view and tab are those restored from storage |
| `App.AppState.PersistActiveTab` | App.tsx:34-36 | the tab key holds the active tab |
| `App.AppState.SelectTab` | App.tsx:153 | selecting a tab makes it active and persists it |
| `App.AppState.NavigateToReader` | App.tsx:39-75 | the stored library becomes `Upsert` of the old one. The session keys and the reader view hold the same triple `(slug, hid, chapter)` that `Upsert` chose. One entry per slug is preserved |
| `App.AppState.HandleBackFromReader` | App.tsx:78-104 | with all three session values present and the slug in the library, only that entry's progress becomes the session's; otherwise the library is unchanged. In every case the three session keys are removed and the reader view is closed |
| `App.AppState.ClearBrowseCache` | App.tsx:129-133 | exactly the three browse keys are removed; library, session and tab keys are outside the frame |
| `ChapterOrder.Insert` | components/Reader.tsx:144 | insertion adds exactly one element (as a multiset) |
| `ChapterOrder.SortByChapter` | components/Reader.tsx:144 | the sorted chapter list is a permutation of the list |
| `ChapterOrder.InsertSorted` | components/Reader.tsx:144 | inserting into a key-sorted list keeps it sorted |
| `ChapterOrder.SortByChapterSorted` | components/Reader.tsx:144 | the sorted list is in ascending key order |
| `ChapterOrder.InsertHidsDistinct` | components/Reader.tsx:144 | inserting a chapter with a new identifier keeps identifiers distinct |
| `ChapterOrder.SortByChapterHidsDistinct` | components/Reader.tsx:144 | sorting keeps identifiers distinct |
| `Reader.FixTitles` | components/Reader.tsx:46-50 | same length and order; each falsy title becomes the slug; every other field is unchanged |
| `Reader.FixTitlesIdempotent` | components/Reader.tsx:46-50 | fixing titles twice equals fixing them once |
| `Reader.LoadedData` | components/Reader.tsx:44-52 | the data is `None` exactly when the response, its `chapter` or its `images` is missing. Otherwise it holds those images and the title-fixed list (`[]` when the list is not an array) |
| `Reader.SyncedHid` | components/Reader.tsx:56-64 | the corrected identifier is that of the first chapter with the current label, or the old one when no chapter has that label |
| `Reader.SyncedHidIdempotent` | components/Reader.tsx:56-64 | correcting again against the same list changes nothing |
| `Reader.FindByHid` | components/Reader.tsx:203 | the dropdown's lookup: `None` exactly when no listed chapter has the identifier, otherwise a listed chapter with it |
| `Reader.FindByChap` | components/Reader.tsx:56 | the hid correction's lookup: `None` exactly when no listed chapter has the label, otherwise a listed chapter with it |
| `Reader.CanGoPrev` | components/Reader.tsx:184-185 | Prev is enabled exactly when the first chapter with the current identifier is not at sorted index 0 |
| `Reader.CanGoNext` | components/Reader.tsx:184-186 | Next is enabled exactly when the first chapter with the current identifier has a successor, or when no chapter has it and the list is not empty |
| `Reader.IndexOfHid` | components/Reader.tsx:145 | the index is -1 or a position in the list |
| `Reader.NextPrevTarget` | components/Reader.tsx:144-156 | there is no move iff the identifier is unlisted, or Next is at the last index, or Prev is at index 0. Otherwise the move goes to the neighbouring sorted index |
| `Reader.ButtonsMatchMoves` | components/Reader.tsx:183-186 | Prev is disabled iff Prev does not move. A disabled Next does not move, and an enabled Next moves iff the identifier is listed. An unlisted identifier over a non-empty list enables Next without a move |
| `Reader.NextThenPrevReturns` | components/Reader.tsx:144-156 | with distinct identifiers, a Next that moves followed by Prev returns to the original identifier, and symmetrically for Prev then Next |
| `Reader.ReaderSession.constructor` | components/Reader.tsx:19-27 | the reader starts on the given pair, loading, with no data and no restore yet; it mirrors the session keys when storage holds that triple |
| `Reader.ReaderSession.Failed` | components/Reader.tsx:173-180 | the failure display: loading has finished and there is no data; `Reader.ReaderSession.FinishLoad` states that this holds exactly after a malformed response |
| `Reader.ReaderSession.ResumesOnReload` | App.tsx:20-26 | a mirrored session whose slug, hid and chapter are non-empty is restored at start-up as exactly that reader view, so a reload reopens the open chapter |
| `Reader.ReaderSession.BeginLoad` | components/Reader.tsx:36-41 | loading starts, the restore flag is reset, and the fetch URL is the chapter URL of the current pair |
| `Reader.ReaderSession.FinishLoad` | components/Reader.tsx:41-73 | the data becomes `LoadedData` and the failed state means a malformed response. On success the identifier becomes `SyncedHid`, the stored hid is written only when it changed, and the list is stored under the manga's key. On failure nothing else changes. The mirrored session keys stay mirrored |
| `Reader.ReaderSession.DecideScrollRestore` | components/Reader.tsx:79-94 | once loaded and not yet restored, a saved offset for the current key is scheduled, or else the session is marked restored at once; before that nothing happens |
| `Reader.ReaderSession.ScheduledRestoreApplied` | components/Reader.tsx:85-88 | the scheduled restore marks the session restored |
| `Reader.ReaderSession.SaveScroll` | components/Reader.tsx:98-101 | the offset is stored under the current `(slug, hid)` key and nothing else is written |
| `Reader.ReaderSession.HandleChapterChange` | components/Reader.tsx:124-138 | first the offset is saved under the old `(slug, hid)` key. Then the new pair becomes current and is written to the two session keys; the session slug is untouched |
| `Reader.ReaderSession.HandleNextPrev` | components/Reader.tsx:140-157 | without data, or when `NextPrevTarget` gives no move, nothing changes; otherwise the session performs a chapter change to the target |
| `Reader.ReaderSession.JumpToChapter` | components/Reader.tsx:202-205 | an identifier not in the list is a no-op; otherwise the session performs a chapter change to that listed chapter |

## Left out

- The network: `fetch`, `res.ok`, `res.json()`, their `try/catch`, and the
  listing URL with its page number. The decoded body is an input. A transport
  or status error reaches the model as `Catalog.Absent` or a `None` response.
- FetchMangaList: a `null` element inside the items array makes `item.slug`
  throw in the source, so the whole page comes back empty. Here the array's
  elements are always records.
- JSON parsing and serialisation of stored values, including a stored page
  that `parseInt` would read as `NaN` and a stored list that is not an array.
  Storage holds typed values.
- Storage exceptions and quota. In the model every write succeeds. In the
  source, a failing write behaves in one of two ways:
  - Writes inside `try/catch` are dropped, and the in-memory update goes on.
    These are the browse keys (components/Browse.tsx:43-47), the corrected hid
    and the chapter list (components/Reader.tsx:61-63, 67-69), and the session
    keys written on a chapter change (components/Reader.tsx:134-137).
  - The other writes throw out of their handler, so the updates after them do
    not happen:
    - At App.tsx:62 (library) or App.tsx:65-67 (session keys), the reader does
      not open.
    - At App.tsx:95 (library on going back), the session keys stay and the
      reader stays open.
    - At components/Reader.tsx:127 (scroll offset before a chapter change), the
      chapter does not change.
    - The tab write (App.tsx:35) and the periodic and unload scroll saves
      (components/Reader.tsx:100) also throw.
- Timers and page-lifecycle listeners. Each of these saves the scroll offset,
  which is `ReaderSession.SaveScroll`:
  - the 5-second save interval;
  - the beforeunload/pagehide saves;
  - the clean-up save on unmount or when the identifier changes.
  The 100 ms restore delay saves nothing. It only schedules the restore, and
  `ReaderSession.ScheduledRestoreApplied` stands for its callback.
- `window.scrollY`/`scrollTo`: the offset is an integer argument.
  `IntersectionObserver`: the visibility is a boolean argument.
- React's effect scheduling. When a hid correction or a chapter change
  changes the pair, the source loads again. In the model the caller then calls
  `ReaderSession.BeginLoad` again, and likewise `BrowseState.Mount`,
  `OnIntersect` and `AppState.PersistActiveTab` when their effects would run.
- Concurrency: stale or out-of-order chapter loads (a late `load()` can
  overwrite `data`), and several browser tabs writing the same keys.
- `parseFloat`, `NaN` and fractional chapter numbers. The chapter order is
  an integer key function given to the reader, and JSON numbers are integers.
- SortByChapter: the sort is a stable insertion sort, like the host's, but
  stability is not proved. Only ascending order, permutation and preserved
  distinctness of identifiers are proved.
- NavigateToReader: the parameter is a plain `Manga`. At run time the caller
  may pass a library entry (the Library view does), and then the source's
  object spread also copies that entry's progress fields. This is noted at
  `App.MergeMetadata`.
- The page reload after clearing the browse cache. `Scenarios.ClearCacheThenRemount`
  shows what the next mount then sees.
- Rendering: JSX, CSS, the immersive toggle, the image proxy component, the
  manga card and the library grid.
