/**
 * The library store and the reader session as App.tsx keeps them: opening a
 * manga finds or creates its library entry and records the session triple;
 * leaving the reader writes the final progress back and clears the triple.
 */
module App {
  import opened Wrappers
  import opened Types
  import opened Seqs
  import opened Storage

  /** The open reader session: which manga, which chapter identifier, which chapter label. */
  datatype ReaderView = ReaderView(slug: string, hid: string, chapter: string)

  /** At most one library entry per slug. */
  predicate LibrarySlugsDistinct(lib: seq<LibraryMangaItem>)
  {
    forall i, j :: 0 <= i < j < |lib| ==> lib[i].manga.slug != lib[j].manga.slug
  }

  /** `findIndex(item => item.slug === slug)` over the library. */
  function IndexOfSlug(lib: seq<LibraryMangaItem>, slug: string): (k: int)
    ensures -1 <= k < |lib|
    ensures k == -1 <==> forall j :: 0 <= j < |lib| ==> lib[j].manga.slug != slug
    ensures k >= 0 ==> lib[k].manga.slug == slug && forall j :: 0 <= j < k ==> lib[j].manga.slug != slug
  {
    FindIndex(lib, (e: LibraryMangaItem) => e.manga.slug == slug)
  }

  /**
   * `{ ...libraryEntry, ...manga }`, taking `manga` to carry metadata only.
   * At run time the caller may pass a library entry instead (MangaCard hands
   * on whatever object it shows, and Library shows library entries); the
   * spread then also copies that object's `lastReadChapter`/`lastReadHid`.
   */
  function MergeMetadata(entry: LibraryMangaItem, manga: Manga): (r: LibraryMangaItem)
    ensures r.manga == manga
    ensures r.lastReadChapter == entry.lastReadChapter && r.lastReadHid == entry.lastReadHid
  {
    LibraryMangaItem(manga, entry.lastReadChapter, entry.lastReadHid)
  }

  /** The library after opening a manga, with the chapter and identifier to open. */
  datatype Upserted = Upserted(library: seq<LibraryMangaItem>, chapter: string, hid: string)

  /** Find-or-create by slug, as `navigateToReader` does it. */
  function Upsert(lib: seq<LibraryMangaItem>, manga: Manga): (r: Upserted)
    // a new manga: one entry appended, opened at chapter "1" of its latest chapter identifier
    ensures IndexOfSlug(lib, manga.slug) == -1 ==>
      && r.library == lib + [LibraryMangaItem(manga, "1", manga.latest_chapter_hid)]
      && r.chapter == "1" && r.hid == manga.latest_chapter_hid
    // a known manga: same length, fresh metadata in its entry, stored progress resumed, others untouched
    ensures var k := IndexOfSlug(lib, manga.slug);
      k >= 0 ==>
      && |r.library| == |lib|
      && r.library[k] == LibraryMangaItem(manga, lib[k].lastReadChapter, lib[k].lastReadHid)
      && r.chapter == lib[k].lastReadChapter && r.hid == lib[k].lastReadHid
      && forall i :: 0 <= i < |lib| && i != k ==> r.library[i] == lib[i]
    // no existing entry's progress changes
    ensures |r.library| >= |lib|
    ensures forall i :: 0 <= i < |lib| ==>
      r.library[i].lastReadChapter == lib[i].lastReadChapter && r.library[i].lastReadHid == lib[i].lastReadHid
    // the entry found for the slug afterwards is the one opened
    ensures var k := IndexOfSlug(r.library, manga.slug);
      k >= 0 && r.library[k] == LibraryMangaItem(manga, r.chapter, r.hid)
    ensures LibrarySlugsDistinct(lib) ==> LibrarySlugsDistinct(r.library)
  {
    var k := IndexOfSlug(lib, manga.slug);
    if k > -1 then
      var entry := lib[k];
      var lib' := lib[k := MergeMetadata(entry, manga)];
      FindIndexAgree(lib, (e: LibraryMangaItem) => e.manga.slug == manga.slug,
                     lib', (e: LibraryMangaItem) => e.manga.slug == manga.slug);
      Upserted(lib', entry.lastReadChapter, entry.lastReadHid)
    else
      var lib' := lib + [LibraryMangaItem(manga, "1", manga.latest_chapter_hid)];
      assert lib'[|lib|].manga.slug == manga.slug;
      Upserted(lib', "1", manga.latest_chapter_hid)
  }

  /** The write-back of `handleBackFromReader`: only the progress of the entry for `slug` changes. */
  function RecordProgress(lib: seq<LibraryMangaItem>, slug: string, chapter: string, hid: string): (r: seq<LibraryMangaItem>)
    ensures |r| == |lib|
    ensures forall i :: 0 <= i < |lib| ==> r[i].manga == lib[i].manga
    ensures var k := IndexOfSlug(lib, slug);
      && (k >= 0 ==> r[k].lastReadChapter == chapter && r[k].lastReadHid == hid)
      && (forall i :: 0 <= i < |lib| && i != k ==> r[i] == lib[i])
    ensures IndexOfSlug(lib, slug) == -1 ==> r == lib
  {
    var k := IndexOfSlug(lib, slug);
    if k > -1 then lib[k := lib[k].(lastReadChapter := chapter, lastReadHid := hid)] else lib
  }

  /** Opening a manga again changes nothing further: same library, same chapter to open. */
  lemma UpsertIdempotent(lib: seq<LibraryMangaItem>, manga: Manga)
    ensures Upsert(Upsert(lib, manga).library, manga) == Upsert(lib, manga)
  {
    var r := Upsert(lib, manga);
    var k := IndexOfSlug(r.library, manga.slug);
    assert MergeMetadata(r.library[k], manga) == r.library[k];
    assert r.library[k := r.library[k]] == r.library;
  }

  /** Reopening after progress was recorded resumes that progress, not chapter "1". */
  lemma UpsertResumesRecordedProgress(lib: seq<LibraryMangaItem>, manga: Manga, chapter: string, hid: string)
    requires IndexOfSlug(lib, manga.slug) >= 0
    ensures var u := Upsert(RecordProgress(lib, manga.slug, chapter, hid), manga);
      u.chapter == chapter && u.hid == hid && |u.library| == |lib|
  {
    var p := (e: LibraryMangaItem) => e.manga.slug == manga.slug;
    var lib' := RecordProgress(lib, manga.slug, chapter, hid);
    FindIndexAgree(lib, p, lib', p);
  }

  /**
   * The reader view restored at start-up: present exactly when all three
   * session keys hold non-empty strings.
   */
  function RestoreReaderView(slug: Option<string>, hid: Option<string>, chapter: Option<string>): (r: Option<ReaderView>)
    ensures r.Some? <==> Present(slug) && Present(hid) && Present(chapter)
    ensures r.Some? ==> r.value.slug == slug.value && r.value.hid == hid.value && r.value.chapter == chapter.value
  {
    if Present(slug) && Present(hid) && Present(chapter) then Some(ReaderView(slug.value, hid.value, chapter.value)) else None
  }

  /** The active tab restored at start-up: the stored string if non-empty, else 'browse'. */
  function RestoreTab(saved: Option<string>): (r: string)
    ensures r != ""
    ensures !Present(saved) ==> r == "browse"
    ensures Present(saved) ==> r == saved.value
  {
    if Present(saved) then saved.value else "browse"
  }

  class AppState {
    const store: LocalStore
    var readerView: Option<ReaderView>
    var activeTab: string

    /** The reader view and the tab restored from storage. */
    constructor (store: LocalStore)
      ensures this.store == store
      ensures readerView == RestoreReaderView(store.readerSlug, store.readerHid, store.readerChapter)
      ensures activeTab == RestoreTab(store.activeTab)
    {
      this.store := store;
      readerView := RestoreReaderView(store.readerSlug, store.readerHid, store.readerChapter);
      activeTab := RestoreTab(store.activeTab);
    }

    /** The effect persisting the active tab (at mount and after each change). */
    method PersistActiveTab()
      modifies store`activeTab
      ensures store.activeTab == Some(activeTab)
    {
      store.activeTab := Some(activeTab);
    }

    method SelectTab(tab: string)
      modifies this`activeTab, store`activeTab
      ensures activeTab == tab && store.activeTab == Some(tab)
    {
      activeTab := tab;
      PersistActiveTab();
    }

    /**
     * `navigateToReader`: upsert into the stored library, then open the
     * returned chapter; storage and the reader view hold the same triple.
     */
    method NavigateToReader(manga: Manga)
      modifies this`readerView, store`library, store`readerSlug, store`readerHid, store`readerChapter
      ensures var u := Upsert(old(store.Library()), manga);
        && store.library == Some(u.library)
        && store.readerSlug == Some(manga.slug) && store.readerHid == Some(u.hid) && store.readerChapter == Some(u.chapter)
        && readerView == Some(ReaderView(manga.slug, u.hid, u.chapter))
      ensures LibrarySlugsDistinct(old(store.Library())) ==> LibrarySlugsDistinct(store.Library())
    {
      var chapterToLoad := "1";
      var hidToLoad := manga.latest_chapter_hid;
      var currentLibrary := store.Library();
      var existingIndex := IndexOfSlug(currentLibrary, manga.slug);
      if existingIndex > -1 {
        var libraryEntry := currentLibrary[existingIndex];
        chapterToLoad := libraryEntry.lastReadChapter;
        hidToLoad := libraryEntry.lastReadHid;
        currentLibrary := currentLibrary[existingIndex := MergeMetadata(libraryEntry, manga)];
      } else {
        var newEntry := LibraryMangaItem(manga, chapterToLoad, hidToLoad);
        currentLibrary := currentLibrary + [newEntry];
      }
      store.library := Some(currentLibrary);
      store.readerSlug := Some(manga.slug);
      store.readerHid := Some(hidToLoad);
      store.readerChapter := Some(chapterToLoad);
      readerView := Some(ReaderView(manga.slug, hidToLoad, chapterToLoad));
    }

    /**
     * `handleBackFromReader`: with a complete session triple whose slug is in
     * the library, that entry's progress becomes the session's; in every case
     * the triple is removed and the reader view closed.
     */
    method HandleBackFromReader()
      modifies this`readerView, store`library, store`readerSlug, store`readerHid, store`readerChapter
      ensures var slug, hid, chapter := old(store.readerSlug), old(store.readerHid), old(store.readerChapter);
        store.library ==
          if Present(slug) && Present(chapter) && Present(hid) && IndexOfSlug(old(store.Library()), slug.value) >= 0
          then Some(RecordProgress(old(store.Library()), slug.value, chapter.value, hid.value))
          else old(store.library)
      ensures store.readerSlug == None && store.readerHid == None && store.readerChapter == None
      ensures readerView == None
    {
      var lastReadChapterFromReader := store.readerChapter;
      var lastReadHidFromReader := store.readerHid;
      var slugFromReader := store.readerSlug;
      if Present(slugFromReader) && Present(lastReadChapterFromReader) && Present(lastReadHidFromReader) {
        var currentLibrary := store.Library();
        var existingIndex := IndexOfSlug(currentLibrary, slugFromReader.value);
        if existingIndex > -1 {
          currentLibrary := currentLibrary[existingIndex := currentLibrary[existingIndex].(
            lastReadChapter := lastReadChapterFromReader.value,
            lastReadHid := lastReadHidFromReader.value)];
          store.library := Some(currentLibrary);
        }
      }
      store.readerSlug := None;
      store.readerHid := None;
      store.readerChapter := None;
      readerView := None;
    }

    /** The clear-cache action: removes exactly the three browse keys (the page reload that follows is not modelled). */
    method ClearBrowseCache()
      modifies store`browseList, store`browsePage, store`browseHasMore
      ensures store.browseList == None && store.browsePage == None && store.browseHasMore == None
    {
      store.browseList := None;
      store.browsePage := None;
      store.browseHasMore := None;
    }
  }
}
