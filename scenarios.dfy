/** End-to-end scenarios of the client, checked against the contracts alone. */
module Scenarios {
  import opened Wrappers
  import opened Types
  import opened Storage
  import opened App
  import opened Reader
  import opened Browse

  /** First open of a manga seeds chapter "1" at its latest identifier. */
  method FirstOpen(manga: Manga)
    requires manga.slug == "solo-leveling" && manga.latest_chapter_hid == "abc123"
  {
    var store := new LocalStore.Empty();
    var app := new AppState(store);
    assert app.readerView == None && app.activeTab == "browse";
    assert IndexOfSlug([], manga.slug) == -1;
    app.NavigateToReader(manga);
    assert store.Library() == [LibraryMangaItem(manga, "1", "abc123")];
    assert app.readerView == Some(ReaderView("solo-leveling", "abc123", "1"));
    assert store.readerSlug == Some("solo-leveling") && store.readerHid == Some("abc123") && store.readerChapter == Some("1");
  }

  /**
   * After reading on to chapter "42", a reload reopens chapter "42"; after
   * going back, reopening from the library resumes it too.
   */
  method ReadOnThenReopen(store: LocalStore, manga: Manga)
    requires manga.slug == "solo-leveling" && manga.latest_chapter_hid == "abc123"
    requires store.library == Some([LibraryMangaItem(manga, "1", "abc123")])
    requires store.readerSlug == Some("solo-leveling") && store.readerHid == Some("abc123") && store.readerChapter == Some("1")
    modifies store
  {
    var app := new AppState(store);
    assert app.readerView == Some(ReaderView("solo-leveling", "abc123", "1"));
    var view := app.readerView.value;
    var reader := new ReaderSession(store, view.slug, view.hid, view.chapter, (chap: string) => |chap|);
    reader.HandleChapterChange("xyz789", "42", 1200);
    assert ScrollKey("solo-leveling", "abc123") in store.scrollPositions;
    assert reader.Mirrored();
    reader.ResumesOnReload();
    var reloaded := new AppState(store);
    assert reloaded.readerView == Some(ReaderView("solo-leveling", "xyz789", "42"));

    assert IndexOfSlug(store.Library(), "solo-leveling") == 0;
    app.HandleBackFromReader();
    assert store.Library() == [LibraryMangaItem(manga, "42", "xyz789")];
    assert store.readerSlug == None && app.readerView == None;

    assert IndexOfSlug(store.Library(), manga.slug) == 0;
    app.NavigateToReader(manga);
    assert app.readerView == Some(ReaderView("solo-leveling", "xyz789", "42"));
    assert |store.Library()| == 1;
  }

  /** A chapter list whose entry for label "1" carries another identifier corrects the session's. */
  method HidCorrection(store: LocalStore)
    requires store.readerSlug == Some("m") && store.readerHid == Some("oldhid") && store.readerChapter == Some("1")
    modifies store
  {
    var reader := new ReaderSession(store, "m", "oldhid", "1", (chap: string) => |chap|);
    var url := reader.BeginLoad();
    var entry := ChapterItem("newhid", "1", None, "en", 7);
    reader.FinishLoad(Some(ChapterResponse(Some(ChapterBodyJson(Some([]))), Some([entry]))));
    assert reader.data.value.chapterList == [entry.(title := Some("m"))];
    assert reader.currentHid == "newhid" && store.readerHid == Some("newhid");
    assert reader.Mirrored() && !reader.Failed();
  }

  /** A response without images is the failed state, and the session is otherwise left as it was. */
  method MalformedChapter(store: LocalStore)
    modifies store
  {
    var reader := new ReaderSession(store, "m", "h", "3", (chap: string) => |chap|);
    reader.FinishLoad(Some(ChapterResponse(Some(ChapterBodyJson(None)), None)));
    assert reader.Failed() && reader.currentHid == "h";
  }

  /** Clearing the browse cache keeps library and session, and the next mount starts from page 1. */
  method ClearCacheThenRemount(store: LocalStore)
    modifies store
  {
    var app := new AppState(store);
    ghost var library, slug, hid, chapter := store.library, store.readerSlug, store.readerHid, store.readerChapter;
    app.ClearBrowseCache();
    assert store.library == library && store.readerSlug == slug && store.readerHid == hid && store.readerChapter == chapter;
    var browse := new BrowseState(store);
    assert browse.mangaList == [] && browse.page == 1 && browse.hasMore;
    var requested := browse.Mount();
    assert requested == Some(1);
  }
}
