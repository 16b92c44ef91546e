/**
 * The reader session manager (components/Reader.tsx): the open chapter of
 * one manga, the post-processing of a chapter load, scroll-offset saving and
 * the restore decision, and chapter navigation. Loading awaits a fetch, so it
 * is split into `BeginLoad` and `FinishLoad`; the decoded response is an
 * input. Timers, page-lifecycle listeners and the window's scroll calls are
 * not modelled: the scroll offset is an integer argument.
 */
module Reader {
  import opened Wrappers
  import opened Types
  import opened Seqs
  import opened Storage
  import opened ChapterOrder
  import Catalog
  import App

  /** The decoded chapter response; `None` is `null` (a failed request) or any other falsy body. */
  datatype ChapterResponse = ChapterResponse(chapter: Option<ChapterBodyJson>, chapterList: Option<seq<ChapterItem>>)

  /** The `chapter` member of a response; `images` is `None` when missing or falsy. */
  datatype ChapterBodyJson = ChapterBodyJson(images: Option<seq<ChapterImage>>)

  datatype Direction = Next | Prev

  /** What the scroll-restore effect decides. */
  datatype ScrollRestore =
    | NotDue                        // still loading, load failed, or already restored
    | Scheduled(offset: int)        // a saved offset is applied after a short delay
    | MarkedRestored                // nothing saved: marked restored at once

  /** `c.title || slug` for every chapter. */
  function FixTitles(list: seq<ChapterItem>, slug: string): (r: seq<ChapterItem>)
    ensures |r| == |list|
    ensures forall i :: 0 <= i < |list| ==>
      && r[i].hid == list[i].hid && r[i].chap == list[i].chap && r[i].lang == list[i].lang && r[i].id == list[i].id
      && r[i].title == (if Present(list[i].title) then list[i].title else Some(slug))
  {
    seq(|list|, i requires 0 <= i < |list| =>
      list[i].(title := if Present(list[i].title) then list[i].title else Some(slug)))
  }

  /** Fixing titles twice is fixing them once, so a stored list can be loaded again unchanged. */
  lemma FixTitlesIdempotent(list: seq<ChapterItem>, slug: string)
    ensures FixTitles(FixTitles(list, slug), slug) == FixTitles(list, slug)
  {
    var once := FixTitles(list, slug);
    var twice := FixTitles(once, slug);
    forall i | 0 <= i < |list| ensures twice[i] == once[i] {
      if !Present(list[i].title) && slug == "" {
        assert once[i].title == Some("");
      }
    }
  }

  /** The chapter data kept after a load: `None` exactly when the response lacks `chapter.images`. */
  function LoadedData(res: Option<ChapterResponse>, slug: string): (r: Option<ChapterData>)
    ensures r.None? <==> res.None? || res.value.chapter.None? || res.value.chapter.value.images.None?
    ensures r.Some? ==>
      && r.value.chapter.images == res.value.chapter.value.images.value
      && r.value.chapterList == FixTitles(res.value.chapterList.GetOr([]), slug)
  {
    if res.Some? && res.value.chapter.Some? && res.value.chapter.value.images.Some? then
      Some(ChapterData(ChapterBody(res.value.chapter.value.images.value), FixTitles(res.value.chapterList.GetOr([]), slug)))
    else None
  }

  /**
   * The identifier after the hid correction: that of the first chapter
   * labelled `chapter`, or `hid` itself when no chapter has that label.
   */
  function SyncedHid(list: seq<ChapterItem>, chapter: string, hid: string): (r: string)
    ensures (forall j :: 0 <= j < |list| ==> list[j].chap != chapter) ==> r == hid
    ensures forall k :: 0 <= k < |list| && list[k].chap == chapter && (forall j :: 0 <= j < k ==> list[j].chap != chapter) ==>
      r == list[k].hid
  {
    match FindByChap(list, chapter)
    case Some(c) => c.hid
    case None => hid
  }

  /** `find(c => c.chap === chapter)`. */
  function FindByChap(list: seq<ChapterItem>, chapter: string): (r: Option<ChapterItem>)
    ensures r.None? <==> forall j :: 0 <= j < |list| ==> list[j].chap != chapter
    ensures r.Some? ==> r.value in list && r.value.chap == chapter
  {
    Find(list, (c: ChapterItem) => c.chap == chapter)
  }

  /** `find(c => c.hid === hid)`. */
  function FindByHid(list: seq<ChapterItem>, hid: string): (r: Option<ChapterItem>)
    ensures r.None? <==> forall j :: 0 <= j < |list| ==> list[j].hid != hid
    ensures r.Some? ==> r.value in list && r.value.hid == hid
  {
    Find(list, (c: ChapterItem) => c.hid == hid)
  }

  /** A second correction against the same list changes nothing. */
  lemma SyncedHidIdempotent(list: seq<ChapterItem>, chapter: string, hid: string)
    ensures SyncedHid(list, chapter, SyncedHid(list, chapter, hid)) == SyncedHid(list, chapter, hid)
  {
  }

  /** `findIndex(c => c.hid === hid)`. */
  function IndexOfHid(list: seq<ChapterItem>, hid: string): (k: int)
    ensures -1 <= k < |list|
  {
    FindIndex(list, (c: ChapterItem) => c.hid == hid)
  }

  /**
   * The chapter `handleNextPrev` moves to in the sorted list, or `None` when
   * the current identifier is not listed or the neighbour is out of range.
   */
  function NextPrevTarget(sorted: seq<ChapterItem>, hid: string, dir: Direction): (r: Option<ChapterItem>)
    ensures var k, step := IndexOfHid(sorted, hid), if dir == Next then 1 else -1;
      && (r.None? <==> k == -1 || (dir == Next && k == |sorted| - 1) || (dir == Prev && k == 0))
      && (r.Some? ==> 0 <= k + step < |sorted| && r.value == sorted[k + step])
  {
    var k := IndexOfHid(sorted, hid);
    if k == -1 then None
    else
      var target := if dir == Next then k + 1 else k - 1;
      if 0 <= target < |sorted| then Some(sorted[target]) else None
  }

  /** The enabled state of the Previous button. */
  function CanGoPrev(sorted: seq<ChapterItem>, hid: string): (r: bool)
    // enabled exactly when the first chapter with this identifier has a predecessor
    ensures r <==> exists k :: 0 < k < |sorted| && sorted[k].hid == hid && forall j :: 0 <= j < k ==> sorted[j].hid != hid
  {
    IndexOfHid(sorted, hid) > 0
  }

  /** The enabled state of the Next button. */
  function CanGoNext(sorted: seq<ChapterItem>, hid: string): (r: bool)
    // enabled when the first chapter with this identifier has a successor, and also when none has it
    ensures r <==>
      || (|sorted| > 0 && forall j :: 0 <= j < |sorted| ==> sorted[j].hid != hid)
      || exists k :: 0 <= k < |sorted| - 1 && sorted[k].hid == hid && forall j :: 0 <= j < k ==> sorted[j].hid != hid
  {
    IndexOfHid(sorted, hid) < |sorted| - 1
  }

  /**
   * A disabled button's move is a no-op, and an enabled Previous always
   * moves. An enabled Next moves exactly when the identifier is listed: with
   * an unlisted identifier and a non-empty list Next is enabled, yet does
   * nothing.
   */
  lemma ButtonsMatchMoves(sorted: seq<ChapterItem>, hid: string)
    ensures !CanGoPrev(sorted, hid) <==> NextPrevTarget(sorted, hid, Prev).None?
    ensures !CanGoNext(sorted, hid) ==> NextPrevTarget(sorted, hid, Next).None?
    ensures CanGoNext(sorted, hid) ==>
      (NextPrevTarget(sorted, hid, Next).Some? <==> exists j :: 0 <= j < |sorted| && sorted[j].hid == hid)
    ensures (forall j :: 0 <= j < |sorted| ==> sorted[j].hid != hid) && |sorted| > 0 ==>
      CanGoNext(sorted, hid) && NextPrevTarget(sorted, hid, Next).None?
  {
    var p := (c: ChapterItem) => c.hid == hid;
    if exists j :: 0 <= j < |sorted| && sorted[j].hid == hid {
      var j :| 0 <= j < |sorted| && sorted[j].hid == hid;
      assert p(sorted[j]);
    }
  }

  lemma IndexOfListedHid(sorted: seq<ChapterItem>, k: int)
    requires HidsDistinct(sorted) && 0 <= k < |sorted|
    ensures IndexOfHid(sorted, sorted[k].hid) == k
  {
    var p := (c: ChapterItem) => c.hid == sorted[k].hid;
    assert p(sorted[k]);
  }

  /** Over a list with distinct identifiers, Next followed by Prev returns to the start, and so does Prev then Next. */
  lemma NextThenPrevReturns(sorted: seq<ChapterItem>, hid: string)
    requires HidsDistinct(sorted)
    ensures NextPrevTarget(sorted, hid, Next).Some? ==>
      NextPrevTarget(sorted, NextPrevTarget(sorted, hid, Next).value.hid, Prev).Some? &&
      NextPrevTarget(sorted, NextPrevTarget(sorted, hid, Next).value.hid, Prev).value.hid == hid
    ensures NextPrevTarget(sorted, hid, Prev).Some? ==>
      NextPrevTarget(sorted, NextPrevTarget(sorted, hid, Prev).value.hid, Next).Some? &&
      NextPrevTarget(sorted, NextPrevTarget(sorted, hid, Prev).value.hid, Next).value.hid == hid
  {
    var k := IndexOfHid(sorted, hid);
    if k >= 0 {
      if k + 1 < |sorted| {
        IndexOfListedHid(sorted, k + 1);
      }
      if k > 0 {
        IndexOfListedHid(sorted, k - 1);
      }
    }
  }

  class ReaderSession {
    const store: LocalStore
    const slug: string
    /** The numeric value of a chapter label, standing for `parseFloat`. */
    const chapterKey: string -> int
    var currentHid: string
    var currentChapter: string
    var loading: bool
    var data: Option<ChapterData>
    var scrolledToPosition: bool

    /** The session keys in storage hold this session's triple. */
    ghost predicate Mirrored()
      reads this, store
    {
      store.readerSlug == Some(slug) && store.readerHid == Some(currentHid) && store.readerChapter == Some(currentChapter)
    }

    /** The content has loaded yet could not be shown: only a way back is offered. */
    predicate Failed()
      reads this
    {
      !loading && data.None?
    }

    /** A reader opened on `(slug, hid, initialChapter)`, loading and not yet restored. */
    constructor (store: LocalStore, slug: string, hid: string, initialChapter: string, chapterKey: string -> int)
      ensures this.store == store && this.slug == slug && this.chapterKey == chapterKey
      ensures currentHid == hid && currentChapter == initialChapter
      ensures loading && data == None && !scrolledToPosition
      ensures store.readerSlug == Some(slug) && store.readerHid == Some(hid) && store.readerChapter == Some(initialChapter) ==>
        Mirrored()
    {
      this.store := store;
      this.slug := slug;
      this.chapterKey := chapterKey;
      currentHid := hid;
      currentChapter := initialChapter;
      loading := true;
      data := None;
      scrolledToPosition := false;
    }

    /**
     * A reload resumes the open chapter: a mirrored session whose three
     * values are non-empty is what the start-up restore reads back.
     */
    lemma ResumesOnReload()
      requires Mirrored() && slug != "" && currentHid != "" && currentChapter != ""
      ensures App.RestoreReaderView(store.readerSlug, store.readerHid, store.readerChapter)
        == Some(App.ReaderView(slug, currentHid, currentChapter))
    {
    }

    /** The start of `load()`: the fetch URL for the current pair; restoring starts over. */
    method BeginLoad() returns (url: string)
      modifies this`loading, this`scrolledToPosition
      ensures loading && !scrolledToPosition
      ensures url == Catalog.ChapterUrl(slug, currentHid, currentChapter)
    {
      loading := true;
      scrolledToPosition := false;
      url := Catalog.ChapterUrl(slug, currentHid, currentChapter);
    }

    /**
     * The end of `load()` with the decoded response: keep the data (titles
     * fixed) or fail; on success correct the identifier from the chapter
     * list, persisting it only when it changed, and store the list under the
     * manga's key. A changed identifier makes the source load again.
     */
    method FinishLoad(res: Option<ChapterResponse>)
      modifies this`data, this`currentHid, this`loading, store`readerHid, store`chapterLists
      ensures !loading && data == LoadedData(res, slug)
      ensures Failed() <==> res.None? || res.value.chapter.None? || res.value.chapter.value.images.None?
      ensures data.None? ==>
        currentHid == old(currentHid) && store.readerHid == old(store.readerHid) && store.chapterLists == old(store.chapterLists)
      ensures data.Some? ==>
        && currentHid == SyncedHid(data.value.chapterList, currentChapter, old(currentHid))
        && store.readerHid == (if currentHid != old(currentHid) then Some(currentHid) else old(store.readerHid))
        && store.chapterLists == old(store.chapterLists)[ChapterListKey(slug) := data.value.chapterList]
      ensures old(Mirrored()) ==> Mirrored()
    {
      data := LoadedData(res, slug);
      if data.Some? {
        var fixedList := data.value.chapterList;
        var actualChapterItem := FindByChap(fixedList, currentChapter);
        if actualChapterItem.Some? && actualChapterItem.value.hid != currentHid {
          currentHid := actualChapterItem.value.hid;
          store.readerHid := Some(actualChapterItem.value.hid);
        }
        store.chapterLists := store.chapterLists[ChapterListKey(slug) := fixedList];
      }
      loading := false;
    }

    /**
     * The scroll-restore effect: once loaded and not yet restored, a saved
     * offset for the current chapter is scheduled; without one the session is
     * marked restored at once.
     */
    method DecideScrollRestore() returns (action: ScrollRestore)
      modifies this`scrolledToPosition
      ensures var due := !loading && data.Some? && !old(scrolledToPosition);
        var key := ScrollKey(slug, currentHid);
        && (!due ==> action == NotDue && scrolledToPosition == old(scrolledToPosition))
        && (due && key in store.scrollPositions ==> action == Scheduled(store.scrollPositions[key]) && !scrolledToPosition)
        && (due && key !in store.scrollPositions ==> action == MarkedRestored && scrolledToPosition)
    {
      action := NotDue;
      if !loading && data.Some? && !scrolledToPosition {
        var scrollKey := ScrollKey(slug, currentHid);
        if scrollKey in store.scrollPositions {
          action := Scheduled(store.scrollPositions[scrollKey]);
        } else {
          scrolledToPosition := true;
          action := MarkedRestored;
        }
      }
    }

    /** The delayed restore has scrolled the window. */
    method ScheduledRestoreApplied()
      modifies this`scrolledToPosition
      ensures scrolledToPosition
    {
      scrolledToPosition := true;
    }

    /** Saves `scrollY` as the offset of the current chapter; nothing else is written. */
    method SaveScroll(scrollY: int)
      modifies store`scrollPositions
      ensures store.scrollPositions == old(store.scrollPositions)[ScrollKey(slug, currentHid) := scrollY]
    {
      store.scrollPositions := store.scrollPositions[ScrollKey(slug, currentHid) := scrollY];
    }

    /**
     * `handleChapterChange`: the old chapter's offset is saved first, then
     * the new pair becomes current and is persisted; the session slug stays.
     */
    method HandleChapterChange(newHid: string, newChap: string, scrollY: int)
      modifies this`currentHid, this`currentChapter, store`scrollPositions, store`readerHid, store`readerChapter
      ensures store.scrollPositions == old(store.scrollPositions)[ScrollKey(slug, old(currentHid)) := scrollY]
      ensures currentHid == newHid && currentChapter == newChap
      ensures store.readerHid == Some(newHid) && store.readerChapter == Some(newChap)
      ensures old(Mirrored()) ==> Mirrored()
    {
      SaveScroll(scrollY);
      currentHid := newHid;
      currentChapter := newChap;
      store.readerHid := Some(newHid);
      store.readerChapter := Some(newChap);
    }

    /**
     * `handleNextPrev`: move to the neighbour in reading order; without data,
     * with an unlisted identifier or at the boundary nothing changes.
     */
    method HandleNextPrev(dir: Direction, scrollY: int)
      modifies this`currentHid, this`currentChapter, store`scrollPositions, store`readerHid, store`readerChapter
      ensures var target := if old(data).Some? then NextPrevTarget(SortByChapter(data.value.chapterList, chapterKey), old(currentHid), dir) else None;
        && (target.None? ==>
              currentHid == old(currentHid) && currentChapter == old(currentChapter) &&
              store.scrollPositions == old(store.scrollPositions) &&
              store.readerHid == old(store.readerHid) && store.readerChapter == old(store.readerChapter))
        && (target.Some? ==>
              currentHid == target.value.hid && currentChapter == target.value.chap &&
              store.scrollPositions == old(store.scrollPositions)[ScrollKey(slug, old(currentHid)) := scrollY] &&
              store.readerHid == Some(currentHid) && store.readerChapter == Some(currentChapter))
      ensures old(Mirrored()) ==> Mirrored()
    {
      if data.None? {
        return;
      }
      var sortedChapters := SortByChapter(data.value.chapterList, chapterKey);
      var currentSortedIdx := IndexOfHid(sortedChapters, currentHid);
      if currentSortedIdx == -1 {
        assert NextPrevTarget(sortedChapters, currentHid, dir) == None;
        return;
      }
      var targetIdx := if dir == Next then currentSortedIdx + 1 else currentSortedIdx - 1;
      if 0 <= targetIdx < |sortedChapters| {
        var target := sortedChapters[targetIdx];
        assert NextPrevTarget(sortedChapters, currentHid, dir) == Some(target);
        HandleChapterChange(target.hid, target.chap, scrollY);
      } else {
        assert NextPrevTarget(sortedChapters, currentHid, dir) == None;
      }
    }

    /** The chapter dropdown: jump to the listed chapter with identifier `selectedHid`, else do nothing. */
    method JumpToChapter(selectedHid: string, scrollY: int)
      modifies this`currentHid, this`currentChapter, store`scrollPositions, store`readerHid, store`readerChapter
      ensures var sel := if old(data).Some? then FindByHid(data.value.chapterList, selectedHid) else None;
        && (sel.None? ==>
              currentHid == old(currentHid) && currentChapter == old(currentChapter) &&
              store.scrollPositions == old(store.scrollPositions) &&
              store.readerHid == old(store.readerHid) && store.readerChapter == old(store.readerChapter))
        && (sel.Some? ==>
              currentHid == selectedHid && currentChapter == sel.value.chap &&
              store.scrollPositions == old(store.scrollPositions)[ScrollKey(slug, old(currentHid)) := scrollY] &&
              store.readerHid == Some(selectedHid) && store.readerChapter == Some(currentChapter))
      ensures old(Mirrored()) ==> Mirrored()
    {
      if data.None? {
        return;
      }
      var sel := FindByHid(data.value.chapterList, selectedHid);
      if sel.Some? {
        HandleChapterChange(sel.value.hid, sel.value.chap, scrollY);
      }
    }
  }
}
