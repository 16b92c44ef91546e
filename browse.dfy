/**
 * The browse pagination cache (components/Browse.tsx): the listed Manga, the
 * page cursor and the "more pages may exist" flag, all three written to
 * storage after every change, and the `loading` guard against concurrent
 * page fetches. `loadData` awaits a fetch, so it is split into `BeginLoad`
 * and `CompleteLoad`; the decoded body of the page request is an input.
 */
module Browse {
  import opened Wrappers
  import opened Types
  import opened SlugDedupe
  import opened Catalog
  import opened Storage

  /**
   * The functional update passed to `setMangaList`: the previous list, then
   * those new entries whose slug is neither listed already nor taken by an
   * earlier new entry. What the merged list then is states `MergedFacts`.
   */
  method MergeUnique(prev: seq<Manga>, newItems: seq<Manga>) returns (merged: seq<Manga>)
    ensures merged == prev + UniqueBySlug(newItems, SlugsOf(prev))
  {
    var existingSlugs := SlugsOf(prev);
    var uniqueNewItems: seq<Manga> := [];
    assert newItems[0..] == newItems;
    for i := 0 to |newItems|
      invariant uniqueNewItems + UniqueBySlug(newItems[i..], existingSlugs) == UniqueBySlug(newItems, SlugsOf(prev))
    {
      var item := newItems[i];
      UniqueBySlugStep(newItems, i, existingSlugs);
      if item.slug !in existingSlugs {
        uniqueNewItems := uniqueNewItems + [item];
        existingSlugs := existingSlugs + {item.slug};
      }
    }
    assert newItems[|newItems|..] == [];
    merged := prev + uniqueNewItems;
  }

  /** What the merged list is: the old list as prefix, then the unseen new entries. */
  lemma MergedFacts(prev: seq<Manga>, newItems: seq<Manga>)
    ensures var merged := prev + UniqueBySlug(newItems, SlugsOf(prev));
      && merged[..|prev|] == prev
      && |merged| <= |prev| + |newItems|
      && (newItems == [] ==> merged == prev)
      && (SlugsDistinct(prev) ==> SlugsDistinct(merged))
      && forall s :: FindBySlug(merged, s) == if s in SlugsOf(prev) then FindBySlug(prev, s) else FindBySlug(newItems, s)
  {
    var added := UniqueBySlug(newItems, SlugsOf(prev));
    var merged := prev + added;
    assert merged[..|prev|] == prev;
    UniqueBySlugDistinct(newItems, SlugsOf(prev));
    if SlugsDistinct(prev) {
      AppendFreshDistinct(prev, added);
    }
    UniqueBySlugFirstWins(newItems, SlugsOf(prev));
    forall s ensures FindBySlug(merged, s) == if s in SlugsOf(prev) then FindBySlug(prev, s) else FindBySlug(newItems, s) {
      FindBySlugAppend(prev, added, s);
      FindBySlugFound(prev, s);
    }
  }

  /** Every listed entry is a well-formed catalog record. */
  ghost predicate AllWellFormed(xs: seq<Manga>)
  {
    forall m :: m in xs ==> m.slug != "" && m.latest_chapter_hid != ""
  }

  /** Merging a well-formed page into a well-formed list keeps every entry well formed. */
  lemma MergeWellFormed(prev: seq<Manga>, newItems: seq<Manga>)
    requires AllWellFormed(prev) && AllWellFormed(newItems)
    ensures AllWellFormed(prev + UniqueBySlug(newItems, SlugsOf(prev)))
  {
    var added := UniqueBySlug(newItems, SlugsOf(prev));
    forall m | m in prev + added ensures m.slug != "" && m.latest_chapter_hid != "" {
      assert m in prev || m in added;
    }
  }

  class BrowseState {
    const store: LocalStore
    var mangaList: seq<Manga>
    var page: int
    var hasMore: bool
    var loading: bool

    /** The listed entries are well formed and one per slug. */
    ghost predicate Valid()
      reads this
    {
      SlugsDistinct(mangaList) && AllWellFormed(mangaList)
    }

    /** The three browse keys hold the current list, page and flag. */
    ghost predicate Persisted()
      reads this, store
    {
      store.browseList == Some(mangaList) && store.browsePage == Some(page) && store.browseHasMore == Some(hasMore)
    }

    /** The initial state read from storage; each absent key takes its default. */
    constructor (store: LocalStore)
      ensures this.store == store
      ensures mangaList == store.browseList.GetOr([])
      ensures page == store.browsePage.GetOr(1)
      ensures hasMore == store.browseHasMore.GetOr(true)
      ensures !loading
      ensures store.browseList == None ==> Valid()
    {
      this.store := store;
      mangaList := if store.browseList.Some? then store.browseList.value else [];
      page := if store.browsePage.Some? then store.browsePage.value else 1;
      hasMore := if store.browseHasMore.Some? then store.browseHasMore.value else true;
      loading := false;
    }

    /** The effect that writes the three browse keys; no other key changes. */
    method Persist()
      modifies store`browseList, store`browsePage, store`browseHasMore
      ensures Persisted()
    {
      store.browseList := Some(mangaList);
      store.browsePage := Some(page);
      store.browseHasMore := Some(hasMore);
    }

    /** The start of `loadData`: `setLoading(true)`, before the fetch is awaited. */
    method BeginLoad()
      modifies this`loading
      ensures loading
    {
      loading := true;
    }

    /**
     * The end of `loadData(pageNum)`, once the fetch has produced `payload`:
     * an empty page changes only `hasMore`, and only for `pageNum > 1`; a
     * non-empty page appends its unseen entries. The page never changes here
     * and `hasMore` is never switched back on.
     */
    method CompleteLoad(pageNum: int, payload: Payload)
      modifies this`mangaList, this`hasMore, this`loading
      modifies store`browseList, store`browsePage, store`browseHasMore
      ensures !loading && page == old(page) && Persisted()
      ensures NormalizedList(payload) == [] ==>
        mangaList == old(mangaList) && hasMore == (old(hasMore) && pageNum <= 1)
      ensures NormalizedList(payload) != [] ==>
        mangaList == old(mangaList) + UniqueBySlug(NormalizedList(payload), SlugsOf(old(mangaList))) &&
        hasMore == old(hasMore)
      ensures hasMore ==> old(hasMore)
      ensures old(Valid()) ==> Valid()
    {
      var newItems := FetchMangaList(payload);
      loading := false;
      if |newItems| == 0 {
        if pageNum > 1 {
          hasMore := false;
        }
      } else {
        if AllWellFormed(mangaList) {
          MergeWellFormed(mangaList, newItems);
        }
        var merged := MergeUnique(mangaList, newItems);
        MergedFacts(mangaList, newItems);
        mangaList := merged;
      }
      Persist();
    }

    /** The effect run once at mount: persist, and fetch page 1 only if nothing is listed. */
    method Mount() returns (requested: Option<int>)
      modifies this`loading, store`browseList, store`browsePage, store`browseHasMore
      ensures Persisted()
      ensures requested == if |mangaList| == 0 then Some(1) else None
      ensures loading == (old(loading) || |mangaList| == 0)
    {
      Persist();
      if |mangaList| == 0 {
        BeginLoad();
        requested := Some(1);
      } else {
        requested := None;
      }
    }

    /**
     * The effect on the sentinel's visibility: only when it intersects, more
     * pages may exist and no fetch is running, the page advances by one and
     * that page is requested; otherwise nothing changes.
     */
    method OnIntersect(isIntersecting: bool) returns (requested: Option<int>)
      modifies this`page, this`loading, store`browseList, store`browsePage, store`browseHasMore
      ensures var advance := isIntersecting && old(hasMore) && !old(loading);
        && requested == (if advance then Some(old(page) + 1) else None)
        && page == (if advance then old(page) + 1 else old(page))
        && loading == (old(loading) || advance)
        && (advance ==> Persisted())
        && (!advance ==> store.browseList == old(store.browseList) && store.browsePage == old(store.browsePage) &&
                         store.browseHasMore == old(store.browseHasMore))
    {
      if isIntersecting && hasMore && !loading {
        var nextPage := page + 1;
        page := nextPage;
        Persist();
        BeginLoad();
        requested := Some(nextPage);
      } else {
        requested := None;
      }
    }
  }

  /** Page-1 cold start and the end of results, on a fresh cache. */
  method EmptyPageScenario(store: LocalStore)
    requires store.browseList == None && store.browsePage == None && store.browseHasMore == None
    modifies store
  {
    var b := new BrowseState(store);
    var requested := b.Mount();
    assert requested == Some(1);
    b.CompleteLoad(1, Absent);
    assert b.hasMore && b.mangaList == [] && b.page == 1;
    requested := b.OnIntersect(true);
    assert requested == Some(2) && b.page == 2;
    b.CompleteLoad(2, List([]));
    assert !b.hasMore && b.mangaList == [];
    requested := b.OnIntersect(true);
    assert requested == None && b.page == 2;
  }
}
