/**
 * Browser local storage, with one typed field per logical key instead of
 * JSON strings. `None` (or a missing map key) is an absent storage key.
 */
module Storage {
  import opened Wrappers
  import opened Types

  const ScrollKeyPrefix := "reader_scroll_position_"
  const ChapterListKeyPrefix := "chapter_list_"

  /** The key under which the scroll offset of chapter `hid` of manga `slug` is kept. */
  function ScrollKey(slug: string, hid: string): (k: string)
    ensures |k| == |ScrollKeyPrefix| + |slug| + 1 + |hid|
    ensures k[..|ScrollKeyPrefix|] == ScrollKeyPrefix
  {
    ScrollKeyPrefix + slug + "_" + hid
  }

  /** For one manga, different chapters get different scroll keys. */
  lemma ScrollKeyInjectiveInHid(slug: string, hid1: string, hid2: string)
    requires ScrollKey(slug, hid1) == ScrollKey(slug, hid2)
    ensures hid1 == hid2
  {
    var n := |ScrollKeyPrefix| + |slug| + 1;
    assert ScrollKey(slug, hid1)[n..] == hid1;
    assert ScrollKey(slug, hid2)[n..] == hid2;
  }

  /** Across manga the key is not injective: an `_` in the slug or the hid can move between them. */
  lemma ScrollKeyCollision()
    ensures ScrollKey("a_b", "c") == ScrollKey("a", "b_c")
  {
  }

  /** The key under which a manga's chapter list is kept: one list per slug. */
  function ChapterListKey(slug: string): (k: string)
    ensures |k| == |ChapterListKeyPrefix| + |slug|
    ensures k[..|ChapterListKeyPrefix|] == ChapterListKeyPrefix && k[|ChapterListKeyPrefix|..] == slug
  {
    ChapterListKeyPrefix + slug
  }

  /** Different manga keep their chapter lists under different keys. */
  lemma ChapterListKeyInjective(slug1: string, slug2: string)
    requires ChapterListKey(slug1) == ChapterListKey(slug2)
    ensures slug1 == slug2
  {
    assert ChapterListKey(slug1)[|ChapterListKeyPrefix|..] == slug1;
  }

  class LocalStore {
    // reader session: 'reader_slug', 'reader_hid', 'reader_chapter'
    var readerSlug: Option<string>
    var readerHid: Option<string>
    var readerChapter: Option<string>
    // 'manga_library'
    var library: Option<seq<LibraryMangaItem>>
    // 'active_tab'; any stored string, not only 'browse' or 'library'
    var activeTab: Option<string>
    // browse cache: 'manga_list_v1', 'manga_page_v1', 'manga_has_more_v1'
    var browseList: Option<seq<Manga>>
    var browsePage: Option<int>
    var browseHasMore: Option<bool>
    // 'reader_scroll_position_{slug}_{hid}'
    var scrollPositions: map<string, int>
    // 'chapter_list_{slug}'
    var chapterLists: map<string, seq<ChapterItem>>

    /** Storage in which no key is set. */
    constructor Empty()
      ensures readerSlug == None && readerHid == None && readerChapter == None
      ensures library == None && activeTab == None
      ensures browseList == None && browsePage == None && browseHasMore == None
      ensures scrollPositions == map[] && chapterLists == map[]
    {
      readerSlug, readerHid, readerChapter := None, None, None;
      library, activeTab := None, None;
      browseList, browsePage, browseHasMore := None, None, None;
      scrollPositions, chapterLists := map[], map[];
    }

    /** `JSON.parse(localStorage.getItem('manga_library') || '[]')`. */
    function Library(): (r: seq<LibraryMangaItem>)
      reads this
      ensures library.None? ==> r == []
      ensures library.Some? ==> r == library.value
    {
      library.GetOr([])
    }
  }
}
