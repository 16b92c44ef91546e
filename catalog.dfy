/**
 * The catalog client (services/api.ts): normalisation of a decoded listing
 * payload into Manga records, and the chapter-content URL. The network
 * request itself is not modelled: a failed request, a non-2xx status or a
 * body that does not decode all reach the normalisation as `Absent`.
 */
module Catalog {
  import opened Wrappers
  import opened Types
  import opened Seqs
  import opened SlugDedupe

  const ApiBase := "https://comick.live/api"
  const ProxyPrefix := "https://image-proxy-viewer.onrender.com/?image_url="

  /**
   * The decoded listing body. `Absent` stands for any falsy value (`null`,
   * a missing body, a transport error); `List` for a bare array; `Envelope`
   * for any other object, whose `data` is `None` when missing, falsy or not
   * an array (mapping a non-array throws, and the catch returns `[]` too).
   */
  datatype Payload = Absent | List(items: seq<ApiItem>) | Envelope(data: Option<seq<ApiItem>>)

  /** The records to normalise: the array itself, else its `data`, else none. */
  function ItemsOf(payload: Payload): (r: seq<ApiItem>)
    ensures payload.Absent? || payload == Envelope(None) ==> r == []
    ensures payload.List? ==> r == payload.items
    ensures payload.Envelope? && payload.data.Some? ==> r == payload.data.value
  {
    match payload
    case Absent => []
    case List(items) => items
    case Envelope(data) => data.GetOr([])
  }

  /** `String(n)` for an integral JavaScript number. */
  function IntToString(n: int): (r: string)
    ensures r != ""
  {
    if n < 0 then "-" + NatToDecimal(-n) else NatToDecimal(n)
  }

  function NatToDecimal(n: nat): (r: string)
    ensures r != ""
  {
    var digit := "0123456789"[n % 10];
    if n < 10 then [digit] else NatToDecimal(n / 10) + [digit]
  }

  /** `String(last_chapter || '1')`: the label of the latest chapter, `"1"` when it is falsy. */
  function UrlLabel(last: Option<ChapterNumber>): (r: string)
    ensures r != ""
  {
    match last
    case None => "1"
    case Some(Str(s)) => if s == "" then "1" else s
    case Some(Num(n)) => if n == 0 then "1" else IntToString(n)
  }

  function ChapterUrlPrefix(slug: string, hid: string): string
  {
    ApiBase + "/comics/" + slug + "/" + hid + "-chapter-"
  }

  /** The chapter-content endpoint `.../comics/{slug}/{hid}-chapter-{chapter}-en`. */
  function ChapterUrl(slug: string, hid: string, chapter: string): (r: string)
    ensures var p := ChapterUrlPrefix(slug, hid);
      && |r| == |p| + |chapter| + 3
      && r[..|p|] == p && r[|p|..|p| + |chapter|] == chapter && r[|p| + |chapter|..] == "-en"
  {
    ChapterUrlPrefix(slug, hid) + chapter + "-en"
  }

  /** Reads the chapter label back out of a chapter URL for a known slug and hid. */
  function ChapterLabelOf(url: string, slug: string, hid: string): Option<string>
  {
    var p := ChapterUrlPrefix(slug, hid);
    if |url| >= |p| + 3 && url[..|p|] == p && url[|url| - 3..] == "-en"
    then Some(url[|p|..|url| - 3])
    else None
  }

  /** A chapter URL determines its label, and every URL with that shape is a chapter URL. */
  lemma ChapterUrlRoundTrip(slug: string, hid: string, chapter: string, url: string)
    ensures ChapterLabelOf(ChapterUrl(slug, hid, chapter), slug, hid) == Some(chapter)
    ensures ChapterLabelOf(url, slug, hid) == Some(chapter) ==> url == ChapterUrl(slug, hid, chapter)
  {
    var p := ChapterUrlPrefix(slug, hid);
    var u := ChapterUrl(slug, hid, chapter);
    assert u == p + chapter + "-en";
    assert u[..|p|] == p;
    assert u[|u| - 3..] == "-en";
    assert u[|p|..|u| - 3] == chapter;
    if ChapterLabelOf(url, slug, hid) == Some(chapter) {
      assert url == url[..|p|] + url[|p|..|url| - 3] + url[|url| - 3..];
    }
  }

  /** The proxied thumbnail: empty iff the original is, otherwise the proxy prefix and then the original URL. */
  function ProxiedThumbnail(original: string): (r: string)
    ensures r == "" <==> original == ""
    ensures original != "" ==> |r| == |ProxyPrefix| + |original| && r[..|ProxyPrefix|] == ProxyPrefix && r[|ProxyPrefix|..] == original
  {
    if original == "" then "" else ProxyPrefix + original
  }

  /** The per-record mapping of `fetchMangaList`; `None` where the record is dropped. */
  function MapItem(item: ApiItem): (r: Option<Manga>)
    // kept exactly when the slug is non-empty and recent_chapters[0] exists with a non-empty hid
    ensures r.Some? <==>
      item.slug.GetOr("") != "" &&
      item.recent_chapters.Some? && |item.recent_chapters.value| > 0 && item.recent_chapters.value[0].hid != ""
    // the fields of a kept record, in terms of the raw record
    ensures r.Some? ==>
      var m, first := r.value, item.recent_chapters.value[0];
      && m.slug == item.slug.value
      && m.title == m.slug
      && m.display_title == item.title.GetOr("")
      && m.latest_chapter_hid == first.hid
      && m.last_chapter == Some(first.chapter_number)
      && m.default_thumbnail == ProxiedThumbnail(item.default_thumbnail.GetOr(""))
      && m.manga_url == ChapterUrl(m.slug, m.latest_chapter_hid, UrlLabel(m.last_chapter))
  {
    var slug := item.slug.GetOr("");
    var title := item.title.GetOr("");
    var originalThumbnail := item.default_thumbnail.GetOr("");
    var firstRecent :=
      if item.recent_chapters.Some? && |item.recent_chapters.value| > 0
      then Some(item.recent_chapters.value[0]) else None;
    var lastChapter := if firstRecent.Some? then Some(firstRecent.value.chapter_number) else None;
    var hid := if firstRecent.Some? then firstRecent.value.hid else "";
    if slug == "" || hid == "" then None
    else Some(Manga(
      slug := slug,
      title := slug,
      display_title := title,
      last_chapter := lastChapter,
      latest_chapter_hid := hid,
      default_thumbnail := ProxiedThumbnail(originalThumbnail),
      manga_url := ChapterUrl(slug, hid, UrlLabel(lastChapter))))
  }

  /** A kept record's `manga_url` is the chapter URL of its latest chapter, and its label is never empty. */
  lemma MangaUrlIsChapterUrl(item: ApiItem)
    requires MapItem(item).Some?
    ensures var m := MapItem(item).value;
      ChapterLabelOf(m.manga_url, m.slug, m.latest_chapter_hid) == Some(UrlLabel(m.last_chapter)) &&
      UrlLabel(m.last_chapter) != ""
  {
    var m := MapItem(item).value;
    ChapterUrlRoundTrip(m.slug, m.latest_chapter_hid, UrlLabel(m.last_chapter), m.manga_url);
  }

  /** `items.map(...).filter(item => item !== null)`. */
  function MapAndFilter(items: seq<ApiItem>): (r: seq<Manga>)
    ensures |r| <= |items|
    ensures forall m :: m in r ==> m.slug != "" && m.latest_chapter_hid != ""
  {
    MapAndFilterMembers(items);
    FilterMap(items, MapItem)
  }

  /** The mapping works record by record: it distributes over concatenation, so it keeps input order. */
  lemma MapAndFilterAppend(a: seq<ApiItem>, b: seq<ApiItem>)
    ensures MapAndFilter(a + b) == MapAndFilter(a) + MapAndFilter(b)
  {
    FilterMapAppend(a, b, MapItem);
  }

  /** The mapped list holds exactly the mappings of the records that are kept. */
  lemma MapAndFilterMembers(items: seq<ApiItem>)
    ensures forall m :: m in FilterMap(items, MapItem) <==> exists i :: 0 <= i < |items| && MapItem(items[i]) == Some(m)
  {
    forall m ensures m in FilterMap(items, MapItem) <==> exists i :: 0 <= i < |items| && MapItem(items[i]) == Some(m) {
      FilterMapMember(items, MapItem, m);
    }
  }

  /** The page `fetchMangaList` returns for a decoded payload. */
  function NormalizedList(payload: Payload): (r: seq<Manga>)
    ensures payload.Absent? || payload == Envelope(None) ==> r == []
    ensures |r| <= |ItemsOf(payload)|
    ensures forall m :: m in r ==> m.slug != "" && m.latest_chapter_hid != ""
  {
    UniqueBySlug(MapAndFilter(ItemsOf(payload)), {})
  }

  /** The de-duplication loop of `fetchMangaList`, with the set of slugs seen so far. */
  method DedupeBySlug(mapped: seq<Manga>) returns (unique: seq<Manga>)
    ensures unique == UniqueBySlug(mapped, {})
    ensures SlugsDistinct(unique)
    ensures IsSubsequence(unique, mapped)
    ensures forall s :: FindBySlug(unique, s) == FindBySlug(mapped, s)
  {
    unique := [];
    var seen: set<string> := {};
    assert mapped[0..] == mapped;
    for i := 0 to |mapped|
      invariant unique + UniqueBySlug(mapped[i..], seen) == UniqueBySlug(mapped, {})
    {
      var item := mapped[i];
      UniqueBySlugStep(mapped, i, seen);
      if item.slug !in seen {
        seen := seen + {item.slug};
        unique := unique + [item];
      }
    }
    assert mapped[|mapped|..] == [];
    UniqueBySlugDistinct(mapped, {});
    UniqueBySlugSubsequence(mapped, {});
    UniqueBySlugFirstWins(mapped, {});
  }

  /**
   * `fetchMangaList` on an already decoded payload: only well-formed records,
   * one per slug, the first of each slug, in input order.
   */
  method FetchMangaList(payload: Payload) returns (result: seq<Manga>)
    ensures result == NormalizedList(payload)
    ensures payload.Absent? || payload == Envelope(None) ==> result == []
    ensures forall m :: m in result ==> m.slug != "" && m.latest_chapter_hid != ""
    ensures SlugsDistinct(result)
    ensures IsSubsequence(result, MapAndFilter(ItemsOf(payload)))
    ensures forall s :: FindBySlug(result, s) == FindBySlug(MapAndFilter(ItemsOf(payload)), s)
  {
    if payload.Absent? {
      return [];
    }
    var items := match payload
      case List(xs) => xs
      case Envelope(data) => data.GetOr([]);
    var mapped := MapAndFilter(items);
    result := DedupeBySlug(mapped);
  }
}
