/**
 * The records exchanged with the catalog API and kept in browser storage
 * (types.ts). JSON numbers are modelled as integers; `string | null` fields
 * and optional fields are `Option`s.
 */
module Types {
  import opened Wrappers

  /** A chapter number as the API sends it: `string | number`. */
  datatype ChapterNumber = Str(s: string) | Num(n: int)

  /** One element of an API record's `recent_chapters`. */
  datatype ApiRecentChapter = ApiRecentChapter(hid: string, chapter_number: ChapterNumber)

  /**
   * A raw catalog record; every field may be missing. `recent_chapters` is
   * `None` when it is missing or is not an array.
   */
  datatype ApiItem = ApiItem(
    slug: Option<string>,
    title: Option<string>,
    default_thumbnail: Option<string>,
    recent_chapters: Option<seq<ApiRecentChapter>>)

  /** A normalised catalog entry; `slug` is its identity. */
  datatype Manga = Manga(
    slug: string,
    title: string,
    display_title: string,
    last_chapter: Option<ChapterNumber>,
    latest_chapter_hid: string,
    default_thumbnail: string,
    manga_url: string)

  /** A library entry: a Manga together with the reading progress recorded for it. */
  datatype LibraryMangaItem = LibraryMangaItem(manga: Manga, lastReadChapter: string, lastReadHid: string)

  datatype ChapterImage = ChapterImage(url: string, w: int, h: int, name: Option<string>)

  /** One entry of a manga's chapter list: `hid` identifies it, `chap` is its label. */
  datatype ChapterItem = ChapterItem(hid: string, chap: string, title: Option<string>, lang: string, id: int)

  datatype ChapterBody = ChapterBody(images: seq<ChapterImage>)

  /** A successfully loaded chapter: its pages and the manga's whole chapter list. */
  datatype ChapterData = ChapterData(chapter: ChapterBody, chapterList: seq<ChapterItem>)

  /** An optional string the source treats as true (`if (s)`, `s || d`): present and non-empty. */
  predicate Present(v: Option<string>)
  {
    v.Some? && v.value != ""
  }
}
