/**
 * The reading order of a chapter list. The source sorts by
 * `parseFloat(a.chap) - parseFloat(b.chap)` with the host's stable sort;
 * here the numeric value of a label is an integer sort key supplied by the
 * caller, and the sort is a stable insertion sort.
 */
module ChapterOrder {
  import opened Types

  ghost predicate SortedByKey(s: seq<ChapterItem>, key: string -> int)
  {
    forall i, j :: 0 <= i < j < |s| ==> key(s[i].chap) <= key(s[j].chap)
  }

  /** No two chapters share an identifier. */
  predicate HidsDistinct(s: seq<ChapterItem>)
  {
    forall i, j :: 0 <= i < j < |s| ==> s[i].hid != s[j].hid
  }

  /** Inserts `x` before the first element with a key at least its own. */
  function Insert(x: ChapterItem, s: seq<ChapterItem>, key: string -> int): (r: seq<ChapterItem>)
    ensures multiset(r) == multiset(s) + multiset{x}
    ensures |r| == |s| + 1
  {
    if s == [] || key(x.chap) <= key(s[0].chap) then [x] + s
    else
      assert s == [s[0]] + s[1..];
      [s[0]] + Insert(x, s[1..], key)
  }

  /** `[...list].sort((a, b) => key(a.chap) - key(b.chap))`. */
  function SortByChapter(list: seq<ChapterItem>, key: string -> int): (r: seq<ChapterItem>)
    ensures multiset(r) == multiset(list)
    ensures |r| == |list|
  {
    if list == [] then []
    else
      assert list == [list[0]] + list[1..];
      Insert(list[0], SortByChapter(list[1..], key), key)
  }

  /** Every key of `Insert(x, s, key)` stays at or above a bound that `x` and all of `s` meet. */
  lemma {:induction false} InsertBounded(x: ChapterItem, s: seq<ChapterItem>, key: string -> int, b: int)
    requires b <= key(x.chap)
    requires forall i :: 0 <= i < |s| ==> b <= key(s[i].chap)
    ensures forall i :: 0 <= i < |Insert(x, s, key)| ==> b <= key(Insert(x, s, key)[i].chap)
  {
    if s != [] && key(x.chap) > key(s[0].chap) {
      InsertBounded(x, s[1..], key, b);
    }
  }

  /** A sorted list stays sorted when an element no greater than all of it is put in front. */
  lemma ConsSorted(h: ChapterItem, tail: seq<ChapterItem>, key: string -> int)
    requires SortedByKey(tail, key)
    requires forall i :: 0 <= i < |tail| ==> key(h.chap) <= key(tail[i].chap)
    ensures SortedByKey([h] + tail, key)
  {
    var r := [h] + tail;
    forall i, j | 0 <= i < j < |r| ensures key(r[i].chap) <= key(r[j].chap) {
      assert r[j] == tail[j - 1];
      if i > 0 {
        assert r[i] == tail[i - 1];
      }
    }
  }

  lemma {:induction false} InsertSorted(x: ChapterItem, s: seq<ChapterItem>, key: string -> int)
    requires SortedByKey(s, key)
    ensures SortedByKey(Insert(x, s, key), key)
  {
    if s == [] || key(x.chap) <= key(s[0].chap) {
      ConsSorted(x, s, key);
    } else {
      var rest := s[1..];
      assert SortedByKey(rest, key) by {
        forall i, j | 0 <= i < j < |rest| ensures key(rest[i].chap) <= key(rest[j].chap) {
          assert rest[i] == s[i + 1] && rest[j] == s[j + 1];
        }
      }
      assert forall i :: 0 <= i < |rest| ==> key(s[0].chap) <= key(rest[i].chap) by {
        forall i | 0 <= i < |rest| ensures key(s[0].chap) <= key(rest[i].chap) {
          assert rest[i] == s[i + 1];
        }
      }
      InsertSorted(x, rest, key);
      InsertBounded(x, rest, key, key(s[0].chap));
      ConsSorted(s[0], Insert(x, rest, key), key);
    }
  }

  /** The sorted list is in ascending key order. */
  lemma {:induction false} SortByChapterSorted(list: seq<ChapterItem>, key: string -> int)
    ensures SortedByKey(SortByChapter(list, key), key)
  {
    if list != [] {
      SortByChapterSorted(list[1..], key);
      InsertSorted(list[0], SortByChapter(list[1..], key), key);
    }
  }

  lemma {:induction false} InsertHidsDistinct(x: ChapterItem, s: seq<ChapterItem>, key: string -> int)
    requires HidsDistinct(s)
    requires forall y :: y in s ==> y.hid != x.hid
    ensures HidsDistinct(Insert(x, s, key))
  {
    if s != [] && key(x.chap) > key(s[0].chap) {
      var tail := Insert(x, s[1..], key);
      InsertHidsDistinct(x, s[1..], key);
      var r := [s[0]] + tail;
      forall i, j | 0 <= i < j < |r| ensures r[i].hid != r[j].hid {
        if i == 0 {
          assert r[j] in multiset(tail);
          assert r[j] == x || r[j] in s[1..];
          if r[j] != x {
            var k :| 0 <= k < |s[1..]| && s[1..][k] == r[j];
            assert s[k + 1] == r[j];
          }
        } else {
          assert r[i] == tail[i - 1] && r[j] == tail[j - 1];
        }
      }
    } else {
      var r := [x] + s;
      forall i, j | 0 <= i < j < |r| ensures r[i].hid != r[j].hid {
        if i == 0 {
          assert r[j] in s;
        } else {
          assert r[i] == s[i - 1] && r[j] == s[j - 1];
        }
      }
    }
  }

  /** Sorting keeps the identifiers distinct when they were. */
  lemma {:induction false} SortByChapterHidsDistinct(list: seq<ChapterItem>, key: string -> int)
    requires HidsDistinct(list)
    ensures HidsDistinct(SortByChapter(list, key))
  {
    if list != [] {
      var rest := list[1..];
      assert HidsDistinct(rest) by {
        forall i, j | 0 <= i < j < |rest| ensures rest[i].hid != rest[j].hid {
          assert rest[i] == list[i + 1] && rest[j] == list[j + 1];
        }
      }
      SortByChapterHidsDistinct(rest, key);
      var sortedRest := SortByChapter(rest, key);
      forall y | y in sortedRest ensures y.hid != list[0].hid {
        assert y in multiset(sortedRest);
        var k :| 0 <= k < |rest| && rest[k] == y;
        assert list[k + 1] == y;
      }
      InsertHidsDistinct(list[0], sortedRest, key);
    }
  }
}
