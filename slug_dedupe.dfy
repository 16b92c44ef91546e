/**
 * De-duplication of Manga by slug, first occurrence winning. The catalog
 * client applies it to one page (services/api.ts, with nothing seen yet) and
 * the browse cache to a new page against the slugs already listed
 * (components/Browse.tsx); both loops are proved against `UniqueBySlug`.
 */
module SlugDedupe {
  import opened Wrappers
  import opened Types
  import opened Seqs

  function SlugsOf(xs: seq<Manga>): set<string>
  {
    set m | m in xs :: m.slug
  }

  /** No two entries share a slug. */
  predicate SlugsDistinct(xs: seq<Manga>)
  {
    forall i, j :: 0 <= i < j < |xs| ==> xs[i].slug != xs[j].slug
  }

  /** The first entry with slug `s`. */
  function FindBySlug(xs: seq<Manga>, s: string): Option<Manga>
  {
    Find(xs, (m: Manga) => m.slug == s)
  }

  /**
   * The entries of `xs`, in order, whose slug is neither in `seen` nor taken
   * by an earlier entry of `xs`.
   */
  function UniqueBySlug(xs: seq<Manga>, seen: set<string>): (r: seq<Manga>)
    ensures |r| <= |xs|
    ensures forall m :: m in r ==> m in xs && m.slug !in seen
  {
    if xs == [] then []
    else if xs[0].slug in seen then UniqueBySlug(xs[1..], seen)
    else [xs[0]] + UniqueBySlug(xs[1..], seen + {xs[0].slug})
  }

  /** One step of the de-duplication loops: how the suffix from position `i` unfolds. */
  lemma UniqueBySlugStep(xs: seq<Manga>, i: int, seen: set<string>)
    requires 0 <= i < |xs|
    ensures UniqueBySlug(xs[i..], seen) ==
      if xs[i].slug in seen then UniqueBySlug(xs[i + 1..], seen)
      else [xs[i]] + UniqueBySlug(xs[i + 1..], seen + {xs[i].slug})
  {
    assert xs[i..][0] == xs[i] && xs[i..][1..] == xs[i + 1..];
  }

  lemma {:induction false} UniqueBySlugDistinct(xs: seq<Manga>, seen: set<string>)
    ensures SlugsDistinct(UniqueBySlug(xs, seen))
  {
    if xs != [] {
      var x, rest := xs[0], xs[1..];
      if x.slug in seen {
        UniqueBySlugDistinct(rest, seen);
      } else {
        var tail := UniqueBySlug(rest, seen + {x.slug});
        UniqueBySlugDistinct(rest, seen + {x.slug});
        var r := [x] + tail;
        forall i, j | 0 <= i < j < |r| ensures r[i].slug != r[j].slug {
          if i == 0 {
            assert r[j] in tail;
          } else {
            assert r[i] == tail[i - 1] && r[j] == tail[j - 1];
          }
        }
      }
    }
  }

  /** No entry is invented and none is moved. */
  lemma {:induction false} UniqueBySlugSubsequence(xs: seq<Manga>, seen: set<string>)
    ensures IsSubsequence(UniqueBySlug(xs, seen), xs)
  {
    if xs != [] {
      if xs[0].slug in seen {
        UniqueBySlugSubsequence(xs[1..], seen);
      } else {
        UniqueBySlugSubsequence(xs[1..], seen + {xs[0].slug});
        var r := UniqueBySlug(xs, seen);
        assert r[0] == xs[0] && r[1..] == UniqueBySlug(xs[1..], seen + {xs[0].slug});
      }
    }
  }

  /**
   * For every slug, the entry kept is the first entry of `xs` with that slug,
   * unless the slug was already seen, in which case none is kept.
   */
  lemma UniqueBySlugFirstWins(xs: seq<Manga>, seen: set<string>)
    ensures forall s :: FindBySlug(UniqueBySlug(xs, seen), s) == if s in seen then None else FindBySlug(xs, s)
  {
    forall s ensures FindBySlug(UniqueBySlug(xs, seen), s) == if s in seen then None else FindBySlug(xs, s) {
      UniqueBySlugFirstWinsAt(xs, seen, s);
    }
  }

  /** `UniqueBySlugFirstWins` for one slug, by induction on `xs`. */
  lemma {:induction false} UniqueBySlugFirstWinsAt(xs: seq<Manga>, seen: set<string>, s: string)
    ensures FindBySlug(UniqueBySlug(xs, seen), s) == if s in seen then None else FindBySlug(xs, s)
  {
    if xs == [] {
      assert FindBySlug(xs, s) == None;
    } else {
      var x, rest := xs[0], xs[1..];
      assert xs == [x] + rest;
      FindBySlugCons(x, rest, s);
      if x.slug in seen {
        UniqueBySlugFirstWinsAt(rest, seen, s);
      } else {
        var seen' := seen + {x.slug};
        UniqueBySlugFirstWinsAt(rest, seen', s);
        FindBySlugCons(x, UniqueBySlug(rest, seen'), s);
      }
    }
  }

  /** `find` on a list that starts with `x`. */
  lemma FindBySlugCons(x: Manga, rest: seq<Manga>, s: string)
    ensures FindBySlug([x] + rest, s) == if x.slug == s then Some(x) else FindBySlug(rest, s)
  {
    var xs := [x] + rest;
    assert xs[1..] == rest;
    var p := (m: Manga) => m.slug == s;
    if !p(x) {
      var k := FindIndex(rest, p);
      assert FindIndex(xs, p) == if k == -1 then -1 else k + 1;
    }
  }

  /** A distinct list extended by entries with new, distinct slugs stays distinct. */
  lemma AppendFreshDistinct(prev: seq<Manga>, added: seq<Manga>)
    requires SlugsDistinct(prev) && SlugsDistinct(added)
    requires forall m :: m in added ==> m.slug !in SlugsOf(prev)
    ensures SlugsDistinct(prev + added)
  {
    var r := prev + added;
    forall i, j | 0 <= i < j < |r| ensures r[i].slug != r[j].slug {
      if j < |prev| {
        assert r[i] == prev[i] && r[j] == prev[j];
      } else if i >= |prev| {
        assert r[i] == added[i - |prev|] && r[j] == added[j - |prev|];
      } else {
        assert r[i] == prev[i] && r[i].slug in SlugsOf(prev);
        assert r[j] == added[j - |prev|] && r[j] in added;
      }
    }
  }

  /** `find` on a concatenation looks in the second part only when the first has no match. */
  lemma {:induction false} FindBySlugAppend(a: seq<Manga>, b: seq<Manga>, s: string)
    ensures FindBySlug(a + b, s) == if FindBySlug(a, s).Some? then FindBySlug(a, s) else FindBySlug(b, s)
  {
    if a == [] {
      assert a + b == b;
    } else {
      assert a + b == [a[0]] + (a[1..] + b);
      assert a == [a[0]] + a[1..];
      FindBySlugCons(a[0], a[1..] + b, s);
      FindBySlugCons(a[0], a[1..], s);
      FindBySlugAppend(a[1..], b, s);
    }
  }

  /** A slug is found exactly when some entry carries it. */
  lemma FindBySlugFound(xs: seq<Manga>, s: string)
    ensures FindBySlug(xs, s).Some? <==> s in SlugsOf(xs)
    ensures FindBySlug(xs, s).Some? ==> FindBySlug(xs, s).value in xs && FindBySlug(xs, s).value.slug == s
  {
    var p := (m: Manga) => m.slug == s;
    if s in SlugsOf(xs) {
      var m :| m in xs && m.slug == s;
      var j :| 0 <= j < |xs| && xs[j] == m;
      assert p(xs[j]);
    }
  }
}
