/** `filteredMovies`: the catalog restricted to the movies whose title contains the search text
    (ignoring case) and that carry the active hero tag ("All" lets every movie through), then
    sorted by id, or by title when the sort type is "alpha". */
module FilterSort {
  import opened Catalog

  const Wildcard: string := "All"
  const Alpha: string := "alpha"

  // ---------------------------------------------------------------- matching

  /** `toLowerCase` on one character, for the ASCII letters: no capital is left, a capital becomes
      its own lower-case letter, letters stay letters, and nothing else is touched. */
  function LowerChar(c: char): (r: char)
    ensures !('A' <= r <= 'Z')
    ensures 'A' <= c <= 'Z' ==> r as int - 'a' as int == c as int - 'A' as int
    ensures 'a' <= r <= 'z' <==> 'a' <= c <= 'z' || 'A' <= c <= 'Z'
    ensures !('A' <= c <= 'Z') ==> r == c
  {
    if 'A' <= c <= 'Z' then (c as int + 32) as char else c
  }

  function Lower(s: string): (r: string)
    ensures |r| == |s|
    ensures forall i :: 0 <= i < |s| ==> r[i] == LowerChar(s[i])
  {
    if s == [] then [] else [LowerChar(s[0])] + Lower(s[1..])
  }

  /** Lower-casing twice is lower-casing once. */
  lemma LowerIdempotent(s: string)
    ensures Lower(Lower(s)) == Lower(s)
  {
    forall i | 0 <= i < |s| ensures Lower(Lower(s))[i] == Lower(s)[i] {
      assert LowerChar(Lower(s)[i]) == Lower(s)[i];
    }
  }

  /** `needle` is a prefix of `hay`. */
  predicate StartsWith(hay: string, needle: string)
  {
    |needle| <= |hay| && hay[..|needle|] == needle
  }

  /** `String.prototype.includes`: `needle` starts at some position of `hay`. The empty text is
      contained in everything, and nothing longer than `hay` is. */
  predicate Contains(hay: string, needle: string)
    ensures needle == [] ==> Contains(hay, needle)
    ensures Contains(hay, needle) ==> |needle| <= |hay|
  {
    StartsWith(hay, needle) || (hay != [] && Contains(hay[1..], needle))
  }

  /** The recursive search agrees with its meaning: `needle` occurs at some offset `k` of `hay`. */
  lemma {:induction false} ContainsAt(hay: string, needle: string)
    ensures Contains(hay, needle) <==> exists k :: 0 <= k <= |hay| - |needle| && StartsWith(hay[k..], needle)
  {
    if Contains(hay, needle) {
      if StartsWith(hay, needle) {
        assert hay[0..] == hay;
      } else {
        ContainsAt(hay[1..], needle);
        var k :| 0 <= k <= |hay[1..]| - |needle| && StartsWith(hay[1..][k..], needle);
        assert hay[1..][k..] == hay[k + 1..];
      }
    }
    if exists k :: 0 <= k <= |hay| - |needle| && StartsWith(hay[k..], needle) {
      var k :| 0 <= k <= |hay| - |needle| && StartsWith(hay[k..], needle);
      if k == 0 {
        assert hay[0..] == hay;
      } else {
        assert hay[1..][k - 1..] == hay[k..];
        ContainsAt(hay[1..], needle);
      }
    }
  }

  /** The search of `filteredMovies`: the lower-cased title includes the lower-cased search text. */
  predicate MatchesSearch(movie: Movie, searchTerm: string)
  {
    Contains(Lower(movie.title), Lower(searchTerm))
  }

  /** The search ignores case: lower-casing the search text or the title first changes nothing. */
  lemma SearchIgnoresCase(movie: Movie, searchTerm: string)
    ensures MatchesSearch(movie, Lower(searchTerm)) == MatchesSearch(movie, searchTerm)
    ensures MatchesSearch(movie.(title := Lower(movie.title)), searchTerm) == MatchesSearch(movie, searchTerm)
  {
    LowerIdempotent(searchTerm);
    LowerIdempotent(movie.title);
  }

  /** The tag filter of `filteredMovies`: the wildcard, or one of the movie's tags. */
  predicate MatchesTag(movie: Movie, activeFilter: string)
  {
    activeFilter == Wildcard || activeFilter in movie.tags
  }

  /** The filter callback of the pipeline. */
  function Matches(searchTerm: string, activeFilter: string): Movie -> bool
  {
    (m: Movie) => MatchesSearch(m, searchTerm) && MatchesTag(m, activeFilter)
  }

  /** The empty search text is contained in every title. */
  lemma EmptySearchMatchesAll(movie: Movie)
    ensures MatchesSearch(movie, "")
  {
    assert Lower("") == [];
    assert StartsWith(Lower(movie.title), []);
  }

  // ---------------------------------------------------------------- ordering

  /** `localeCompare(a, b) <= 0`, taken as lexicographic order on character codes. */
  predicate TitleLe(a: string, b: string)
  {
    if a == [] then true
    else if b == [] then false
    else if a[0] != b[0] then a[0] < b[0]
    else TitleLe(a[1..], b[1..])
  }

  lemma {:induction false} TitleLeTotal(a: string, b: string)
    ensures TitleLe(a, b) || TitleLe(b, a)
  {
    if a != [] && b != [] && a[0] == b[0] {
      TitleLeTotal(a[1..], b[1..]);
    }
  }

  lemma {:induction false} TitleLeTransitive(a: string, b: string, c: string)
    requires TitleLe(a, b) && TitleLe(b, c)
    ensures TitleLe(a, c)
  {
    if a != [] && b != [] && c != [] && a[0] == b[0] && b[0] == c[0] {
      TitleLeTransitive(a[1..], b[1..], c[1..]);
    }
  }

  /** `a` may come before `b`: the comparator returns at most 0. */
  predicate InOrder(a: Movie, b: Movie, sortType: string)
  {
    if sortType == Alpha then TitleLe(a.title, b.title) else a.id <= b.id
  }

  lemma InOrderTotal(a: Movie, b: Movie, sortType: string)
    ensures InOrder(a, b, sortType) || InOrder(b, a, sortType)
  {
    TitleLeTotal(a.title, b.title);
  }

  lemma InOrderTransitive(a: Movie, b: Movie, c: Movie, sortType: string)
    requires InOrder(a, b, sortType) && InOrder(b, c, sortType)
    ensures InOrder(a, c, sortType)
  {
    if sortType == Alpha {
      TitleLeTransitive(a.title, b.title, c.title);
    }
  }

  predicate Sorted(s: seq<Movie>, sortType: string)
  {
    forall i, j :: 0 <= i < j < |s| ==> InOrder(s[i], s[j], sortType)
  }

  // ---------------------------------------------------------------- sorting

  /** Places `x` in front of the first element it may precede. */
  function Insert(x: Movie, s: seq<Movie>, sortType: string): (r: seq<Movie>)
    ensures multiset(r) == multiset(s) + multiset{x}
  {
    if s == [] then [x]
    else if InOrder(x, s[0], sortType) then [x] + s
    else
      assert s == [s[0]] + s[1..];
      [s[0]] + Insert(x, s[1..], sortType)
  }

  /** The comparator-driven `sort` of `BingeCalculator.js`, as a stable insertion sort. */
  function SortMovies(s: seq<Movie>, sortType: string): (r: seq<Movie>)
    ensures multiset(r) == multiset(s)
  {
    if s == [] then []
    else
      assert s == [s[0]] + s[1..];
      Insert(s[0], SortMovies(s[1..], sortType), sortType)
  }

  lemma {:induction false} InsertSorted(x: Movie, s: seq<Movie>, sortType: string)
    requires Sorted(s, sortType)
    ensures Sorted(Insert(x, s, sortType), sortType)
  {
    if s != [] {
      if InOrder(x, s[0], sortType) {
        forall j | 0 <= j < |s| ensures InOrder(x, s[j], sortType) {
          if j > 0 {
            InOrderTransitive(x, s[0], s[j], sortType);
          }
        }
      } else {
        InOrderTotal(x, s[0], sortType);
        InsertSorted(x, s[1..], sortType);
        var t := Insert(x, s[1..], sortType);
        forall j | 0 <= j < |t| ensures InOrder(s[0], t[j], sortType) {
          assert t[j] in multiset(s[1..]) + multiset{x};
          if t[j] != x {
            assert t[j] in s[1..];
          }
        }
      }
    }
  }

  lemma {:induction false} SortMoviesSorted(s: seq<Movie>, sortType: string)
    ensures Sorted(SortMovies(s, sortType), sortType)
  {
    if s != [] {
      SortMoviesSorted(s[1..], sortType);
      InsertSorted(s[0], SortMovies(s[1..], sortType), sortType);
    }
  }

  /** Sorting an already sorted list leaves it as it is; so sorting twice equals sorting once. */
  lemma {:induction false} SortMoviesIdempotent(s: seq<Movie>, sortType: string)
    requires Sorted(s, sortType)
    ensures SortMovies(s, sortType) == s
  {
    if s != [] {
      SortMoviesIdempotent(s[1..], sortType);
    }
  }

  /** Two lists with the same members, both strictly increasing by id, are the same list:
      any correct sort by id yields the order computed here. */
  lemma {:induction false} SortedByIdUnique(a: seq<Movie>, b: seq<Movie>)
    requires multiset(a) == multiset(b)
    requires IdsIncrease(a) && IdsIncrease(b)
    ensures a == b
    decreases |a|
  {
    if a != [] {
      assert a[0] in multiset(a);
      assert b != [] && a[0] in b;
      assert b[0] in multiset(b);
      assert b[0] in a;
      HeadIsFirst(a, b[0]);
      HeadIsFirst(b, a[0]);
      HeadTail(a);
      HeadTail(b);
      IdsIncreaseTail(a);
      IdsIncreaseTail(b);
      SortedByIdUnique(a[1..], b[1..]);
    }
  }

  lemma IdsIncreaseTail(s: seq<Movie>)
    requires s != [] && IdsIncrease(s)
    ensures IdsIncrease(s[1..])
  {
    forall i, j | 0 <= i < j < |s| - 1 ensures s[1..][i].id < s[1..][j].id {
      assert s[1..][i] == s[i + 1] && s[1..][j] == s[j + 1];
    }
  }

  /** The head of an id-increasing list has the smallest id; no other member shares it. */
  lemma HeadIsFirst(s: seq<Movie>, x: Movie)
    requires IdsIncrease(s) && x in s
    ensures s[0].id <= x.id
    ensures x.id == s[0].id ==> x == s[0]
  {
  }

  predicate IdsIncrease(s: seq<Movie>)
  {
    forall i, j :: 0 <= i < j < |s| ==> s[i].id < s[j].id
  }

  lemma HeadTail(s: seq<Movie>)
    requires s != []
    ensures s == [s[0]] + s[1..]
    ensures multiset(s[1..]) == multiset(s) - multiset{s[0]}
  {
    assert s == [s[0]] + s[1..];
  }

  // ---------------------------------------------------------------- the pipeline

  /** `filteredMovies`: filter the catalog, then sort. Only matching catalog movies are shown. */
  function FilteredMovies(catalog: seq<Movie>, searchTerm: string, activeFilter: string, sortType: string): (r: seq<Movie>)
    ensures |r| <= |catalog|
    ensures forall x :: x in r ==> x in catalog && MatchesSearch(x, searchTerm) && MatchesTag(x, activeFilter)
  {
    var f := Filter(catalog, Matches(searchTerm, activeFilter));
    var r := SortMovies(f, sortType);
    assert |r| == |f| by {
      assert |multiset(r)| == |multiset(f)|;
    }
    assert forall x :: x in r ==> x in f by {
      forall x | x in r ensures x in f {
        assert x in multiset(r);
      }
    }
    r
  }

  /** A list with the same members as a duplicate-free one holds no duplicate either. */
  lemma PermutationNoDup(a: seq<Movie>, b: seq<Movie>)
    requires multiset(a) == multiset(b) && NoDup(b)
    ensures NoDup(a)
  {
    forall i, j | 0 <= i < j < |a| ensures a[i] != a[j] {
      if a[i] == a[j] {
        var x := a[i];
        assert a == a[..j] + a[j..];
        assert x in a[..j] && x in a[j..];
        assert multiset(a)[x] == multiset(a[..j])[x] + multiset(a[j..])[x];
        NoDupCount(b, x);
        assert false;
      }
    }
  }

  /** The pipeline keeps exactly the matching catalog movies (sound and complete), each once, as a
      permutation of the filtered catalog, sorted by the active order; in the id order the ids
      strictly increase. */
  lemma FilteredMoviesSpec(catalog: seq<Movie>, searchTerm: string, activeFilter: string, sortType: string)
    requires UniqueIds(catalog)
    ensures var r := FilteredMovies(catalog, searchTerm, activeFilter, sortType);
            && (forall x :: x in r <==> x in catalog && MatchesSearch(x, searchTerm) && MatchesTag(x, activeFilter))
            && multiset(r) == multiset(Filter(catalog, Matches(searchTerm, activeFilter)))
            && NoDup(r)
            && Sorted(r, sortType)
            && (sortType != Alpha ==> IdsIncrease(r))
  {
    var p := Matches(searchTerm, activeFilter);
    var f := Filter(catalog, p);
    var r := FilteredMovies(catalog, searchTerm, activeFilter, sortType);
    forall x ensures x in r <==> x in catalog && MatchesSearch(x, searchTerm) && MatchesTag(x, activeFilter) {
      FilterMembership(catalog, p, x);
      assert x in r <==> x in multiset(f);
    }
    UniqueIdsNoDup(catalog);
    FilterIsSubseq(catalog, p);
    SubseqNoDup(f, catalog);
    PermutationNoDup(r, f);
    SortMoviesSorted(f, sortType);
    if sortType != Alpha {
      forall i, j | 0 <= i < j < |r| ensures r[i].id < r[j].id {
        assert r[i] in multiset(f) && r[j] in multiset(f);
        assert r[i] in catalog && r[j] in catalog;
      }
    }
  }

  /** With the wildcard tag and an empty search the whole catalog is shown. */
  lemma WildcardShowsAll(catalog: seq<Movie>, sortType: string)
    ensures multiset(FilteredMovies(catalog, "", Wildcard, sortType)) == multiset(catalog)
  {
    forall i | 0 <= i < |catalog| ensures Matches("", Wildcard)(catalog[i]) {
      EmptySearchMatchesAll(catalog[i]);
    }
    FilterKeepsAll(catalog, Matches("", Wildcard));
  }

  /** A tag that no catalog movie carries (other than the wildcard) shows nothing. */
  lemma UnknownTagShowsNothing(catalog: seq<Movie>, searchTerm: string, activeFilter: string, sortType: string)
    requires activeFilter != Wildcard
    requires forall i :: 0 <= i < |catalog| ==> activeFilter !in catalog[i].tags
    ensures FilteredMovies(catalog, searchTerm, activeFilter, sortType) == []
  {
    var f := Filter(catalog, Matches(searchTerm, activeFilter));
    if f != [] {
      FilterMembership(catalog, Matches(searchTerm, activeFilter), f[0]);
    }
  }
}
