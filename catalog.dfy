/** The movie catalog and the sequence vocabulary shared by the rest of the model:
    movie records, filtering, subsequences, duplicate-freedom and runtime sums. */
module Catalog {

  datatype Option<T> = None | Some(value: T)

  /** One record of the catalog. `year` and `poster` are display-only and not modelled. */
  datatype Movie = Movie(id: int, title: string, runtime: int, tags: seq<string>)

  /** Ids identify movies: no two distinct records share one. */
  predicate UniqueIds(catalog: seq<Movie>)
  {
    forall i, j :: 0 <= i < |catalog| && 0 <= j < |catalog| && catalog[i].id == catalog[j].id ==> i == j
  }

  /** A catalog as loaded: unique ids and positive runtimes. */
  predicate ValidCatalog(catalog: seq<Movie>)
  {
    UniqueIds(catalog) && forall i :: 0 <= i < |catalog| ==> catalog[i].runtime > 0
  }

  predicate NoNegativeRuntime(s: seq<Movie>)
  {
    forall i :: 0 <= i < |s| ==> s[i].runtime >= 0
  }

  predicate NoDup<T(==)>(s: seq<T>)
  {
    forall i, j :: 0 <= i < j < |s| ==> s[i] != s[j]
  }

  /** `a` is obtained from `b` by deleting elements, the rest kept in order. */
  predicate IsSubseq<T(==)>(a: seq<T>, b: seq<T>)
    decreases |b|
  {
    if a == [] then true
    else if b == [] then false
    else if a[0] == b[0] then IsSubseq(a[1..], b[1..])
    else IsSubseq(a, b[1..])
  }

  /** `Array.prototype.filter`: keeps, in order, the elements satisfying `p`. */
  function Filter<T(==)>(s: seq<T>, p: T -> bool): (r: seq<T>)
    ensures |r| <= |s|
    ensures forall i :: 0 <= i < |r| ==> r[i] in s && p(r[i])
    ensures forall i :: 0 <= i < |s| && p(s[i]) ==> s[i] in r
  {
    if s == [] then []
    else
      assert s == [s[0]] + s[1..];
      (if p(s[0]) then [s[0]] else []) + Filter(s[1..], p)
  }

  /** The sum of runtimes, the `reduce((total, movie) => total + movie.runtime, 0)` of
      `BingeCalculator.js`; never negative when no runtime is. */
  function Sum(s: seq<Movie>): (total: int)
    ensures NoNegativeRuntime(s) ==> total >= 0
  {
    if s == [] then 0 else s[0].runtime + Sum(s[1..])
  }

  // ---------------------------------------------------------------- Filter

  /** Membership in a filtered list, element-wise. */
  lemma FilterMembership<T>(s: seq<T>, p: T -> bool, x: T)
    ensures x in Filter(s, p) <==> x in s && p(x)
  {
    if x in s && p(x) {
      var i :| 0 <= i < |s| && s[i] == x;
    }
  }

  lemma {:induction false} FilterAppend<T>(s: seq<T>, t: seq<T>, p: T -> bool)
    ensures Filter(s + t, p) == Filter(s, p) + Filter(t, p)
  {
    if s == [] {
      assert s + t == t;
    } else {
      assert (s + t)[1..] == s[1..] + t;
      FilterAppend(s[1..], t, p);
    }
  }

  /** Filtering with a predicate every element satisfies changes nothing. */
  lemma {:induction false} FilterKeepsAll<T>(s: seq<T>, p: T -> bool)
    requires forall i :: 0 <= i < |s| ==> p(s[i])
    ensures Filter(s, p) == s
  {
    if s != [] {
      FilterKeepsAll(s[1..], p);
    }
  }

  /** Filtering out a single rejected element between accepted ones closes the gap. */
  lemma FilterDropsOne<T>(pre: seq<T>, x: T, post: seq<T>, p: T -> bool)
    requires forall i :: 0 <= i < |pre| ==> p(pre[i])
    requires forall i :: 0 <= i < |post| ==> p(post[i])
    requires !p(x)
    ensures Filter(pre + [x] + post, p) == pre + post
  {
    FilterKeepsAll(pre, p);
    FilterKeepsAll(post, p);
    FilterSingleRejected(x, p);
    FilterAppend(pre, [x], p);
    assert Filter(pre + [x], p) == pre;
    FilterAppend(pre + [x], post, p);
  }

  lemma FilterSingleRejected<T>(x: T, p: T -> bool)
    requires !p(x)
    ensures Filter([x], p) == []
  {
    assert [x][1..] == [];
  }

  lemma {:induction false} FilterIsSubseq<T>(s: seq<T>, p: T -> bool)
    ensures IsSubseq(Filter(s, p), s)
  {
    if s != [] {
      FilterIsSubseq(s[1..], p);
      if p(s[0]) {
        assert Filter(s, p) == [s[0]] + Filter(s[1..], p);
        assert Filter(s, p)[1..] == Filter(s[1..], p);
      } else {
        assert Filter(s, p) == Filter(s[1..], p);
        SubseqDropFirst(Filter(s, p), s);
      }
    }
  }

  // ---------------------------------------------------------------- IsSubseq

  /** Prepending an element to the larger sequence keeps a subsequence one. */
  lemma {:induction false} SubseqDropFirst<T>(a: seq<T>, b: seq<T>)
    requires b != [] && IsSubseq(a, b[1..])
    ensures IsSubseq(a, b)
    decreases |b| - 1, 2
  {
    if a != [] && a[0] == b[0] {
      SubseqTail(a, b[1..]);
    }
  }

  lemma {:induction false} SubseqTail<T>(a: seq<T>, b: seq<T>)
    requires a != [] && IsSubseq(a, b)
    ensures IsSubseq(a[1..], b)
    decreases |b|, 1
  {
    assert b != [];
    if a[0] == b[0] {
      SubseqDropFirst(a[1..], b);
    } else {
      SubseqTail(a, b[1..]);
      SubseqDropFirst(a[1..], b);
    }
  }

  /** Every element of a subsequence is an element of the sequence. */
  lemma {:induction false} SubseqMembers<T>(a: seq<T>, b: seq<T>, x: T)
    requires IsSubseq(a, b) && x in a
    ensures x in b
    decreases |b|
  {
    assert b != [];
    if a[0] == b[0] {
      if x != a[0] {
        assert x in a[1..];
        SubseqMembers(a[1..], b[1..], x);
      }
    } else {
      SubseqMembers(a, b[1..], x);
    }
  }

  /** A subsequence of a duplicate-free sequence is duplicate-free. */
  lemma {:induction false} SubseqNoDup<T>(a: seq<T>, b: seq<T>)
    requires IsSubseq(a, b) && NoDup(b)
    ensures NoDup(a)
    decreases |b|
  {
    if a != [] {
      assert b != [];
      if a[0] == b[0] {
        SubseqNoDup(a[1..], b[1..]);
        forall j | 0 < j < |a| ensures a[0] != a[j] {
          assert a[j] in a[1..];
          SubseqMembers(a[1..], b[1..], a[j]);
        }
      } else {
        SubseqNoDup(a, b[1..]);
      }
    }
  }

  lemma NoDupTail<T>(s: seq<T>)
    requires s != [] && NoDup(s)
    ensures NoDup(s[1..]) && s[0] !in s[1..]
  {
  }

  // ---------------------------------------------------------------- multisets

  /** In a duplicate-free sequence each element occurs once. */
  lemma {:induction false} NoDupCount<T>(s: seq<T>, x: T)
    requires NoDup(s)
    ensures multiset(s)[x] == if x in s then 1 else 0
  {
    if s != [] {
      NoDupTail(s);
      NoDupCount(s[1..], x);
      assert s == [s[0]] + s[1..];
    }
  }

  /** Two duplicate-free sequences with the same members are permutations of each other. */
  lemma SameMembersPermutation<T>(a: seq<T>, b: seq<T>)
    requires NoDup(a) && NoDup(b)
    requires forall x :: x in a <==> x in b
    ensures multiset(a) == multiset(b)
  {
    forall x ensures multiset(a)[x] == multiset(b)[x] {
      NoDupCount(a, x);
      NoDupCount(b, x);
    }
  }

  // ---------------------------------------------------------------- catalog

  /** In a catalog with unique ids, equal ids mean the same record. */
  lemma SameIdSameMovie(catalog: seq<Movie>, x: Movie, y: Movie)
    requires UniqueIds(catalog) && x in catalog && y in catalog && x.id == y.id
    ensures x == y
  {
  }

  /** Unique ids imply that no record occurs twice. */
  lemma UniqueIdsNoDup(catalog: seq<Movie>)
    requires UniqueIds(catalog)
    ensures NoDup(catalog)
  {
  }

  lemma {:induction false} SumAppend(s: seq<Movie>, t: seq<Movie>)
    ensures Sum(s + t) == Sum(s) + Sum(t)
  {
    if s == [] {
      assert s + t == t;
    } else {
      assert (s + t)[1..] == s[1..] + t;
      SumAppend(s[1..], t);
    }
  }

  /** A subsequence of a catalog holds only catalog records with positive runtimes. */
  lemma SubseqOfCatalog(a: seq<Movie>, catalog: seq<Movie>)
    requires IsSubseq(a, catalog) && ValidCatalog(catalog)
    ensures NoDup(a)
    ensures forall x :: x in a ==> x in catalog && x.runtime > 0
  {
    UniqueIdsNoDup(catalog);
    SubseqNoDup(a, catalog);
    forall x | x in a ensures x in catalog {
      SubseqMembers(a, catalog, x);
    }
  }
}
