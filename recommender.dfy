/** The "smart recommender": one greedy pass over the catalog in its own order, keeping every
    movie that still fits into the time budget and skipping (but not stopping at) those that do not. */
module Recommender {
  import opened Catalog

  /** What the pass keeps from `movies` when `sum` minutes are already taken: some of those movies,
      never more than were scanned. */
  function GreedyFrom(movies: seq<Movie>, limit: int, sum: int): (kept: seq<Movie>)
    ensures |kept| <= |movies|
    ensures forall x :: x in kept ==> x in movies
  {
    if movies == [] then []
    else if sum + movies[0].runtime <= limit then [movies[0]] + GreedyFrom(movies[1..], limit, sum + movies[0].runtime)
    else GreedyFrom(movies[1..], limit, sum)
  }

  /** The recommendation for a budget of `limit` minutes: catalog movies whose runtimes fit into a
      non-negative budget. */
  function Greedy(catalog: seq<Movie>, limit: int): (recList: seq<Movie>)
    ensures forall x :: x in recList ==> x in catalog
    ensures limit >= 0 ==> Sum(recList) <= limit
  {
    var kept := GreedyFrom(catalog, limit, 0);
    assert limit >= 0 ==> Sum(kept) <= limit by {
      if limit >= 0 {
        GreedyWithinBudget(catalog, limit, 0);
      }
    }
    kept
  }

  /** The loop of `generateRecommendation`: `currentSum` and `recList` updated movie by movie. */
  method Recommend(catalog: seq<Movie>, timeLimit: int) returns (recList: seq<Movie>)
    ensures recList == Greedy(catalog, timeLimit)
    ensures timeLimit >= 0 ==> Sum(recList) <= timeLimit
  {
    var currentSum := 0;
    recList := [];
    for i := 0 to |catalog|
      invariant recList == Greedy(catalog[..i], timeLimit)
      invariant currentSum == Sum(recList)
    {
      var movie := catalog[i];
      GreedyPrefixStep(catalog, timeLimit, i);
      if currentSum + movie.runtime <= timeLimit {
        SumAppend(recList, [movie]);
        recList := recList + [movie];
        currentSum := currentSum + movie.runtime;
      }
    }
    assert catalog[..|catalog|] == catalog;
  }

  /** Starting within the budget, the pass never exceeds it. */
  lemma {:induction false} GreedyWithinBudget(movies: seq<Movie>, limit: int, sum: int)
    requires sum <= limit
    ensures sum + Sum(GreedyFrom(movies, limit, sum)) <= limit
  {
    if movies != [] {
      if sum + movies[0].runtime <= limit {
        GreedyWithinBudget(movies[1..], limit, sum + movies[0].runtime);
      } else {
        GreedyWithinBudget(movies[1..], limit, sum);
      }
    }
  }

  /** The pass keeps movies in their original order: the result is a subsequence of the input. */
  lemma {:induction false} GreedyIsSubseq(movies: seq<Movie>, limit: int, sum: int)
    ensures IsSubseq(GreedyFrom(movies, limit, sum), movies)
  {
    if movies != [] {
      var g := GreedyFrom(movies, limit, sum);
      if sum + movies[0].runtime <= limit {
        GreedyIsSubseq(movies[1..], limit, sum + movies[0].runtime);
        assert g[1..] == GreedyFrom(movies[1..], limit, sum + movies[0].runtime);
      } else {
        GreedyIsSubseq(movies[1..], limit, sum);
        SubseqDropFirst(g, movies);
      }
    }
  }

  /** One more movie scanned: it is appended exactly when it fits on top of what was kept so far,
      otherwise it is skipped and the result is unchanged. */
  lemma {:induction false} GreedyFromSnoc(movies: seq<Movie>, x: Movie, limit: int, sum: int)
    ensures GreedyFrom(movies + [x], limit, sum)
         == var g := GreedyFrom(movies, limit, sum);
            if sum + Sum(g) + x.runtime <= limit then g + [x] else g
  {
    if movies == [] {
      assert movies + [x] == [x];
    } else {
      var m := movies[0];
      assert (movies + [x])[1..] == movies[1..] + [x];
      if sum + m.runtime <= limit {
        GreedyFromSnoc(movies[1..], x, limit, sum + m.runtime);
      } else {
        GreedyFromSnoc(movies[1..], x, limit, sum);
      }
    }
  }

  /** The pass scanned up to catalog position `i`: movie `i` is kept if and only if the running sum
      of the movies kept before it plus its runtime stays within the limit; a skipped movie is one
      that would have pushed the running sum over the limit, and the scan goes on past it. */
  lemma GreedyPrefixStep(catalog: seq<Movie>, limit: int, i: nat)
    requires i < |catalog|
    ensures Greedy(catalog[..i + 1], limit)
         == if Sum(Greedy(catalog[..i], limit)) + catalog[i].runtime <= limit
            then Greedy(catalog[..i], limit) + [catalog[i]]
            else Greedy(catalog[..i], limit)
  {
    assert catalog[..i + 1] == catalog[..i] + [catalog[i]];
    GreedyFromSnoc(catalog[..i], catalog[i], limit, 0);
  }

  /** With positive runtimes, a negative budget recommends nothing. */
  lemma {:induction false} GreedyNegativeBudget(movies: seq<Movie>, limit: int, sum: int)
    requires forall i :: 0 <= i < |movies| ==> movies[i].runtime > 0
    requires limit < sum
    ensures GreedyFrom(movies, limit, sum) == []
  {
    if movies != [] {
      GreedyNegativeBudget(movies[1..], limit, sum);
    }
  }

  /** The recommendation drawn from a valid catalog: catalog records in catalog order, no duplicate,
      within a non-negative budget, and empty for a negative one. */
  lemma GreedySpec(catalog: seq<Movie>, limit: int)
    requires ValidCatalog(catalog)
    ensures IsSubseq(Greedy(catalog, limit), catalog)
    ensures NoDup(Greedy(catalog, limit))
    ensures forall x :: x in Greedy(catalog, limit) ==> x in catalog
    ensures limit >= 0 ==> Sum(Greedy(catalog, limit)) <= limit
    ensures limit < 0 ==> Greedy(catalog, limit) == []
  {
    GreedyIsSubseq(catalog, limit, 0);
    SubseqOfCatalog(Greedy(catalog, limit), catalog);
    if limit < 0 {
      GreedyNegativeBudget(catalog, limit, 0);
    }
  }

  /** The worked example: runtimes 60, 50, 30 with 100 minutes keep the first and the third. */
  lemma GreedyExample()
    ensures var a, b, c := Movie(1, "A", 60, []), Movie(2, "B", 50, []), Movie(3, "C", 30, []);
            Greedy([a, b, c], 100) == [a, c] && Sum([a, c]) == 90
  {
    var a, b, c := Movie(1, "A", 60, []), Movie(2, "B", 50, []), Movie(3, "C", 30, []);
    assert [a, b, c][1..] == [b, c] && [b, c][1..] == [c] && [c][1..] == [];
    assert GreedyFrom([c], 100, 60) == [c];
    assert GreedyFrom([b, c], 100, 60) == [c];
    assert [a, c][1..] == [c];
    assert Sum([c]) == 30;
  }
}
