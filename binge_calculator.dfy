/** The state of the binge calculator and its handlers: the selected movies, the last
    recommendation and the saved snapshot, each handler one atomic update. */
module BingeCalculator {
  import opened Catalog
  import opened Selection
  import opened Recommender

  /** The parsed budget is neither 0 nor NaN: `if (!timeLimit) return` lets it through. */
  predicate BudgetAccepted(timeLimit: Option<int>)
  {
    timeLimit.Some? && timeLimit.value != 0
  }

  class BingeStore {
    /** The movie catalog, loaded once and never changed. */
    const catalog: seq<Movie>
    /** `selectedMovies`. */
    var selected: seq<Movie>
    /** `recommendation`: `None` until a budget has been accepted. */
    var recommendation: Option<seq<Movie>>
    /** The saved entry of the browser storage: the ids of the selection at the last save. */
    var saved: Option<seq<int>>

    /** The selection holds catalog movies, each at most once. */
    ghost predicate Valid()
      reads this
    {
      && ValidCatalog(catalog)
      && NoDup(selected)
      && (forall x :: x in selected ==> x in catalog)
    }

    /** The component as it mounts: nothing selected, no recommendation, and whatever the
        storage held from an earlier session. */
    constructor (catalog: seq<Movie>, stored: Option<seq<int>>)
      requires ValidCatalog(catalog)
      ensures Valid()
      ensures this.catalog == catalog && selected == [] && recommendation == None && saved == stored
    {
      this.catalog := catalog;
      selected := [];
      recommendation := None;
      saved := stored;
    }

    /** The mount effect: with a saved entry, the selection becomes the catalog movies whose id
        was saved, in catalog order; without one it stays as it was. */
    method RestoreSaved()
      requires Valid()
      modifies this
      ensures Valid()
      ensures selected == if saved.Some? then Restored(catalog, saved.value) else old(selected)
      ensures recommendation == old(recommendation) && saved == old(saved)
    {
      if saved.Some? {
        RestoredSpec(catalog, saved.value);
        selected := Restored(catalog, saved.value);
      }
    }

    /** `toggleMovie`: deselect a selected movie, or select it at the end. */
    method ToggleMovie(movie: Movie)
      requires Valid() && movie in catalog
      modifies this
      ensures Valid()
      ensures selected == Toggled(old(selected), movie)
      ensures movie in selected <==> movie !in old(selected)
      ensures recommendation == old(recommendation) && saved == old(saved)
    {
      ToggleKeepsNoDup(selected, movie);
      if movie in selected {
        TogglePresentRemoves(selected, movie);
        selected := Without(selected, movie);
      } else {
        selected := selected + [movie];
      }
    }

    /** `handleSave`: store the ids of the selection; the selection itself is untouched. */
    method HandleSave()
      requires Valid()
      modifies this
      ensures Valid()
      ensures saved == Some(Snapshot(selected))
      ensures selected == old(selected) && recommendation == old(recommendation)
    {
      saved := Some(Snapshot(selected));
    }

    /** `handleClear`: empty the selection and remove the saved entry. */
    method HandleClear()
      requires Valid()
      modifies this
      ensures Valid()
      ensures selected == [] && saved == None
      ensures recommendation == old(recommendation)
    {
      selected := [];
      saved := None;
    }

    /** `generateRecommendation`: a budget of 0 or NaN changes nothing; any other budget, negative
        ones included, replaces both the recommendation and the selection by the greedy list. */
    method GenerateRecommendation(timeLimit: Option<int>)
      requires Valid()
      modifies this
      ensures Valid()
      ensures !BudgetAccepted(timeLimit) ==>
                selected == old(selected) && recommendation == old(recommendation)
      ensures BudgetAccepted(timeLimit) ==>
                && recommendation == Some(Greedy(catalog, timeLimit.value))
                && selected == Greedy(catalog, timeLimit.value)
      ensures BudgetAccepted(timeLimit) && timeLimit.value < 0 ==> selected == []
      ensures saved == old(saved)
    {
      if !BudgetAccepted(timeLimit) {
        return;
      }
      var recList := Recommend(catalog, timeLimit.value);
      GreedySpec(catalog, timeLimit.value);
      recommendation := Some(recList);
      selected := recList;
    }
  }

  /** Saving, then mounting afresh on what was saved, brings back the same movies in catalog order. */
  method SaveAndReload(store: BingeStore) returns (reloaded: BingeStore)
    requires store.Valid()
    modifies store
    ensures fresh(reloaded) && reloaded.Valid()
    ensures multiset(reloaded.selected) == multiset(old(store.selected))
    ensures IsSubseq(reloaded.selected, store.catalog)
    ensures store.selected == old(store.selected)
  {
    store.HandleSave();
    reloaded := new BingeStore(store.catalog, store.saved);
    reloaded.RestoreSaved();
    SaveRestoreRoundTrip(store.catalog, store.selected);
  }

  /** After a clear, the next mount starts from an empty selection. */
  method ClearAndReload(store: BingeStore) returns (reloaded: BingeStore)
    requires store.Valid()
    modifies store
    ensures fresh(reloaded) && reloaded.Valid()
    ensures store.selected == [] && reloaded.selected == []
  {
    store.HandleClear();
    reloaded := new BingeStore(store.catalog, store.saved);
    reloaded.RestoreSaved();
  }
}
