/** The selection list of the binge calculator as values: the list a toggle produces,
    the id snapshot a save writes, and the list a restore rebuilds from it. */
module Selection {
  import opened Catalog

  /** The filter callback of a removal: every movie except `m`. */
  function Other(m: Movie): Movie -> bool
  {
    (x: Movie) => x != m
  }

  /** The filter callback of a restore: the records whose id is among `ids`. */
  function SavedIn(ids: seq<int>): Movie -> bool
  {
    (x: Movie) => x.id in ids
  }

  /** The selection with every occurrence of `m` taken out, the others kept in order. */
  function Without(selected: seq<Movie>, m: Movie): (r: seq<Movie>)
    ensures |r| <= |selected|
    ensures forall x :: x in r <==> x in selected && x != m
  {
    Filter(selected, Other(m))
  }

  /** The new list `toggleMovie(m)` installs: `m` removed when present, appended otherwise.
      Either way `m` flips between selected and unselected and no other movie does. */
  function Toggled(selected: seq<Movie>, m: Movie): (r: seq<Movie>)
    ensures m in r <==> m !in selected
    ensures forall x :: x != m ==> (x in r <==> x in selected)
  {
    if m in selected then Without(selected, m) else selected + [m]
  }

  /** What a save writes: the ids of the selection, in selection order. */
  function Snapshot(selected: seq<Movie>): (ids: seq<int>)
    ensures |ids| == |selected|
    ensures forall i :: 0 <= i < |selected| ==> ids[i] == selected[i].id
  {
    if selected == [] then [] else [selected[0].id] + Snapshot(selected[1..])
  }

  /** What a restore installs: the catalog records whose id was saved, in catalog order. */
  function Restored(catalog: seq<Movie>, ids: seq<int>): (r: seq<Movie>)
    ensures |r| <= |catalog|
    ensures forall x :: x in r <==> x in catalog && x.id in ids
  {
    Filter(catalog, SavedIn(ids))
  }

  // ---------------------------------------------------------------- toggle

  /** Removing keeps the other elements in their order: a subsequence of the selection. */
  lemma WithoutIsSubseq(selected: seq<Movie>, m: Movie)
    ensures IsSubseq(Without(selected, m), selected)
  {
    FilterIsSubseq(selected, Other(m));
  }

  /** Taking out a movie that occurs once, at position `i`, closes the gap it leaves. */
  lemma WithoutAt(selected: seq<Movie>, i: nat)
    requires NoDup(selected) && i < |selected|
    ensures Without(selected, selected[i]) == selected[..i] + selected[i + 1..]
  {
    var m := selected[i];
    var pre, post := selected[..i], selected[i + 1..];
    assert selected == pre + [m] + post;
    forall j | 0 <= j < |pre| ensures Other(m)(pre[j]) {
      assert pre[j] == selected[j];
    }
    forall j | 0 <= j < |post| ensures Other(m)(post[j]) {
      assert post[j] == selected[i + 1 + j];
    }
    FilterDropsOne(pre, m, post, Other(m));
  }

  /** Toggling a movie that is not selected appends it at the end. */
  lemma ToggleAbsentAppends(selected: seq<Movie>, m: Movie)
    requires m !in selected
    ensures Toggled(selected, m) == selected + [m]
    ensures Toggled(selected, m)[|selected|] == m
  {
  }

  /** Toggling a selected movie removes it; the others stay, in order, and the list shrinks by one
      when it held no duplicates. */
  lemma TogglePresentRemoves(selected: seq<Movie>, m: Movie)
    requires m in selected
    ensures m !in Toggled(selected, m)
    ensures forall x :: x in Toggled(selected, m) <==> x in selected && x != m
    ensures IsSubseq(Toggled(selected, m), selected)
    ensures NoDup(selected) ==> |Toggled(selected, m)| == |selected| - 1
  {
    WithoutIsSubseq(selected, m);
    if NoDup(selected) {
      var i :| 0 <= i < |selected| && selected[i] == m;
      WithoutAt(selected, i);
    }
  }

  /** A toggle never introduces a duplicate. */
  lemma ToggleKeepsNoDup(selected: seq<Movie>, m: Movie)
    requires NoDup(selected)
    ensures NoDup(Toggled(selected, m))
  {
    if m in selected {
      TogglePresentRemoves(selected, m);
      SubseqNoDup(Toggled(selected, m), selected);
    }
  }

  /** Toggling an unselected movie twice gives back exactly the original selection. */
  lemma ToggleTwiceAbsent(selected: seq<Movie>, m: Movie)
    requires m !in selected
    ensures Toggled(Toggled(selected, m), m) == selected
  {
    FilterAppend(selected, [m], Other(m));
    FilterKeepsAll(selected, Other(m));
  }

  /** Toggling a selected movie twice keeps the same members but moves that movie to the end;
      for a duplicate-free selection the result is a permutation of the original. */
  lemma ToggleTwicePresent(selected: seq<Movie>, m: Movie)
    requires m in selected
    ensures Toggled(Toggled(selected, m), m) == Without(selected, m) + [m]
    ensures forall x :: x in Toggled(Toggled(selected, m), m) <==> x in selected
    ensures NoDup(selected) ==> multiset(Toggled(Toggled(selected, m), m)) == multiset(selected)
  {
    WithoutIsSubseq(selected, m);
    var r := Toggled(Toggled(selected, m), m);
    if NoDup(selected) {
      SubseqNoDup(Without(selected, m), selected);
      assert NoDup(r);
      SameMembersPermutation(r, selected);
    }
  }

  // ---------------------------------------------------------------- save and restore

  /** A restore keeps catalog order: a subsequence of the catalog, and so free of duplicates when
      catalog ids are unique. */
  lemma RestoredSpec(catalog: seq<Movie>, ids: seq<int>)
    ensures IsSubseq(Restored(catalog, ids), catalog)
    ensures UniqueIds(catalog) ==> NoDup(Restored(catalog, ids))
  {
    FilterIsSubseq(catalog, SavedIn(ids));
    if UniqueIds(catalog) {
      UniqueIdsNoDup(catalog);
      SubseqNoDup(Restored(catalog, ids), catalog);
    }
  }

  /** Saving and then restoring gives back the same movies, reordered to catalog order:
      a permutation of the selection that is also a subsequence of the catalog. */
  lemma SaveRestoreRoundTrip(catalog: seq<Movie>, selected: seq<Movie>)
    requires UniqueIds(catalog)
    requires forall x :: x in selected ==> x in catalog
    requires NoDup(selected)
    ensures multiset(Restored(catalog, Snapshot(selected))) == multiset(selected)
    ensures IsSubseq(Restored(catalog, Snapshot(selected)), catalog)
  {
    var ids := Snapshot(selected);
    var r := Restored(catalog, ids);
    RestoredSpec(catalog, ids);
    forall x ensures x in r <==> x in selected {
      if x in selected {
        var i :| 0 <= i < |selected| && selected[i] == x;
        assert ids[i] == x.id;
      }
      if x in r {
        var i :| 0 <= i < |ids| && ids[i] == x.id;
        SameIdSameMovie(catalog, x, selected[i]);
      }
    }
    SameMembersPermutation(r, selected);
  }
}
