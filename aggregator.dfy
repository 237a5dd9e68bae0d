/** The totals shown for the selection: minutes summed over the selected runtimes, split into
    whole hours (floor division) and leftover minutes (the truncating remainder of JavaScript). */
module Aggregator {
  import opened Catalog
  import opened Selection

  /** `totalMinutes`: the runtimes of the selection added up from 0. */
  function TotalMinutes(selected: seq<Movie>): (total: int)
    ensures selected == [] ==> total == 0
    ensures (forall i :: 0 <= i < |selected| ==> selected[i].runtime > 0) ==> total >= |selected|
  {
    SumAtLeastLength(selected);
    Sum(selected)
  }

  /** `Math.floor(totalMinutes / 60)`; for a positive divisor Dafny's `/` rounds down as well. */
  function Hours(totalMinutes: int): (h: int)
    ensures h * 60 <= totalMinutes < h * 60 + 60
  {
    totalMinutes / 60
  }

  /** `totalMinutes % 60` with JavaScript's `%`, whose result takes the sign of the dividend. */
  function Minutes(totalMinutes: int): (m: int)
    ensures -60 < m < 60
    ensures totalMinutes >= 0 ==> m == totalMinutes - 60 * Hours(totalMinutes)
    ensures totalMinutes < 0 ==> -m == -totalMinutes - 60 * Hours(-totalMinutes)
  {
    if totalMinutes >= 0 then totalMinutes % 60 else -((-totalMinutes) % 60)
  }

  /** For a non-negative total, hours and minutes give the total back, minutes below an hour. */
  lemma HoursMinutesReconstruct(totalMinutes: int)
    requires totalMinutes >= 0
    ensures Hours(totalMinutes) * 60 + Minutes(totalMinutes) == totalMinutes
    ensures 0 <= Minutes(totalMinutes) < 60
    ensures Hours(totalMinutes) >= 0
  {
  }

  /** With positive runtimes, every selected movie adds at least a minute. */
  lemma {:induction false} SumAtLeastLength(s: seq<Movie>)
    ensures (forall i :: 0 <= i < |s| ==> s[i].runtime > 0) ==> Sum(s) >= |s|
  {
    if s != [] {
      SumAtLeastLength(s[1..]);
    }
  }

  /** Cutting out position `k` takes away one occurrence of that movie. */
  lemma MultisetRemoveAt(b: seq<Movie>, k: nat)
    requires k < |b|
    ensures multiset(b[..k] + b[k + 1..]) == multiset(b) - multiset{b[k]}
  {
    var pre, post := b[..k], b[k + 1..];
    assert b == pre + [b[k]] + post;
    assert multiset(b) == multiset(pre) + multiset{b[k]} + multiset(post);
  }

  /** Cutting out position `k` takes away that movie's runtime. */
  lemma {:induction false} SumRemoveAt(b: seq<Movie>, k: nat)
    requires k < |b|
    ensures Sum(b) == b[k].runtime + Sum(b[..k] + b[k + 1..])
  {
    if k == 0 {
      assert b[..0] + b[1..] == b[1..];
    } else {
      var rest := b[1..][..k - 1] + b[1..][k..];
      SumRemoveAt(b[1..], k - 1);
      assert b[..k] + b[k + 1..] == [b[0]] + rest;
      assert ([b[0]] + rest)[1..] == rest;
    }
  }

  /** Reordering a list of movies does not change its runtime sum. */
  lemma {:induction false} SumPermutation(a: seq<Movie>, b: seq<Movie>)
    requires multiset(a) == multiset(b)
    ensures Sum(a) == Sum(b)
    decreases |a|
  {
    if a != [] {
      assert a[0] in multiset(b);
      var k :| 0 <= k < |b| && b[k] == a[0];
      var rest := b[..k] + b[k + 1..];
      assert multiset(a[1..]) == multiset(rest) by {
        MultisetRemoveAt(b, k);
        assert a == [a[0]] + a[1..];
        assert multiset(a) == multiset{a[0]} + multiset(a[1..]);
      }
      SumPermutation(a[1..], rest);
      SumRemoveAt(b, k);
    }
  }

  /** Taking out a movie that occurs once subtracts its runtime. */
  lemma SumWithout(selected: seq<Movie>, m: Movie)
    requires NoDup(selected) && m in selected
    ensures Sum(Without(selected, m)) == Sum(selected) - m.runtime
  {
    var i :| 0 <= i < |selected| && selected[i] == m;
    WithoutAt(selected, i);
    SumRemoveAt(selected, i);
  }

  /** A toggle adds the movie's runtime when it selects it and subtracts it when it deselects it. */
  lemma TotalAfterToggle(selected: seq<Movie>, m: Movie)
    requires NoDup(selected)
    ensures m !in selected ==> TotalMinutes(Toggled(selected, m)) == TotalMinutes(selected) + m.runtime
    ensures m in selected ==> TotalMinutes(Toggled(selected, m)) == TotalMinutes(selected) - m.runtime
  {
    if m in selected {
      SumWithout(selected, m);
    } else {
      SumAppend(selected, [m]);
    }
  }

  /** Saving and restoring a selection of catalog movies keeps its total. */
  lemma TotalAfterRestore(catalog: seq<Movie>, selected: seq<Movie>)
    requires UniqueIds(catalog)
    requires forall x :: x in selected ==> x in catalog
    requires NoDup(selected)
    ensures TotalMinutes(Restored(catalog, Snapshot(selected))) == TotalMinutes(selected)
  {
    SaveRestoreRoundTrip(catalog, selected);
    SumPermutation(Restored(catalog, Snapshot(selected)), selected);
  }
}
