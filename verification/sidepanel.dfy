/** The side panel's category list: the labels of the discussions,
    deduplicated through a JavaScript `Set`, which keeps first-insertion
    order. */
module Sidepanel {
  import opened Types

  function Labels(ds: seq<Discussion>): (ls: seq<string>)
    ensures |ls| == |ds|
    ensures forall k | 0 <= k < |ds| :: ls[k] == ds[k].category.text
  {
    seq(|ds|, k requires 0 <= k < |ds| => ds[k].category.text)
  }

  /** Inserting `xs` one by one into a `Set` and reading it back: each value
      once, placed where it first occurs. */
  function Unique(xs: seq<string>): (r: seq<string>)
    ensures NoDuplicates(r)
    ensures forall x :: x in r <==> x in xs
    ensures forall i, j, k | 0 <= i < j < |r| && 0 <= k < |xs| && xs[k] == r[j] :: r[i] in xs[..k]
  {
    if |xs| == 0 then []
    else
      var init := xs[..|xs| - 1];
      var last := xs[|xs| - 1];
      var rest := Unique(init);
      assert xs == init + [last];
      if last in rest then
        UniqueOrderKept(xs, rest);
        rest
      else
        var r := rest + [last];
        UniqueOrderExtended(xs, rest);
        r
  }

  /** Order of first occurrence survives when the last value was seen
      before. */
  lemma UniqueOrderKept(xs: seq<string>, rest: seq<string>)
    requires |xs| > 0
    requires forall x :: x in rest <==> x in xs[..|xs| - 1]
    requires xs[|xs| - 1] in rest
    requires forall i, j, k | 0 <= i < j < |rest| && 0 <= k < |xs| - 1 && xs[k] == rest[j] :: rest[i] in xs[..k]
    ensures forall i, j, k | 0 <= i < j < |rest| && 0 <= k < |xs| && xs[k] == rest[j] :: rest[i] in xs[..k]
  {
    var n := |xs| - 1;
    forall i, j, k | 0 <= i < j < |rest| && 0 <= k < |xs| && xs[k] == rest[j]
      ensures rest[i] in xs[..k]
    {
      if k == n {
        assert rest[i] in xs[..n];
      }
    }
  }

  /** Order of first occurrence survives when the last value is new and goes
      at the end. */
  lemma UniqueOrderExtended(xs: seq<string>, rest: seq<string>)
    requires |xs| > 0
    requires forall x :: x in rest <==> x in xs[..|xs| - 1]
    requires xs[|xs| - 1] !in rest
    requires forall i, j, k | 0 <= i < j < |rest| && 0 <= k < |xs| - 1 && xs[k] == rest[j] :: rest[i] in xs[..k]
    ensures var r := rest + [xs[|xs| - 1]];
      forall i, j, k | 0 <= i < j < |r| && 0 <= k < |xs| && xs[k] == r[j] :: r[i] in xs[..k]
  {
    var n := |xs| - 1;
    var last := xs[n];
    var r := rest + [last];
    forall i, j, k | 0 <= i < j < |r| && 0 <= k < |xs| && xs[k] == r[j]
      ensures r[i] in xs[..k]
    {
      assert r[i] == rest[i];
      if j == |rest| {
        assert rest[i] in rest;
      } else {
        assert r[j] == rest[j];
      }
    }
  }

  /** `renderCategories`: the unique labels of the discussions, each placed
      where its first discussion is. */
  function UniqueLabels(ds: seq<Discussion>): (r: seq<string>)
    ensures NoDuplicates(r)
    ensures forall x :: x in r <==> exists k :: 0 <= k < |ds| && ds[k].category.text == x
    ensures forall i, j, k | 0 <= i < j < |r| && 0 <= k < |ds| && ds[k].category.text == r[j] ::
      exists m :: 0 <= m < k && ds[m].category.text == r[i]
  {
    var ls := Labels(ds);
    var r := Unique(ls);
    assert forall x :: x in ls <==> exists k :: 0 <= k < |ds| && ds[k].category.text == x;
    r
  }

  /** The panel builds its list from `[discussion]`, its one declared prop,
      so it lists exactly that discussion's category. */
  lemma SingleDiscussion(d: Discussion)
    ensures UniqueLabels([d]) == [d.category.text]
  {
    var r := UniqueLabels([d]);
    assert d.category.text in r;
    assert r[0] in r;
  }
}
