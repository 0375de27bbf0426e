/** The bookmark list held by the bookmark context: a list of discussion ids
    with an append operation, a filter-out operation, and the click handler
    that chooses between them by membership. */
module Bookmarks {
  import opened Types

  /** The context starts with no bookmarks. */
  function Initial(): (bs: seq<int>)
    ensures |bs| == 0
  {
    []
  }

  /** `addBookmark`: the id goes at the end and nothing before it moves. */
  function Add(bs: seq<int>, id: int): (r: seq<int>)
    ensures |r| == |bs| + 1
    ensures r[..|bs|] == bs && r[|bs|] == id
  {
    bs + [id]
  }

  /** `removeBookmark`: every occurrence of `id` goes, and every other id
      keeps its number of occurrences. */
  function Remove(bs: seq<int>, id: int): (r: seq<int>)
    ensures id !in r
    ensures forall x | x != id :: multiset(r)[x] == multiset(bs)[x]
    ensures forall x :: x in r <==> x in bs && x != id
    ensures |r| <= |bs|
  {
    if |bs| == 0 then []
    else
      assert bs == [bs[0]] + bs[1..];
      (if bs[0] == id then [] else [bs[0]]) + Remove(bs[1..], id)
  }

  /** Removal distributes over concatenation, so the ids that stay keep
      their relative order. */
  lemma {:induction false} RemoveAppend(xs: seq<int>, ys: seq<int>, id: int)
    ensures Remove(xs + ys, id) == Remove(xs, id) + Remove(ys, id)
  {
    if |xs| == 0 {
      assert xs + ys == ys;
    } else {
      assert (xs + ys)[1..] == xs[1..] + ys;
      RemoveAppend(xs[1..], ys, id);
    }
  }

  /** Removing an id that is not bookmarked changes nothing. */
  lemma {:induction false} RemoveAbsent(bs: seq<int>, id: int)
    requires id !in bs
    ensures Remove(bs, id) == bs
  {
    if |bs| > 0 {
      RemoveAbsent(bs[1..], id);
      assert bs == [bs[0]] + bs[1..];
    }
  }

  /** Removing twice is removing once. */
  lemma RemoveIdempotent(bs: seq<int>, id: int)
    ensures Remove(Remove(bs, id), id) == Remove(bs, id)
  {
    RemoveAbsent(Remove(bs, id), id);
  }

  /** Adding an id that was not bookmarked and then removing it gives back the
      original list. */
  lemma AddThenRemove(bs: seq<int>, id: int)
    requires id !in bs
    ensures Remove(Add(bs, id), id) == bs
  {
    RemoveAppend(bs, [id], id);
    RemoveAbsent(bs, id);
    assert Remove([id], id) == [] + Remove([], id);
  }

  /** `isBookmarked` in the discussion view. */
  predicate IsBookmarked(bs: seq<int>, id: int) {
    id in bs
  }

  /** The discussion view's bookmark button: remove the id when it is
      bookmarked, add it otherwise. */
  function Click(bs: seq<int>, id: int): (r: seq<int>)
    ensures IsBookmarked(r, id) <==> !IsBookmarked(bs, id)
    ensures forall x | x != id :: x in r <==> x in bs
  {
    if IsBookmarked(bs, id) then Remove(bs, id) else Add(bs, id)
  }

  /** Removal never introduces a repeated id. */
  lemma {:induction false} RemoveKeepsNoDuplicates(bs: seq<int>, id: int)
    requires NoDuplicates(bs)
    ensures NoDuplicates(Remove(bs, id))
  {
    if |bs| > 0 {
      var tail := bs[1..];
      assert NoDuplicates(tail);
      RemoveKeepsNoDuplicates(tail, id);
      var rt := Remove(tail, id);
      if bs[0] != id {
        assert bs[0] !in tail;
        assert multiset(rt)[bs[0]] == 0;
        assert bs[0] !in rt;
        var r := [bs[0]] + rt;
        forall i, j | 0 <= i < j < |r| ensures r[i] != r[j] {
          if i == 0 {
            assert r[j] == rt[j - 1];
          } else {
            assert r[i] == rt[i - 1] && r[j] == rt[j - 1];
          }
        }
      }
    }
  }

  /** Starting from a list without repeats, clicking keeps it without
      repeats. */
  lemma ClickKeepsNoDuplicates(bs: seq<int>, id: int)
    requires NoDuplicates(bs)
    ensures NoDuplicates(Click(bs, id))
  {
    if id in bs {
      RemoveKeepsNoDuplicates(bs, id);
    }
  }

  /** Two clicks restore membership of every id; when the id was not
      bookmarked they restore the list exactly. A bookmarked id comes back at
      the end of the list. */
  lemma ClickTwice(bs: seq<int>, id: int)
    ensures forall x :: x in Click(Click(bs, id), id) <==> x in bs
    ensures id !in bs ==> Click(Click(bs, id), id) == bs
    ensures id in bs ==> Click(Click(bs, id), id) == Remove(bs, id) + [id]
  {
    if id !in bs {
      AddThenRemove(bs, id);
    }
  }
}
