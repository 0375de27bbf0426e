/** The upvote button shared by discussions and comments: a per-view flag
    `upvoted` and the item's `upvoteCount`, changed together by one click. */
module Upvote {

  datatype Vote = Vote(count: int, upvoted: bool)

  /** Each view starts not upvoted, whatever the stored count. */
  function Fresh(count: int): (v: Vote)
    ensures !v.upvoted && v.count == count
  {
    Vote(count, false)
  }

  /** One click: count up and set the flag when not upvoted, count down and
      clear the flag when upvoted. */
  function Toggle(v: Vote): (r: Vote)
    ensures r.upvoted != v.upvoted
    ensures r.count == if v.upvoted then v.count - 1 else v.count + 1
  {
    if !v.upvoted then Vote(v.count + 1, true) else Vote(v.count - 1, false)
  }

  /** Two clicks restore both the count and the flag. */
  lemma ToggleTwice(v: Vote)
    ensures Toggle(Toggle(v)) == v
  {
  }

  /** `n` clicks in a row. */
  function Clicks(v: Vote, n: nat): (r: Vote)
  {
    if n == 0 then v else Toggle(Clicks(v, n - 1))
  }

  /** The count never drifts from the stored one by more than the flag: it is
      the starting count, plus one exactly while the flag is set. */
  predicate Consistent(base: int, v: Vote) {
    v.count == base + (if v.upvoted then 1 else 0)
  }

  lemma {:induction false} ClicksKeepConsistent(base: int, n: nat)
    ensures Consistent(base, Clicks(Fresh(base), n))
    ensures Clicks(Fresh(base), n).upvoted <==> n % 2 == 1
  {
    if n > 0 {
      ClicksKeepConsistent(base, n - 1);
    }
  }
}
