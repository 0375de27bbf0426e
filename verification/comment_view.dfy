/** The comment component: one comment (or reply) together with the view's
    own "upvoted" flag. */
module CommentView {
  import opened Types
  import Upvote

  datatype View = View(comment: Comment, upvoted: bool)

  /** A freshly shown comment is not upvoted. */
  function Init(c: Comment): (v: View)
    ensures v.comment == c && !v.upvoted
  {
    View(c, false)
  }

  /** Whether the "View comments" button is offered. */
  function HasReplies(c: Comment): (b: bool)
    ensures b <==> c.replies != []
  {
    |c.replies| > 0
  }

  function VoteOf(v: View): (vote: Upvote.Vote) {
    Upvote.Vote(v.comment.upvoteCount, v.upvoted)
  }

  /** The upvote button: the count moves by one in the direction given by
      the flag, the flag flips, and no other field of the comment changes. */
  function UpvoteClick(v: View): (r: View)
    ensures !v.upvoted ==> r.upvoted && r.comment.upvoteCount == v.comment.upvoteCount + 1
    ensures v.upvoted ==> !r.upvoted && r.comment.upvoteCount == v.comment.upvoteCount - 1
    ensures r.comment == v.comment.(upvoteCount := r.comment.upvoteCount)
  {
    var vote := Upvote.Toggle(VoteOf(v));
    View(v.comment.(upvoteCount := vote.count), vote.upvoted)
  }

  /** Two clicks restore the comment and the flag. */
  lemma UpvoteTwice(v: View)
    ensures UpvoteClick(UpvoteClick(v)) == v
  {
  }

  function UpvoteClicks(v: View, n: nat): (r: View)
  {
    if n == 0 then v else UpvoteClick(UpvoteClicks(v, n - 1))
  }

  /** However many times the button is clicked on a freshly shown comment,
      its count is the stored count plus one while the flag is set, and the
      rest of the comment is untouched. */
  lemma {:induction false} UpvoteClicksConsistent(c: Comment, n: nat)
    ensures Upvote.Consistent(c.upvoteCount, VoteOf(UpvoteClicks(Init(c), n)))
    ensures UpvoteClicks(Init(c), n).comment == c.(upvoteCount := UpvoteClicks(Init(c), n).comment.upvoteCount)
  {
    if n > 0 {
      UpvoteClicksConsistent(c, n - 1);
    }
  }
}
