/** The discussion component: one discussion, its list of comments, the
    displayed comment count, the add-comment form and the view's upvote flag.
    Every handler is a function from the view state to the next one. */
module DiscussionView {
  import opened Types
  import opened Text
  import Upvote

  datatype CommentForm = CommentForm(title: string, content: string, imageUrls: string)

  const EmptyForm: CommentForm := CommentForm("", "", "")

  /** The form inputs, by their `name` attribute. */
  datatype Field = Title | Content | ImageUrls

  datatype View = View(
    discussion: Discussion,
    comments: seq<Comment>,
    commentCount: int,
    form: CommentForm,
    showAddComment: bool,
    validationError: Option<string>,
    upvoted: bool)

  /** The displayed count equals the number of comments held. */
  predicate CountInStep(v: View) {
    v.commentCount == |v.comments|
  }

  predicate DistinctIds(comments: seq<Comment>) {
    NoDuplicates(Ids(comments))
  }

  /** The state the component mounts with. */
  function Init(d: Discussion, initialComments: seq<Comment>): (v: View)
    ensures v.discussion == d && v.comments == initialComments
    ensures CountInStep(v)
    ensures v.form == EmptyForm && !v.showAddComment
    ensures v.validationError == None && !v.upvoted
  {
    View(d, initialComments, |initialComments|, EmptyForm, false, None, false)
  }

  /** `Math.max` over a non-empty list of ids. */
  function MaxId(ids: seq<int>): (m: int)
    requires |ids| > 0
    ensures m in ids
    ensures forall k | 0 <= k < |ids| :: ids[k] <= m
  {
    if |ids| == 1 then ids[0]
    else
      var rest := MaxId(ids[1..]);
      assert ids == [ids[0]] + ids[1..];
      if ids[0] >= rest then ids[0] else rest
  }

  function Ids(comments: seq<Comment>): (ids: seq<int>)
    ensures |ids| == |comments|
    ensures forall k | 0 <= k < |ids| :: ids[k] == comments[k].id
  {
    seq(|comments|, k requires 0 <= k < |comments| => comments[k].id)
  }

  /** The id of a new comment: one more than the largest existing id, hence
      above every existing id. */
  function NextCommentId(comments: seq<Comment>): (id: int)
    requires |comments| > 0
    ensures forall k | 0 <= k < |comments| :: comments[k].id < id
    ensures exists k | 0 <= k < |comments| :: comments[k].id == id - 1
  {
    var ids := Ids(comments);
    var m := MaxId(ids);
    assert forall k | 0 <= k < |ids| :: ids[k] <= m;
    var k :| 0 <= k < |ids| && ids[k] == m;
    assert comments[k].id == m;
    m + 1
  }

  /** `handleInputChange`: one form field takes the typed value. */
  function EditForm(v: View, field: Field, value: string): (r: View)
    ensures r == v.(form := r.form)
    ensures r.form.title == (if field == Title then value else v.form.title)
    ensures r.form.content == (if field == Content then value else v.form.content)
    ensures r.form.imageUrls == (if field == ImageUrls then value else v.form.imageUrls)
  {
    match field
    case Title => v.(form := v.form.(title := value))
    case Content => v.(form := v.form.(content := value))
    case ImageUrls => v.(form := v.form.(imageUrls := value))
  }

  /** `handleAddCommentClick`: show or hide the form; hiding it clears it. */
  function AddCommentClick(v: View): (r: View)
    ensures r.showAddComment != v.showAddComment
    ensures r.form == if v.showAddComment then EmptyForm else v.form
    ensures r == v.(showAddComment := r.showAddComment, form := r.form)
  {
    if v.showAddComment then v.(showAddComment := false, form := EmptyForm)
    else v.(showAddComment := true)
  }

  /** The comment the form builds. The form's title is checked but not
      stored: a comment has no title. */
  function NewComment(v: View, createdAt: string): (c: Comment)
    requires |v.comments| > 0
    ensures c.id == NextCommentId(v.comments)
    ensures forall k | 0 <= k < |v.comments| :: v.comments[k].id < c.id
    ensures c.discussionId == None
    ensures c.content == v.form.content
    ensures c.imageUrls == NormalizeImageUrls(v.form.imageUrls)
    ensures c.viewCount == 0 && c.upvoteCount == 0 && c.commentCount == 0
    ensures c.category == v.discussion.category
    ensures c.user == CurrentUser && c.createdAt == createdAt
    ensures c.replies == []
  {
    Comment(
      NextCommentId(v.comments), None, v.form.content,
      NormalizeImageUrls(v.form.imageUrls), 0, 0, 0,
      v.discussion.category, CurrentUser, createdAt, [])
  }

  /** `handleFormSubmit`. A form without title or content only sets the
      error message. Otherwise the new comment is appended, the count goes up
      by one, and the form is cleared, hidden and free of errors. A valid
      submission needs at least one existing comment, because the id is
      taken from the largest existing one. */
  function SubmitComment(v: View, createdAt: string): (r: View)
    requires HasRequiredFields(v.form.title, v.form.content) ==> |v.comments| > 0
    ensures !HasRequiredFields(v.form.title, v.form.content) ==>
      r == v.(validationError := Some(RequiredFieldsMessage))
    ensures HasRequiredFields(v.form.title, v.form.content) ==>
      && |r.comments| == |v.comments| + 1
      && r.comments[..|v.comments|] == v.comments
      && r.commentCount == v.commentCount + 1
      && r.form == EmptyForm && !r.showAddComment && r.validationError == None
      && r.discussion == v.discussion && r.upvoted == v.upvoted
  {
    if !HasRequiredFields(v.form.title, v.form.content) then
      v.(validationError := Some(RequiredFieldsMessage))
    else
      var c := NewComment(v, createdAt);
      v.(comments := v.comments + [c], commentCount := v.commentCount + 1,
         form := EmptyForm, showAddComment := false, validationError := None)
  }

  /** What a valid submission appends: a comment whose id is one more than
      the largest earlier id, without a discussion id, with content copied,
      the normalised (hence well-formed) image urls, zero counters, the
      discussion's category, the current user and no replies. */
  lemma SubmittedComment(v: View, createdAt: string)
    requires HasRequiredFields(v.form.title, v.form.content) && |v.comments| > 0
    ensures var c := SubmitComment(v, createdAt).comments[|v.comments|];
      && c.id == NextCommentId(v.comments)
      && (forall k | 0 <= k < |v.comments| :: v.comments[k].id < c.id)
      && c.discussionId == None
      && c.content == v.form.content
      && c.imageUrls == NormalizeImageUrls(v.form.imageUrls)
      && WellFormedUrls(c.imageUrls)
      && c.viewCount == 0 && c.upvoteCount == 0 && c.commentCount == 0
      && c.category == v.discussion.category
      && c.user == CurrentUser && c.createdAt == createdAt
      && c.replies == []
  {
    var r := SubmitComment(v, createdAt);
    assert r.comments == v.comments + [NewComment(v, createdAt)];
  }

  /** Submission keeps the displayed count equal to the number of comments. */
  lemma SubmitKeepsCountInStep(v: View, createdAt: string)
    requires HasRequiredFields(v.form.title, v.form.content) ==> |v.comments| > 0
    requires CountInStep(v)
    ensures CountInStep(SubmitComment(v, createdAt))
  {
  }

  /** Submission keeps comment ids pairwise distinct. */
  lemma SubmitKeepsDistinctIds(v: View, createdAt: string)
    requires HasRequiredFields(v.form.title, v.form.content) ==> |v.comments| > 0
    requires DistinctIds(v.comments)
    ensures DistinctIds(SubmitComment(v, createdAt).comments)
  {
    if HasRequiredFields(v.form.title, v.form.content) {
      var cs := SubmitComment(v, createdAt).comments;
      var n := |v.comments|;
      assert cs == v.comments + [NewComment(v, createdAt)];
      forall i, j | 0 <= i < j < |cs| ensures cs[i].id != cs[j].id {
        if j == n {
          assert cs[i] == v.comments[i];
        } else {
          assert cs[i] == v.comments[i] && cs[j] == v.comments[j];
        }
      }
    }
  }

  function VoteOf(v: View): (vote: Upvote.Vote) {
    Upvote.Vote(v.discussion.upvoteCount, v.upvoted)
  }

  /** `handleUpvoteClick`: the discussion's count moves by one in the
      direction given by the flag, the flag flips, nothing else changes. */
  function UpvoteClick(v: View): (r: View)
    ensures !v.upvoted ==> r.upvoted && r.discussion.upvoteCount == v.discussion.upvoteCount + 1
    ensures v.upvoted ==> !r.upvoted && r.discussion.upvoteCount == v.discussion.upvoteCount - 1
    ensures r == v.(discussion := v.discussion.(upvoteCount := r.discussion.upvoteCount), upvoted := r.upvoted)
  {
    var vote := Upvote.Toggle(VoteOf(v));
    v.(discussion := v.discussion.(upvoteCount := vote.count), upvoted := vote.upvoted)
  }

  /** Two clicks restore the view. */
  lemma UpvoteTwice(v: View)
    ensures UpvoteClick(UpvoteClick(v)) == v
  {
  }

  /** The user's actions on one mounted discussion view. */
  datatype Event = Edit(field: Field, value: string) | ToggleForm | Submit(createdAt: string) | UpvoteClicked

  /** A submission can only be modelled once a comment exists to size the
      id from; every other event is always possible. */
  predicate Enabled(v: View, e: Event) {
    e.Submit? && HasRequiredFields(v.form.title, v.form.content) ==> |v.comments| > 0
  }

  function Step(v: View, e: Event): (r: View)
    requires Enabled(v, e)
  {
    match e
    case Edit(field, value) => EditForm(v, field, value)
    case ToggleForm => AddCommentClick(v)
    case Submit(createdAt) => SubmitComment(v, createdAt)
    case UpvoteClicked => UpvoteClick(v)
  }

  /** The state kept consistent across a session: the displayed count matches
      the list, ids are distinct, and the upvote count is the stored one plus
      one exactly while the flag is set. */
  predicate Invariant(base: int, v: View) {
    && CountInStep(v)
    && DistinctIds(v.comments)
    && Upvote.Consistent(base, VoteOf(v))
  }

  /** Every event of the sequence is enabled in the state it meets. */
  predicate RunEnabled(v: View, events: seq<Event>)
    decreases |events|
  {
    |events| == 0 || (Enabled(v, events[0]) && RunEnabled(Step(v, events[0]), events[1..]))
  }

  /** Runs a sequence of events; the comment list never shrinks and its
      earlier entries stay in place. */
  function Run(v: View, events: seq<Event>): (r: View)
    requires RunEnabled(v, events)
    ensures |r.comments| >= |v.comments|
    ensures r.comments[..|v.comments|] == v.comments
    decreases |events|
  {
    if |events| == 0 then v
    else
      var next := Step(v, events[0]);
      assert |next.comments| >= |v.comments| && next.comments[..|v.comments|] == v.comments;
      var r := Run(next, events[1..]);
      assert r.comments[..|v.comments|] == r.comments[..|next.comments|][..|v.comments|];
      r
  }

  /** Because the list never shrinks, a view that starts with a comment can
      take every sequence of events. */
  lemma {:induction false} NonEmptyRunEnabled(v: View, events: seq<Event>)
    requires |v.comments| > 0
    ensures RunEnabled(v, events)
    decreases |events|
  {
    if |events| > 0 {
      var next := Step(v, events[0]);
      assert |next.comments| >= |v.comments|;
      NonEmptyRunEnabled(next, events[1..]);
    }
  }

  /** Every enabled sequence of events keeps the invariant, including runs on
      an empty mounted list that never submit a valid form. */
  lemma {:induction false} RunKeepsInvariant(base: int, v: View, events: seq<Event>)
    requires RunEnabled(v, events)
    requires Invariant(base, v)
    ensures Invariant(base, Run(v, events))
    decreases |events|
  {
    if |events| > 0 {
      var e := events[0];
      var next := Step(v, e);
      if e.Submit? {
        SubmitKeepsDistinctIds(v, e.createdAt);
      }
      RunKeepsInvariant(base, next, events[1..]);
    }
  }

  /** The mounted view satisfies the invariant when the loaded comments have
      distinct ids. */
  lemma InitInvariant(d: Discussion, initialComments: seq<Comment>)
    requires DistinctIds(initialComments)
    ensures Invariant(d.upvoteCount, Init(d, initialComments))
  {
  }
}
