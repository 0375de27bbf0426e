/** The home page: the list of discussions, the selected category filter, and
    the append handler the add-discussion form reports to. The app-level step
    ties together the form, the page list and the add-discussion view flag. */
module Home {
  import opened Types
  import AddDiscussion
  import AddDiscussionView

  datatype Page = Page(discussions: seq<Discussion>, selectedCategory: Option<string>)

  /** The page mounts with the loaded discussions and no category selected. */
  function Init(initialDiscussions: seq<Discussion>): (p: Page)
    ensures p.discussions == initialDiscussions
    ensures p.selectedCategory == None
  {
    Page(initialDiscussions, None)
  }

  /** `handleAddDiscussion`: the new discussion goes at the end; the earlier
      ones and the filter stay as they were. */
  function HandleAddDiscussion(p: Page, d: Discussion): (r: Page)
    ensures |r.discussions| == |p.discussions| + 1
    ensures r.discussions[..|p.discussions|] == p.discussions
    ensures r.discussions[|p.discussions|] == d
    ensures r.selectedCategory == p.selectedCategory
  {
    p.(discussions := p.discussions + [d])
  }

  /** The state one submission of the add-discussion form touches. */
  datatype App = App(page: Page, addDiscussionShown: bool, form: AddDiscussion.FormState)

  /** Submitting the form with the page's own list length: on success the
      discussion is appended to the page and the form view is closed; on
      rejection only the form's error changes. */
  function SubmitDiscussion(app: App, createdAt: string): (r: App)
    ensures var s := AddDiscussion.Submit(app.form, |app.page.discussions|, createdAt);
      && r.form == s.state
      && (s.emitted.None? ==> r.page == app.page && r.addDiscussionShown == app.addDiscussionShown)
      && (s.emitted.Some? ==>
            r.page == HandleAddDiscussion(app.page, s.emitted.value) && !r.addDiscussionShown)
  {
    var s := AddDiscussion.Submit(app.form, |app.page.discussions|, createdAt);
    match s.emitted
    case None => app.(form := s.state)
    case Some(d) =>
      App(HandleAddDiscussion(app.page, d), AddDiscussionView.Close(app.addDiscussionShown), s.state)
  }

  /** Every discussion's id is its 1-based position in the list. */
  predicate PositionalIds(ds: seq<Discussion>) {
    forall k | 0 <= k < |ds| :: ds[k].id == k + 1
  }

  /** Ids sized from the list length stay positional, and so distinct, as
      long as the list started positional. */
  lemma SubmitKeepsPositionalIds(app: App, createdAt: string)
    requires PositionalIds(app.page.discussions)
    ensures PositionalIds(SubmitDiscussion(app, createdAt).page.discussions)
  {
    var s := AddDiscussion.Submit(app.form, |app.page.discussions|, createdAt);
    if s.emitted.Some? {
      AddDiscussion.SubmittedDiscussion(app.form, |app.page.discussions|, createdAt);
    }
  }

  /** A length-sized id collides with a loaded discussion whose id is not its
      position: the single loaded discussion with id 2 gets a sibling with
      id 2. */
  lemma LengthIdCanCollide(loaded: Discussion, form: AddDiscussion.FormState, createdAt: string)
    requires loaded.id == 2
    requires HasRequiredFields(form.fields.title, form.fields.content) && form.selectedCategory.Some?
    ensures var r := SubmitDiscussion(App(Init([loaded]), true, form), createdAt);
      |r.page.discussions| == 2 && r.page.discussions[0].id == r.page.discussions[1].id
  {
    AddDiscussion.SubmittedDiscussion(form, 1, createdAt);
  }
}
