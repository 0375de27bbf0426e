# Discussion page: a Dafny model of its state logic

The discussion page is a small forum front-end. Users read one discussion
and its comments. They can add comments, start new discussions, upvote
items and bookmark discussions. Almost all of the repository is view
rendering. This project models the state logic buried in its event
handlers and contexts, as pure functions over immutable records:

- the records of `types/index.d.ts`, where a reply is a `Comment`, so the
  comment type is recursive (module `Types`);
- the image-url field normalisation `split(',') → trim → drop empty` shared
  by both forms (module `Text`);
- the upvote button of discussions and comments (modules `Upvote`,
  `CommentView`, `DiscussionView`);
- the bookmark context and the bookmark button (module `Bookmarks`);
- the add-discussion visibility context (module `AddDiscussionView`);
- the comment form of the discussion view: validation, id allocation as
  largest id plus one, comment construction, append and the displayed count
  (module `DiscussionView`);
- the new-discussion form: its category catalog, validation order,
  discussion construction and reset (module `AddDiscussion`);
- the side panel's unique category labels (module `Sidepanel`);
- the home page list and the append handler (module `Home`).

Facts about the code that shape the model:

- Bookmarks are a list of ids with append and filter-out. Only the
  bookmark button keeps duplicates out, by checking membership before it
  adds.
- A new comment's id is `Math.max(...ids) + 1`. On an empty comment list
  that is `-Infinity`, not an integer.
- A new discussion's id is the list length plus one. It can repeat an
  existing id (`Home.LengthIdCanCollide`).
- The comment form works on the discussion view's own comment list.
- The comment built by the form does not set `discussionId`. The model
  makes that field optional and leaves it absent.

## Model

| member | source | states |
|---|---|---|
| Text.Trim | components/Discussion.tsx:62 | trim returns a slice with no whitespace at either end, empty exactly when the input is all whitespace |
| Text.TrimOfPadded | components/Discussion.tsx:62 | trim strips exactly the whitespace padding around a trimmed core and nothing else |
| Text.TrimIdempotent | components/Discussion.tsx:62 | trimming an already trimmed url changes nothing |
| Text.Split | components/Discussion.tsx:62 | split on ',' always gives at least one piece, even for the empty field |
| Text.SplitCommaFree | components/Discussion.tsx:62 | no piece of a split contains a comma |
| Text.SplitNoComma | components/Discussion.tsx:62 | a comma-free field is a single piece |
| Text.JoinSplit | components/Discussion.tsx:62 | joining the pieces of a split with commas gives back the raw field |
| Text.SplitJoin | components/Discussion.tsx:62 | splitting comma-free pieces joined by commas gives back the pieces |
| Text.SplitAtComma | components/Discussion.tsx:62 | the pieces of `a,b` are the pieces of `a` followed by those of `b` |
| Text.TrimEach | components/Discussion.tsx:62 | the map step trims every piece in place and keeps the count |
| Text.DropEmpty | components/Discussion.tsx:62 | the filter step keeps exactly the non-empty entries |
| Text.DropEmptyAppend | components/Discussion.tsx:62 | the filter commutes with concatenation, so kept urls stay in order |
| Text.NormalizeImageUrls | components/Discussion.tsx:62 | every stored url is non-empty, comma-free and trimmed, and there are no more urls than pieces |
| Text.NormalizeSingle | components/AddDiscussion.tsx:56 | a comma-free field stores its trimmed text, or nothing when it is blank |
| Text.NormalizeAtComma | components/AddDiscussion.tsx:56 | normalising `a,b` is normalising `a` then `b`, which with the single-piece case fixes the result for every input |
| Text.NormalizePadded | components/AddDiscussion.tsx:56 | one url padded with whitespace is stored as exactly that url |
| Text.NormalizeDropsBlank | components/AddDiscussion.tsx:56 | a blank piece contributes no url |
| Text.NormalizeKeepsUrl | components/AddDiscussion.tsx:56 | a url piece contributes exactly that url, ahead of the rest |
| Text.NormalizeExample | components/AddDiscussion.tsx:56 | the field "a.jpg, , b.jpg" stores ["a.jpg", "b.jpg"] |
| Upvote.Fresh | components/Comment.tsx:18 | a view starts not upvoted, with the stored count |
| Upvote.Toggle | components/Discussion.tsx:85-92 | a click flips the flag and adds one when it was clear, subtracts one when it was set |
| Upvote.ToggleTwice | components/Discussion.tsx:85-92 | two clicks restore count and flag |
| Upvote.ClicksKeepConsistent | components/Comment.tsx:18-28 | after any number of clicks from a fresh view the count is the stored count plus one exactly while the flag is set, and the flag is set after an odd number of clicks |
| Bookmarks.Initial | context/BookmarkContext.tsx:12 | bookmarks start empty |
| Bookmarks.Add | context/BookmarkContext.tsx:14-16 | the id is appended at the end and earlier entries are unchanged |
| Bookmarks.Remove | context/BookmarkContext.tsx:18-20 | no occurrence of the id remains, every other id keeps its number of occurrences, and membership of other ids is unchanged |
| Bookmarks.RemoveAppend | context/BookmarkContext.tsx:19 | removal distributes over concatenation, so the other ids keep their relative order |
| Bookmarks.RemoveAbsent | context/BookmarkContext.tsx:19 | removing an id that is not present is the identity |
| Bookmarks.RemoveIdempotent | context/BookmarkContext.tsx:19 | removing twice is removing once |
| Bookmarks.AddThenRemove | context/BookmarkContext.tsx:14-20 | adding an absent id and removing it restores the list |
| Bookmarks.Click | components/Discussion.tsx:28-35 | the button makes the id bookmarked exactly when it was not, and leaves every other id's membership alone |
| Bookmarks.RemoveKeepsNoDuplicates | context/BookmarkContext.tsx:18-20 | removal from a list without repeats has no repeats |
| Bookmarks.ClickKeepsNoDuplicates | components/Discussion.tsx:28-35 | the membership-guarded button keeps a list without repeats without repeats |
| Bookmarks.ClickTwice | components/Discussion.tsx:28-35 | two clicks restore the membership of every id, restore the list itself when the id was absent, and move a bookmarked id to the end of the list |
| AddDiscussionView.Initial | context/AddDiscussionContext.tsx:12 | the form starts hidden |
| AddDiscussionView.Toggle | context/AddDiscussionContext.tsx:14-16 | toggling negates the flag |
| AddDiscussionView.Close | context/AddDiscussionContext.tsx:18-20 | closing hides the form from either state |
| AddDiscussionView.ToggleTwice | context/AddDiscussionContext.tsx:14-16 | toggling twice is the identity |
| AddDiscussionView.CloseIdempotent | context/AddDiscussionContext.tsx:18-20 | closing twice is closing once |
| CommentView.Init | components/Comment.tsx:17-18 | a shown comment starts not upvoted |
| CommentView.HasReplies | components/Comment.tsx:19 | the replies button is offered exactly when the reply list is non-empty |
| CommentView.UpvoteClick | components/Comment.tsx:21-28 | not upvoted: count up by one and flag set; upvoted: count down by one and flag cleared; no other field changes |
| CommentView.UpvoteTwice | components/Comment.tsx:21-28 | two clicks restore comment and flag |
| CommentView.UpvoteClicksConsistent | components/Comment.tsx:18-28 | from a fresh view, any number of clicks leaves the count at the stored count plus one while flagged and the rest of the comment untouched |
| DiscussionView.Init | components/Discussion.tsx:18-26 | the view mounts with the given comments, a displayed count equal to their number, an empty hidden form, no error and no upvote |
| DiscussionView.MaxId | components/Discussion.tsx:60 | `Math.max` of a non-empty id list is one of the ids and at least every id |
| DiscussionView.NextCommentId | components/Discussion.tsx:60 | the new id exceeds every existing comment id and is one more than some existing id |
| DiscussionView.EditForm | components/Discussion.tsx:46-49 | typing sets the named field and nothing else |
| DiscussionView.AddCommentClick | components/Discussion.tsx:37-44 | the button flips form visibility and clears the form when hiding it |
| DiscussionView.NewComment | components/Discussion.tsx:59-75 | the built comment's id is the largest existing id plus one, so above all existing ids; it has the form's content, normalised urls, zero counters, the discussion's category, the current user, the given timestamp, no replies and no discussionId |
| DiscussionView.SubmitComment | components/Discussion.tsx:51-83 | empty title or content only sets the required-fields error; otherwise exactly one comment is appended after the unchanged earlier ones, the count rises by one, and the form is cleared, hidden and error-free |
| DiscussionView.SubmittedComment | components/Discussion.tsx:59-77 | the appended comment's id is the largest earlier id plus one; it has no discussionId, the form's content, the normalised (so well-formed) urls, zero counters, the inherited category, the current user, the given timestamp and no replies |
| DiscussionView.SubmitKeepsCountInStep | components/Discussion.tsx:77-78 | a submission keeps the displayed count equal to the comment list length |
| DiscussionView.SubmitKeepsDistinctIds | components/Discussion.tsx:60-77 | a submission keeps comment ids pairwise distinct |
| DiscussionView.UpvoteClick | components/Discussion.tsx:85-92 | the discussion's count moves by one in the direction the flag gives, the flag flips, nothing else changes |
| DiscussionView.UpvoteTwice | components/Discussion.tsx:85-92 | two clicks restore the view |
| DiscussionView.Run | components/Discussion.tsx:51-83 | over any enabled sequence of events the comment list only grows and its earlier comments stay in place |
| DiscussionView.NonEmptyRunEnabled | components/Discussion.tsx:51-83 | once a comment exists, every sequence of edits, toggles, submissions and upvotes can be run |
| DiscussionView.RunKeepsInvariant | components/Discussion.tsx:18-92 | over any enabled sequence of edits, form toggles, submissions and upvotes, including runs on an empty list without a valid submission, the count stays equal to the list length, ids stay distinct and the upvote count stays the stored one plus the flag |
| DiscussionView.InitInvariant | components/Discussion.tsx:18-26 | the mounted view satisfies that invariant when the loaded ids are distinct |
| AddDiscussion.Catalog | components/AddDiscussion.tsx:13-22 | exactly 8 categories, numbered 1 to 8 in order, with distinct labels |
| AddDiscussion.Initial | components/AddDiscussion.tsx:25-27 | the form mounts empty, without error or category |
| AddDiscussion.EditField | components/AddDiscussion.tsx:30-33 | typing sets the named field and nothing else |
| AddDiscussion.SelectCategory | components/AddDiscussion.tsx:35-37 | clicking a chip selects that category and changes nothing else |
| AddDiscussion.Submit | components/AddDiscussion.tsx:39-77 | empty title or content is rejected with the required-fields message before the category is looked at; a missing category is rejected with the select-a-category message; rejection emits nothing and changes only the error; success resets the form, error and selection |
| AddDiscussion.SubmitAcceptsIff | components/AddDiscussion.tsx:42-50 | a discussion is emitted exactly when title and content are non-empty and a category is selected |
| AddDiscussion.SubmittedDiscussion | components/AddDiscussion.tsx:52-69 | the emitted discussion has id length plus one, copied title and content, well-formed urls, zero counters, no comments, the selected category and the current user |
| Sidepanel.Labels | components/Sidepanel.tsx:12 | one label per discussion, in order |
| Sidepanel.Unique | components/Sidepanel.tsx:13 | the `Set` round trip has no repeats, holds exactly the input values, and lists them in order of first occurrence |
| Sidepanel.UniqueLabels | components/Sidepanel.tsx:11-14 | the panel lists each category label of the input discussions once, no other label, in the order of first occurrence |
| Sidepanel.SingleDiscussion | components/Sidepanel.tsx:12-13 | for its declared `discussion` prop, the panel lists exactly that discussion's category label |
| Home.Init | pages/index.tsx:13-14 | the page starts with the loaded discussions and no selected category |
| Home.HandleAddDiscussion | pages/index.tsx:16-18 | the list grows by one, the new discussion is last, and earlier discussions and the filter are unchanged |
| Home.SubmitDiscussion | components/AddDiscussion.tsx:71-72 | an accepted form appends its discussion to the page and closes the form view; a rejected one leaves page and view as they were |
| Home.SubmitKeepsPositionalIds | components/AddDiscussion.tsx:53 | if every id is its 1-based position, it stays so after a submission |
| Home.LengthIdCanCollide | components/AddDiscussion.tsx:53 | a loaded discussion whose id is not its position can share its id with the next new discussion |

## Left out

- Data loading (`getServerSideProps` in pages/index.tsx and the API route in
  pages/api/data.tsx) is network and JSON I/O. `Home.Init` takes the loaded
  list as a parameter.
- All rendering, layout and widgets are presentation only. This covers
  components/Gallery.tsx, Header.tsx and Footer.tsx, pages/_app.tsx and
  next.config.js.
- Date formatting (utils/dateUtils.ts) depends on `Date` parsing and the
  local time zone.
- The creation timestamp `new Date().toISOString()` is a `createdAt`
  parameter. The fixed placeholder author is the constant `CurrentUser`.
- The collapse flags `open` in the discussion and comment views only show or
  hide content.
- The context hooks throw outside their provider. That is wiring, not state
  logic.
- JavaScript numbers are modelled as unbounded integers. Floating point,
  `NaN` and infinities are not modelled.
- DiscussionView.SubmitComment: a valid submission on an empty comment list
  is excluded by its precondition. There `Math.max()` is `-Infinity`, so
  the code builds a comment whose id is not an integer.
- DiscussionView.NextCommentId: requires a non-empty list for the same
  reason.
- DiscussionView.MaxId: requires a non-empty list for the same reason.
- DiscussionView.NewComment: requires a non-empty list for the same reason.
- DiscussionView.RunKeepsInvariant: covers only runs in which no valid
  form is submitted while the comment list is empty. In the code such a
  submission gets the id `Math.max() + 1`, which is `-Infinity`
  (components/Discussion.tsx:60). A second such submission repeats that
  id, so the code's comment ids stop being distinct.
- Text.Trim: strips only ASCII space, tab, line feed, vertical tab, form
  feed and carriage return. JavaScript `trim` also strips other Unicode
  space characters.
- DiscussionView and Sidepanel model the components against their
  declared `discussion` prop (components/Discussion.tsx:13,
  components/Sidepanel.tsx:7-12). pages/index.tsx:24-34 never passes that
  prop; it passes `discussions` instead. As mounted there, both components
  read fields of `undefined`.
- The required-fields rejection in DiscussionView.SubmitComment and
  AddDiscussion.Submit models the handlers themselves. The title and
  content inputs also carry the `required` attribute
  (components/Discussion.tsx:167,179, components/AddDiscussion.tsx:92,104).
  In a browser the handlers' rejection branch runs only when that
  constraint check is bypassed. Browser form validation is not modelled.
- The upvote handlers change `upvoteCount` on the shared discussion or
  comment object in place. The model returns a new value inside the view,
  so aliasing with other holders of the object is not modelled.
- pages/index.tsx:29-34 passes `discussions`, `onAddDiscussion` and
  `selectedCategory` props that the components do not declare. Nothing in
  the code changes `selectedCategory` or mounts the add-discussion form.
  `Home.SubmitDiscussion` assumes the form receives the page's list length
  and reports to `handleAddDiscussion`.
