/** The "create a new discussion" form: the fixed category catalog, the
    form state, and the submit handler that validates, builds the discussion
    and resets the form. */
module AddDiscussion {
  import opened Types
  import opened Text

  const CategoryRequiredMessage: string := "Please select a category."

  /** The eight selectable categories, numbered 1 to 8 in display order. */
  function Catalog(): (cs: seq<Category>)
    ensures |cs| == 8
    ensures forall k | 0 <= k < |cs| :: cs[k].id == k + 1
    ensures forall i, j | 0 <= i < j < |cs| :: cs[i].text != cs[j].text
  {
    [ Category(1, "Skin Concern"),
      Category(2, "Product Review"),
      Category(3, "Routine Help"),
      Category(4, "Makeup Help"),
      Category(5, "Product Info"),
      Category(6, "Brand Talk"),
      Category(7, "Rewards & Events"),
      Category(8, "Other") ]
  }

  datatype DiscussionForm = DiscussionForm(title: string, content: string, imageUrls: string)

  const EmptyForm: DiscussionForm := DiscussionForm("", "", "")

  datatype Field = Title | Content | ImageUrls

  datatype FormState = FormState(
    fields: DiscussionForm,
    validationError: Option<string>,
    selectedCategory: Option<Category>)

  /** The form mounts empty, without error and without a category. */
  function Initial(): (s: FormState)
    ensures s.fields == EmptyForm && s.validationError == None && s.selectedCategory == None
  {
    FormState(EmptyForm, None, None)
  }

  /** `handleInputChange`: one field takes the typed value. */
  function EditField(s: FormState, field: Field, value: string): (r: FormState)
    ensures r == s.(fields := r.fields)
    ensures r.fields.title == (if field == Title then value else s.fields.title)
    ensures r.fields.content == (if field == Content then value else s.fields.content)
    ensures r.fields.imageUrls == (if field == ImageUrls then value else s.fields.imageUrls)
  {
    match field
    case Title => s.(fields := s.fields.(title := value))
    case Content => s.(fields := s.fields.(content := value))
    case ImageUrls => s.(fields := s.fields.(imageUrls := value))
  }

  /** `handleCategorySelect`: the chip clicked becomes the selection. */
  function SelectCategory(s: FormState, c: Category): (r: FormState)
    ensures r.selectedCategory == Some(c)
    ensures r == s.(selectedCategory := r.selectedCategory)
  {
    s.(selectedCategory := Some(c))
  }

  /** The result of a submission: the next form state and, on success, the
      discussion handed to `onAddDiscussion`. */
  datatype Submission = Submission(state: FormState, emitted: Option<Discussion>)

  /** `handleFormSubmit`. Title and content are checked first, then the
      category; a rejected submission only sets the error message. An
      accepted one emits a discussion numbered `discussionsLength + 1` and
      resets the form. */
  function Submit(s: FormState, discussionsLength: int, createdAt: string): (r: Submission)
    ensures !HasRequiredFields(s.fields.title, s.fields.content) ==>
      r == Submission(s.(validationError := Some(RequiredFieldsMessage)), None)
    ensures HasRequiredFields(s.fields.title, s.fields.content) && s.selectedCategory == None ==>
      r == Submission(s.(validationError := Some(CategoryRequiredMessage)), None)
    ensures r.emitted.Some? ==> r.state == Initial()
  {
    if !HasRequiredFields(s.fields.title, s.fields.content) then
      Submission(s.(validationError := Some(RequiredFieldsMessage)), None)
    else if s.selectedCategory == None then
      Submission(s.(validationError := Some(CategoryRequiredMessage)), None)
    else
      var d := Discussion(
        discussionsLength + 1, s.fields.title, s.fields.content,
        NormalizeImageUrls(s.fields.imageUrls), 0, 0, 0,
        s.selectedCategory.value, CurrentUser, createdAt, [], None);
      Submission(Initial(), Some(d))
  }

  /** A discussion is emitted exactly when title and content are non-empty
      and a category is selected. */
  lemma SubmitAcceptsIff(s: FormState, discussionsLength: int, createdAt: string)
    ensures Submit(s, discussionsLength, createdAt).emitted.Some?
        <==> HasRequiredFields(s.fields.title, s.fields.content) && s.selectedCategory.Some?
  {
  }

  /** The emitted discussion: id `discussionsLength + 1`, title and content
      copied, well-formed image urls, zero counters, no comments, the selected
      category, the current user. */
  lemma SubmittedDiscussion(s: FormState, discussionsLength: int, createdAt: string)
    requires Submit(s, discussionsLength, createdAt).emitted.Some?
    ensures var d := Submit(s, discussionsLength, createdAt).emitted.value;
      && d.id == discussionsLength + 1
      && d.title == s.fields.title && d.content == s.fields.content
      && WellFormedUrls(d.imageUrls)
      && d.imageUrls == NormalizeImageUrls(s.fields.imageUrls)
      && d.viewCount == 0 && d.upvoteCount == 0 && d.commentCount == 0
      && d.comments == []
      && Some(d.category) == s.selectedCategory
      && d.user == CurrentUser && d.createdAt == createdAt
  {
  }
}
