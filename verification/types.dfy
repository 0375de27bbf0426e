/** The records of the forum: users, categories, discussions and comments.
    The forum's numbers are JavaScript numbers; every one used here is an
    integer, so they are `int`. */
module Types {

  datatype Option<T> = None | Some(value: T)

  datatype User = User(id: int, imageUrl: string, nickName: string, skinType: string)

  /** A category; its `label` field is called `text` here because `label`
      is a Dafny keyword. */
  datatype Category = Category(id: int, text: string)

  /** A comment; a reply is a comment too, so `replies` makes the type
      recursive. `discussionId` is absent on comments created by the comment
      form, which does not set it. */
  datatype Comment = Comment(
    id: int,
    discussionId: Option<int>,
    content: string,
    imageUrls: seq<string>,
    viewCount: int,
    upvoteCount: int,
    commentCount: int,
    category: Category,
    user: User,
    createdAt: string,
    replies: seq<Comment>)

  /** A discussion; `discussionId` is an optional field of the record that
      neither form sets. */
  datatype Discussion = Discussion(
    id: int,
    title: string,
    content: string,
    imageUrls: seq<string>,
    viewCount: int,
    upvoteCount: int,
    commentCount: int,
    category: Category,
    user: User,
    createdAt: string,
    comments: seq<Comment>,
    discussionId: Option<int>)

  /** The fixed author attached to everything created in this session. */
  const CurrentUser: User :=
    User(44, "https://picky-app.s3-ap-southeast-1.amazonaws.com/users/44444.202141131010.jpg",
         "Squad Current User", "Smooth")

  /** Both forms reject a submission whose title or content is the empty
      string (the only falsy string); whitespace-only text passes. */
  predicate HasRequiredFields(title: string, content: string) {
    title != "" && content != ""
  }

  const RequiredFieldsMessage: string := "Title and Content are required fields."

  /** The identifiers in `xs` are pairwise distinct. */
  predicate NoDuplicates<T(==)>(xs: seq<T>) {
    forall i, j | 0 <= i < j < |xs| :: xs[i] != xs[j]
  }
}
