/** The add-discussion context: one flag saying whether the "create a new
    discussion" form is shown. */
module AddDiscussionView {

  /** The form starts hidden. */
  function Initial(): (shown: bool)
    ensures !shown
  {
    false
  }

  /** `toggleAddDiscussionView`. */
  function Toggle(shown: bool): (r: bool)
    ensures r != shown
  {
    !shown
  }

  /** `closeAddDiscussionView`: hidden afterwards, from either state. */
  function Close(shown: bool): (r: bool)
    ensures !r
  {
    false
  }

  lemma ToggleTwice(shown: bool)
    ensures Toggle(Toggle(shown)) == shown
  {
  }

  lemma CloseIdempotent(shown: bool)
    ensures Close(Close(shown)) == Close(shown)
  {
  }
}
