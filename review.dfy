/**
 * The review generator: one remote completion call. Its answer is an input,
 * `completion`: the text of the first choice, or None when the call raised.
 */
module ReviewGenerator {
  import opened Wrappers

  /** What is returned, and then posted, when the completion call fails. */
  const Fallback := "Sorry, I couldn't generate a review at this time."

  function GenerateReview(completion: Option<string>): string
  {
    match completion
    case Some(text) => text
    case None => Fallback
  }
}
