/**
 * The input guard that runs before either matcher (validate_inputs).
 * It checks, in this order: both strings non-empty, the pattern no longer
 * than the text, and the text no longer than MAX_TEXT_LENGTH characters.
 */
module Validation {
  import opened Wrappers

  /** Largest text the demo accepts, in characters. */
  const MAX_TEXT_LENGTH: nat := 20000

  /** A validated pair of inputs; the guard returns the inputs unchanged. */
  datatype Request = Request(text: string, pattern: string)

  /** The three messages the guard can raise, one constructor per message. */
  datatype ValidationError =
    | EmptyInput              // "Text and Pattern cannot be empty."
    | PatternLongerThanText   // "Pattern cannot be longer than text."
    | TextTooLarge            // "Text too large for interactive demo (max 20,000 chars)."

  /** The invariant every accepted request satisfies: 1 <= |pattern| <= |text| <= 20000. */
  predicate WellFormed(text: string, pattern: string) {
    1 <= |pattern| <= |text| <= MAX_TEXT_LENGTH
  }

  function Validate(text: string, pattern: string): (r: Result<Request, ValidationError>)
    // accepted exactly when the request invariant holds, and then unchanged
    ensures r.Ok? <==> WellFormed(text, pattern)
    ensures r.Ok? ==> r.value == Request(text, pattern)
    // which message is raised, with the emptiness check taking precedence
    ensures r == Err(EmptyInput) <==> text == [] || pattern == []
    ensures r == Err(PatternLongerThanText) <==> text != [] && pattern != [] && |pattern| > |text|
    ensures r == Err(TextTooLarge) <==>
      text != [] && pattern != [] && |pattern| <= |text| && |text| > MAX_TEXT_LENGTH
  {
    if text == [] || pattern == [] then Err(EmptyInput)
    else if |pattern| > |text| then Err(PatternLongerThanText)
    else if |text| > MAX_TEXT_LENGTH then Err(TextTooLarge)
    else Ok(Request(text, pattern))
  }

  /** The length bound is inclusive: a text of exactly 20000 characters passes, one more fails. */
  lemma LengthBoundary(text: string, pattern: string)
    requires 1 <= |pattern| <= |text|
    ensures |text| == MAX_TEXT_LENGTH ==> Validate(text, pattern) == Ok(Request(text, pattern))
    ensures |text| == MAX_TEXT_LENGTH + 1 ==> Validate(text, pattern) == Err(TextTooLarge)
  {
  }
}
