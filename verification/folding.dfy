/**
 * A large invariant `I` is stated as `forall u {:trigger Unfold(u)} | Unfold(u) :: Parts`. The verifier then carries
 * `I` from step to step as one fact and looks inside only where `Unfold` is mentioned or `I` itself is to be proved.
 */
module Folding {
  ghost predicate Unfold(u: bool) {
    true
  }

  /** For a second invariant that is looked into on its own. */
  ghost predicate UnfoldAgain(u: bool) {
    true
  }
}
