/** The caller-side input rules of the create and edit forms. The store
    itself accepts any title and count; these rules are what the UI checks
    before calling it. */
module Validation {
  import opened Types

  /** Upper bound on a target count in the edit form. */
  const MaxEditCount: int := 10000

  /** The create form: a non-empty title and a count of at least 1. Exactly
      these inputs give a well-formed fresh record (whatever its id). */
  predicate CreateFormValid(title: string, count: int): (b: bool)
    ensures b <==> WellFormed(Counter("", title, count, 0))
  {
    |title| >= 1 && count >= 1
  }

  /** The edit form: a non-empty title and 1 <= count <= 10000; it is the
      create rule plus the upper bound. */
  predicate EditFormValid(title: string, count: int): (b: bool)
    ensures b <==> CreateFormValid(title, count) && count <= MaxEditCount
  {
    |title| >= 1 && 1 <= count <= MaxEditCount
  }
}
