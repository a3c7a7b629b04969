/** The record shape shared by the counter store and the pages (client/src/lib/types.ts). */
module Types {

  /** One tasbih counter: an opaque id, a label, the target count and the
      progress made so far. JavaScript numbers are modelled as integers. */
  datatype Counter = Counter(id: string, title: string, count: int, current: int)

  /** The one failure the store raises: `Error("Counter not found")`. */
  datatype StoreError = NotFound

  datatype Option<T> = None | Some(value: T)

  /** The outcome of a store call that may throw. */
  datatype Result<T> = Ok(value: T) | Err(error: StoreError)

  /** The progress invariant `0 <= current <= count`. */
  predicate InRange(c: Counter)
  {
    0 <= c.current <= c.count
  }

  /** A record the forms could have produced and the tap rule kept: a
      non-empty title, a target of at least one and progress in range. */
  predicate WellFormed(c: Counter)
  {
    |c.title| >= 1 && c.count >= 1 && InRange(c)
  }
}
