/** The live counter page of client/src/pages/counter.jsx: the tap handler
    `increment`, the restart handler `resetCounter` and the `showComplete`
    flag that opens the congratulations dialog, layered over the store.
    The store call goes through `useUpdateCounter`, which only forwards to
    `updateCounter`. */
module CounterPage {
  import opened Types
  import opened Storage

  /** A tap writes only while the target has not been reached. */
  predicate CanTap(c: Counter)
  {
    c.current < c.count
  }

  /** The record a tap leaves behind: only `current` may change, by at most
      one, and never past `count`. */
  function Tapped(c: Counter): (r: Counter)
    ensures r.id == c.id && r.title == c.title && r.count == c.count
    ensures r.current == c.current || r.current == c.current + 1
    ensures InRange(c) ==> InRange(r)
  {
    if CanTap(c) then c.(current := c.current + 1) else c
  }

  /** A tap opens the dialog: it wrote, and the record it stored has reached
      its target. */
  predicate Signals(c: Counter): (b: bool)
    ensures b <==> c.current + 1 == c.count
  {
    CanTap(c) && Tapped(c).current == Tapped(c).count
  }

  /** The record after `n` taps on the page. */
  function AfterTaps(c: Counter, n: nat): (r: Counter)
    ensures r.id == c.id && r.title == c.title && r.count == c.count
    ensures c.current <= r.current
    decreases n
  {
    if n == 0 then c else AfterTaps(Tapped(c), n - 1)
  }

  function Min(a: int, b: int): int
  {
    if a <= b then a else b
  }

  /** From a record not past its target, `n` taps raise `current` by `n`
      but never beyond `count`. */
  lemma {:induction false} AfterTapsProgress(c: Counter, n: nat)
    requires c.current <= c.count
    ensures AfterTaps(c, n) == c.(current := Min(c.current + n, c.count))
    decreases n
  {
    if n > 0 {
      AfterTapsProgress(Tapped(c), n - 1);
    }
  }

  /** The `k`-th tap opens the dialog exactly when it is the tap that brings
      `current` up to `count`, and at no other tap. */
  lemma {:induction false} SignalsExactlyAtTarget(c: Counter, k: nat)
    requires c.current <= c.count && k >= 1
    ensures Signals(AfterTaps(c, k - 1)) <==> c.current + k == c.count
  {
    AfterTapsProgress(c, k - 1);
  }

  /** From a fresh record (current 0), exactly `count` taps complete it: the
      dialog opens on tap number `count` and on no other. */
  lemma {:induction false} FreshCounterCompletesAtCount(c: Counter, k: nat)
    requires c.current == 0 && c.count >= 1 && k >= 1
    ensures Signals(AfterTaps(c, k - 1)) <==> k == c.count
    ensures AfterTaps(c, c.count).current == c.count
  {
    SignalsExactlyAtTarget(c, k);
    AfterTapsProgress(c, c.count);
  }

  /** Once the target is reached, further taps change nothing. */
  lemma {:induction false} TapsPastTargetChangeNothing(c: Counter, n: nat, m: nat)
    requires c.current <= c.count && c.current + n >= c.count
    ensures AfterTaps(c, n + m) == AfterTaps(c, n)
    ensures AfterTaps(c, n).current == c.count && !CanTap(AfterTaps(c, n))
  {
    AfterTapsProgress(c, n);
    AfterTapsProgress(c, n + m);
  }

  /** A record at or above its target (an edit may shrink `count` below
      `current`) is never changed by taps and never opens the dialog. */
  lemma {:induction false} StuckAtOrAboveTarget(c: Counter, n: nat)
    requires c.current >= c.count
    ensures AfterTaps(c, n) == c && !Signals(AfterTaps(c, n))
    decreases n
  {
    if n > 0 {
      StuckAtOrAboveTarget(Tapped(c), n - 1);
    }
  }

  /** The page for the route `/Counter/:id`. */
  class Page {

    /** The counter store the page reads and writes. */
    const store: CounterStore

    /** The `:id` route parameter. */
    const id: string

    /** The `showComplete` state: the congratulations dialog is open. */
    var showComplete: bool

    ghost predicate Valid()
      reads this, store
    {
      store.Valid()
    }

    /** The record the page shows: the first one carrying the route id.
        When there is none, the page redirects home and renders nothing. */
    function Current(): (r: Option<Counter>)
      reads this, store
      ensures r.Some? ==> r.value.id == id && r.value in store.counters
      ensures r.None? <==> !HasId(store.counters, id)
    {
      Find(store.counters, id)
    }

    /** The page mounts with the dialog closed. */
    constructor (store: CounterStore, id: string)
      requires store.Valid()
      ensures this.store == store && this.id == id
      ensures !showComplete && Valid()
    {
      this.store := store;
      this.id := id;
      showComplete := false;
    }

    /** `increment`: a tap. Without a record, or once `current >= count`,
        nothing is written. Otherwise `current + 1` is written for the
        record's id, and when the stored record then has `current == count`
        the dialog opens (`celebrated` stands for that and the confetti). */
    method Increment() returns (celebrated: bool)
      requires Valid()
      modifies this, store
      ensures Valid()
      ensures var before := old(Current());
              if before.Some? && CanTap(before.value) then
                && store.counters == ReplaceById(old(store.counters), id, Tapped(before.value))
                && celebrated == Signals(before.value)
              else
                && store.counters == old(store.counters)
                && store.persisted == old(store.persisted)
                && !celebrated
      ensures old(Current()).Some? ==> Current() == Some(Tapped(old(Current()).value))
      ensures showComplete == (old(showComplete) || celebrated)
      ensures AllWellFormed(old(store.counters)) ==> AllWellFormed(store.counters)
    {
      var counters := store.GetCounters();
      var counter := Find(counters, id);
      if counter.None? || counter.value.current >= counter.value.count {
        return false;
      }
      var c := counter.value;
      var updated := c.(current := c.current + 1);
      assert updated == Tapped(c) && c.id == id && HasId(counters, id);
      var result := store.UpdateCounter(c.id, c.current + 1);
      assert result == Ok(updated) && store.counters == ReplaceById(counters, id, updated);
      if AllWellFormed(counters) {
        FoundIsWellFormed(counters, id);
        ReplaceKeepsWellFormed(counters, id, Tapped(c));
      }
      celebrated := false;
      if result.Ok? && result.value.current == result.value.count {
        showComplete := true;
        celebrated := true;
      }
    }

    /** `resetCounter`: the restart button. With a record, `current` is set
        to 0 and the dialog closes; without one, nothing happens. */
    method ResetCounter()
      requires Valid()
      modifies this, store
      ensures Valid()
      ensures var before := old(Current());
              if before.Some? then
                && store.counters == ReplaceById(old(store.counters), id, before.value.(current := 0))
                && Current() == Some(before.value.(current := 0))
                && !showComplete
              else
                && store.counters == old(store.counters)
                && store.persisted == old(store.persisted)
                && showComplete == old(showComplete)
      ensures AllWellFormed(old(store.counters)) ==> AllWellFormed(store.counters)
    {
      var counters := store.GetCounters();
      var counter := Find(counters, id);
      if counter.None? {
        return;
      }
      var c := counter.value;
      var result := store.UpdateCounter(c.id, 0);
      if AllWellFormed(counters) {
        FoundIsWellFormed(counters, id);
        ReplaceKeepsWellFormed(counters, id, c.(current := 0));
      }
      if result.Ok? {
        showComplete := false;
      }
    }
  }

  /** When every record is well formed, so is the one `find` returns. */
  lemma FoundIsWellFormed(cs: seq<Counter>, id: string)
    requires AllWellFormed(cs) && HasId(cs, id)
    ensures WellFormed(Find(cs, id).value)
  {
    var k := FindIndex(cs, id);
    assert WellFormed(cs[k]);
  }
}
