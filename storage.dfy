/** The counter store of client/src/lib/storage.ts: an ordered list of
    counters held in memory and written through to local storage after
    every mutation. The list operations the store builds its new lists
    with (`find`, `map`, `filter`) are the functions below; the store
    itself is the class `CounterStore`. */
module Storage {
  import opened Types
  import opened Validation

  /** Some record in `cs` carries `id`. */
  predicate HasId(cs: seq<Counter>, id: string)
  {
    exists i :: 0 <= i < |cs| && cs[i].id == id
  }

  /** No two records share an id. The store does not enforce this: ids are
      random strings chosen by the caller of `createCounter`. */
  predicate UniqueIds(cs: seq<Counter>)
  {
    forall i, j :: 0 <= i < j < |cs| ==> cs[i].id != cs[j].id
  }

  /** The ids of the list, in order. */
  function Ids(cs: seq<Counter>): seq<string>
  {
    seq(|cs|, i requires 0 <= i < |cs| => cs[i].id)
  }

  /** Every record of the list is well formed. */
  predicate AllWellFormed(cs: seq<Counter>)
  {
    forall i :: 0 <= i < |cs| ==> WellFormed(cs[i])
  }

  /** `counters.find((c) => c.id === id)`: the first record carrying `id`. */
  function Find(cs: seq<Counter>, id: string): (r: Option<Counter>)
    ensures r.None? <==> !HasId(cs, id)
    ensures r.Some? ==> r.value.id == id && r.value in cs
  {
    if cs == [] then None
    else if cs[0].id == id then Some(cs[0])
    else
      assert HasId(cs, id) ==> HasId(cs[1..], id) by {
        if HasId(cs, id) {
          var i :| 0 <= i < |cs| && cs[i].id == id;
          assert cs[1..][i - 1].id == id;
        }
      }
      Find(cs[1..], id)
  }

  /** The record `find` returns sits at the first position carrying `id`. */
  lemma {:induction false} FindIndex(cs: seq<Counter>, id: string) returns (k: nat)
    requires HasId(cs, id)
    ensures k < |cs| && Find(cs, id) == Some(cs[k])
    ensures forall j :: 0 <= j < k ==> cs[j].id != id
  {
    if cs[0].id == id {
      k := 0;
    } else {
      assert HasId(cs[1..], id) by {
        var i :| 0 <= i < |cs| && cs[i].id == id;
        assert cs[1..][i - 1].id == id;
      }
      var k' := FindIndex(cs[1..], id);
      k := k' + 1;
      assert cs[1..][k'] == cs[k];
      forall j | 0 <= j < k
        ensures cs[j].id != id
      {
        if j > 0 {
          assert cs[1..][j - 1] == cs[j];
        }
      }
    }
  }

  /** `counters.map((c) => (c.id === id ? updated : c))`: every record
      carrying `id` becomes `u`; every other record stays where it was. */
  function ReplaceById(cs: seq<Counter>, id: string, u: Counter): (r: seq<Counter>)
    ensures |r| == |cs|
    ensures forall i :: 0 <= i < |cs| && cs[i].id == id ==> r[i] == u
    ensures forall i :: 0 <= i < |cs| && cs[i].id != id ==> r[i] == cs[i]
  {
    if cs == [] then []
    else [if cs[0].id == id then u else cs[0]] + ReplaceById(cs[1..], id, u)
  }

  /** `counters.filter((c) => c.id !== id)`: the records not carrying `id`. */
  function RemoveById(cs: seq<Counter>, id: string): (r: seq<Counter>)
    ensures |r| <= |cs|
    ensures forall c :: c in r <==> c in cs && c.id != id
    ensures !HasId(r, id)
  {
    if cs == [] then []
    else (if cs[0].id == id then [] else [cs[0]]) + RemoveById(cs[1..], id)
  }

  /** The record found is the first one carrying `id`, whatever follows it. */
  lemma {:induction false} FindFirst(cs: seq<Counter>, id: string, k: nat)
    requires k < |cs| && cs[k].id == id
    requires forall j :: 0 <= j < k ==> cs[j].id != id
    ensures Find(cs, id) == Some(cs[k])
  {
    if k > 0 {
      FindFirst(cs[1..], id, k - 1);
    }
  }

  /** With unique ids, `find` returns the one record carrying the id. */
  lemma {:induction false} FindUnique(cs: seq<Counter>, id: string, k: nat)
    requires UniqueIds(cs)
    requires k < |cs| && cs[k].id == id
    ensures Find(cs, id) == Some(cs[k])
  {
    FindFirst(cs, id, k);
  }

  /** After replacing the records carrying `id` by `u` (which keeps the id),
      `find` returns `u`. */
  lemma {:induction false} FindAfterReplace(cs: seq<Counter>, id: string, u: Counter)
    requires HasId(cs, id) && u.id == id
    ensures Find(ReplaceById(cs, id, u), id) == Some(u)
  {
    var r := ReplaceById(cs, id, u);
    var k := FindIndex(cs, id);
    assert cs[k].id == id;
    assert r[k] == u;
    assert forall j :: 0 <= j < k ==> r[j] == cs[j];
    FindFirst(r, id, k);
  }

  /** Replacing by a record with the same id keeps the ids and their order. */
  lemma {:induction false} ReplaceKeepsIds(cs: seq<Counter>, id: string, u: Counter)
    requires u.id == id
    ensures Ids(ReplaceById(cs, id, u)) == Ids(cs)
  {
  }

  /** With unique ids, replacing touches exactly one position. */
  lemma {:induction false} ReplaceUnique(cs: seq<Counter>, id: string, u: Counter, k: nat)
    requires UniqueIds(cs)
    requires k < |cs| && cs[k].id == id
    ensures ReplaceById(cs, id, u) == cs[k := u]
  {
    var r := ReplaceById(cs, id, u);
    forall i | 0 <= i < |cs|
      ensures r[i] == cs[k := u][i]
    {
      if i != k {
        assert cs[i].id != id;
      }
    }
  }

  /** An id that is absent leaves `map` without effect. */
  lemma {:induction false} ReplaceAbsent(cs: seq<Counter>, id: string, u: Counter)
    requires !HasId(cs, id)
    ensures ReplaceById(cs, id, u) == cs
  {
    var r := ReplaceById(cs, id, u);
    forall i | 0 <= i < |cs|
      ensures r[i] == cs[i]
    {
      assert cs[i].id != id;
    }
  }

  /** Replacing by a record with the same id keeps ids unique. */
  lemma {:induction false} ReplaceKeepsUnique(cs: seq<Counter>, id: string, u: Counter)
    requires UniqueIds(cs) && u.id == id
    ensures UniqueIds(ReplaceById(cs, id, u))
  {
    ReplaceKeepsIds(cs, id, u);
    var r := ReplaceById(cs, id, u);
    forall i, j | 0 <= i < j < |r|
      ensures r[i].id != r[j].id
    {
      assert Ids(r)[i] == Ids(cs)[i] && Ids(r)[j] == Ids(cs)[j];
    }
  }

  /** Replacing by a well-formed record keeps every record well formed. */
  lemma {:induction false} ReplaceKeepsWellFormed(cs: seq<Counter>, id: string, u: Counter)
    requires AllWellFormed(cs) && WellFormed(u)
    ensures AllWellFormed(ReplaceById(cs, id, u))
  {
    var r := ReplaceById(cs, id, u);
    forall i | 0 <= i < |r|
      ensures WellFormed(r[i])
    {
      if cs[i].id != id {
        assert WellFormed(cs[i]);
      }
    }
  }

  /** `filter` works record by record, so it keeps the order of what remains. */
  lemma {:induction false} RemoveDistributes(a: seq<Counter>, b: seq<Counter>, id: string)
    ensures RemoveById(a + b, id) == RemoveById(a, id) + RemoveById(b, id)
  {
    if a == [] {
      assert a + b == b;
    } else {
      assert (a + b)[0] == a[0];
      assert (a + b)[1..] == a[1..] + b;
      RemoveDistributes(a[1..], b, id);
    }
  }

  /** An id that is absent leaves `filter` without effect. */
  lemma {:induction false} RemoveAbsent(cs: seq<Counter>, id: string)
    requires !HasId(cs, id)
    ensures RemoveById(cs, id) == cs
  {
    if cs != [] {
      assert cs[0].id != id;
      assert !HasId(cs[1..], id) by {
        forall i | 0 <= i < |cs[1..]|
          ensures cs[1..][i].id != id
        {
          assert cs[1..][i] == cs[i + 1];
        }
      }
      RemoveAbsent(cs[1..], id);
    }
  }

  /** When position `k` holds the only record carrying `id`, deleting that
      id removes exactly position `k` and keeps the rest in order. */
  lemma {:induction false} RemoveOnly(cs: seq<Counter>, id: string, k: nat)
    requires k < |cs| && cs[k].id == id
    requires !HasId(cs[..k], id) && !HasId(cs[k + 1..], id)
    ensures RemoveById(cs, id) == cs[..k] + cs[k + 1..]
  {
    var before, after := cs[..k], cs[k + 1..];
    var rest := [cs[k]] + after;
    assert cs == before + rest;
    RemoveAbsent(before, id);
    RemoveAbsent(after, id);
    assert RemoveById([cs[k]], id) == [] by {
      assert [cs[k]][1..] == [];
    }
    RemoveDistributes(before, rest, id);
    assert RemoveById(cs, id) == before + RemoveById(rest, id);
    RemoveDistributes([cs[k]], after, id);
    assert RemoveById(rest, id) == after;
  }

  /** With unique ids, deleting a present id removes exactly that record
      and keeps the others in their order. */
  lemma {:induction false} RemoveUnique(cs: seq<Counter>, id: string, k: nat)
    requires UniqueIds(cs)
    requires k < |cs| && cs[k].id == id
    ensures RemoveById(cs, id) == cs[..k] + cs[k + 1..]
  {
    var before, after := cs[..k], cs[k + 1..];
    assert !HasId(before, id) by {
      forall i | 0 <= i < |before|
        ensures before[i].id != id
      {
        assert before[i] == cs[i];
      }
    }
    assert !HasId(after, id) by {
      forall i | 0 <= i < |after|
        ensures after[i].id != id
      {
        assert after[i] == cs[k + 1 + i];
      }
    }
    RemoveOnly(cs, id, k);
  }

  /** Deleting twice is the same as deleting once. */
  lemma {:induction false} RemoveIdempotent(cs: seq<Counter>, id: string)
    ensures RemoveById(RemoveById(cs, id), id) == RemoveById(cs, id)
  {
    RemoveAbsent(RemoveById(cs, id), id);
  }

  /** Deleting keeps ids unique. */
  lemma {:induction false} RemoveKeepsUnique(cs: seq<Counter>, id: string)
    requires UniqueIds(cs)
    ensures UniqueIds(RemoveById(cs, id))
  {
    if cs != [] {
      var tail := cs[1..];
      assert UniqueIds(tail) by {
        forall i, j | 0 <= i < j < |tail|
          ensures tail[i].id != tail[j].id
        {
          assert tail[i] == cs[i + 1] && tail[j] == cs[j + 1];
        }
      }
      RemoveKeepsUnique(tail, id);
      var rest := RemoveById(tail, id);
      forall c | c in rest
        ensures c.id != cs[0].id
      {
        var j :| 0 <= j < |tail| && tail[j] == c;
        assert c == cs[j + 1];
      }
      if cs[0].id == id {
        assert RemoveById(cs, id) == [] + rest;
        assert [] + rest == rest;
      } else {
        assert RemoveById(cs, id) == [cs[0]] + rest;
        PrependFreshKeepsUnique(cs[0], rest);
      }
    }
  }

  /** Putting a record in front of a list whose ids are unique and differ
      from its own keeps ids unique. */
  lemma {:induction false} PrependFreshKeepsUnique(c: Counter, rest: seq<Counter>)
    requires UniqueIds(rest)
    requires forall d :: d in rest ==> d.id != c.id
    ensures UniqueIds([c] + rest)
  {
    var r := [c] + rest;
    forall i, j | 0 <= i < j < |r|
      ensures r[i].id != r[j].id
    {
      assert r[j] == rest[j - 1];
      if i > 0 {
        assert r[i] == rest[i - 1];
      }
    }
  }

  /** Deleting keeps every record well formed. */
  lemma {:induction false} RemoveKeepsWellFormed(cs: seq<Counter>, id: string)
    requires AllWellFormed(cs)
    ensures AllWellFormed(RemoveById(cs, id))
  {
    var r := RemoveById(cs, id);
    forall i | 0 <= i < |r|
      ensures WellFormed(r[i])
    {
      assert r[i] in cs;
      var j :| 0 <= j < |cs| && cs[j] == r[i];
    }
  }

  /** Appending a record with a fresh id keeps ids unique, and `find`
      returns the new record: the list holds it exactly once. */
  lemma {:induction false} AppendFresh(cs: seq<Counter>, c: Counter)
    requires UniqueIds(cs) && !HasId(cs, c.id)
    ensures UniqueIds(cs + [c])
    ensures Find(cs + [c], c.id) == Some(c)
  {
    var r := cs + [c];
    forall i, j | 0 <= i < j < |r|
      ensures r[i].id != r[j].id
    {
      if j == |cs| {
        assert r[i] == cs[i];
      }
    }
    FindFirst(r, c.id, |cs|);
  }

  /** The store: the module-level `counters` list and its local-storage copy. */
  class CounterStore {

    /** The in-memory list, in insertion order. */
    var counters: seq<Counter>

    /** The list as last written under the local-storage key "tasbih_counters". */
    ghost var persisted: seq<Counter>

    /** Write-through: the durable copy always equals the in-memory list. */
    ghost predicate Valid()
      reads this
    {
      persisted == counters
    }

    /** The initial load: the list saved by an earlier session, or the empty
        list when nothing (or nothing parseable) was stored. */
    constructor Load(stored: Option<seq<Counter>>)
      ensures Valid()
      ensures counters == (if stored.Some? then stored.value else [])
    {
      counters := if stored.Some? then stored.value else [];
      persisted := counters;
    }

    /** `saveToStorage`: overwrite the durable copy with the whole list. */
    method SaveToStorage()
      modifies this`persisted
      ensures persisted == counters
    {
      persisted := counters;
    }

    /** `getCounters`: the in-memory list itself; nothing changes. */
    method GetCounters() returns (r: seq<Counter>)
      ensures r == counters
    {
      r := counters;
    }

    /** `createCounter`: append a new record with the given id, title and
        count and no progress. */
    method CreateCounter(id: string, title: string, count: int) returns (c: Counter)
      requires Valid()
      modifies this
      ensures Valid()
      ensures c == Counter(id, title, count, 0)
      ensures counters == old(counters) + [c]
      ensures UniqueIds(old(counters)) && !HasId(old(counters), id) ==>
                UniqueIds(counters) && Find(counters, id) == Some(c)
      ensures CreateFormValid(title, count) && AllWellFormed(old(counters)) ==> AllWellFormed(counters)
    {
      c := Counter(id, title, count, 0);
      if UniqueIds(counters) && !HasId(counters, id) {
        AppendFresh(counters, c);
      }
      counters := counters + [c];
      SaveToStorage();
    }

    /** `updateCounter`: set `current` on the records carrying `id`. The
        value is stored exactly as given: nothing clamps it to [0, count]. */
    method UpdateCounter(id: string, current: int) returns (r: Result<Counter>)
      requires Valid()
      modifies this
      ensures Valid()
      ensures !HasId(old(counters), id) ==>
                r == Err(NotFound) && counters == old(counters) && persisted == old(persisted)
      ensures HasId(old(counters), id) ==>
                var found := Find(old(counters), id).value;
                && r == Ok(found.(current := current))
                && counters == ReplaceById(old(counters), id, r.value)
                && Find(counters, id) == Some(r.value)
                && Ids(counters) == Ids(old(counters))
      ensures UniqueIds(old(counters)) ==> UniqueIds(counters)
    {
      var found := Find(counters, id);
      if found.None? {
        return Err(NotFound);
      }
      var updated := found.value.(current := current);
      FindAfterReplace(counters, id, updated);
      ReplaceKeepsIds(counters, id, updated);
      if UniqueIds(counters) {
        ReplaceKeepsUnique(counters, id, updated);
      }
      counters := ReplaceById(counters, id, updated);
      SaveToStorage();
      r := Ok(updated);
    }

    /** `editCounter`: replace `title` and `count` on the records carrying
        `id`; `id` and `current` are kept, even when `current` now exceeds
        the new `count`. */
    method EditCounter(id: string, title: string, count: int) returns (r: Result<Counter>)
      requires Valid()
      modifies this
      ensures Valid()
      ensures !HasId(old(counters), id) ==>
                r == Err(NotFound) && counters == old(counters) && persisted == old(persisted)
      ensures HasId(old(counters), id) ==>
                var found := Find(old(counters), id).value;
                && r == Ok(Counter(id, title, count, found.current))
                && counters == ReplaceById(old(counters), id, r.value)
                && Find(counters, id) == Some(r.value)
                && Ids(counters) == Ids(old(counters))
                && ((EditFormValid(title, count) && found.current <= count && AllWellFormed(old(counters)))
                      ==> AllWellFormed(counters))
      ensures UniqueIds(old(counters)) ==> UniqueIds(counters)
    {
      var found := Find(counters, id);
      if found.None? {
        return Err(NotFound);
      }
      var updated := found.value.(title := title, count := count);
      FindAfterReplace(counters, id, updated);
      ReplaceKeepsIds(counters, id, updated);
      if UniqueIds(counters) {
        ReplaceKeepsUnique(counters, id, updated);
      }
      if EditFormValid(title, count) && updated.current <= count && AllWellFormed(counters) {
        var k := FindIndex(counters, id);
        assert WellFormed(counters[k]);
        ReplaceKeepsWellFormed(counters, id, updated);
      }
      counters := ReplaceById(counters, id, updated);
      SaveToStorage();
      r := Ok(updated);
    }

    /** `deleteCounter`: drop every record carrying `id`; an absent id is
        not an error and leaves the list as it was. */
    method DeleteCounter(id: string)
      requires Valid()
      modifies this
      ensures Valid()
      ensures counters == RemoveById(old(counters), id)
      ensures !HasId(counters, id)
      ensures !HasId(old(counters), id) ==> counters == old(counters)
      ensures UniqueIds(old(counters)) ==> UniqueIds(counters)
      ensures AllWellFormed(old(counters)) ==> AllWellFormed(counters)
    {
      if !HasId(counters, id) {
        RemoveAbsent(counters, id);
      }
      if UniqueIds(counters) {
        RemoveKeepsUnique(counters, id);
      }
      if AllWellFormed(counters) {
        RemoveKeepsWellFormed(counters, id);
      }
      counters := RemoveById(counters, id);
      SaveToStorage();
    }
  }

  /** With colliding ids, `updateCounter` copies the FIRST match over every
      record carrying the id, so a later duplicate loses its own title and
      count and takes those of the first. */
  lemma {:induction false} DuplicateIdTakesFirstTitle(cs: seq<Counter>, id: string, v: int, i: nat, j: nat)
    requires i < j < |cs| && cs[i].id == id && cs[j].id == id
    requires forall k :: 0 <= k < i ==> cs[k].id != id
    ensures ReplaceById(cs, id, Find(cs, id).value.(current := v))[j] == cs[i].(current := v)
  {
    FindFirst(cs, id, i);
  }

  /** With colliding ids, `editCounter` writes the new title and count over
      every record carrying the id, together with the FIRST match's `current`,
      so a later duplicate loses its own progress. */
  lemma {:induction false} DuplicateIdTakesFirstCurrent(cs: seq<Counter>, id: string, title: string, count: int, i: nat, j: nat)
    requires i < j < |cs| && cs[i].id == id && cs[j].id == id
    requires forall k :: 0 <= k < i ==> cs[k].id != id
    ensures ReplaceById(cs, id, Find(cs, id).value.(title := title, count := count))[j]
            == Counter(id, title, count, cs[i].current)
  {
    FindFirst(cs, id, i);
  }
}
