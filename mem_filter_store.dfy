/** memFilterStore of chain/events/filter/store.go: a capacity-bounded table of
    filters, updated in place. Each method is one whole critical section of the
    Go code (the mutex serialises them), proved to follow the pure definition of
    the same operation in FilterStore. */
module MemStore {
  import opened FilterIds
  import opened FilterStore

  class MemFilterStore {
    const max: int
    var filters: Table

    /** Every filter is stored under its own identifier, and the table holds
        no more than `max` filters. */
    ghost predicate Valid()
      reads this
    {
      FilterStore.Valid(filters, max)
    }

    /** NewMemFilterStore: an empty table with the given capacity. */
    constructor (maxFilters: int)
      ensures max == maxFilters && filters == map[]
      ensures Valid()
    {
      max := maxFilters;
      filters := map[];
    }

    /** Registers `f` under its identifier unless the store is full or the
        identifier is taken, in that order. */
    method Add(f: Filter) returns (err: Option<StoreError>)
      requires Valid()
      modifies this
      ensures Valid()
      ensures Step(err, filters) == FilterStore.Add(old(filters), max, f)
    {
      AddPreservesValid(filters, max, f);
      if |filters| >= max {
        return Some(MaximumNumberOfFilters);
      }
      if f.id in filters {
        return Some(FilterAlreadyRegistered);
      }
      filters := filters[f.id := f];
      return None;
    }

    /** Looks up a filter by identifier; never changes the table. */
    method Get(id: FilterID) returns (r: Result<Filter>)
      ensures id in filters ==> r == Ok(filters[id])
      ensures id !in filters ==> r == Err(FilterNotFound)
      ensures r == FilterStore.Get(filters, id)
    {
      if id in filters {
        return Ok(filters[id]);
      }
      return Err(FilterNotFound);
    }

    /** Deregisters the filter with identifier `id`, or reports that there is
        none. */
    method Remove(id: FilterID) returns (err: Option<StoreError>)
      requires Valid()
      modifies this
      ensures Valid()
      ensures Step(err, filters) == FilterStore.Remove(old(filters), id)
    {
      RemovePreservesValid(filters, max, id);
      if id !in filters {
        return Some(FilterNotFound);
      }
      filters := filters - {id};
      return None;
    }

    /** Collects the filters last taken strictly before `when`. The keys are
        visited in an unspecified order, as Go's map iteration is; the result
        lists each stale filter once and nothing else. */
    method NotTakenSince(when: int) returns (res: seq<Filter>)
      requires Valid()
      ensures ListsStale(filters, when, res)
    {
      res := [];
      var pending := filters.Keys;
      while pending != {}
        invariant pending <= filters.Keys
        invariant forall f :: f in res <==> f in StaleFilters(filters, when) && f.id !in pending
        invariant NoDuplicates(res)
        decreases pending
      {
        var k :| k in pending;
        var f := filters[k];
        StaleFiltersMembership(filters, when, f);
        if f.lastTaken < when {
          res := res + [f];
        }
        pending := pending - {k};
      }
    }
  }

  /** A caller's view: with capacity 2, a duplicate is refused, a third filter
      is refused for capacity, a lookup returns what was added, and after a
      removal the identifier is gone and the third filter fits. */
  method Scenario(f1: Filter, f2: Filter, f3: Filter)
    requires f1.id != f2.id && f1.id != f3.id && f2.id != f3.id
  {
    var store := new MemFilterStore(2);
    var err := store.Add(f1);
    assert err == None;
    err := store.Add(f1);
    assert err == Some(FilterAlreadyRegistered);
    err := store.Add(f2);
    assert err == None;
    err := store.Add(f3);
    assert err == Some(MaximumNumberOfFilters);
    var got := store.Get(f1.id);
    assert got == Ok(f1);
    err := store.Remove(f1.id);
    assert err == None;
    got := store.Get(f1.id);
    assert got == Err(FilterNotFound);
    err := store.Remove(f1.id);
    assert err == Some(FilterNotFound);
    err := store.Add(f3);
    assert err == None;
  }
}
