/** The filter registry of chain/events/filter/store.go as pure functions on
    its table: what each operation of memFilterStore returns and what the table
    looks like afterwards. The class in MemStore updates a table in place and is
    proved to follow these functions; the lemmas below state what the registry
    promises, one operation at a time and over runs of operations. */
module FilterStore {
  import opened FilterIds

  /** A registered filter as the store sees it: its identifier and the time its
      collected results were last taken, on an integer clock. */
  datatype Filter = Filter(id: FilterID, lastTaken: int)

  /** The three sentinel errors of the store. */
  datatype StoreError =
    | FilterAlreadyRegistered
    | FilterNotFound
    | MaximumNumberOfFilters

  /** A Go `error` result: None stands for nil. */
  datatype Option<T> = None | Some(value: T)

  /** A Go `(value, error)` result. */
  datatype Result<T> = Ok(value: T) | Err(error: StoreError)

  type Table = map<FilterID, Filter>

  /** The error an operation returned and the table it left behind. */
  datatype Step = Step(err: Option<StoreError>, filters: Table)

  /** Every filter is stored under its own identifier. */
  predicate KeyedById(t: Table) {
    forall k :: k in t ==> t[k].id == k
  }

  /** The capacity bound. The configured maximum is a Go int and may be
      negative, in which case the table stays empty. */
  predicate WithinCapacity(t: Table, max: int) {
    |t| == 0 || |t| <= max
  }

  /** The invariant of a store created empty with capacity `max`. An empty
      table satisfies it whatever the configured maximum. */
  predicate Valid(t: Table, max: int)
    ensures t == map[] ==> Valid(t, max)
  {
    KeyedById(t) && WithinCapacity(t, max)
  }

  /** memFilterStore.Add: capacity is checked first, then uniqueness. An
      existing registration is never replaced, and nothing but `f` is added. */
  function Add(t: Table, max: int, f: Filter): (r: Step)
    ensures forall k :: k in t ==> k in r.filters && r.filters[k] == t[k]
    ensures forall k :: k in r.filters ==> k in t || k == f.id
  {
    if |t| >= max then Step(Some(MaximumNumberOfFilters), t)
    else if f.id in t then Step(Some(FilterAlreadyRegistered), t)
    else Step(None, t[f.id := f])
  }

  /** memFilterStore.Get: succeeds exactly for registered identifiers, and
      its only error is FilterNotFound. */
  function Get(t: Table, id: FilterID): (r: Result<Filter>)
    ensures r.Ok? <==> id in t
    ensures r.Err? ==> r.error == FilterNotFound
  {
    if id in t then Ok(t[id]) else Err(FilterNotFound)
  }

  /** memFilterStore.Remove: afterwards `id` is not registered, every other
      entry is as it was, and it fails exactly when `id` was absent. */
  function Remove(t: Table, id: FilterID): (r: Step)
    ensures r.filters.Keys == t.Keys - {id}
    ensures forall k :: k in r.filters ==> r.filters[k] == t[k]
    ensures r.err == None <==> id in t
  {
    if id !in t then Step(Some(FilterNotFound), t) else Step(None, t - {id})
  }

  /** The filters NotTakenSince(when) reports: those last taken strictly
      before `when`. */
  function StaleFilters(t: Table, when: int): (r: set<Filter>)
    ensures forall f :: f in r ==> f in t.Values && f.lastTaken < when
    ensures forall k :: k in t && t[k].lastTaken < when ==> t[k] in r
  {
    set k | k in t && t[k].lastTaken < when :: t[k]
  }

  predicate NoDuplicates(fs: seq<Filter>) {
    forall i, j :: 0 <= i < j < |fs| ==> fs[i] != fs[j]
  }

  /** `res` lists every stale filter of `t` exactly once, in any order, and
      nothing else. */
  ghost predicate ListsStale(t: Table, when: int, res: seq<Filter>) {
    && (forall f :: f in res <==> f in StaleFilters(t, when))
    && NoDuplicates(res)
  }

  // ---------------------------------------------------------------------
  // One operation at a time
  // ---------------------------------------------------------------------

  /** A full store refuses every filter, even one whose identifier is
      already registered, and is left as it was. */
  lemma AddWhenFull(t: Table, max: int, f: Filter)
    requires |t| >= max
    ensures Add(t, max, f) == Step(Some(MaximumNumberOfFilters), t)
  {
  }

  /** With room left, a filter whose identifier is taken is refused and the
      filter registered first stays retrievable. */
  lemma AddDuplicate(t: Table, max: int, f: Filter)
    requires |t| < max && f.id in t
    ensures Add(t, max, f).err == Some(FilterAlreadyRegistered)
    ensures Add(t, max, f).filters == t
    ensures Get(Add(t, max, f).filters, f.id) == Ok(t[f.id])
  {
  }

  /** A successful Add inserts under the filter's identifier, grows the table
      by one and changes no other entry. */
  lemma AddFresh(t: Table, max: int, f: Filter)
    requires |t| < max && f.id !in t
    ensures Add(t, max, f).err == None
    ensures Add(t, max, f).filters == t[f.id := f]
    ensures |Add(t, max, f).filters| == |t| + 1
    ensures forall k :: k != f.id ==> Get(Add(t, max, f).filters, k) == Get(t, k)
  {
  }

  /** Add succeeds exactly when there is room and the identifier is free. */
  lemma AddSucceedsIff(t: Table, max: int, f: Filter)
    ensures Add(t, max, f).err == None <==> |t| < max && f.id !in t
  {
  }

  /** Add keeps the invariant. */
  lemma AddPreservesValid(t: Table, max: int, f: Filter)
    requires Valid(t, max)
    ensures Valid(Add(t, max, f).filters, max)
  {
  }

  /** Get finds exactly the registered identifiers. */
  lemma GetFindsRegistered(t: Table, id: FilterID)
    requires KeyedById(t)
    ensures Get(t, id).Ok? <==> id in t
    ensures Get(t, id).Ok? ==> Get(t, id).value.id == id && Get(t, id).value == t[id]
    ensures Get(t, id).Err? ==> Get(t, id).error == FilterNotFound
  {
  }

  /** After a successful Add, Get returns the filter that was added. */
  lemma AddThenGet(t: Table, max: int, f: Filter)
    requires Add(t, max, f).err == None
    ensures Get(Add(t, max, f).filters, f.id) == Ok(f)
  {
  }

  /** A second Add with an identifier that the first one registered fails and
      leaves the first filter in place. The error is FilterAlreadyRegistered
      while room remains, and MaximumNumberOfFilters once the first Add filled
      the store, because capacity is checked first. */
  lemma AddSameIdTwice(t: Table, max: int, f: Filter, g: Filter)
    requires Add(t, max, f).err == None
    requires g.id == f.id
    ensures var t1 := Add(t, max, f).filters;
      && Add(t1, max, g).err.Some?
      && Add(t1, max, g).filters == t1
      && Get(Add(t1, max, g).filters, f.id) == Ok(f)
      && Add(t1, max, g).err ==
           Some(if |t| + 1 < max then FilterAlreadyRegistered else MaximumNumberOfFilters)
  {
  }

  /** Remove of an absent identifier reports FilterNotFound and changes
      nothing. */
  lemma RemoveAbsent(t: Table, id: FilterID)
    requires id !in t
    ensures Remove(t, id) == Step(Some(FilterNotFound), t)
  {
  }

  /** Remove of a present identifier succeeds, shrinks the table by one,
      keeps every other entry, and the identifier is then not found. */
  lemma RemovePresent(t: Table, id: FilterID)
    requires id in t
    ensures Remove(t, id).err == None
    ensures |Remove(t, id).filters| == |t| - 1
    ensures forall k :: k != id ==> Get(Remove(t, id).filters, k) == Get(t, k)
    ensures Get(Remove(t, id).filters, id) == Err(FilterNotFound)
  {
    assert Remove(t, id).filters.Keys == t.Keys - {id};
  }

  /** Remove keeps the invariant. */
  lemma RemovePreservesValid(t: Table, max: int, id: FilterID)
    requires Valid(t, max)
    ensures Valid(Remove(t, id).filters, max)
  {
    if id in t {
      RemovePresent(t, id);
    }
  }

  /** Removing the filter just added gives back the table as it was. */
  lemma AddThenRemove(t: Table, max: int, f: Filter)
    requires Add(t, max, f).err == None
    ensures Remove(Add(t, max, f).filters, f.id) == Step(None, t)
  {
    var t1 := Add(t, max, f).filters;
    assert t1 - {f.id} == t;
  }

  /** A full store takes a new filter again once one is removed. */
  lemma RemoveMakesRoom(t: Table, max: int, id: FilterID, g: Filter)
    requires Valid(t, max) && |t| == max
    requires id in t
    requires g.id == id || g.id !in t
    ensures Add(t, max, g).err == Some(MaximumNumberOfFilters)
    ensures Add(Remove(t, id).filters, max, g).err == None
  {
    RemovePresent(t, id);
  }

  /** Which filters the staleness scan must report, stated per filter. */
  lemma StaleFiltersMembership(t: Table, when: int, f: Filter)
    requires KeyedById(t)
    ensures f in StaleFilters(t, when) <==> f.id in t && t[f.id] == f && f.lastTaken < when
  {
    if f in StaleFilters(t, when) {
      var k :| k in t && t[k].lastTaken < when && t[k] == f;
      assert k == f.id;
    }
  }

  /** With three filters last taken at t1 < t2 < t3 and a query time q with
      t2 < q <= t3, the scan reports exactly the first two. */
  lemma StaleScanExample(f1: Filter, f2: Filter, f3: Filter, q: int)
    requires f1.id != f2.id && f1.id != f3.id && f2.id != f3.id
    requires f1.lastTaken < f2.lastTaken < q <= f3.lastTaken
    ensures var t := map[f1.id := f1, f2.id := f2, f3.id := f3];
      StaleFilters(t, q) == {f1, f2}
  {
    var t := map[f1.id := f1, f2.id := f2, f3.id := f3];
    assert KeyedById(t);
    StaleFiltersMembership(t, q, f1);
    StaleFiltersMembership(t, q, f2);
    StaleFiltersMembership(t, q, f3);
  }

  // ---------------------------------------------------------------------
  // Runs of operations
  // ---------------------------------------------------------------------

  /** What a run of Add calls returned, call by call, and the table it left. */
  datatype Run = Run(errs: seq<Option<StoreError>>, filters: Table)

  /** Add each filter of `fs` in turn. Concurrent callers are serialised by
      the store's lock, so any set of concurrent Add calls behaves as such a
      run in the order the lock admitted them. */
  function AddAll(t: Table, max: int, fs: seq<Filter>): (r: Run)
    ensures |r.errs| == |fs|
    decreases |fs|
  {
    if fs == [] then Run([], t)
    else
      var first := Add(t, max, fs[0]);
      var rest := AddAll(first.filters, max, fs[1..]);
      Run([first.err] + rest.errs, rest.filters)
  }

  predicate DistinctIds(fs: seq<Filter>) {
    forall i, j :: 0 <= i < j < |fs| ==> fs[i].id != fs[j].id
  }

  /** How many of `count` further filters fit beside `size` registered ones. */
  function Room(size: nat, max: int, count: nat): nat {
    if max <= size then 0 else if max - size < count then max - size else count
  }

  /** A run of Adds with fresh, distinct identifiers: the i-th call succeeds
      exactly when the store held fewer than `max` filters before it, every
      later call fails with MaximumNumberOfFilters, the table grows by the
      number of successes, keeps its earlier entries and holds each admitted
      filter under its identifier. */
  lemma {:induction false} AddAllFreshIds(t: Table, max: int, fs: seq<Filter>)
    requires DistinctIds(fs)
    requires forall i :: 0 <= i < |fs| ==> fs[i].id !in t
    ensures var r := AddAll(t, max, fs);
      && (forall i :: 0 <= i < |fs| ==>
            r.errs[i] == if |t| + i < max then None else Some(MaximumNumberOfFilters))
      && |r.filters| == |t| + Room(|t|, max, |fs|)
      && (forall k :: k in t ==> k in r.filters && r.filters[k] == t[k])
      && (forall i :: 0 <= i < |fs| && |t| + i < max ==>
            fs[i].id in r.filters && r.filters[fs[i].id] == fs[i])
    decreases |fs|
  {
    if fs != [] {
      var first := Add(t, max, fs[0]);
      var rest := fs[1..];
      forall i | 0 <= i < |rest|
        ensures rest[i].id !in first.filters
      {
        assert rest[i] == fs[i + 1];
      }
      assert DistinctIds(rest) by {
        forall i, j | 0 <= i < j < |rest|
          ensures rest[i].id != rest[j].id
        {
          assert rest[i] == fs[i + 1] && rest[j] == fs[j + 1];
        }
      }
      AddAllFreshIds(first.filters, max, rest);
      var r := AddAll(t, max, fs);
      var r' := AddAll(first.filters, max, rest);
      assert r.errs == [first.err] + r'.errs && r.filters == r'.filters;
      if |t| < max {
        assert first == Step(None, t[fs[0].id := fs[0]]);
        assert |first.filters| == |t| + 1;
        assert fs[0].id in r.filters && r.filters[fs[0].id] == fs[0];
      } else {
        assert first == Step(Some(MaximumNumberOfFilters), t);
      }
      forall i | 1 <= i < |fs|
        ensures r.errs[i] == r'.errs[i - 1] && fs[i] == rest[i - 1]
      {
      }
    }
  }

  /** N concurrent Adds with distinct identifiers into an empty store of
      capacity M <= N: exactly the first M admitted succeed, the other N - M
      fail with MaximumNumberOfFilters, and the store ends with M filters. */
  lemma ConcurrentAddsFillToCapacity(max: nat, fs: seq<Filter>)
    requires DistinctIds(fs) && max <= |fs|
    ensures var r := AddAll(map[], max, fs);
      && (forall i :: 0 <= i < max ==> r.errs[i] == None)
      && (forall i :: max <= i < |fs| ==> r.errs[i] == Some(MaximumNumberOfFilters))
      && |r.filters| == max
  {
    AddAllFreshIds(map[], max, fs);
  }

  /** Remove each identifier in turn, ignoring the errors: what a reaper does
      with the result of a staleness scan. */
  function RemoveEach(t: Table, ids: seq<FilterID>): Table
    decreases |ids|
  {
    if ids == [] then t else RemoveEach(Remove(t, ids[0]).filters, ids[1..])
  }

  /** Removing a list of identifiers deletes exactly those keys. */
  lemma {:induction false} RemoveEachDeletes(t: Table, ids: seq<FilterID>)
    ensures RemoveEach(t, ids) == t - (set id | id in ids)
    decreases |ids|
  {
    if ids != [] {
      var rest := ids[1..];
      RemoveEachDeletes(Remove(t, ids[0]).filters, rest);
      assert Remove(t, ids[0]).filters == t - {ids[0]};
      assert (set id | id in ids) == {ids[0]} + (set id | id in rest);
      assert (t - {ids[0]}) - (set id | id in rest) == t - (set id | id in ids);
    }
  }

  function IdsOf(fs: seq<Filter>): seq<FilterID> {
    seq(|fs|, i requires 0 <= i < |fs| => fs[i].id)
  }

  /** Removing every filter a staleness scan reported leaves no stale filter
      and keeps every other filter as it was. */
  lemma ReapStale(t: Table, when: int, res: seq<Filter>)
    requires KeyedById(t) && ListsStale(t, when, res)
    ensures var left := RemoveEach(t, IdsOf(res));
      && StaleFilters(left, when) == {}
      && (forall k :: k in t ==> (k in left <==> t[k].lastTaken >= when))
      && (forall k :: k in left ==> k in t && left[k] == t[k])
  {
    var ids := IdsOf(res);
    RemoveEachDeletes(t, ids);
    var left := RemoveEach(t, ids);
    forall k | k in t
      ensures k in left <==> t[k].lastTaken >= when
    {
      StaleFiltersMembership(t, when, t[k]);
      if t[k].lastTaken < when {
        var i :| 0 <= i < |res| && res[i] == t[k];
        assert ids[i] == k;
      } else if k in ids {
        var i :| 0 <= i < |ids| && ids[i] == k;
        StaleFiltersMembership(t, when, res[i]);
      }
    }
    forall k | k in left
      ensures left[k].lastTaken >= when
    {
    }
  }
}
