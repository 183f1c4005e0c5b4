# Filter store

A Dafny model of the in-memory filter registry of lotus's event filters
(`chain/events/filter/store.go`). The store keeps the filters that
subscribers have installed, keyed by a 32-byte `FilterID`. It refuses new
filters beyond a fixed capacity and refuses an identifier that is already
registered. It looks filters up and removes them. Its staleness scan reports
the filters whose results nobody has taken since a given time, so that a
reaper can evict them.

The project has three modules:

- `FilterIds` (`filter_ids.dfy`): bytes, UUIDs, `FilterID`, and
  `NewFilterID`, the layout of a fresh identifier. The UUID's 16 bytes come
  first and 16 zero bytes follow.
- `FilterStore` (`filter_store.dfy`): the filter and error datatypes. It gives
  each store operation as a pure function on the table. It also holds the
  lemmas: single operations, operations in sequence, runs of `Add` calls, and
  the staleness scan followed by removal.
- `MemStore` (`mem_filter_store.dfy`): the class `MemFilterStore`. It has a
  `filters` map field and a constant `max`. `Add` and `Remove` reassign the
  map. `NotTakenSince` is a loop over the keys, visited in an unspecified
  order, and it appends to a result sequence. Each method is proved to follow
  the matching function in `FilterStore`. `Scenario` is a caller that uses
  the methods' contracts alone.

The store's invariant (`FilterStore.Valid`) is "every filter is stored
under its own identifier, and there are at most `max` filters". The
configured maximum is a Go `int` and may be negative. Such a store starts
empty and stays empty, so the bound is stated as `|t| == 0 || |t| <= max`.

Capacity is checked before uniqueness (store.go:64-70). So if the first
`Add` filled the store, a second `Add` with the same identifier fails with
`MaximumNumberOfFilters`. `FilterStore.AddSameIdTwice` states both cases.

## Model

| member | source | states |
|---|---|---|
| FilterIds.NewFilterID | chain/events/filter/store.go:40-42 | the identifier's first 16 bytes are the UUID's bytes and its last 16 bytes are zero |
| FilterIds.UuidOfNewFilterID | chain/events/filter/store.go:40-42 | a generated identifier has the generated shape, and taking its first 16 bytes gives back the UUID |
| FilterIds.NewFilterIDOfUuid | chain/events/filter/store.go:40-42 | every identifier whose last 16 bytes are zero is the identifier generated from its own first 16 bytes |
| FilterIds.NewFilterIDInjective | chain/events/filter/store.go:35-42 | distinct UUIDs give distinct identifiers |
| FilterStore.Valid | chain/events/filter/store.go:53-58 | the store invariant: every filter is stored under its own identifier and there are at most `max` of them; the empty table of a new store satisfies it for any configured maximum, negative included |
| FilterStore.Add | chain/events/filter/store.go:60-73 | defines Add: MaximumNumberOfFilters when the table already holds `max` or more filters, else FilterAlreadyRegistered when the identifier is taken, else no error and `t[f.id := f]`; its contract states that an existing entry is never replaced and that no key other than `f`'s is added |
| FilterStore.Get | chain/events/filter/store.go:75-83 | defines Get: `Ok(t[id])` for a registered identifier, else FilterNotFound; its contract states that it succeeds exactly for registered identifiers and that FilterNotFound is its only error |
| FilterStore.Remove | chain/events/filter/store.go:85-94 | defines Remove: FilterNotFound and the same table for an absent identifier, else no error and `t - {id}`; its contract states that afterwards `id` is not a key, every other entry is unchanged, and it fails exactly when `id` was absent |
| FilterStore.StaleFilters | chain/events/filter/store.go:96-108 | defines what NotTakenSince reports: every stored filter last taken strictly before `when`, and no other value |
| FilterStore.AddWhenFull | chain/events/filter/store.go:64-66 | a store holding `max` or more filters refuses any filter with MaximumNumberOfFilters, even a duplicate, and keeps its table |
| FilterStore.AddDuplicate | chain/events/filter/store.go:68-70 | with room left, an identifier that is already registered is refused with FilterAlreadyRegistered and the original entry stays retrievable |
| FilterStore.AddFresh | chain/events/filter/store.go:71-72 | a successful Add stores the filter under its identifier, grows the table by one and leaves every other lookup unchanged |
| FilterStore.AddSucceedsIff | chain/events/filter/store.go:64-72 | Add succeeds if and only if the table holds fewer than `max` filters and the identifier is free |
| FilterStore.AddPreservesValid | chain/events/filter/store.go:53-73 | Add keeps the invariant: filters keyed by their identifiers, at most `max` of them |
| FilterStore.GetFindsRegistered | chain/events/filter/store.go:75-83 | Get succeeds exactly for registered identifiers and returns the filter with that identifier; otherwise it fails with FilterNotFound |
| FilterStore.AddThenGet | chain/events/filter/store.go:60-83 | after a successful Add, Get of the filter's identifier returns that filter |
| FilterStore.AddSameIdTwice | chain/events/filter/store.go:60-73 | a second Add with an identifier the first one registered fails and keeps the first filter; the error is FilterAlreadyRegistered while room remains, else MaximumNumberOfFilters |
| FilterStore.RemoveAbsent | chain/events/filter/store.go:89-91 | Remove of an absent identifier fails with FilterNotFound and leaves the table unchanged |
| FilterStore.RemovePresent | chain/events/filter/store.go:85-94 | Remove of a present identifier succeeds, shrinks the table by one, keeps every other entry, and Get of that identifier then fails with FilterNotFound |
| FilterStore.RemovePreservesValid | chain/events/filter/store.go:85-94 | Remove keeps the invariant |
| FilterStore.AddThenRemove | chain/events/filter/store.go:60-94 | removing the filter just added succeeds and gives back the table as it was before the Add |
| FilterStore.RemoveMakesRoom | chain/events/filter/store.go:60-94 | a full store refuses a new filter, but after one Remove the same filter is accepted |
| FilterStore.StaleFiltersMembership | chain/events/filter/store.go:96-108 | a filter is reported by the scan if and only if it is the filter stored under its identifier and was last taken strictly before the query time |
| FilterStore.StaleScanExample | chain/events/filter/store.go:96-108 | with filters last taken at t1 < t2 < t3 and a query time q with t2 < q <= t3, the scan reports exactly the first two |
| FilterStore.AddAll | chain/events/filter/store.go:60-73 | a run of Adds returns one outcome per call |
| FilterStore.AddAllFreshIds | chain/events/filter/store.go:60-73 | in a run of Adds with fresh, distinct identifiers, call i succeeds exactly when the store held fewer than `max` filters before it, and later calls fail with MaximumNumberOfFilters; the table grows by the number of successes, keeps its old entries and holds each admitted filter |
| FilterStore.ConcurrentAddsFillToCapacity | chain/events/filter/store.go:60-73 | N serialised Adds with distinct identifiers into an empty store of capacity M <= N: the first M succeed, the other N - M fail with MaximumNumberOfFilters, and the store ends with exactly M filters |
| FilterStore.RemoveEachDeletes | chain/events/filter/store.go:85-94 | removing a list of identifiers one by one deletes exactly those keys and nothing else |
| FilterStore.ReapStale | chain/events/filter/store.go:85-108 | removing every filter the scan reported leaves no stale filter and keeps every other filter as it was |
| MemStore.MemFilterStore.constructor | chain/events/filter/store.go:53-58 | a new store has the given capacity and an empty table, and satisfies the invariant |
| MemStore.MemFilterStore.Add | chain/events/filter/store.go:60-73 | the returned error and the new table are those of `FilterStore.Add` on the old table; the invariant is kept |
| MemStore.MemFilterStore.Get | chain/events/filter/store.go:75-83 | returns the stored filter when the identifier is registered, otherwise FilterNotFound; the table is not changed |
| MemStore.MemFilterStore.Remove | chain/events/filter/store.go:85-94 | the returned error and the new table are those of `FilterStore.Remove` on the old table; the invariant is kept |
| MemStore.MemFilterStore.NotTakenSince | chain/events/filter/store.go:96-108 | the returned list holds every filter last taken strictly before `when`, each exactly once and in any order, and no other filter; the table is not changed |

## Left out

- The mutex (store.go:47, 61-62, 76-78, 97-98): each method is modelled as one atomic step. Concurrent callers appear only as the order the lock admits them (`AddAll`).
- The `context.Context` parameters: every method ignores them.
- `uuid.NewRandom` and its error path (store.go:36-39): randomness comes from a foreign library, so `NewFilterID` takes the 16 UUID bytes as a parameter and has no error case. Freedom from collisions is probabilistic, and only its deterministic part is stated (`NewFilterIDInjective`).
- `SetSubChannel` and `ClearSubChannel` of the `Filter` interface: they use channels, and the store never calls them.
- `time.Time`: a filter's last-taken time is an integer, and `Before` is `<`. `LastTaken()` is read as a fixed field of a filter value. It is not a live query on an object that another goroutine may update.
- Filters are values, not interface references. So the model does not capture aliasing: a caller that keeps a reference and mutates the filter is not modelled. Get's "identical" filter is modelled as an equal value.
- Go's map iteration order: `NotTakenSince` picks keys with a nondeterministic choice, and its contract states the result as a set with no duplicates.
- A nil `Filter` passed to `Add`: Go calls `f.ID()` (store.go:68, 71) and panics once the capacity check has passed, while a full store returns `ErrMaximumNumberOfFilters` first (store.go:64-65). The `Filter` datatype has no nil, so the model has no panic path.
- The nil filter that Go's `Get` returns next to an error: the model returns `Err(FilterNotFound)` alone.
