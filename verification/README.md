# Cache — a Dafny model of the cache engine and its demonstration store

The system is a generic cache, `Cache<T>`, that sits in front of a store (`RepositoryProvider`). It keeps a map from integer entity id to entity. The cache has a fixed mode:

- **EAGER** loads every stored record at construction, all or nothing. After that, the map mirrors the store.
- **LAZY** starts empty. It fetches from the store on a `get` miss, and backfills when `add` learns that the store already holds the id.

`add`, `update` and `remove` first check the map, and may return without calling the store: `add` when the id is cached, and `update` and `remove` when an EAGER cache lacks the id. Otherwise they call the store and act on its answer (`ReturnSate`: SUCCESS, FAILURE, ALREADY_EXISTS or NOT_EXISTS). After each successful mutation, the cache informs the registered subscribers in registration order. The demonstration store (`DemoRepo`) keeps one JSON record per line of a file.

The model is functional. Every call is one atomic step from a value to a value.

| module | file | models |
|---|---|---|
| `Wrappers` | repository.dfy | `Option` (a reference that may be null) and `Result` (a call that may throw) |
| `Repository` | repository.dfy | the outcome vocabulary, the stored record `Record(id, payload)`, the ids of a store |
| `DemoRepo` | demo_repo.dfy | the flat-file store; the file is a `seq<Record<P>>` in line order |
| `CacheEngine` | cache.dfy | the cache: modes, construction, `get`, `add`, `update`, `remove`, subscribers |
| `CacheLaws` | cache_laws.dfy | properties of the cache that relate several calls |
| `CachedStore` | cached_store.dfy | the cache attached to DemoRepo; the EAGER and LAZY invariants |

The cache cannot see the store's code, so `CacheEngine` takes the store's answers as parameters:
- the list `getAll` returned (`None` for null);
- the record `get` returned;
- the `ReturnState` of a mutation.

Each reply has a `consulted` flag. It is false exactly when the source returns before calling the store.

`CachedStore` feeds these parameters from the `DemoRepo` model of the current file. I/O success is a parameter, `Io(readOk, writeOk)`, with one value per call.

Conversion is modelled structurally:
- an entity is `Entity(id, value)`;
- a record is `Record(id, payload)`;
- the converter is a pair `decode: P -> Option<V>` and `encode: V -> P`.

The id is carried over unchanged, as `DogConverter` does when it reads the `"id"` field.

Where the code and its design notes differ, the model follows the code:
- A record that does not convert during an EAGER load makes `loadAll` dereference null. The model turns this into the construction error `RecordNotConvertible(id)`.
- A store answer outside the documented contract falls out of the `switch`. This is NOT_EXISTS for `add`, and ALREADY_EXISTS for `update` and `remove`. The call then returns `true`, leaves the map as it was and informs nobody. It also returns without releasing the lock; the lock is not modelled (see "## Left out"). `CacheEngine.Add`, `Update` and `Remove` model this as written, and their contracts state it.
- A LAZY `get` caches the fetched entity under the requested id (`map.put(eId, …)`). `loadAll` caches it under the entity's own id.

## Model

| member | source | states |
|---|---|---|
| Repository.AllStates | src/RepositoryProvider.java:9 | the outcome vocabulary has exactly four values and every ReturnState is one of them |
| DemoRepo.IndexOf | src/DemoRepo.java:72-80 | the scan finds nothing exactly when no line carries the id; otherwise it stops at the first line that does |
| DemoRepo.Get | src/DemoRepo.java:33-47 | null exactly when the file cannot be read or holds no line with the id (the two cases are not told apart); otherwise the first record with that id |
| DemoRepo.AddAsWritten | src/DemoRepo.java:50-65 | as the source writes it: ALREADY_EXISTS exactly when a readable file holds the id; SUCCESS appends the record as the last line and happens whenever the write succeeds and the lookup saw no id, including a lookup whose read failed; otherwise the file is unchanged |
| DemoRepo.Add | src/DemoRepo.java:50-65 | corrected add: answers only SUCCESS, ALREADY_EXISTS or FAILURE; ALREADY_EXISTS with the file unchanged when the id is stored; SUCCESS appends at the end exactly when the file is readable, writable and lacks the id; equal to the source's add whenever the lookup read succeeds |
| DemoRepo.Update | src/DemoRepo.java:68-86 | answers only SUCCESS, NOT_EXISTS or FAILURE; NOT_EXISTS, file unchanged, exactly when a readable file lacks the id; SUCCESS replaces only the first line with the id, keeping the length and every other line |
| DemoRepo.Remove | src/DemoRepo.java:89-107 | answers only SUCCESS, NOT_EXISTS or FAILURE; NOT_EXISTS, file unchanged, exactly when a readable file lacks the id; SUCCESS deletes exactly the first line with the id, length drops by one and the other lines keep their order |
| DemoRepo.GetAll | src/DemoRepo.java:110-122 | null exactly on a read failure; otherwise every record in file order, an empty file giving an empty list |
| DemoRepo.MaxId | src/DemoRepo.java:126-138 | the result is at least 0 and every id, and is either 0 or one of the ids |
| DemoRepo.AddAsWrittenDuplicatesId | src/DemoRepo.java:52-60 | the source's add on a file holding id 7, with a failed lookup read and a working write, answers SUCCESS and leaves two lines with id 7 |
| DemoRepo.AddKeepsIdsUnique | src/DemoRepo.java:50-65 | the corrected add never creates a duplicate id |
| DemoRepo.AddThenGet | src/DemoRepo.java:50-65 | after a successful add, get of the id on a readable file returns the added record |
| DemoRepo.UpdateThenGet | src/DemoRepo.java:72-81 | after a successful update, get of the id returns the new record |
| DemoRepo.UpdateKeepsIds | src/DemoRepo.java:72-81 | update leaves the set of ids and their uniqueness as they were |
| DemoRepo.RemoveDropsId | src/DemoRepo.java:93-102 | on a file with unique ids, a successful remove takes exactly the record's id out and keeps the ids unique |
| DemoRepo.FindAfterAppend | src/DemoRepo.java:52-55 | appending a record with a new id changes the first-match lookup of that id only |
| DemoRepo.FindAfterUpdate | src/DemoRepo.java:72-81 | a successful update changes the first-match lookup of the record's own id only |
| DemoRepo.FindAfterRemove | src/DemoRepo.java:93-102 | on unique ids, a successful remove makes only the record's own id unfindable |
| CacheEngine.ToEntity | src/Converter.java:7-13 | conversion of a record fails exactly when its payload does not decode, and keeps the id |
| CacheEngine.ToRecord | src/Converter.java:15-21 | the record of an entity carries the entity's id |
| CacheEngine.LoadAll | src/Cache.java:57-66 | the load succeeds exactly when every record converts, otherwise it fails at the first one that does not; on success the cached ids are exactly the records' ids, each entity under its own id |
| CacheEngine.LoadAllLastWins | src/Cache.java:62-65 | after a load, the entity under an id is the conversion of the last record with that id |
| CacheEngine.Construct | src/Cache.java:40-50 | LAZY starts empty without the store; EAGER fails with the attach error exactly when getAll gave null; given a list, it fails, always with the unconvertible-record error, exactly when some record does not convert, and otherwise caches exactly the stored ids; subscribers start empty |
| CacheEngine.Get | src/Cache.java:74-87 | a hit returns the cached entity without the store; the store is asked exactly on a LAZY miss; a miss that finds nothing leaves the cache unchanged; a LAZY fetch that converts is cached under the requested id and returned |
| CacheEngine.Notify | src/Cache.java:213-219 | one delivery per registration, the i-th to the i-th subscriber, all with the same operation and entity |
| CacheEngine.Register | src/Cache.java:194-196 | the subscriber is appended after the existing ones, which keep their order |
| CacheEngine.RemoveFirst | src/Cache.java:203-205 | removes the first occurrence only, keeps the others in order, leaves a list without it unchanged, and removes exactly one copy |
| CacheEngine.Unregister | src/Cache.java:203-205 | exactly one registration of the subscriber is dropped, if there is one; mode and entries are untouched |
| CacheEngine.Replace | src/Cache.java:140 | Map.replace keeps the key set and overwrites only a present key |
| CacheEngine.Add | src/Cache.java:96-122 | false without the store when the id is cached; otherwise SUCCESS caches the entity, informs Added and returns true; FAILURE raises the error for that id, cache unchanged; ALREADY_EXISTS returns false and backfills only in LAZY mode; the out-of-contract NOT_EXISTS returns true with the cache unchanged and nobody informed; no other change to the cache |
| CacheEngine.Update | src/Cache.java:131-155 | EAGER and uncached: false without the store; SUCCESS maps the id to the new entity in either mode, informs Updated and returns true; FAILURE raises, NOT_EXISTS returns false, both with the cache unchanged; the out-of-contract ALREADY_EXISTS returns true with the cache unchanged; only SUCCESS informs subscribers |
| CacheEngine.Remove | src/Cache.java:164-187 | EAGER and uncached: false without the store; SUCCESS leaves the id uncached whether or not it was there, every other entry as it was, informs Removed and returns true; FAILURE and NOT_EXISTS leave the cache unchanged; the out-of-contract ALREADY_EXISTS returns true with the cache unchanged; only SUCCESS informs subscribers |
| CacheLaws.AddThenGet | src/Cache.java:104-109 | after a successful add, get returns the added entity without asking the store |
| CacheLaws.AddTwice | src/Cache.java:100 | a second add of the same id returns false without the store and the first entity stays cached |
| CacheLaws.UpdateThenGet | src/Cache.java:138-144 | after a successful update, get returns the new entity without the store |
| CacheLaws.RemoveThenGet | src/Cache.java:171-176 | after a successful remove, an EAGER get returns null at once; a LAZY get must ask the store again |
| CacheLaws.FailedUpdateKeepsValue | src/Cache.java:145-148 | an update the store fails raises, and get still returns the entity cached before |
| CacheLaws.RefusedMutationChangesNothing | src/Cache.java:110-113 | a FAILURE or NOT_EXISTS answer leaves the cache unchanged and informs nobody, for add, update and remove |
| CacheLaws.MutationTouchesOneKey | src/Cache.java:96-187 | add, update and remove never change any entry but the entity's own id |
| CacheLaws.ContractAnswersDecideResult | src/RepositoryProvider.java:26-48 | with answers the store contract allows, a consulted mutation returns true and informs subscribers exactly on SUCCESS |
| CacheLaws.LazyBackfill | src/Cache.java:114-119 | in LAZY mode ALREADY_EXISTS returns false but caches the given entity, which the next get returns without the store |
| CacheLaws.EagerNoBackfill | src/Cache.java:114-119 | in EAGER mode ALREADY_EXISTS returns false and leaves the cache unchanged |
| CacheLaws.LazyGetTwice | src/Cache.java:79-86 | a LAZY get that found an entity caches it, so the next get hits without the store |
| CacheLaws.OperationsKeepKeying | src/Cache.java:74-187 | every operation keeps each entity under its own id, given a store whose get returns a record with the requested id |
| CacheLaws.NotifyReachesRegistrations | src/Cache.java:213-219 | the recipients of a notification are exactly the subscriber list, in order, once per registration |
| CacheLaws.NotifyAfterRegister | src/Cache.java:194-196 | a newly registered subscriber is informed last, after all earlier ones |
| CacheLaws.NotifyAfterUnregister | src/Cache.java:203-205 | after unregister, the subscriber receives one delivery fewer per notification, never fewer than none; others are unaffected |
| CacheLaws.RegisterThenUnregister | src/Cache.java:194-205 | unregistering a subscriber just registered for the first time restores the cache |
| CachedStore.Open | src/Cache.java:40-66 | over DemoRepo: EAGER fails with the attach error exactly when the file cannot be read; on a readable file it fails, always with the unconvertible-record error, exactly when some line does not convert, and otherwise caches exactly the file's ids |
| CachedStore.Get | src/Cache.java:74-87 | get never changes the file |
| CachedStore.Add | src/Cache.java:96-122 | over DemoRepo's add as written: an add of a cached id touches neither cache nor file; an add that returns true caches the entity and appends its record as the file's last line |
| CachedStore.AddCorrected | src/DemoRepo.java:50-65 | over the corrected DemoRepo add: the same as the source's add whenever the lookup read succeeds; true only when the file is readable, writable and lacks the id |
| CachedStore.Update | src/Cache.java:131-155 | an EAGER update of an uncached id touches neither cache nor file; an update that returns true maps the id to the new entity, changes no other entry, and the file becomes what DemoRepo's successful update leaves |
| CachedStore.Remove | src/Cache.java:164-187 | an EAGER remove of an uncached id touches neither cache nor file; a remove that returns true uncaches exactly that id, and the file becomes what DemoRepo's successful remove leaves, the first line with the id deleted |
| CachedStore.OpenValid | src/Cache.java:57-66 | construction over a file with unique ids yields the EAGER mirror (ids equal, values agree) or the LAZY invariant |
| CachedStore.GetValid | src/Cache.java:74-87 | get preserves the mode invariant |
| CachedStore.AddValid | src/Cache.java:96-122 | the source's add preserves the EAGER mirror of ids and values for any I/O outcome (given a round-tripping converter), and the LAZY invariant whenever the lookup read succeeds, for any converter |
| CachedStore.AddCorrectedValid | src/DemoRepo.java:50-65 | over the corrected store, add preserves the mode invariant in both modes for any I/O outcome; only the EAGER case needs a round-tripping converter |
| CachedStore.UpdateValid | src/Cache.java:131-155 | update preserves the mode invariant; only the EAGER case needs a round-tripping converter |
| CachedStore.UpdateKeepsMirror | src/Cache.java:138-144 | a successful EAGER update keeps cache and file agreeing on every id, keys and values, given a round-tripping converter |
| CachedStore.OperationsKeepKeys | src/Cache.java:74-187 | with any converter, get, update, remove and the corrected add keep the EAGER cached ids equal to the file's unique ids and the LAZY cached ids among them; the source's add does so except in LAZY mode after a failed lookup read |
| CachedStore.AddKeepsKeys | src/Cache.java:96-122 | with any converter, the source's add keeps the EAGER key mirror for any I/O outcome, and the LAZY invariant when the lookup read succeeds |
| CachedStore.UpdateKeepsKeys | src/Cache.java:131-155 | with any converter, update keeps the EAGER key mirror and the LAZY invariant |
| CachedStore.RemoveValid | src/Cache.java:164-187 | remove preserves the mode invariant |
| CachedStore.EagerGetAgreesWithStore | src/Cache.java:78-79 | an EAGER get answers what the file holds for the id, without reading it |
| CachedStore.EagerAddOutcome | src/Cache.java:96-122 | under the EAGER mirror, add returns false exactly when the id is stored, true exactly when it is not and the file can be written (a failed lookup read is taken for absence, which is then the truth), and raises otherwise |
| CachedStore.EagerChangeOutcome | src/Cache.java:131-187 | under the EAGER mirror, update and remove return false exactly when the id is not stored, and true exactly when it is and the file is readable and writable; a false update or remove touches neither cache nor file |
| CachedStore.UpdateMissingIsNoop | src/Cache.java:131-155 | update of an id the file lacks returns false and changes neither cache nor file (LAZY: when the file is readable) |
| CachedStore.AddThenGet | src/Cache.java:104-109 | after a successful add, get returns the added entity in either mode |
| CachedStore.RemoveThenGet | src/Cache.java:171-176 | after a successful remove, get returns null in either mode |
| CachedStore.LazyBackfillScenario | src/Cache.java:114-119 | LAZY over a file holding id 7: add of a different entity 7 returns false, and get(7) returns the added entity, not the file's |
| CachedStore.LazyAddDuplicatesId | src/DemoRepo.java:52-60 | LAZY over a file holding id 7: an add of id 7 whose lookup read fails and whose write succeeds returns true and leaves id 7 twice in the file, breaking the LAZY invariant |
| CachedStore.RemovedEntityReturns | src/DemoRepo.java:93-101 | after that duplicating add, a successful remove deletes the old line and keeps the added one, so the next LAZY get returns the entity just removed |
| CachedStore.ReadOnlyStoreScenario | src/Cache.java:145-148 | on a readable but unwritable file, update of a cached entity raises, and get returns the previous entity |

## Left out

- The `ReentrantLock`, threads (`MyThreadA`, `MyThreadB`) and the race between the unlocked pre-checks and the locked store call: every operation is one sequential atomic step, so the cross-thread visibility scenario is not modelled. For the same reason the model does not show that an out-of-contract store answer leaves `dataMutex` locked (`src/Cache.java:120-121`, `153-154`, `185-186` reach `return true` without `unlock`).
- File and stream I/O in DemoRepo: readers, writers, `Files.readAllLines`/`write`, partial writes and `IOException`s are reduced to the per-call `Io(readOk, writeOk)` flags. A failed write leaves the file unchanged.
- A DemoRepo whose constructor could not open the file (`src/DemoRepo.java:22-29`) keeps null streams, so its `get` and `add` throw a null-pointer exception. The model's `Io(readOk = false)` answers null or FAILURE instead, as for any other I/O failure.
- Malformed lines: every line is a well-formed record with an id. A `JSONException` that a bad line raises inside DemoRepo's `get`, `getAll`, `update` or `remove` is not modelled apart from the read-failure flag.
- The JSON library, `Converter`/`DogConverter` and `Dog`: a record is `Record(id, payload)` and an entity is `Entity(id, value)`. `getJson` returning null is not modelled, because the model's `encode` is total.
- Null arguments (a null entity or id) and the null-pointer crash of `getMaxId` when `getAll` fails: `DemoRepo.MaxId` takes the records that were read.
- Java `int` width: ids are unbounded integers. The core only compares ids, so 32-bit wrap-around never arises in the modelled operations.
- Subscriber identity: `unregister` uses Dafny equality on the subscriber type. The source uses `equals`, which is object identity for `User`. The subscribers' `inform` bodies (console printing in `User`) are left out; a notification is its list of deliveries.
- `RepoAccessException` messages: the exception is the `Error` value `RepoNotAttached` or `EntityNotModified(id)`.
- CachedStore.OpenValid: requires a file with unique ids. If ids repeat, EAGER `loadAll` keeps the last record per id while DemoRepo's `get` returns the first, so the value half of the mirror can fail. The key half still holds, and `CachedStore.Open` states it for every file.
- CachedStore.AddValid: in EAGER mode it requires a converter whose `decode` inverts `encode`. Without this, the entity the cache stores may differ from what the file's record converts back to. `DogConverter` is such a case: `new JSONObject(dog)` omits null fields, so `getEntity` fails on a dog with a null name or race (`src/DogConverter.java:10-21`). The key half of the mirror holds for every converter (`CachedStore.AddKeepsKeys`).
- CachedStore.AddValid: in LAZY mode it requires the lookup read to succeed. When that read fails, the source's add appends a duplicate id and the LAZY invariant is lost (`CachedStore.LazyAddDuplicatesId`; see "## Findings"). `CachedStore.AddCorrectedValid` proves the invariant over the corrected store for every I/O outcome.
- CachedStore.UpdateValid: in EAGER mode it requires the same round-trip property of the converter, for the same reason; the key half holds for every converter (`CachedStore.UpdateKeepsKeys`).
- CachedStore.AddCorrectedValid: in EAGER mode it requires a round-tripping converter, for the value clause of the mirror only; `CachedStore.OperationsKeepKeys` states the key mirror and the LAZY invariant for every converter.
- CachedStore.UpdateKeepsMirror: requires a round-tripping converter, because the stored record must convert back to the entity the cache now holds; `CachedStore.UpdateKeepsKeys` states the key half for every converter.
- CachedStore.UpdateMissingIsNoop: in LAZY mode it requires a readable file. On an unreadable file the store answers FAILURE and update raises instead.
- CachedStore.RemoveThenGet: requires the mode invariant. Its unique ids keep DemoRepo's remove, which deletes only the first line with the id, from leaving a later line with that id behind, which a LAZY get would fetch back (`CachedStore.RemovedEntityReturns`).

## Findings

| source | as written | input that shows it | evidently intended | confidence | as-written member | corrected member |
|---|---|---|---|---|---|---|
| src/DemoRepo.java:52-60 | `add` calls `get` to test for the id, and `get` returns null both for a missing id and for a read that failed; `add` then appends the record and answers SUCCESS | a file holding id 7, a lookup read that fails, and a write that succeeds: the file ends with two lines carrying id 7 | ids stay unique (the cache relies on this: `remove` deletes only the first matching line), so a lookup that could not read the file should answer FAILURE | medium, not executed | DemoRepo.AddAsWrittenDuplicatesId, CachedStore.LazyAddDuplicatesId | DemoRepo.AddKeepsIdsUnique, CachedStore.AddCorrectedValid |

`CachedStore.Add` puts the cache in front of the add as written, which is the program's behaviour. `CachedStore.AddCorrected` puts it in front of the corrected `DemoRepo.Add`, and the two agree whenever the lookup read succeeds. Under the EAGER mirror the fault is harmless, because a consulted add concerns an id the file lacks (`CachedStore.EagerAddOutcome`, `CachedStore.AddValid`). In LAZY mode it duplicates the id (`CachedStore.LazyAddDuplicatesId`). A later successful `remove` then deletes the OLD line, the first with the id, and keeps the added one, so the next `get` returns the entity that was just removed (`CachedStore.RemovedEntityReturns`).
