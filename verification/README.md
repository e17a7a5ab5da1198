# ResqueStatus worker registry — a Dafny model

ResqueStatus keeps the registration state of a Resque worker cluster in a
shared Redis store, under three keys:

- the **worker hash**: process id → serialized worker descriptor;
- the **scheduler-worker key**: the process id of the scheduler worker, if any;
- the **paused-worker set**: the names of paused workers.

This project models that state as one immutable value,
`ResqueStatus.Store<D>` (a `map`, an `Option` and a `set`; `D` is the caller's
descriptor type). Each registry operation is a pure transition. Mutating
operations return a `Reply(value, next)`: the answer and the store left behind.
The one decision point is `IsRunningSchedulerWorker`. A scheduler marker that
names a process missing from the worker hash is stale. That check unregisters
the stale marker and answers false.

The implementation class is not part of this model. Its behaviour is fixed by
the assertions of `tests/ResqueStatusTest.php`, so this is an abstract-state
model of those assertions. Where the test says nothing, the model takes each
operation at its plain meaning. Removing deletes one field of the worker hash.
Clearing deletes the worker hash and the paused set, but not the scheduler
marker. Registering a scheduler overwrites any earlier marker without looking
at the worker hash.

Files:

- `wrappers.dfy`: `Option`.
- `fields.dfy`: `Split` / `Join` on a one-character separator, with PHP
  `explode` semantics, and their round-trip lemmas.
- `workers.dfy`: the worker value (`name`, `interval`), its string form, and
  the process id carried in a `host:pid:queues` name.
- `resque_status.dfy`: the store and the ten registry operations.
- `laws.dfy`: laws that relate operations. They cover round trips,
  last-writer-wins, idempotence, the scheduler life cycle (no scheduler →
  claimed → live) and the marker-consistency invariant.
- `scenarios.dfy`: each test case restated on the model.

`isSchedulerWorker` takes a worker object, not a bare process id. It compares
the marker with the second `:`-separated field of the worker's string form, so
marker `102` matches `Three:102:schedulerWorker`.

## Model

| member | source | states |
|---|---|---|
| ResqueStatus.AddWorker | tests/ResqueStatusTest.php:54-71 | adding answers true; the new id maps to exactly the given descriptor; the key set gains only that id; every other entry, the marker and the paused set are kept |
| ResqueStatus.GetWorkers | tests/ResqueStatusTest.php:142-148 | the listing has exactly the registered ids, each with its stored descriptor |
| ResqueStatus.RemoveWorker | tests/ResqueStatusTest.php:205-210 | the id is gone; the key set loses only that id; remaining descriptors, the marker and the paused set are unchanged (the test's final assertion checks nothing, see Left out) |
| ResqueStatus.ClearWorkers | tests/ResqueStatusTest.php:223-231 | afterwards no worker entry and no paused name remain, whatever was there; the scheduler marker is a separate key and stays |
| ResqueStatus.RegisterSchedulerWorker | tests/ResqueStatusTest.php:76-81 | registering answers true and the marker then holds the given id; the worker hash and paused set are unchanged |
| ResqueStatus.UnregisterSchedulerWorker | tests/ResqueStatusTest.php:131-137 | unregistering answers true and the marker is absent afterwards; nothing else changes |
| ResqueStatus.IsSchedulerWorker | tests/ResqueStatusTest.php:86-96 | true exactly when a marker is set and equals the process id in the worker's name; false with no marker or with a name carrying no id |
| ResqueStatus.IsRunningSchedulerWorker | tests/ResqueStatusTest.php:101-126 | true exactly when a marker is set and names a registered worker; afterwards the marker is absent or names a registered worker; a stale marker is cleared; a live or absent marker is left alone; the worker hash and paused set never change |
| ResqueStatus.SetPausedWorker | tests/ResqueStatusTest.php:153-175 | afterwards the name is paused exactly when the flag says so (the flag defaults to pausing); membership of every other name is unchanged |
| ResqueStatus.GetPausedWorker | tests/ResqueStatusTest.php:180-200 | the result lists every paused name exactly once and nothing else, in any order; it is empty when nothing is paused |
| Workers.PidOf | tests/ResqueStatusTest.php:39-41 | a worker's string form (its name) carries a process id exactly when it contains `:`; the id is the second field: it follows the first `:`, the text before it has no `:`, and the id runs to the next `:` or to the end of the name (so `host:pid` names are covered too) |
| Workers.PidOfFormattedName | tests/ResqueStatusTest.php:39-41 | a worker named `host:pid:queues` carries exactly `pid`, whatever the queue list holds |
| Fields.Split | tests/ResqueStatusTest.php:41 | splitting a name on `:` gives at least one field; no field contains `:`; there are two or more fields exactly when the name contains `:` |
| RegistryLaws.ConsistentIffNotClaimed | tests/ResqueStatusTest.php:117-126 | the marker is consistent exactly when the store is not in the claimed-but-not-live phase |
| RegistryLaws.IsRunningPhases | tests/ResqueStatusTest.php:101-126 | the liveness check answers true exactly in the live phase; it moves claimed to no-scheduler and leaves the other phases alone |
| RegistryLaws.RegisterPhase | tests/ResqueStatusTest.php:76-81 | registering gives the live phase when the id is in the worker hash, and the claimed phase otherwise |
| RegistryLaws.IsRunningOnConsistentStore | tests/ResqueStatusTest.php:101-112 | on a consistent store the liveness check changes nothing and answers whether a marker is set |
| RegistryLaws.IsRunningIdempotent | tests/ResqueStatusTest.php:117-126 | a second liveness check gives the same answer and changes nothing more |
| RegistryLaws.RemovingSchedulerMakesItStale | tests/ResqueStatusTest.php:117-126 | after the scheduler's own entry is removed, the liveness check answers false and clears the marker; the other entries stay |
| RegistryLaws.ConsistencyPreserved | tests/ResqueStatusTest.php:101-126 | adding workers, pausing and unregistering keep a consistent marker consistent; so does removing any id but the scheduler's, and clearing when no marker is set; registering keeps it consistent exactly when the id is registered |
| RegistryLaws.RegisterLastWins | tests/ResqueStatusTest.php:76-81 | of two registrations, the later one alone determines the store |
| RegistryLaws.RegisterThenIsScheduler | tests/ResqueStatusTest.php:76-96 | after registering an id, a worker is the scheduler exactly when its name carries that id |
| RegistryLaws.UnregisterThenNoScheduler | tests/ResqueStatusTest.php:131-137 | after unregistering no worker is the scheduler; unregistering again changes nothing |
| RegistryLaws.UnregisterUndoesRegister | tests/ResqueStatusTest.php:131-137 | registering then unregistering leaves the same store as unregistering alone |
| RegistryLaws.AddThenGetWorkers | tests/ResqueStatusTest.php:54-71 | after adding, the listing is the earlier listing with that id set to the descriptor |
| RegistryLaws.RemoveUndoesAdd | tests/ResqueStatusTest.php:205-210 | removing the id just added gives the same store as removing it before the add; the original store when the id was new |
| RegistryLaws.RemoveIdempotent | tests/ResqueStatusTest.php:205-210 | removing an id twice is the same as removing it once |
| RegistryLaws.GetWorkersAfterAddWorkers | tests/ResqueStatusTest.php:142-148 | after storing entries with distinct ids one by one, the listing holds exactly the earlier ids plus the new ones; each new id has its own descriptor and earlier entries not overwritten are kept |
| RegistryLaws.PauseThenResume | tests/ResqueStatusTest.php:153-175 | pausing then resuming a name equals resuming alone, and restores the set when the name was not paused |
| RegistryLaws.SetPausedIdempotent | tests/ResqueStatusTest.php:153-175 | setting the same paused flag twice equals setting it once, in either direction |
| RegistryLaws.ClearWorkersIdempotent | tests/ResqueStatusTest.php:223-231 | clearing yields an empty hash and an empty paused set with the marker kept; clearing again changes nothing |
| Scenarios.AddWorkerKeepsOthers | tests/ResqueStatusTest.php:54-71 | adding worker 6523 next to 0125 answers true; the hash then has two entries; both descriptors come back whole, 6523's `debug` field included |
| Scenarios.RegisterSchedulerWorkerSetsMarker | tests/ResqueStatusTest.php:76-81 | registering 100 answers true and the marker holds `100` |
| Scenarios.IsSchedulerWorkerMatchesPid | tests/ResqueStatusTest.php:86-89 | with marker `102`, the worker named `Three:102:schedulerWorker` is the scheduler |
| Scenarios.IsSchedulerWorkerWithoutMarker | tests/ResqueStatusTest.php:94-96 | with no marker, worker 100 is not the scheduler |
| Scenarios.IsRunningWithRegisteredScheduler | tests/ResqueStatusTest.php:101-105 | marker `100` with 100 registered: answers true and the store is unchanged |
| Scenarios.IsRunningWithoutMarker | tests/ResqueStatusTest.php:110-112 | empty store: answers false and the store is unchanged |
| Scenarios.IsRunningCleansUpStaleMarker | tests/ResqueStatusTest.php:117-126 | marker `102` with only 100 and 101 registered: answers false; the result store is the unregister result, so the marker is gone and the hash unchanged; worker 102 is no longer the scheduler |
| Scenarios.UnregisterRemovesMarker | tests/ResqueStatusTest.php:131-137 | unregistering a set marker answers true and the marker is absent |
| Scenarios.GetWorkersListsFixture | tests/ResqueStatusTest.php:142-148 | the three fixture workers stored under 100, 101 and 102 are listed back as exactly that map |
| Scenarios.PauseIntoEmptySet | tests/ResqueStatusTest.php:153-159 | pausing `workerName` in an empty set gives one member, `workerName` |
| Scenarios.ResumeLeavesOthers | tests/ResqueStatusTest.php:164-175 | resuming `workerOne` out of {`workerOne`, `workerTwo`} leaves exactly {`workerTwo`} |
| Scenarios.ListTwoPausedWorkers | tests/ResqueStatusTest.php:180-192 | listing {`workerOne`, `workerTwo`} yields two names, both of them |
| Scenarios.ListNoPausedWorkers | tests/ResqueStatusTest.php:198-200 | listing an empty paused set yields the empty sequence |
| Scenarios.RemoveFixtureWorker | tests/ResqueStatusTest.php:205-210 | removing 100 from the three fixture workers leaves ids 101 and 102 |
| Scenarios.ClearWorkersEmptiesBoth | tests/ResqueStatusTest.php:223-231 | after clearing, the hash and the paused set are empty, whatever they held |

## Left out

- Redis connection and database selection (tests/ResqueStatusTest.php:28-30) are store configuration. The store is the `Store` value itself.
- Configurable key names and the `test_` prefixes (tests/ResqueStatusTest.php:34-36, 44-49) are left out. The three keys are the three fields of `Store`. Line 36 uses `.` where `=` was meant, so the paused key is never prefixed. That only affects test isolation, not registry logic.
- Serialization: descriptors are opaque values of type `D` that come back by identity, so `serialize`/`unserialize` do not appear.
- Process ids are strings, as the store keeps them. An integer id such as `6523` stands for its decimal string `"6523"`. Ids are compared with exact string equality, not PHP's loose numeric-string comparison.
- Empty keys: the store deletes a hash or set once it is empty, so "key absent" is modelled as an empty map or set.
- ResqueStatus.ClearWorkers: the test at tests/ResqueStatusTest.php:224-225 writes plain strings into the hash and set keys. A typed store cannot hold those values. The model only shows that both collections end up empty from any typed starting state.
- ResqueStatus.RemoveWorker: the assertion at tests/ResqueStatusTest.php:217 compares the boolean results of two `sort()` calls. Line 213 also unsets an index that does not exist. So the test checks nothing, and the contract says that one hash field is deleted and nothing else changes, which the test does not establish.
- The PHPUnit mock at tests/ResqueStatusTest.php:122-124 is not modelled. "`unregisterSchedulerWorker` is called once" becomes this: the stale-case result store is exactly `UnregisterSchedulerWorker`'s result, and a live or absent marker is never cleared.
- Store failures: every store write succeeds, and a failing corrective unregister is not represented.
- ResqueStatus.AddWorker: answers true even when it overwrites an existing id. The test fixes the answer only for a new id (tests/ResqueStatusTest.php:61-63). Redis replies 0 to a hash write that overwrites a field, and how the wrapper reports that reply is not visible here, so the answer on overwrite is assumed.
- ResqueStatus.UnregisterSchedulerWorker: answers true even when no marker was set. The test fixes the answer only for a marker that is set (tests/ResqueStatusTest.php:133-135). Redis replies 0 to deleting an absent key, and how the wrapper reports that reply is not visible here, so the answer with no marker is assumed.
- Concurrency: there is a single sequential caller. `isRunningSchedulerWorker` reads, then deletes, without a transaction. Its race with a concurrent `registerSchedulerWorker` is not modelled.
- Return values of `removeWorker`, `clearWorkers` and `setPausedWorker` are not asserted anywhere, so these operations return only the new store.
- A worker's polling interval (`Worker.interval`) is carried but plays no part in any registry decision.
