/**
 * The registry's test cases restated on the model: the same starting store,
 * the same operation, the same expected answer and resulting store.
 */
module Scenarios {

  import opened Wrappers
  import opened ResqueStatus
  import Workers
  import RegistryLaws

  /** A descriptor as the tests write one: an associative array of name and flag fields. */
  datatype Value = Text(s: string) | Flag(b: bool)
  type Descriptor = map<string, Value>

  /** The three workers every test starts from, keyed by their process ids. */
  function FixtureWorkers(): map<Pid, Workers.Worker>
  {
    map["100" := Workers.Worker("One:100:queue5", 5),
        "101" := Workers.Worker("Two:101:queue1", 10),
        "102" := Workers.Worker("Three:102:schedulerWorker", 145)]
  }

  /** Adding a second worker keeps the first, and both descriptors come back whole, `debug` field included. */
  lemma AddWorkerKeepsOthers()
    ensures var zero: Descriptor := map["name" := Text("WorkerZero")];
            var one: Descriptor := map["name" := Text("workerOne"), "debug" := Flag(true)];
            var r := AddWorker(Store(map["0125" := zero], None, {}), "6523", one);
            && r.value
            && |r.next.workers| == 2
            && GetWorkers(r.next)["0125"] == zero
            && GetWorkers(r.next)["6523"] == one
            && "debug" in GetWorkers(r.next)["6523"]
  {
    var zero: Descriptor := map["name" := Text("WorkerZero")];
    var r := AddWorker(Store(map["0125" := zero], None, {}), "6523", map["name" := Text("workerOne"), "debug" := Flag(true)]);
    assert r.next.workers.Keys == {"0125", "6523"};
  }

  /** Registering process 100 as scheduler succeeds and the marker then holds it. */
  lemma RegisterSchedulerWorkerSetsMarker()
    ensures var r := RegisterSchedulerWorker(EmptyStore<string>(), "100");
            r.value && r.next.marker == Some("100")
  {
  }

  /** With marker `102`, the worker named `Three:102:schedulerWorker` is the scheduler. */
  lemma IsSchedulerWorkerMatchesPid()
    ensures IsSchedulerWorker<string>(Store(map[], Some("102"), {}), FixtureWorkers()["102"])
  {
    assert Workers.FormatName("Three", "102", "schedulerWorker") == "Three:102:schedulerWorker";
    Workers.PidOfFormattedName("Three", "102", "schedulerWorker", 145);
  }

  /** With no marker, no worker is the scheduler. */
  lemma IsSchedulerWorkerWithoutMarker()
    ensures !IsSchedulerWorker(EmptyStore<Workers.Worker>(), FixtureWorkers()["100"])
  {
  }

  /** Marker `100` with process 100 registered: a scheduler is running and nothing changes. */
  lemma IsRunningWithRegisteredScheduler()
    ensures var s := Store(map["100" := ""], Some("100"), {});
            IsRunningSchedulerWorker(s) == Reply(true, s)
  {
  }

  /** No marker: no scheduler is running, and the check changes nothing. */
  lemma IsRunningWithoutMarker()
    ensures IsRunningSchedulerWorker(EmptyStore<string>()) == Reply(false, EmptyStore<string>())
  {
  }

  /**
   * Marker `102` while only 100 and 101 are registered: the check answers
   * false, unregisters the scheduler (the marker is gone), leaves the hash
   * alone, and process 102's worker is no longer the scheduler.
   */
  lemma IsRunningCleansUpStaleMarker()
    ensures var s := Store(map["100" := "", "101" := ""], Some("102"), {});
            var r := IsRunningSchedulerWorker(s);
            && !r.value
            && r.next == UnregisterSchedulerWorker(s).next
            && r.next.marker.None?
            && r.next.workers == s.workers
            && !IsSchedulerWorker(r.next, FixtureWorkers()["102"])
  {
  }

  /** Unregistering succeeds and removes the marker. */
  lemma UnregisterRemovesMarker()
    ensures var r := UnregisterSchedulerWorker<string>(Store(map[], Some("schedulerWorker"), {}));
            r.value && r.next.marker.None?
  {
  }

  /** The three fixture workers stored under their ids are listed back exactly. */
  lemma GetWorkersListsFixture()
    ensures var fixture := FixtureWorkers();
            var s1 := AddWorker(EmptyStore(), "100", fixture["100"]).next;
            var s2 := AddWorker(s1, "101", fixture["101"]).next;
            var s3 := AddWorker(s2, "102", fixture["102"]).next;
            GetWorkers(s3) == fixture
  {
  }

  /** Pausing a name in an empty set gives a one-member set holding it. */
  lemma PauseIntoEmptySet()
    ensures var r := SetPausedWorker(EmptyStore<string>(), "workerName");
            |r.paused| == 1 && "workerName" in r.paused
  {
    var r := SetPausedWorker(EmptyStore<string>(), "workerName");
    assert r.paused == {"workerName"};
  }

  /** Resuming one of two paused workers leaves exactly the other. */
  lemma ResumeLeavesOthers()
    ensures SetPausedWorker<string>(Store(map[], None, {"workerOne", "workerTwo"}), "workerOne", false).paused
            == {"workerTwo"}
  {
  }

  /** Listing two paused workers yields both, each once. */
  method ListTwoPausedWorkers() returns (names: seq<WorkerName>)
    ensures |names| == 2 && "workerOne" in names && "workerTwo" in names
  {
    names := GetPausedWorker<string>(Store(map[], None, {"workerOne", "workerTwo"}));
    assert |{"workerOne", "workerTwo"}| == 2;
  }

  /** Listing an empty paused set yields the empty sequence. */
  method ListNoPausedWorkers() returns (names: seq<WorkerName>)
    ensures names == []
  {
    names := GetPausedWorker(EmptyStore<string>());
  }

  /** Removing process 100 from the three fixture workers leaves 101 and 102. */
  lemma RemoveFixtureWorker()
    ensures RemoveWorker(Store(FixtureWorkers(), None, {}), "100").workers.Keys == {"101", "102"}
  {
  }

  /** Clearing leaves neither workers nor paused names, whatever was there. */
  lemma ClearWorkersEmptiesBoth(s: Store<string>)
    ensures var r := ClearWorkers(s);
            |r.workers| == 0 && |r.paused| == 0
  {
  }
}
