/**
 * Laws relating the registry operations to each other: round trips,
 * last-writer-wins, idempotence, and the scheduler marker's consistency.
 */
module RegistryLaws {

  import opened Wrappers
  import opened ResqueStatus
  import Workers

  // ------------------------------------------------- scheduler life cycle

  /**
   * Where the store stands with respect to its scheduler: none registered,
   * claimed by a process that is not in the worker hash, or claimed by a
   * registered (live) worker.
   */
  datatype Phase = NoScheduler | SchedulerClaimed | SchedulerLive

  function PhaseOf<D>(s: Store<D>): Phase
  {
    match s.marker
    case None => NoScheduler
    case Some(pid) => if pid in s.workers then SchedulerLive else SchedulerClaimed
  }

  /** The marker is consistent exactly when the store is not in the claimed-but-not-live phase. */
  lemma ConsistentIffNotClaimed<D>(s: Store<D>)
    ensures Consistent(s) <==> PhaseOf(s) != SchedulerClaimed
  {
  }

  /**
   * The liveness check answers true exactly in the live phase, and leaves the
   * store out of the claimed phase: claimed goes to no scheduler, the other
   * two phases stay where they are.
   */
  lemma IsRunningPhases<D>(s: Store<D>)
    ensures IsRunningSchedulerWorker(s).value <==> PhaseOf(s) == SchedulerLive
    ensures PhaseOf(IsRunningSchedulerWorker(s).next)
            == (if PhaseOf(s) == SchedulerClaimed then NoScheduler else PhaseOf(s))
  {
  }

  /** Registering moves to the live phase when `id` is registered, and to the claimed phase otherwise. */
  lemma RegisterPhase<D>(s: Store<D>, id: Pid)
    ensures PhaseOf(RegisterSchedulerWorker(s, id).next)
            == (if id in s.workers then SchedulerLive else SchedulerClaimed)
  {
  }

  /** On a consistent store the liveness check only reads: it answers whether a marker is set. */
  lemma IsRunningOnConsistentStore<D>(s: Store<D>)
    requires Consistent(s)
    ensures IsRunningSchedulerWorker(s) == Reply(s.marker.Some?, s)
  {
  }

  /** Asking twice gives the same answer, and the second call changes nothing. */
  lemma IsRunningIdempotent<D>(s: Store<D>)
    ensures var first := IsRunningSchedulerWorker(s);
            IsRunningSchedulerWorker(first.next) == first
  {
    var first := IsRunningSchedulerWorker(s);
    IsRunningOnConsistentStore(first.next);
  }

  /**
   * Removing the scheduler's own entry from the worker hash leaves the marker
   * stale; the next liveness check answers false and clears it.
   */
  lemma RemovingSchedulerMakesItStale<D>(s: Store<D>, id: Pid)
    requires s.marker == Some(id)
    ensures var r := IsRunningSchedulerWorker(RemoveWorker(s, id));
            !r.value && r.next.marker.None? && r.next.workers == s.workers - {id}
  {
  }

  /** Which operations keep the marker consistent: all but removing, clearing and registering an unknown id. */
  lemma ConsistencyPreserved<D>(s: Store<D>, id: Pid, d: D, name: WorkerName, paused: bool)
    requires Consistent(s)
    ensures Consistent(AddWorker(s, id, d).next)
    ensures Consistent(SetPausedWorker(s, name, paused))
    ensures Consistent(UnregisterSchedulerWorker(s).next)
    ensures s.marker != Some(id) ==> Consistent(RemoveWorker(s, id))
    ensures s.marker.None? ==> Consistent(ClearWorkers(s))
    ensures id in s.workers <==> Consistent(RegisterSchedulerWorker(s, id).next)
  {
  }

  // ------------------------------------------------------ scheduler marker

  /** The most recent registration wins, whoever registered before. */
  lemma RegisterLastWins<D>(s: Store<D>, a: Pid, b: Pid)
    ensures RegisterSchedulerWorker(RegisterSchedulerWorker(s, a).next, b).next
            == RegisterSchedulerWorker(s, b).next
  {
  }

  /** After registering `id`, a worker is the scheduler exactly when its name carries `id`. */
  lemma RegisterThenIsScheduler<D>(s: Store<D>, id: Pid, w: Workers.Worker)
    ensures IsSchedulerWorker(RegisterSchedulerWorker(s, id).next, w) <==> Workers.PidOf(w) == Some(id)
  {
  }

  /** After unregistering, no worker is the scheduler, and unregistering again changes nothing. */
  lemma UnregisterThenNoScheduler<D>(s: Store<D>, w: Workers.Worker)
    ensures !IsSchedulerWorker(UnregisterSchedulerWorker(s).next, w)
    ensures var once := UnregisterSchedulerWorker(s).next;
            UnregisterSchedulerWorker(once).next == once
  {
  }

  /** Registering and then unregistering leaves the same store as unregistering alone. */
  lemma UnregisterUndoesRegister<D>(s: Store<D>, id: Pid)
    ensures UnregisterSchedulerWorker(RegisterSchedulerWorker(s, id).next).next
            == UnregisterSchedulerWorker(s).next
  {
  }

  // ---------------------------------------------------------------- workers

  /** A descriptor added under `id` is read back unchanged, next to every other entry. */
  lemma AddThenGetWorkers<D>(s: Store<D>, id: Pid, d: D)
    ensures GetWorkers(AddWorker(s, id, d).next) == GetWorkers(s)[id := d]
  {
  }

  /** Removing the entry just added removes it and no other: the hash is as before without `id`. */
  lemma RemoveUndoesAdd<D>(s: Store<D>, id: Pid, d: D)
    ensures RemoveWorker(AddWorker(s, id, d).next, id) == RemoveWorker(s, id)
    ensures id !in s.workers ==> RemoveWorker(AddWorker(s, id, d).next, id) == s
  {
  }

  /** Removing is idempotent. */
  lemma RemoveIdempotent<D>(s: Store<D>, id: Pid)
    ensures RemoveWorker(RemoveWorker(s, id), id) == RemoveWorker(s, id)
  {
  }

  /** Store each `(pid, descriptor)` in turn, as a worker loop registering several processes does. */
  function AddWorkers<D>(s: Store<D>, entries: seq<(Pid, D)>): Store<D>
    decreases |entries|
  {
    if |entries| == 0 then s
    else AddWorkers(AddWorker(s, entries[0].0, entries[0].1).next, entries[1..])
  }

  /** The process ids named in `entries`. */
  function PidsOf<D>(entries: seq<(Pid, D)>): set<Pid>
  {
    set i | 0 <= i < |entries| :: entries[i].0
  }

  /** No process id occurs twice in `entries`. */
  predicate DistinctPids<D>(entries: seq<(Pid, D)>)
  {
    forall i, j :: 0 <= i < j < |entries| ==> entries[i].0 != entries[j].0
  }

  /**
   * After storing entries with distinct process ids, the worker listing holds
   * every one of them with its own descriptor, plus the earlier entries whose
   * ids were not reused, and nothing else.
   */
  lemma {:induction false} GetWorkersAfterAddWorkers<D>(s: Store<D>, entries: seq<(Pid, D)>)
    requires DistinctPids(entries)
    ensures GetWorkers(AddWorkers(s, entries)).Keys == s.workers.Keys + PidsOf(entries)
    ensures forall i :: 0 <= i < |entries| ==> GetWorkers(AddWorkers(s, entries))[entries[i].0] == entries[i].1
    ensures forall p :: p in s.workers && p !in PidsOf(entries) ==> GetWorkers(AddWorkers(s, entries))[p] == s.workers[p]
    ensures AddWorkers(s, entries).marker == s.marker && AddWorkers(s, entries).paused == s.paused
    decreases |entries|
  {
    if |entries| == 0 {
      assert PidsOf(entries) == {};
    } else {
      var head := entries[0];
      var tail := entries[1..];
      var s1 := AddWorker(s, head.0, head.1).next;
      assert DistinctPids(tail) by {
        forall i, j | 0 <= i < j < |tail|
          ensures tail[i].0 != tail[j].0
        {
          assert tail[i] == entries[i + 1] && tail[j] == entries[j + 1];
        }
      }
      GetWorkersAfterAddWorkers(s1, tail);
      assert PidsOf(entries) == {head.0} + PidsOf(tail) by {
        forall p | p in PidsOf(entries)
          ensures p in {head.0} + PidsOf(tail)
        {
          var i :| 0 <= i < |entries| && entries[i].0 == p;
          if i > 0 {
            assert tail[i - 1] == entries[i];
          }
        }
        forall p | p in PidsOf(tail)
          ensures p in PidsOf(entries)
        {
          var i :| 0 <= i < |tail| && tail[i].0 == p;
          assert entries[i + 1] == tail[i];
        }
      }
      assert head.0 !in PidsOf(tail) by {
        forall i | 0 <= i < |tail|
          ensures tail[i].0 != head.0
        {
          assert tail[i] == entries[i + 1];
        }
      }
      var r := GetWorkers(AddWorkers(s, entries));
      assert AddWorkers(s, entries) == AddWorkers(s1, tail);
      forall i | 0 <= i < |entries|
        ensures r[entries[i].0] == entries[i].1
      {
        if i > 0 {
          assert entries[i] == tail[i - 1];
        }
      }
    }
  }

  // ------------------------------------------------------------ paused set

  /** Pausing and then resuming a name leaves the set as resuming alone would; unchanged if it was not paused. */
  lemma PauseThenResume<D>(s: Store<D>, name: WorkerName)
    ensures SetPausedWorker(SetPausedWorker(s, name, true), name, false) == SetPausedWorker(s, name, false)
    ensures name !in s.paused ==> SetPausedWorker(SetPausedWorker(s, name, true), name, false) == s
  {
  }

  /** Setting the same flag twice is the same as setting it once, in either direction. */
  lemma SetPausedIdempotent<D>(s: Store<D>, name: WorkerName, paused: bool)
    ensures SetPausedWorker(SetPausedWorker(s, name, paused), name, paused) == SetPausedWorker(s, name, paused)
  {
  }

  /** Clearing empties both collections whatever they held, and a second clear changes nothing. */
  lemma ClearWorkersIdempotent<D>(s: Store<D>)
    ensures ClearWorkers(ClearWorkers(s)) == ClearWorkers(s)
    ensures ClearWorkers(s) == Store(map[], s.marker, {})
  {
  }
}
