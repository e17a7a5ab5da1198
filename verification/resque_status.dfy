/**
 * The ResqueStatus worker registry: three pieces of shared store state and
 * the operations over them.
 *
 * - `workers`: the worker hash, process id to opaque descriptor;
 * - `marker`: the scheduler-worker key, absent or holding one process id;
 * - `paused`: the set of paused worker names.
 *
 * The store removes a hash or set once it is empty, so "the key is absent"
 * and "the collection is empty" are the same state here. Each operation is a
 * transition from one store state to the next; every store write succeeds.
 */
module ResqueStatus {

  import opened Wrappers
  import Workers

  /** Process id, as the store keeps it: a string (integer ids in decimal form). */
  type Pid = string

  /** Worker name, as kept in the paused set. */
  type WorkerName = string

  /** The three store keys of the registry; `D` is the caller's descriptor type. */
  datatype Store<D> = Store(workers: map<Pid, D>, marker: Option<Pid>, paused: set<WorkerName>)

  /** What an operation answers, together with the store it leaves behind. */
  datatype Reply<R, D> = Reply(value: R, next: Store<D>)

  /** A store with no workers, no scheduler and nothing paused. */
  function EmptyStore<D>(): Store<D>
  {
    Store(map[], None, {})
  }

  /**
   * The consistency the scheduler marker is meant to have: when present, it
   * names a registered worker. It can be broken by a worker vanishing from the
   * hash; `IsRunningSchedulerWorker` restores it.
   */
  predicate Consistent<D>(s: Store<D>)
  {
    s.marker.Some? ==> s.marker.value in s.workers
  }

  // ---------------------------------------------------------------- workers

  /** Store descriptor `d` under `id`, replacing any entry for `id` and keeping all others. */
  function AddWorker<D>(s: Store<D>, id: Pid, d: D): (r: Reply<bool, D>)
    ensures r.value
    ensures id in r.next.workers && r.next.workers[id] == d
    ensures r.next.workers.Keys == s.workers.Keys + {id}
    ensures forall p :: p in s.workers && p != id ==> r.next.workers[p] == s.workers[p]
    ensures r.next.marker == s.marker && r.next.paused == s.paused
  {
    Reply(true, s.(workers := s.workers[id := d]))
  }

  /** Every registered worker with its descriptor, exactly as stored; empty when none is. */
  function GetWorkers<D>(s: Store<D>): (ws: map<Pid, D>)
    ensures forall p :: p in ws <==> p in s.workers
    ensures forall p :: p in ws ==> ws[p] == s.workers[p]
  {
    s.workers
  }

  /** Drop the entry for `id`, if any; other entries, the marker and the paused set stay. */
  function RemoveWorker<D>(s: Store<D>, id: Pid): (r: Store<D>)
    ensures id !in r.workers
    ensures r.workers.Keys == s.workers.Keys - {id}
    ensures forall p :: p in r.workers ==> r.workers[p] == s.workers[p]
    ensures r.marker == s.marker && r.paused == s.paused
  {
    s.(workers := s.workers - {id})
  }

  /** Delete the worker hash and the paused set; the scheduler marker is a different key and stays. */
  function ClearWorkers<D>(s: Store<D>): (r: Store<D>)
    ensures forall p :: p !in r.workers
    ensures forall n :: n !in r.paused
    ensures r.marker == s.marker
  {
    s.(workers := map[], paused := {})
  }

  // ------------------------------------------------------ scheduler marker

  /** Make `id` the scheduler, overwriting any earlier claimant; membership in the hash is not checked. */
  function RegisterSchedulerWorker<D>(s: Store<D>, id: Pid): (r: Reply<bool, D>)
    ensures r.value
    ensures r.next.marker == Some(id)
    ensures r.next.workers == s.workers && r.next.paused == s.paused
  {
    Reply(true, s.(marker := Some(id)))
  }

  /** Delete the scheduler marker; deleting an absent one is not an error. */
  function UnregisterSchedulerWorker<D>(s: Store<D>): (r: Reply<bool, D>)
    ensures r.value
    ensures r.next.marker.None?
    ensures r.next.workers == s.workers && r.next.paused == s.paused
  {
    Reply(true, s.(marker := None))
  }

  /**
   * Whether `w` is the scheduler: the marker is present and equals the
   * process id carried by `w`'s name. Reads only.
   */
  function IsSchedulerWorker<D>(s: Store<D>, w: Workers.Worker): (b: bool)
    ensures s.marker.None? ==> !b
    ensures Workers.PidOf(w).None? ==> !b
    ensures b <==> s.marker.Some? && Workers.PidOf(w) == Some(s.marker.value)
  {
    match s.marker
    case None => false
    case Some(pid) =>
      match Workers.PidOf(w)
      case None => false
      case Some(own) => own == pid
  }

  /**
   * Whether a scheduler is actually running: the marker is present and names
   * a registered worker. A marker naming an unregistered process is stale and
   * is removed (by unregistering the scheduler) before answering false.
   */
  function IsRunningSchedulerWorker<D>(s: Store<D>): (r: Reply<bool, D>)
    ensures r.value <==> s.marker.Some? && s.marker.value in s.workers
    ensures Consistent(r.next)
    ensures r.next.workers == s.workers && r.next.paused == s.paused
    ensures r.value ==> r.next.marker == s.marker
    ensures s.marker.None? ==> r.next == s
    ensures s.marker.Some? && s.marker.value !in s.workers ==> r.next.marker.None?
  {
    match s.marker
    case None => Reply(false, s)
    case Some(pid) =>
      if pid in s.workers then
        Reply(true, s)
      else
        Reply(false, UnregisterSchedulerWorker(s).next)
  }

  // ------------------------------------------------------------ paused set

  /** Mark `name` paused (`paused` true, the default) or active (`paused` false); no other name changes. */
  function SetPausedWorker<D>(s: Store<D>, name: WorkerName, paused: bool := true): (r: Store<D>)
    ensures name in r.paused <==> paused
    ensures forall n :: n != name ==> (n in r.paused <==> n in s.paused)
    ensures r.workers == s.workers && r.marker == s.marker
  {
    if paused then s.(paused := s.paused + {name}) else s.(paused := s.paused - {name})
  }

  /**
   * The paused worker names, each once, in no particular order; the empty
   * sequence when nothing is paused.
   */
  method GetPausedWorker<D>(s: Store<D>) returns (names: seq<WorkerName>)
    ensures forall n :: n in names <==> n in s.paused
    ensures forall i, j :: 0 <= i < j < |names| ==> names[i] != names[j]
    ensures |names| == |s.paused|
  {
    names := [];
    var rest := s.paused;
    while rest != {}
      invariant rest <= s.paused
      invariant forall n :: n in names <==> n in s.paused && n !in rest
      invariant forall i, j :: 0 <= i < j < |names| ==> names[i] != names[j]
      invariant |names| + |rest| == |s.paused|
      decreases |rest|
    {
      var n :| n in rest;
      names := names + [n];
      rest := rest - {n};
    }
  }
}
