/**
 * The worker process as the registry sees it: a name of the form
 * `host:pid:queues` and a polling interval. Its string form is its name,
 * and the process id is the second colon-separated field of that name.
 */
module Workers {

  import opened Wrappers
  import Fields

  datatype Worker = Worker(name: string, interval: int)

  /** Separator between the host, process id and queue list of a worker name. */
  const NameSeparator: char := ':'

  /** The string form of a worker: its name. */
  function ToString(w: Worker): string
  {
    w.name
  }

  /**
   * The process id named by `w`: the second field of its string form, that
   * is, the text after the first separator up to the next separator or the
   * end of the name. A name with no separator carries no process id.
   */
  function PidOf(w: Worker): (pid: Option<string>)
    ensures pid.Some? <==> NameSeparator in ToString(w)
    ensures pid.Some? ==> NameSeparator !in pid.value
    ensures pid.Some? ==> Fields.IsSecondField(ToString(w), NameSeparator, pid.value)
  {
    var fields := Fields.Split(ToString(w), NameSeparator);
    if |fields| >= 2 then
      Fields.SecondFieldInPlace(ToString(w), NameSeparator);
      Some(fields[1])
    else
      None
  }

  /** The name `host:pid:queues` built from its three parts. */
  function FormatName(host: string, pid: string, queues: string): string
  {
    host + [NameSeparator] + pid + [NameSeparator] + queues
  }

  /** A worker named `host:pid:queues` reports exactly `pid`, whatever its queue list holds. */
  lemma PidOfFormattedName(host: string, pid: string, queues: string, interval: int)
    requires NameSeparator !in host && NameSeparator !in pid
    ensures PidOf(Worker(FormatName(host, pid, queues), interval)) == Some(pid)
  {
    var sep := NameSeparator;
    var name := FormatName(host, pid, queues);
    assert name == host + [sep] + (pid + [sep] + queues);
    Fields.SplitAfterField(host, sep, pid + [sep] + queues);
    Fields.SplitAfterField(pid, sep, queues);
  }
}
