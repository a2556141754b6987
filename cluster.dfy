/**
 * The primary process of the clustered server: it writes `primary.pid`, forks
 * the workers, replaces every worker that dies unless the death was caused by
 * SIGINT, removes the pid file on its own SIGINT, and starts a rolling restart
 * on SIGUSR1.
 *
 * Operating-system effects are recorded, in order, as `Action`s on a trace;
 * process ids come from the operating system and are parameters.  The
 * rolling-restart routine itself is not part of this model: the trace records
 * the call that hands it the workers, and its completion is the event
 * `OnRestartFinished`.
 */
module Cluster {
  import opened JsStrings

  /** The environment a worker is forked with: `CONFIG` and `USE_FILE_LOGGING`. */
  datatype WorkerEnv = WorkerEnv(config: string, useFileLogging: bool)

  /** A live worker: cluster's id (1, 2, …), its process id, and its environment. */
  datatype Worker = Worker(id: nat, pid: int, env: WorkerEnv)

  datatype Action =
    | WritePidFile(text: string)
    | ReadSecrets
    | SetupFileLogging(logFile: string)
    | RunPrimaryScript
    | Fork(env: WorkerEnv)
    | Log(line: string)
    | UnlinkPidFile
    | Exit
    | StartRollingRestart(workers: seq<Worker>, index: nat, restartTime: int)

  const SuccessLine: string := "All workers are restarted successfully (gracefully and recursively with timeout)."

  /**
   * Line 34: `numberOfWorkers || os.cpus().length`.  `None` stands for an
   * omitted option; 0 is falsy as well, so it too falls back to the CPU count.
   */
  function WorkerCount(numberOfWorkers: Option<int>, cpuCount: nat): (n: int)
    ensures numberOfWorkers.None? ==> n == cpuCount
    ensures numberOfWorkers == Some(0) ==> n == cpuCount
    ensures numberOfWorkers.Some? && numberOfWorkers.value != 0 ==> n == numberOfWorkers.value
    ensures n == 0 ==> cpuCount == 0
  {
    match numberOfWorkers
    case Some(k) => if k != 0 then k else cpuCount
    case None => cpuCount
  }

  /** How many times `for (let i = 0; i < numberOfWorkers; i++)` forks: none for a negative count. */
  function ForkCount(numberOfWorkers: Option<int>, cpuCount: nat): (n: nat)
    ensures n as int >= WorkerCount(numberOfWorkers, cpuCount)
    ensures WorkerCount(numberOfWorkers, cpuCount) >= 0 ==> n as int == WorkerCount(numberOfWorkers, cpuCount)
    ensures WorkerCount(numberOfWorkers, cpuCount) < 0 ==> n == 0
  {
    var k := WorkerCount(numberOfWorkers, cpuCount);
    if k < 0 then 0 else k
  }

  /** `${signal || code}`: a non-empty signal name, otherwise the exit code (`null` when there is none). */
  function ExitCause(code: Option<int>, signal: Option<string>): (r: string)
    ensures signal.Some? && signal.value != "" ==> r == signal.value
    ensures (signal.None? || signal.value == "") && code.None? ==> r == "null"
    ensures (signal.None? || signal.value == "") && code.Some? ==> r == IntToString(code.value)
  {
    if signal.Some? && signal.value != "" then signal.value
    else match code
      case None => "null"
      case Some(c) => IntToString(c)
  }

  predicate IsSigint(signal: Option<string>) {
    signal == Some("SIGINT")
  }

  /** The line logged when a worker dies (lines 55 and 58). */
  function ExitLine(pid: int, code: Option<int>, signal: Option<string>): (line: string)
    ensures StartsWith(line, "worker " + IntToString(pid) + " died (" + ExitCause(code, signal) + "). ")
    ensures IsSigint(signal) ==> EndsWith(line, "exiting...")
    ensures !IsSigint(signal) ==> EndsWith(line, "restarting...")
    ensures |line| == |"worker " + IntToString(pid) + " died (" + ExitCause(code, signal) + "). "|
                      + (if IsSigint(signal) then |"exiting..."| else |"restarting..."|)
  {
    var head := "worker " + IntToString(pid) + " died (" + ExitCause(code, signal) + "). ";
    var tail := if IsSigint(signal) then "exiting..." else "restarting...";
    assert (head + tail)[..|head|] == head;
    assert (head + tail)[|head| + |tail| - |tail|..] == tail;
    head + tail
  }

  /** The SIGINT line says the primary is exiting and never that it is restarting. */
  lemma ExitLineTellsOutcome(pid: int, code: Option<int>, signal: Option<string>)
    ensures EndsWith(ExitLine(pid, code, signal), "exiting...") <==> IsSigint(signal)
  {
    var line := ExitLine(pid, code, signal);
    if !IsSigint(signal) {
      assert line[|line| - 13..][3] == line[|line| - 10] == 't';
      assert line[|line| - 10..][0] == line[|line| - 10];
    }
  }

  /** The live workers once worker `id` has left cluster.workers. */
  function RemoveWorker(workers: seq<Worker>, id: nat): (r: seq<Worker>)
    ensures |r| <= |workers|
    ensures forall i | 0 <= i < |r| :: r[i].id != id
    ensures forall i | 0 <= i < |r| :: r[i] in workers
  {
    if workers == [] then []
    else if workers[0].id == id then RemoveWorker(workers[1..], id)
    else [workers[0]] + RemoveWorker(workers[1..], id)
  }

  predicate IdsIncreasing(workers: seq<Worker>) {
    forall i, j | 0 <= i < j < |workers| :: workers[i].id < workers[j].id
  }

  lemma {:induction false} RemoveAbsentWorker(workers: seq<Worker>, id: nat)
    requires forall k | 0 <= k < |workers| :: workers[k].id != id
    ensures RemoveWorker(workers, id) == workers
  {
    if workers != [] {
      RemoveAbsentWorker(workers[1..], id);
      assert workers == [workers[0]] + workers[1..];
    }
  }

  /** With increasing ids, removing the worker at index `k` takes out exactly that one. */
  lemma {:induction false} RemovePresentWorker(workers: seq<Worker>, k: nat)
    requires IdsIncreasing(workers) && k < |workers|
    ensures RemoveWorker(workers, workers[k].id) == workers[..k] + workers[k + 1..]
  {
    var id := workers[k].id;
    var tail := workers[1..];
    assert IdsIncreasing(tail) by {
      forall i, j | 0 <= i < j < |tail| ensures tail[i].id < tail[j].id {
        assert tail[i] == workers[i + 1] && tail[j] == workers[j + 1];
      }
    }
    if k == 0 {
      forall j | 0 <= j < |tail| ensures tail[j].id != id {
        assert tail[j] == workers[j + 1];
      }
      RemoveAbsentWorker(tail, id);
    } else {
      assert workers[0].id < id;
      assert RemoveWorker(workers, id) == [workers[0]] + RemoveWorker(tail, id);
      assert tail[k - 1] == workers[k];
      RemovePresentWorker(tail, k - 1);
      assert workers[..k] == [workers[0]] + tail[..k - 1];
      assert workers[k + 1..] == tail[k..];
      ConcatAssoc([workers[0]], tail[..k - 1], tail[k..]);
    }
  }

  /** The invariant cluster.workers keeps: ascending ids, each below `nextId`, with its pid and environment. */
  predicate WorkersInv(workers: seq<Worker>, nextId: nat, env: WorkerEnv, pidOfWorker: nat -> int) {
    && IdsIncreasing(workers)
    && forall i | 0 <= i < |workers| :: WellFormed(workers[i], nextId, env, pidOfWorker)
  }

  lemma RemovalKeepsInv(workers: seq<Worker>, k: nat, nextId: nat, env: WorkerEnv, pidOfWorker: nat -> int)
    requires k < |workers| && WorkersInv(workers, nextId, env, pidOfWorker)
    ensures WorkersInv(workers[..k] + workers[k + 1..], nextId, env, pidOfWorker)
    ensures |workers[..k] + workers[k + 1..]| == |workers| - 1
  {
    var r := workers[..k] + workers[k + 1..];
    forall i | 0 <= i < |r| ensures r[i] == workers[if i < k then i else i + 1] {}
    forall i, j | 0 <= i < j < |r| ensures r[i].id < r[j].id {
      var i' := if i < k then i else i + 1;
      var j' := if j < k then j else j + 1;
      assert r[i] == workers[i'] && r[j] == workers[j'];
    }
  }

  /** A newly forked worker, numbered `nextId`, keeps the invariant once `nextId` moves on. */
  lemma AppendKeepsInv(workers: seq<Worker>, nextId: nat, env: WorkerEnv, pidOfWorker: nat -> int)
    requires WorkersInv(workers, nextId, env, pidOfWorker) && nextId >= 1
    ensures WorkersInv(workers + [Worker(nextId, pidOfWorker(nextId), env)], nextId + 1, env, pidOfWorker)
  {
    var r := workers + [Worker(nextId, pidOfWorker(nextId), env)];
    forall i | 0 <= i < |r| ensures WellFormed(r[i], nextId + 1, env, pidOfWorker) {
      if i < |workers| { assert r[i] == workers[i]; }
    }
    forall i, j | 0 <= i < j < |r| ensures r[i].id < r[j].id {
      assert r[i] == workers[i];
      if j < |workers| { assert r[j] == workers[j]; }
    }
  }

  predicate WellFormed(w: Worker, nextId: nat, env: WorkerEnv, pidOfWorker: nat -> int) {
    1 <= w.id < nextId && w.env == env && w.pid == pidOfWorker(w.id)
  }

  /** The primary process, from the moment `clusterRunner` runs on it. */
  class Primary {
    const env: WorkerEnv
    const restartTime: int
    /** The number of workers the primary keeps alive. */
    const desired: nat
    /** The process id the operating system gives the worker cluster numbers `id`. */
    const pidOfWorker: nat -> int

    /** The contents of `primary.pid`, `None` once it is removed. */
    var pidFile: Option<string>
    /** cluster.workers, by ascending id. */
    var workers: seq<Worker>
    /** The id cluster gives the next worker it forks. */
    var nextId: nat
    var exited: bool
    var trace: seq<Action>

    ghost predicate Valid()
      reads this
    {
      && nextId >= 1
      && WorkersInv(workers, nextId, env, pidOfWorker)
      && (!exited ==> |workers| == desired && pidFile.Some?)
    }

    /**
     * Lines 34-51: write the pid file, read the secrets, choose the logger,
     * run the primary script, then fork the workers.
     */
    constructor Start(numberOfWorkers: Option<int>, cpuCount: nat, pid: nat, config: string,
                      logFile: Option<string>, restartTime: int, pidOfWorker: nat -> int)
      ensures Valid() && !exited
      ensures this.env == WorkerEnv(config, logFile.Some?)
      ensures this.restartTime == restartTime && this.pidOfWorker == pidOfWorker
      ensures desired == ForkCount(numberOfWorkers, cpuCount)
      ensures pidFile == Some(NatToString(pid))
      ensures |workers| == desired
      ensures forall k | 0 <= k < |workers| :: workers[k].id == k + 1
      ensures trace == [WritePidFile(NatToString(pid)), ReadSecrets]
        + (if logFile.Some? then [SetupFileLogging(logFile.value)] else [])
        + [RunPrimaryScript]
        + seq(desired, k => Fork(WorkerEnv(config, logFile.Some?)))
    {
      env := WorkerEnv(config, logFile.Some?);
      this.restartTime := restartTime;
      desired := ForkCount(numberOfWorkers, cpuCount);
      this.pidOfWorker := pidOfWorker;
      var text := NatToString(pid);
      pidFile := Some(text);
      exited := false;
      nextId := 1;
      workers := [];
      var setup := if logFile.Some? then [SetupFileLogging(logFile.value)] else [];
      var start := [WritePidFile(text), ReadSecrets] + setup + [RunPrimaryScript];
      trace := start;
      new;
      var i := 0;
      while i < desired
        invariant 0 <= i <= desired
        invariant pidFile == Some(text) && !exited
        invariant nextId == i + 1 && |workers| == i
        invariant forall k | 0 <= k < i :: workers[k] == Worker(k + 1, pidOfWorker(k + 1), env)
        invariant trace == start + seq(i, k => Fork(env))
      {
        workers := workers + [Worker(nextId, pidOfWorker(nextId), env)];
        nextId := nextId + 1;
        trace := trace + [Fork(env)];
        assert seq(i + 1, k => Fork(env)) == seq(i, k => Fork(env)) + [Fork(env)];
        i := i + 1;
      }
      assert WorkersInv(workers, nextId, env, pidOfWorker);
    }

    /**
     * The `exit` event for worker `id` (lines 53-61).  The model removes the
     * worker from the live set at its exit event.  A SIGINT death logs and exits
     * the primary; any other death logs and forks one replacement.
     */
    method OnWorkerExit(id: nat, code: Option<int>, signal: Option<string>)
      requires Valid() && !exited
      requires exists i | 0 <= i < |workers| :: workers[i].id == id
      modifies this
      ensures Valid()
      ensures IsSigint(signal) ==> exited
      ensures IsSigint(signal) ==> workers == RemoveWorker(old(workers), id)
      ensures IsSigint(signal) ==> trace == old(trace) + [Log(ExitLine(pidOfWorker(id), code, signal)), Exit]
      ensures !IsSigint(signal) ==> !exited
      ensures !IsSigint(signal) ==>
        workers == RemoveWorker(old(workers), id) + [Worker(old(nextId), pidOfWorker(old(nextId)), env)]
      ensures !IsSigint(signal) ==> trace == old(trace) + [Log(ExitLine(pidOfWorker(id), code, signal)), Fork(env)]
      ensures |workers| == if IsSigint(signal) then desired - 1 else desired
      ensures nextId == if IsSigint(signal) then old(nextId) else old(nextId) + 1
      ensures pidFile == old(pidFile)
    {
      var k :| 0 <= k < |workers| && workers[k].id == id;
      var line := Log(ExitLine(workers[k].pid, code, signal));
      RemovePresentWorker(workers, k);
      RemovalKeepsInv(workers, k, nextId, env, pidOfWorker);
      var remaining := RemoveWorker(workers, id);
      if IsSigint(signal) {
        workers, trace, exited := remaining, trace + [line, Exit], true;
      } else {
        AppendKeepsInv(remaining, nextId, env, pidOfWorker);
        workers, nextId, trace := remaining + [Worker(nextId, pidOfWorker(nextId), env)], nextId + 1, trace + [line, Fork(env)];
      }
    }

    /** The primary's own SIGINT (lines 63-66): remove `primary.pid`, then exit. */
    method OnPrimarySigint()
      requires Valid() && !exited
      modifies this
      ensures Valid() && exited && pidFile.None?
      ensures trace == old(trace) + [UnlinkPidFile, Exit]
      ensures workers == old(workers) && nextId == old(nextId)
    {
      pidFile := None;
      trace := trace + [UnlinkPidFile, Exit];
      exited := true;
    }

    /** SIGUSR1 (lines 68-70): hand every current worker, index 0 and the restart time to the rolling restart. */
    method OnSigusr1()
      requires Valid() && !exited
      modifies this`trace
      ensures Valid()
      ensures trace == old(trace) + [StartRollingRestart(workers, 0, restartTime)]
    {
      trace := trace + [StartRollingRestart(workers, 0, restartTime)];
    }

    /** The rolling restart's callback (lines 70-76): the error first, if there is one, then the success line. */
    method OnRestartFinished(error: Option<string>)
      requires Valid() && !exited
      modifies this`trace
      ensures Valid()
      ensures trace == old(trace) + RestartFinishedLog(error)
    {
      if error.Some? {
        trace := trace + [Log(error.value)];
      }
      trace := trace + [Log(SuccessLine)];
    }
  }

  /** What the restart callback logs: an error is logged before the success line, which comes exactly once. */
  function RestartFinishedLog(error: Option<string>): (r: seq<Action>)
    ensures |r| >= 1 && r[|r| - 1] == Log(SuccessLine)
    ensures error.Some? ==> r == [Log(error.value), Log(SuccessLine)]
    ensures error.None? ==> r == [Log(SuccessLine)]
  {
    (if error.Some? then [Log(error.value)] else []) + [Log(SuccessLine)]
  }
}
