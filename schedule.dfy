/**
 * The bookkeeping of schedule() (src/mapreduce/schedule.go): hand the tasks
 * of one phase to workers and return once every task has been done.
 *
 * The goroutines, channels and the WaitGroup carry three kinds of event, which
 * the model takes one at a time: a worker is received from registerChan and
 * given the task at the head of taskChan; a call returns successfully (the
 * WaitGroup counts one task done and the worker goes back to registerChan);
 * a call fails (the task goes back to taskChan, the worker is dropped).
 * The RPC itself is outside the model: its outcome is a parameter.
 */
module Schedule {
  import opened Wrappers
  import opened Common

  /**
   * The arguments of one Worker.DoTask call, in the order of the composite
   * literal (the declaration, in common_rpc.go, is not part of this model).
   */
  datatype DoTaskArgs = DoTaskArgs(jobName: string, file: string, phase: JobPhase, taskNumber: nat, numOtherPhase: int)

  /** The number of tasks of the phase and the number of files each task reads or writes for the other phase. */
  function TaskCounts(phase: JobPhase, nMapFiles: nat, nReduce: int): (int, int) {
    match phase
    case MapPhase => (nMapFiles, nReduce)
    case ReducePhase => (nReduce, nMapFiles)
  }

  /** Each phase's n_other is the other phase's task count. */
  lemma OtherPhaseCounts(nMapFiles: nat, nReduce: int)
    ensures TaskCounts(MapPhase, nMapFiles, nReduce).1 == TaskCounts(ReducePhase, nMapFiles, nReduce).0
    ensures TaskCounts(ReducePhase, nMapFiles, nReduce).1 == TaskCounts(MapPhase, nMapFiles, nReduce).0
  {
  }

  /** The arguments a dispatch of task t builds: the input file in the Map phase, no file otherwise. */
  function TaskArgs(jobName: string, mapFiles: seq<string>, phase: JobPhase, t: nat, nOther: int): DoTaskArgs
    requires phase == MapPhase ==> t < |mapFiles|
  {
    DoTaskArgs(jobName, if phase == MapPhase then mapFiles[t] else "", phase, t, nOther)
  }

  /** The task indices 0 .. n-1. */
  function AllTasks(n: nat): (s: set<nat>)
    ensures |s| == n
    ensures forall t: nat :: t in s <==> t < n
  {
    if n == 0 then {} else AllTasks(n - 1) + {n - 1}
  }

  /** The initial content of taskChan: 0 .. n-1 in ascending order. */
  function Ascending(n: nat): (s: seq<nat>)
    ensures |s| == n && forall i :: 0 <= i < n ==> s[i] == i
  {
    if n == 0 then [] else Ascending(n - 1) + [n - 1]
  }

  /**
   * Every task of the phase is in exactly one place: waiting in the queue (at
   * most once), running on a worker, or done; and there is no other task.
   */
  ghost predicate Accounted(pending: seq<nat>, inFlight: set<nat>, completed: set<nat>, n: nat) {
    && (forall i, j :: 0 <= i < |pending| && 0 <= j < |pending| && pending[i] == pending[j] ==> i == j)
    && (forall i :: 0 <= i < |pending| ==> pending[i] < n && pending[i] !in inFlight && pending[i] !in completed)
    && (forall t :: t in inFlight ==> t < n && t !in completed)
    && (forall t :: t in completed ==> t < n)
    && (forall t: nat :: t < n ==> t in pending || t in inFlight || t in completed)
  }

  /**
   * The three places together hold exactly the n tasks; so the queue never
   * holds more than n indices (taskChan's capacity, and a re-enqueue never
   * blocks), and the tasks are all done exactly when n of them are.
   */
  lemma PlacesAddUp(pending: seq<nat>, inFlight: set<nat>, completed: set<nat>, n: nat)
    requires Accounted(pending, inFlight, completed, n)
    ensures |pending| + |inFlight| + |completed| == n
    ensures |pending| <= n
    ensures |completed| == n <==> completed == AllTasks(n)
    ensures |completed| == n ==> pending == [] && inFlight == {}
  {
    var queued := set t | t in pending;
    DistinctCard(pending);
    assert queued * inFlight == {};
    assert (queued + inFlight) * completed == {};
    assert queued + inFlight + completed == AllTasks(n);
    if |completed| == n {
      assert |queued| == 0 && |inFlight| == 0;
    }
  }

  /** The initial state: every task queued in ascending order, nothing running or done. */
  lemma AccountedInitially(n: nat)
    ensures Accounted(Ascending(n), {}, {}, n)
  {
  }

  /** Dispatch: the head of the queue starts running. */
  lemma AccountedDispatch(pending: seq<nat>, inFlight: set<nat>, completed: set<nat>, n: nat)
    requires Accounted(pending, inFlight, completed, n) && |pending| > 0
    ensures Accounted(pending[1..], inFlight + {pending[0]}, completed, n)
  {
  }

  /** A failed call: the task leaves the running set and goes to the back of the queue. */
  lemma AccountedFail(pending: seq<nat>, inFlight: set<nat>, completed: set<nat>, n: nat, t: nat)
    requires Accounted(pending, inFlight, completed, n) && t in inFlight
    ensures Accounted(pending + [t], inFlight - {t}, completed, n)
  {
  }

  /** A successful call: the task leaves the running set and is done, counted once. */
  lemma AccountedSucceed(pending: seq<nat>, inFlight: set<nat>, completed: set<nat>, n: nat, t: nat)
    requires Accounted(pending, inFlight, completed, n) && t in inFlight
    ensures Accounted(pending, inFlight - {t}, completed + {t}, n)
    ensures |completed + {t}| == |completed| + 1 && |completed| < n
  {
    PlacesAddUp(pending, inFlight, completed, n);
  }

  /** One event of the select loop. */
  datatype Event =
    | Register(worker: string)          // a worker is sent on registerChan from outside schedule
    | Receive                           // the select receives a worker from registerChan
    | Reply(task: nat, success: bool)   // the call running task returns

  class Scheduler {
    const jobName: string
    const mapFiles: seq<string>
    const phase: JobPhase
    /** ntasks: the tasks of this phase, and the WaitGroup's initial count. */
    const nTasks: nat
    /** n_other: files each task reads (Reduce) or writes (Map) for the other phase. */
    const nOther: int

    /** taskChan: the indices of the tasks waiting for a worker, in FIFO order. */
    var pending: seq<nat>
    /** The tasks whose call is outstanding, with the worker running each. */
    var inFlight: map<nat, string>
    /** The WaitGroup's counter: tasks not yet done. */
    var outstanding: nat
    /** registerChan: the workers waiting to be received. */
    var ready: seq<string>
    /** The tasks counted done. */
    ghost var completed: set<nat>

    ghost predicate Valid()
      reads this
    {
      && (phase == MapPhase ==> nTasks == |mapFiles|)
      && Accounted(pending, inFlight.Keys, completed, nTasks)
      && outstanding + |completed| == nTasks
    }

    /**
     * The set-up of schedule: the task counts of the phase, and every task
     * queued in ascending order. A negative task count makes the Go code
     * panic, so the Reduce phase needs nReduce >= 0.
     */
    constructor (jobName: string, mapFiles: seq<string>, nReduce: int, phase: JobPhase, workers: seq<string>)
      requires TaskCounts(phase, |mapFiles|, nReduce).0 >= 0
      ensures Valid()
      ensures this.jobName == jobName && this.mapFiles == mapFiles && this.phase == phase
      ensures (nTasks, nOther) == TaskCounts(phase, |mapFiles|, nReduce)
      ensures pending == Ascending(nTasks) && inFlight == map[] && completed == {}
      ensures outstanding == nTasks && ready == workers
    {
      var counts := TaskCounts(phase, |mapFiles|, nReduce);
      this.jobName, this.mapFiles, this.phase := jobName, mapFiles, phase;
      nTasks, nOther := counts.0, counts.1;
      outstanding := counts.0;
      inFlight, completed, ready := map[], {}, workers;
      new;
      pending := [];
      var i := 0;
      while i < nTasks
        invariant 0 <= i <= nTasks
        invariant pending == Ascending(i)
        invariant inFlight == map[] && completed == {} && ready == workers && outstanding == nTasks
      {
        pending := pending + [i];
        i := i + 1;
      }
      AccountedInitially(nTasks);
    }

    /** A worker registers: it is sent on registerChan. */
    method Register(worker: string)
      requires Valid()
      modifies this
      ensures Valid()
      ensures ready == old(ready) + [worker]
      ensures pending == old(pending) && inFlight == old(inFlight)
      ensures outstanding == old(outstanding) && completed == old(completed)
    {
      ready := ready + [worker];
    }

    /**
     * The select receives a worker. If a task is queued, its head is taken
     * and the worker starts the call with TaskArgs. If the queue is empty the
     * worker is neither given a task nor sent back to registerChan: it is
     * lost to this phase, and should a running task later fail, nobody may be
     * left to take it.
     */
    method Dispatch() returns (worker: string, args: Option<DoTaskArgs>)
      requires Valid() && |ready| > 0
      modifies this
      ensures Valid()
      ensures worker == old(ready[0]) && ready == old(ready[1..])
      ensures old(pending) == [] ==> args == None && pending == [] && inFlight == old(inFlight)
      ensures old(pending) != [] ==>
        && args == Some(TaskArgs(jobName, mapFiles, phase, old(pending[0]), nOther))
        && pending == old(pending[1..])
        && inFlight == old(inFlight)[old(pending[0]) := worker]
      ensures outstanding == old(outstanding) && completed == old(completed)
    {
      worker := ready[0];
      ready := ready[1..];
      if |pending| == 0 {
        return worker, None;
      }
      var taskNum := pending[0];
      AccountedDispatch(pending, inFlight.Keys, completed, nTasks);
      pending := pending[1..];
      var file := "";
      if phase == MapPhase {
        file := mapFiles[taskNum];
      }
      args := Some(DoTaskArgs(jobName, file, phase, taskNum, nOther));
      inFlight := inFlight[taskNum := worker];
    }

    /**
     * The call running task returns. On failure the task is queued again
     * and the worker is dropped; on success the WaitGroup counts the task
     * done and the worker is sent back on registerChan.
     */
    method Finish(task: nat, success: bool)
      requires Valid() && task in inFlight
      modifies this
      ensures Valid()
      ensures inFlight == old(inFlight) - {task}
      ensures !success ==>
        && pending == old(pending) + [task] && ready == old(ready)
        && outstanding == old(outstanding) && completed == old(completed)
      ensures success ==>
        && pending == old(pending) && ready == old(ready) + [old(inFlight)[task]]
        && outstanding == old(outstanding) - 1 && completed == old(completed) + {task}
        && task !in old(completed)
    {
      var worker := inFlight[task];
      if !success {
        AccountedFail(pending, inFlight.Keys, completed, nTasks, task);
        pending := pending + [task];
      } else {
        AccountedSucceed(pending, inFlight.Keys, completed, nTasks, task);
        outstanding := outstanding - 1;
        completed := completed + {task};
        ready := ready + [worker];
      }
      inFlight := inFlight - {task};
    }

    /** The WaitGroup's Wait returns, and doneChan fires, exactly when every task is done. */
    method AllDone() returns (d: bool)
      requires Valid()
      ensures d <==> completed == AllTasks(nTasks)
      ensures d ==> pending == [] && inFlight == map[]
    {
      PlacesAddUp(pending, inFlight.Keys, completed, nTasks);
      d := outstanding == 0;
    }

    /**
     * The `for !done` loop over a finite sequence of events. Once every task
     * is done the loop returns; an event that could not happen in the Go
     * program (a receive from an empty registerChan, the reply of a task not
     * running) is skipped. finished says whether the phase completed.
     */
    method Run(events: seq<Event>) returns (finished: bool)
      requires Valid()
      modifies this
      ensures Valid()
      ensures finished <==> completed == AllTasks(nTasks)
      ensures old(completed) <= completed
    {
      var i := 0;
      while i < |events|
        invariant i <= |events|
        invariant Valid()
        invariant old(completed) <= completed
      {
        var done := AllDone();
        if done {
          return true;
        }
        match events[i] {
          case Register(worker) =>
            Register(worker);
          case Receive =>
            if |ready| > 0 {
              var worker, args := Dispatch();
            }
          case Reply(task, success) =>
            if task in inFlight {
              Finish(task, success);
            }
        }
        i := i + 1;
      }
      finished := AllDone();
    }
  }

  /**
   * The lost worker: with one task and two workers, the second worker is
   * received while the task runs on the first and is dropped; when the first
   * call fails, the task is queued again with no worker left to receive.
   */
  method LostWorkerExample() returns (s: Scheduler)
    ensures s.Valid()
    ensures s.pending == [0] && s.ready == [] && s.inFlight == map[] && s.outstanding == 1
  {
    s := new Scheduler("job", ["in-0"], 1, MapPhase, ["w1", "w2"]);
    assert s.pending == [0];
    var w1, a1 := s.Dispatch();
    var w2, a2 := s.Dispatch();
    assert a2 == None;
    s.Finish(0, false);
  }
}
