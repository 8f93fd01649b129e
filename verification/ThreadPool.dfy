/** The worker pool's own state, changed in place by the pieces of code that run under its mutex. */
module ThreadPool {
  import opened PoolSpec

  class ThreadPool {
    /** `tasks`: the queue, front first. */
    var tasks: seq<Task>
    var stop: bool
    /** Where each worker thread stands. */
    var workers: seq<Worker>
    /** How far the destructor is, pushes not yet notified, and the histories. */
    ghost var joining: bool
    ghost var notifies: nat
    ghost var accepted: seq<Task>
    ghost var started: seq<Task>
    ghost var finished: seq<Task>

    ghost function View(): State
      reads this
    {
      State(tasks, if joining then Joining else if stop then Stopping else Open,
            workers, notifies, accepted, started, finished)
    }

    ghost predicate Valid()
      reads this
    {
      joining ==> stop
    }

    constructor (threads: nat)
      ensures Valid() && View() == Init(threads)
    {
      stop := false;
      tasks := [];
      workers := seq(threads, _ => Awake);
      joining, notifies, accepted, started, finished := false, 0, [], [], [];
    }

    /** `enqueue` up to the end of its locked block; false stands for the exception. */
    method Enqueue(task: Task) returns (ok: bool)
      requires Valid()
      modifies this
      ensures Valid() && ok == !old(stop)
      ensures View() == Next(old(View()), PoolSpec.Enqueue(task))
    {
      if stop {
        return false;
      }
      tasks := tasks + [task];
      accepted, notifies := accepted + [task], notifies + 1;
      return true;
    }

    /** `notify_one` after the mutex was released: some waiting worker wakes, if there is one. */
    method NotifyOne() returns (ghost e: Step)
      requires Valid() && notifies > 0
      modifies this
      ensures Valid() && (e.NotifyOne? || e.NotifyNobody?)
      ensures Enabled(old(View()), e) && View() == Next(old(View()), e)
    {
      if w: nat :| w < |workers| && workers[w].Sleeping? {
        workers := workers[w := Awake];
        e := PoolSpec.NotifyOne(w);
      } else {
        e := NotifyNobody;
      }
      notifies := notifies - 1;
    }

    /** The locked block of worker w's loop: wait while there is nothing to do, return, or take the front task. */
    method WorkerTurn(w: nat)
      requires Valid() && Enabled(View(), Check(w))
      modifies this
      ensures Valid() && View() == Next(old(View()), Check(w))
    {
      if !(stop || tasks != []) {
        workers := workers[w := Sleeping];
        return;
      }
      if stop && tasks == [] {
        workers := workers[w := Exited];
        return;
      }
      var task := tasks[0];
      tasks := tasks[1..];
      workers := workers[w := Running(task)];
      started := started + [task];
    }

    /** `task()` returns and the worker goes back for the mutex. */
    method TaskDone(w: nat)
      requires Valid() && Enabled(View(), Finish(w))
      modifies this
      ensures Valid() && View() == Next(old(View()), Finish(w))
    {
      finished := finished + [workers[w].task];
      workers := workers[w := Awake];
    }

    /** A wait that ends without a notification. */
    method WakeSpuriously(w: nat)
      requires Valid() && Enabled(View(), Spurious(w))
      modifies this
      ensures Valid() && View() == Next(old(View()), Spurious(w))
    {
      workers := workers[w := Awake];
    }

    /** The destructor's locked block. */
    method SetStop()
      requires Valid() && !stop
      modifies this
      ensures Valid() && View() == Next(old(View()), Stop)
    {
      stop := true;
    }

    /** The destructor's `notify_all`, which reaches every waiting worker. */
    method NotifyEveryone()
      requires Valid() && stop && !joining
      modifies this
      ensures Valid() && View() == Next(old(View()), NotifyAll)
    {
      ghost var before := workers;
      for i := 0 to |workers|
        invariant |workers| == |before| && tasks == old(tasks) && stop && !joining
        invariant notifies == old(notifies) && accepted == old(accepted)
        invariant started == old(started) && finished == old(finished)
        invariant forall k :: 0 <= k < i ==> workers[k] == WakeAll(before)[k]
        invariant forall k :: i <= k < |workers| ==> workers[k] == before[k]
      {
        if workers[i].Sleeping? {
          workers := workers[i := Awake];
        }
      }
      assert workers == WakeAll(before);
      joining := true;
    }
  }
}
