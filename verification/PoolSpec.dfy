/**
 The worker pool as a monitor protocol. A step is what one thread does while
 it holds the mutex, or one notification; notifications happen after the
 mutex was released, so other steps may come between a push and its notify.
 */
module PoolSpec {

  type Task = nat

  /**
   A worker is about to take the mutex and test the wait condition (Awake),
   waits on the condition variable (Sleeping), runs a task without the mutex,
   or has returned.
   */
  datatype Worker = Awake | Sleeping | Running(task: Task) | Exited

  /** How far the destructor is: not begun, `stop` set, or past `notify_all` and joining. */
  datatype Phase = Open | Stopping | Joining

  /**
   `notifies` counts pushes whose `notify_one` is still to come. `accepted`,
   `started` and `finished` record pushes, pops and completed tasks in order.
   */
  datatype State = State(
    tasks: seq<Task>,
    phase: Phase,
    workers: seq<Worker>,
    notifies: nat,
    accepted: seq<Task>,
    started: seq<Task>,
    finished: seq<Task>)

  datatype Step =
    | Enqueue(task: Task)       // push under the mutex; refused once stopped
    | NotifyOne(target: nat)    // wakes `target` if it sleeps
    | NotifyNobody              // `notify_one` with no worker waiting
    | Check(worker: nat)        // test the wait condition, then sleep, exit or pop
    | Spurious(worker: nat)     // the condition variable wakes without a notification
    | Finish(worker: nat)       // the task returns
    | Stop                      // the destructor sets `stop`
    | NotifyAll                 // the destructor wakes everybody

  function Init(n: nat): State {
    State([], Open, seq(n, _ => Awake), 0, [], [], [])
  }

  predicate Stopped(s: State) {
    !s.phase.Open?
  }

  predicate Enabled(s: State, e: Step) {
    match e
    case Enqueue(_) => true
    case NotifyOne(w) => s.notifies > 0 && w < |s.workers| && s.workers[w].Sleeping?
    case NotifyNobody => s.notifies > 0 && forall w :: 0 <= w < |s.workers| ==> !s.workers[w].Sleeping?
    case Check(w) => w < |s.workers| && s.workers[w].Awake?
    case Spurious(w) => w < |s.workers| && s.workers[w].Sleeping?
    case Finish(w) => w < |s.workers| && s.workers[w].Running?
    case Stop => s.phase.Open?
    case NotifyAll => s.phase.Stopping?
  }

  function WakeAll(ws: seq<Worker>): (r: seq<Worker>)
    ensures |r| == |ws|
    ensures forall i :: 0 <= i < |ws| ==> r[i] == if ws[i].Sleeping? then Awake else ws[i]
  {
    seq(|ws|, i requires 0 <= i < |ws| => if ws[i].Sleeping? then Awake else ws[i])
  }

  /** One iteration of the worker's loop up to the point where it gives the mutex back. */
  function CheckWorker(s: State, w: nat): State
    requires w < |s.workers|
  {
    if !Stopped(s) && s.tasks == [] then
      s.(workers := s.workers[w := Sleeping])
    else if Stopped(s) && s.tasks == [] then
      s.(workers := s.workers[w := Exited])
    else
      s.(workers := s.workers[w := Running(s.tasks[0])],
         tasks := s.tasks[1..],
         started := s.started + [s.tasks[0]])
  }

  function Next(s: State, e: Step): State
    requires Enabled(s, e)
  {
    match e
    case Enqueue(t) =>
      if Stopped(s) then s
      else s.(tasks := s.tasks + [t], accepted := s.accepted + [t], notifies := s.notifies + 1)
    case NotifyOne(w) => s.(workers := s.workers[w := Awake], notifies := s.notifies - 1)
    case NotifyNobody => s.(notifies := s.notifies - 1)
    case Check(w) => CheckWorker(s, w)
    case Spurious(w) => s.(workers := s.workers[w := Awake])
    case Finish(w) => s.(workers := s.workers[w := Awake], finished := s.finished + [s.workers[w].task])
    case Stop => s.(phase := Stopping)
    case NotifyAll => s.(phase := Joining, workers := WakeAll(s.workers))
  }

  /** A step that cannot happen in s changes nothing, so every list of steps is a run. */
  function Run(s: State, es: seq<Step>): State
    decreases |es|
  {
    if es == [] then s
    else Run(if Enabled(s, es[0]) then Next(s, es[0]) else s, es[1..])
  }

  // --------------------------------------------------------------- counting

  function Ready(w: Worker): nat {
    if w.Awake? then 1 else 0
  }

  function Holds(w: Worker): multiset<Task> {
    if w.Running? then multiset{w.task} else multiset{}
  }

  /** The steps a worker takes until it exits, once the queue is empty and `stop` is set. */
  function Cost(w: Worker): nat {
    match w
    case Awake => 1
    case Running(_) => 2
    case Sleeping => 0
    case Exited => 0
  }

  function CountAwake(ws: seq<Worker>): nat {
    if ws == [] then 0 else Ready(ws[0]) + CountAwake(ws[1..])
  }

  function RunningTasks(ws: seq<Worker>): multiset<Task> {
    if ws == [] then multiset{} else Holds(ws[0]) + RunningTasks(ws[1..])
  }

  function Work(ws: seq<Worker>): nat {
    if ws == [] then 0 else Cost(ws[0]) + Work(ws[1..])
  }

  predicate SomeoneSleeps(s: State) {
    exists i :: 0 <= i < |s.workers| && s.workers[i].Sleeping?
  }

  predicate SomeoneExited(s: State) {
    exists i :: 0 <= i < |s.workers| && s.workers[i].Exited?
  }

  predicate AllExited(s: State) {
    forall i :: 0 <= i < |s.workers| ==> s.workers[i].Exited?
  }

  lemma {:induction false} UpdateAwake(ws: seq<Worker>, w: nat, x: Worker)
    requires w < |ws|
    ensures CountAwake(ws[w := x]) == CountAwake(ws) - Ready(ws[w]) + Ready(x)
  {
    if w == 0 {
      assert ws[w := x][1..] == ws[1..];
    } else {
      UpdateAwake(ws[1..], w - 1, x);
      assert ws[w := x][1..] == ws[1..][w - 1 := x];
    }
  }

  lemma AddToBoth(a: multiset<Task>, b: multiset<Task>, c: multiset<Task>, d: multiset<Task>, e: multiset<Task>)
    requires b + c == d + e
    ensures (a + b) + c == (a + d) + e
  {
    assert (a + b) + c == a + (b + c);
  }

  lemma {:induction false} UpdateRunning(ws: seq<Worker>, w: nat, x: Worker)
    requires w < |ws|
    ensures RunningTasks(ws[w := x]) + Holds(ws[w]) == RunningTasks(ws) + Holds(x)
  {
    if w == 0 {
      assert ws[w := x][1..] == ws[1..];
    } else {
      UpdateRunning(ws[1..], w - 1, x);
      assert ws[w := x][1..] == ws[1..][w - 1 := x];
      AddToBoth(Holds(ws[0]), RunningTasks(ws[w := x][1..]), Holds(ws[w]), RunningTasks(ws[1..]), Holds(x));
    }
  }

  lemma {:induction false} UpdateWork(ws: seq<Worker>, w: nat, x: Worker)
    requires w < |ws|
    ensures Work(ws[w := x]) == Work(ws) - Cost(ws[w]) + Cost(x)
  {
    if w == 0 {
      assert ws[w := x][1..] == ws[1..];
    } else {
      UpdateWork(ws[1..], w - 1, x);
      assert ws[w := x][1..] == ws[1..][w - 1 := x];
    }
  }

  lemma {:induction false} SameHolds(a: seq<Worker>, b: seq<Worker>)
    requires |a| == |b| && forall i :: 0 <= i < |a| ==> Holds(a[i]) == Holds(b[i])
    ensures RunningTasks(a) == RunningTasks(b)
  {
    if a != [] {
      SameHolds(a[1..], b[1..]);
    }
  }

  lemma WakeAllKeepsTasks(ws: seq<Worker>)
    ensures RunningTasks(WakeAll(ws)) == RunningTasks(ws)
  {
    SameHolds(WakeAll(ws), ws);
  }

  lemma {:induction false} NobodyRuns(ws: seq<Worker>)
    requires forall i :: 0 <= i < |ws| ==> !ws[i].Running?
    ensures RunningTasks(ws) == multiset{}
  {
    if ws != [] {
      NobodyRuns(ws[1..]);
    }
  }

  lemma {:induction false} SomeoneAwake(ws: seq<Worker>)
    requires CountAwake(ws) > 0
    ensures exists i :: 0 <= i < |ws| && ws[i].Awake?
  {
    if !ws[0].Awake? {
      SomeoneAwake(ws[1..]);
      var i :| 0 <= i < |ws[1..]| && ws[1..][i].Awake?;
      assert ws[i + 1].Awake?;
    }
  }
}
