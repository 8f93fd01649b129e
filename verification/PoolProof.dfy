/** Safety, wake-up and shutdown of the worker pool, over every run. */
module PoolProof {
  import opened Bytes
  import opened PoolSpec

  // ------------------------------------------------------------- invariant

  /** Tasks leave the queue in the order they were accepted, each once. */
  ghost predicate Fifo(s: State) {
    s.started + s.tasks == s.accepted
  }

  /** Every started task is either finished or in the hands of exactly one worker. */
  ghost predicate OneOwner(s: State) {
    multiset(s.finished) + RunningTasks(s.workers) == multiset(s.started)
  }

  /** While somebody sleeps, each queued task has an awake worker or a pending notification to itself. */
  ghost predicate NoLostWakeup(s: State) {
    SomeoneSleeps(s) ==> |s.tasks| <= CountAwake(s.workers) + s.notifies
  }

  ghost predicate ExitOnlyWhenDrained(s: State) {
    SomeoneExited(s) ==> Stopped(s) && s.tasks == []
  }

  ghost predicate NobodySleepsAfterNotifyAll(s: State) {
    s.phase.Joining? ==> !SomeoneSleeps(s)
  }

  ghost predicate Inv(s: State) {
    Fifo(s) && OneOwner(s) && NoLostWakeup(s) && ExitOnlyWhenDrained(s) && NobodySleepsAfterNotifyAll(s)
  }

  lemma InitInv(n: nat)
    ensures Inv(Init(n))
  {
    NobodyRuns(Init(n).workers);
  }

  /** A worker that changes state without taking or finishing a task leaves ownership alone. */
  lemma SwapKeepsOwner(s: State, w: nat, x: Worker)
    requires w < |s.workers| && OneOwner(s) && !s.workers[w].Running? && !x.Running?
    ensures OneOwner(s.(workers := s.workers[w := x]))
  {
    UpdateRunning(s.workers, w, x);
    assert RunningTasks(s.workers[w := x]) + multiset{} == RunningTasks(s.workers[w := x]);
  }

  lemma WakeInv(s: State, w: nat)
    requires Inv(s) && w < |s.workers| && s.workers[w].Sleeping?
    ensures var s' := s.(workers := s.workers[w := Awake]);
      Inv(s') && CountAwake(s'.workers) == CountAwake(s.workers) + 1
  {
    UpdateAwake(s.workers, w, Awake);
    SwapKeepsOwner(s, w, Awake);
  }

  lemma PopInv(s: State, w: nat)
    requires Inv(s) && Enabled(s, Check(w)) && s.tasks != []
    ensures Inv(CheckWorker(s, w))
  {
    var s', t := CheckWorker(s, w), s.tasks[0];
    assert s.tasks == [t] + s.tasks[1..];
    Assoc(s.started, [t], s.tasks[1..]);
    UpdateAwake(s.workers, w, Running(t));
    PopKeepsOwner(s, w);
    OthersStay(s, s', w, Running(t));
  }

  lemma PopKeepsOwner(s: State, w: nat)
    requires OneOwner(s) && Enabled(s, Check(w)) && s.tasks != []
    ensures OneOwner(CheckWorker(s, w))
  {
    var t := s.tasks[0];
    UpdateRunning(s.workers, w, Running(t));
    assert RunningTasks(CheckWorker(s, w).workers) == RunningTasks(s.workers) + multiset{t};
    assert multiset(s.started + [t]) == multiset(s.started) + multiset{t};
  }

  lemma OthersStay(s: State, s': State, w: nat, x: Worker)
    requires w < |s.workers| && !x.Sleeping? && !x.Exited? && s'.workers == s.workers[w := x]
    ensures SomeoneSleeps(s') ==> SomeoneSleeps(s)
    ensures SomeoneExited(s') ==> SomeoneExited(s)
  {
  }

  lemma IdleInv(s: State, w: nat)
    requires Inv(s) && Enabled(s, Check(w)) && s.tasks == []
    ensures Inv(CheckWorker(s, w))
  {
    SwapKeepsOwner(s, w, if Stopped(s) then Exited else Sleeping);
  }

  lemma FinishInv(s: State, w: nat)
    requires Inv(s) && Enabled(s, Finish(w))
    ensures Inv(Next(s, Finish(w)))
  {
    UpdateAwake(s.workers, w, Awake);
    FinishKeepsOwner(s, w);
    OthersStay(s, Next(s, Finish(w)), w, Awake);
  }

  lemma FinishKeepsOwner(s: State, w: nat)
    requires OneOwner(s) && Enabled(s, Finish(w))
    ensures OneOwner(Next(s, Finish(w)))
  {
    var s', t := Next(s, Finish(w)), s.workers[w].task;
    UpdateRunning(s.workers, w, Awake);
    assert RunningTasks(s'.workers) + multiset{t} == RunningTasks(s.workers);
    assert multiset(s'.finished) == multiset(s.finished) + multiset{t};
  }

  lemma NextInv(s: State, e: Step)
    requires Inv(s) && Enabled(s, e)
    ensures Inv(Next(s, e))
  {
    match e
    case Enqueue(t) =>
      assert s.started + (s.tasks + [t]) == s.started + s.tasks + [t];
    case Check(w) =>
      if s.tasks == [] { IdleInv(s, w); } else { PopInv(s, w); }
    case NotifyOne(w) =>
      WakeInv(s, w);
    case Spurious(w) =>
      WakeInv(s, w);
    case Finish(w) =>
      FinishInv(s, w);
    case NotifyAll =>
      WakeAllKeepsTasks(s.workers);
    case NotifyNobody =>
    case Stop =>
  }

  lemma {:induction false} RunInv(s: State, es: seq<Step>)
    requires Inv(s)
    ensures Inv(Run(s, es))
    decreases |es|
  {
    if es != [] {
      if Enabled(s, es[0]) {
        NextInv(s, es[0]);
        RunInv(Next(s, es[0]), es[1..]);
      } else {
        RunInv(s, es[1..]);
      }
    }
  }

  // -------------------------------------------------- safety over every run

  lemma RunState(n: nat, es: seq<Step>)
    ensures Inv(Run(Init(n), es)) && |Run(Init(n), es).workers| == n
  {
    InitInv(n);
    RunInv(Init(n), es);
    WorkersStay(Init(n), es);
  }

  lemma {:induction false} WorkersStay(s: State, es: seq<Step>)
    ensures |Run(s, es).workers| == |s.workers|
    decreases |es|
  {
    if es != [] {
      WorkersStay(if Enabled(s, es[0]) then Next(s, es[0]) else s, es[1..]);
    }
  }

  /** Tasks start in the order of acceptance, each exactly once, and nothing else starts. */
  lemma StartsAreFifo(n: nat, es: seq<Step>)
    ensures Run(Init(n), es).started <= Run(Init(n), es).accepted
    ensures Run(Init(n), es).accepted[|Run(Init(n), es).started|..] == Run(Init(n), es).tasks
  {
    RunState(n, es);
  }

  /** From the moment `stop` is set nothing more is accepted and no worker goes to sleep. */
  lemma {:induction false} NothingAcceptedAfterStop(s: State, es: seq<Step>)
    requires Stopped(s)
    ensures Stopped(Run(s, es)) && Run(s, es).accepted == s.accepted
    ensures |Run(s, es).workers| == |s.workers|
    ensures forall i :: 0 <= i < |s.workers| && Run(s, es).workers[i].Sleeping? ==> s.workers[i].Sleeping?
    decreases |es|
  {
    if es != [] {
      NothingAcceptedAfterStop(if Enabled(s, es[0]) then Next(s, es[0]) else s, es[1..]);
    }
  }

  /**
   No wake-up is ever lost: if tasks are queued, no notification is pending and
   no worker is awake, then every worker is busy running a task.
   */
  lemma NoTaskWaitsForASleeper(n: nat, es: seq<Step>)
    ensures var s := Run(Init(n), es);
      s.tasks != [] && s.notifies == 0 && (forall i :: 0 <= i < |s.workers| ==> !s.workers[i].Awake?)
      ==> forall i :: 0 <= i < |s.workers| ==> s.workers[i].Running?
  {
    RunState(n, es);
    var s := Run(Init(n), es);
    if CountAwake(s.workers) > 0 {
      SomeoneAwake(s.workers);
    }
  }

  /** More finely: a sleeper leaves no more tasks queued than there are wake-ups on their way. */
  lemma SleepersAreCovered(n: nat, es: seq<Step>)
    ensures var s := Run(Init(n), es);
      SomeoneSleeps(s) ==> |s.tasks| <= CountAwake(s.workers) + s.notifies
  {
    RunState(n, es);
  }

  /**
   When all workers have exited, every accepted task has started in order and
   has finished exactly once, if and only if there was a worker at all or
   nothing to do: a pool of no workers keeps whatever it accepted.
   */
  lemma DrainedAtExit(n: nat, es: seq<Step>)
    requires AllExited(Run(Init(n), es))
    ensures var s := Run(Init(n), es);
      s.tasks == [] && s.started == s.accepted && multiset(s.finished) == multiset(s.accepted)
      <==> n > 0 || s.accepted == []
  {
    RunState(n, es);
    var s := Run(Init(n), es);
    NobodyRuns(s.workers);
    assert s.started + [] == s.started;
    if n > 0 {
      assert s.workers[0].Exited?;
    } else {
      NeverStarts(es);
    }
  }

  lemma {:induction false} NoWorkersNoStarts(s: State, es: seq<Step>)
    requires s.workers == []
    ensures Run(s, es).started == s.started
    decreases |es|
  {
    if es != [] {
      NoWorkersNoStarts(if Enabled(s, es[0]) then Next(s, es[0]) else s, es[1..]);
    }
  }

  lemma NeverStarts(es: seq<Step>)
    ensures Run(Init(0), es).started == []
  {
    NoWorkersNoStarts(Init(0), es);
  }

  // ---------------------------------------------------------------- shutdown

  function Measure(s: State): nat {
    3 * |s.tasks| + Work(s.workers) + s.notifies
  }

  /** Every step of the schedule can happen when its turn comes. */
  ghost predicate Schedule(s: State, es: seq<Step>)
    decreases |es|
  {
    es == [] || (Enabled(s, es[0]) && Schedule(Next(s, es[0]), es[1..]))
  }

  /** The steps other than attempts to enqueue, all of which are refused by now. */
  function Effort(es: seq<Step>): nat {
    if es == [] then 0 else Effort(es[1..]) + if es[0].Enqueue? then 0 else 1
  }

  /** After `notify_all` every step that changes anything uses up some of the measure. */
  lemma ShutdownStep(s: State, e: Step)
    requires Inv(s) && s.phase.Joining? && Enabled(s, e)
    ensures Next(s, e).phase.Joining?
    ensures if e.Enqueue? then Next(s, e) == s else Measure(Next(s, e)) < Measure(s)
  {
    match e
    case Check(w) => UpdateWork(s.workers, w, CheckWorker(s, w).workers[w]);
    case Finish(w) => UpdateWork(s.workers, w, Awake);
    case NotifyOne(_) =>
    case Spurious(_) =>
    case Enqueue(_) =>
    case NotifyNobody =>
    case Stop =>
    case NotifyAll =>
  }

  /** Hence no schedule, however unfair, keeps the destructor waiting for more than the measure. */
  lemma {:induction false} ShutdownIsBounded(s: State, es: seq<Step>)
    requires Inv(s) && s.phase.Joining? && Schedule(s, es)
    ensures Effort(es) <= Measure(s)
    decreases |es|
  {
    if es != [] {
      ShutdownStep(s, es[0]);
      NextInv(s, es[0]);
      ShutdownIsBounded(Next(s, es[0]), es[1..]);
    }
  }

  /** And nobody is stuck: until all workers have exited, one of them can take a step. */
  lemma ShutdownProgress(s: State)
    requires Inv(s) && s.phase.Joining?
    ensures AllExited(s) <==> forall w :: 0 <= w < |s.workers| ==> !Enabled(s, Check(w)) && !Enabled(s, Finish(w))
  {
    if !AllExited(s) {
      var w :| 0 <= w < |s.workers| && !s.workers[w].Exited?;
      assert s.workers[w].Sleeping? ==> SomeoneSleeps(s);
      assert Enabled(s, Check(w)) || Enabled(s, Finish(w));
    }
  }

  /** So joining succeeds from every reachable state: the workers can always run to their exits. */
  lemma {:induction false} JoinReturns(s: State) returns (es: seq<Step>)
    requires Inv(s) && s.phase.Joining?
    ensures Schedule(s, es) && AllExited(Run(s, es))
    decreases Measure(s)
  {
    if AllExited(s) {
      es := [];
    } else {
      ShutdownProgress(s);
      var w :| 0 <= w < |s.workers| && (Enabled(s, Check(w)) || Enabled(s, Finish(w)));
      var e := if Enabled(s, Check(w)) then Check(w) else Finish(w);
      ShutdownStep(s, e);
      NextInv(s, e);
      var rest := JoinReturns(Next(s, e));
      es := [e] + rest;
      assert es[1..] == rest;
    }
  }

  // ------------------------------------- runs in terms of what was asked for

  /** The tasks handed to `enqueue` before the destructor set `stop`. */
  function Submitted(es: seq<Step>): seq<Task> {
    if es == [] || es[0].Stop? then []
    else (if es[0].Enqueue? then [es[0].task] else []) + Submitted(es[1..])
  }

  /** How far the destructor is, from the schedule alone. */
  function PhaseOf(phase: Phase, es: seq<Step>): Phase
    decreases |es|
  {
    if es == [] then phase
    else
      PhaseOf(if phase.Open? && es[0].Stop? then Stopping
              else if phase.Stopping? && es[0].NotifyAll? then Joining
              else phase,
              es[1..])
  }

  /** The notifications given in a run. */
  function Notified(s: State, es: seq<Step>): nat
    decreases |es|
  {
    if es == [] then 0
    else if !Enabled(s, es[0]) then Notified(s, es[1..])
    else Notified(Next(s, es[0]), es[1..]) + if es[0].NotifyOne? || es[0].NotifyNobody? then 1 else 0
  }

  lemma {:induction false} PhaseIs(s: State, es: seq<Step>)
    ensures Run(s, es).phase == PhaseOf(s.phase, es)
    decreases |es|
  {
    if es != [] {
      PhaseIs(if Enabled(s, es[0]) then Next(s, es[0]) else s, es[1..]);
    }
  }

  lemma {:induction false} AcceptedFrom(s: State, es: seq<Step>)
    requires s.phase.Open?
    ensures Run(s, es).accepted == s.accepted + Submitted(es)
    decreases |es|
  {
    if es == [] {
      assert s.accepted + [] == s.accepted;
    } else {
      var s' := if Enabled(s, es[0]) then Next(s, es[0]) else s;
      if es[0].Stop? {
        NothingAcceptedAfterStop(s', es[1..]);
        assert s.accepted + [] == s.accepted;
      } else {
        AcceptedFrom(s', es[1..]);
        var new_ := if es[0].Enqueue? then [es[0].task] else [];
        assert s'.accepted == s.accepted + new_;
        Assoc(s.accepted, new_, Submitted(es[1..]));
      }
    }
  }

  /** Every task submitted before the stop is accepted, once and in order, and no other. */
  lemma AcceptedIsSubmitted(n: nat, es: seq<Step>)
    ensures Run(Init(n), es).accepted == Submitted(es)
  {
    AcceptedFrom(Init(n), es);
    assert [] + Submitted(es) == Submitted(es);
  }

  /** Each acceptance owes one notification. */
  lemma {:induction false} NotifiesOwed(s: State, es: seq<Step>)
    ensures Run(s, es).notifies + Notified(s, es) + |s.accepted| == s.notifies + |Run(s, es).accepted|
    decreases |es|
  {
    if es != [] {
      NotifiesOwed(if Enabled(s, es[0]) then Next(s, es[0]) else s, es[1..]);
    }
  }

  /** Tasks start in the order of submission; none is left out and none is started twice. */
  lemma StartsAreSubmitted(n: nat, es: seq<Step>)
    ensures var s := Run(Init(n), es);
      s.started <= Submitted(es) && s.tasks == Submitted(es)[|s.started|..]
  {
    StartsAreFifo(n, es);
    AcceptedIsSubmitted(n, es);
  }

  /** When all of at least one worker have exited, every submitted task has run exactly once, started in order. */
  lemma AllSubmittedRun(n: nat, es: seq<Step>)
    requires n > 0 && AllExited(Run(Init(n), es))
    ensures Run(Init(n), es).started == Submitted(es)
    ensures multiset(Run(Init(n), es).finished) == multiset(Submitted(es))
  {
    DrainedAtExit(n, es);
    AcceptedIsSubmitted(n, es);
  }

  /** The whole life of a pool: after stop and `notify_all` the workers run every submitted task and exit. */
  lemma ShutdownRunsAll(n: nat, es: seq<Step>) returns (rest: seq<Step>)
    requires n > 0 && PhaseOf(Open, es).Joining?
    ensures AllExited(Run(Init(n), es + rest))
    ensures multiset(Run(Init(n), es + rest).finished) == multiset(Submitted(es))
  {
    RunState(n, es);
    PhaseIs(Init(n), es);
    var s := Run(Init(n), es);
    rest := JoinReturns(s);
    RunAppend(Init(n), es, rest);
    AllSubmittedRun(n, es + rest);
    AcceptedIsSubmitted(n, es);
    AcceptedIsSubmitted(n, es + rest);
    NothingAcceptedAfterStop(s, rest);
  }

  lemma {:induction false} RunAppend(s: State, a: seq<Step>, b: seq<Step>)
    ensures Run(s, a + b) == Run(Run(s, a), b)
    decreases |a|
  {
    if a == [] {
      assert a + b == b;
    } else {
      assert (a + b)[1..] == a[1..] + b && (a + b)[0] == a[0];
      RunAppend(if Enabled(s, a[0]) then Next(s, a[0]) else s, a[1..], b);
    }
  }
}
