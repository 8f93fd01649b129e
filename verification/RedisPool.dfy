/** The connection pool: what is idle, what is lent, and how many connections there can ever be. */
module RedisPool {
  import opened Common

  type Conn = nat

  /**
   `idle` is the queue, whose entries are shared pointers and could be null;
   `size` and `max` are the counters. Connections are numbered as they are
   created; `lent` are those handed out, `dropped` those a holder let go of
   without giving them back.
   */
  datatype Pool = Pool(idle: seq<Option<Conn>>, size: nat, max: nat, created: nat, lent: set<Conn>, dropped: set<Conn>)

  /** One iteration of the loop in `GetRedisConn` hands out a connection, gives up, or goes round again. */
  datatype Outcome = Got(conn: Conn) | Failed | Again

  const MAX_SIZE: nat := 150

  /** `CreateConnection`; `connects` is whether the server could be reached. */
  function Create(p: Pool, connects: bool): Pool {
    if connects then p.(idle := p.idle + [Some(p.created)], created := p.created + 1, size := p.size + 1) else p
  }

  function CreateAll(p: Pool, connects: seq<bool>): Pool
    decreases |connects|
  {
    if connects == [] then p else CreateAll(Create(p, connects[0]), connects[1..])
  }

  /** A fresh pool after `InitPool(n)`; the maximum is assigned to itself and stays what the constructor set. */
  function Init(connects: seq<bool>): Pool {
    CreateAll(Pool([], |connects|, MAX_SIZE, 0, {}, {}), connects)
  }

  function GetOutcome(p: Pool, connects: bool): Outcome {
    if p.idle == [] then
      if p.size <= p.max && !connects then Failed else Again
    else
      match p.idle[0]
      case Some(c) => Got(c)
      case None => Again
  }

  /** The pool after that iteration. */
  function Get(p: Pool, connects: bool): Pool {
    if p.idle == [] then
      if p.size <= p.max then Create(p, connects) else p
    else
      var rest := p.(idle := p.idle[1..]);
      match p.idle[0]
      case Some(c) => rest.(lent := p.lent + {c})
      case None => Create(rest, connects)
  }

  function Free(p: Pool, conn: Option<Conn>): Pool {
    match conn
    case Some(c) => p.(idle := p.idle + [conn], lent := p.lent - {c})
    case None => p
  }

  datatype Step =
    | GetStep(connects: bool)
    | FreeStep(conn: Option<Conn>)
    | DropStep(held: Conn)          // a holder returns early and forgets its connection

  /** A holder gives back or forgets only what it holds. */
  predicate Disciplined(p: Pool, e: Step) {
    match e
    case GetStep(_) => true
    case FreeStep(c) => c.None? || c.value in p.lent
    case DropStep(c) => c in p.lent
  }

  function Next(p: Pool, e: Step): Pool {
    match e
    case GetStep(connects) => Get(p, connects)
    case FreeStep(c) => Free(p, c)
    case DropStep(c) => p.(lent := p.lent - {c}, dropped := p.dropped + {c})
  }

  /** The locked steps of any number of threads, in any order. */
  function Run(p: Pool, es: seq<Step>): Pool
    decreases |es|
  {
    if es == [] then p else Run(Next(p, es[0]), es[1..])
  }

  predicate AllDisciplined(p: Pool, es: seq<Step>)
    decreases |es|
  {
    es == [] || (Disciplined(p, es[0]) && AllDisciplined(Next(p, es[0]), es[1..]))
  }

  // ------------------------------------------------------------ conservation

  /** Every connection created is in exactly one place: once in the queue, lent, or dropped; the queue holds no null. */
  ghost predicate Conserved(p: Pool) {
    && (forall i :: 0 <= i < |p.idle| ==> p.idle[i].Some?)
    && (forall i, j :: 0 <= i < j < |p.idle| ==> p.idle[i] != p.idle[j])
    && p.lent !! p.dropped
    && (forall c: nat :: c < p.created <==> Some(c) in p.idle || c in p.lent || c in p.dropped)
    && (forall c :: c in p.lent || c in p.dropped ==> Some(c) !in p.idle)
  }

  /** A locked step keeps the connections conserved exactly if nobody gives back what it does not hold. */
  lemma StepConserves(p: Pool, e: Step)
    requires Conserved(p)
    ensures Disciplined(p, e) ==> Conserved(Next(p, e))
    ensures !e.DropStep? && Conserved(Next(p, e)) ==> Disciplined(p, e)
  {
    var p' := Next(p, e);
    match e
    case GetStep(connects) =>
      if p.idle != [] {
        var c := p.idle[0].value;
        assert p.idle == [Some(c)] + p'.idle;
        assert Some(c) !in p'.idle;
      }
    case FreeStep(None) =>
    case FreeStep(Some(c)) =>
      assert p'.idle[|p.idle|] == Some(c);
      if c !in p.lent {
        if Some(c) in p.idle {
          var i :| 0 <= i < |p.idle| && p.idle[i] == Some(c);
          assert p'.idle[i] == p'.idle[|p.idle|];
        } else {
          assert Some(c) in p'.idle;
        }
      }
    case DropStep(c) =>
  }

  /** How many attempts reach the server. */
  function Successes(connects: seq<bool>): nat {
    if connects == [] then 0 else Successes(connects[1..]) + if connects[0] then 1 else 0
  }

  lemma {:induction false} CreateAllConserves(p: Pool, connects: seq<bool>)
    requires Conserved(p)
    ensures var p' := CreateAll(p, connects);
      Conserved(p') && p'.created == p.created + Successes(connects) <= p.created + |connects|
      && p'.size - p'.created == p.size - p.created && p'.max == p.max
    decreases |connects|
  {
    if connects != [] {
      CreateAllConserves(Create(p, connects[0]), connects[1..]);
    }
  }

  lemma {:induction false} RunConserves(p: Pool, es: seq<Step>)
    requires Conserved(p) && AllDisciplined(p, es)
    ensures Conserved(Run(p, es))
    decreases |es|
  {
    if es != [] {
      StepConserves(p, es[0]);
      RunConserves(Next(p, es[0]), es[1..]);
    }
  }

  /** The counts add up. */
  lemma ConservedCounts(p: Pool)
    requires Conserved(p)
    ensures |p.idle| + |p.lent| + |p.dropped| == p.created
  {
    var idle := IdleSet(p.idle);
    IdleCount(p.idle);
    assert Below(p.created) == idle + p.lent + p.dropped;
    DisjointSizes(idle, p.lent, p.dropped);
  }

  lemma DisjointSizes(a: set<Conn>, b: set<Conn>, c: set<Conn>)
    requires a !! b && a !! c && b !! c
    ensures |a + b + c| == |a| + |b| + |c|
  {
  }

  ghost function Below(n: nat): (s: set<nat>)
    ensures |s| == n && forall c: nat :: c in s <==> c < n
  {
    if n == 0 then {} else Below(n - 1) + {n - 1}
  }

  /** The connections in a queue without nulls. */
  ghost function IdleSet(idle: seq<Option<Conn>>): (s: set<Conn>)
    requires forall i :: 0 <= i < |idle| ==> idle[i].Some?
    ensures forall c :: c in s <==> Some(c) in idle
  {
    if idle == [] then {}
    else
      assert idle == [idle[0]] + idle[1..];
      {idle[0].value} + IdleSet(idle[1..])
  }

  lemma {:induction false} IdleCount(idle: seq<Option<Conn>>)
    requires forall i :: 0 <= i < |idle| ==> idle[i].Some?
    requires forall i, j :: 0 <= i < j < |idle| ==> idle[i] != idle[j]
    ensures |IdleSet(idle)| == |idle|
  {
    if idle != [] {
      IdleCount(idle[1..]);
      assert idle[0] !in idle[1..];
    }
  }

  // ------------------------------------------------------------------ bound

  /** The counter runs ahead of the connections by n, so that growth stops at 151 - n. */
  ghost predicate Bounded(p: Pool, n: nat) {
    && p.max == MAX_SIZE
    && p.size == n + p.created
    && (p.created <= n || n + p.created <= MAX_SIZE + 1)
  }

  /** The queue never yields a null pointer, so the branch that would replace it is never taken. */
  lemma NullBranchIsDead(connects: seq<bool>, es: seq<Step>)
    requires AllDisciplined(Init(connects), es)
    ensures var p := Run(Init(connects), es);
      p.idle != [] ==> p.idle[0].Some? && GetOutcome(p, true).Got?
  {
    InitHolds(connects);
    RunConserves(Init(connects), es);
  }

  lemma InitHolds(connects: seq<bool>)
    ensures Conserved(Init(connects)) && Bounded(Init(connects), |connects|)
  {
    CreateAllConserves(Pool([], |connects|, MAX_SIZE, 0, {}, {}), connects);
  }

  lemma {:induction false} RunBounded(p: Pool, es: seq<Step>, n: nat)
    requires Conserved(p) && Bounded(p, n) && AllDisciplined(p, es)
    ensures Bounded(Run(p, es), n)
    decreases |es|
  {
    if es != [] {
      StepConserves(p, es[0]);
      RunBounded(Next(p, es[0]), es[1..], n);
    }
  }

  function Limit(n: nat): nat {
    if n > 151 - n then n else 151 - n
  }

  /**
   Whatever the threads do, each connection is idle, lent to one holder or
   dropped, the three add up, and there are never more than max(n, 151 - n).
   */
  lemma PoolIsSafe(connects: seq<bool>, es: seq<Step>)
    requires AllDisciplined(Init(connects), es)
    ensures var p := Run(Init(connects), es);
      Conserved(p) && |p.idle| + |p.lent| + |p.dropped| == p.created <= Limit(|connects|)
  {
    InitHolds(connects);
    RunConserves(Init(connects), es);
    RunBounded(Init(connects), es, |connects|);
    ConservedCounts(Run(Init(connects), es));
  }

  /** That many are reached: by the initial connections, or, if those all fail, by borrowing later. */
  lemma LimitIsReached(n: nat) returns (connects: seq<bool>, es: seq<Step>)
    ensures |connects| == n && AllDisciplined(Init(connects), es)
    ensures Run(Init(connects), es).created == Limit(n)
  {
    if n > MAX_SIZE + 1 - n {
      connects, es := seq(n, _ => true), [];
      AllConnect(Pool([], n, MAX_SIZE, 0, {}, {}), connects);
    } else {
      connects := seq(n, _ => false);
      NoneConnect(Pool([], n, MAX_SIZE, 0, {}, {}), connects);
      es := BorrowMore(Init(connects), MAX_SIZE + 1 - n);
    }
  }

  lemma {:induction false} AllConnect(p: Pool, connects: seq<bool>)
    requires forall i :: 0 <= i < |connects| ==> connects[i]
    ensures CreateAll(p, connects).created == p.created + |connects|
    decreases |connects|
  {
    if connects != [] {
      AllConnect(Create(p, true), connects[1..]);
    }
  }

  lemma {:induction false} NoneConnect(p: Pool, connects: seq<bool>)
    requires forall i :: 0 <= i < |connects| ==> !connects[i]
    ensures CreateAll(p, connects) == p
    decreases |connects|
  {
    if connects != [] {
      NoneConnect(p, connects[1..]);
    }
  }

  lemma {:induction false} BorrowMore(p: Pool, k: nat) returns (es: seq<Step>)
    requires p.idle == [] && (k > 0 ==> p.size + k <= p.max + 1)
    ensures AllDisciplined(p, es) && Run(p, es).created == p.created + k
    decreases k
  {
    if k == 0 {
      es := [];
    } else {
      var p1 := Get(p, true);
      var p2 := Get(p1, true);
      assert p2.idle == [];
      var rest := BorrowMore(p2, k - 1);
      es := [GetStep(true), GetStep(true)] + rest;
      assert es[1..] == [GetStep(true)] + rest && es[1..][1..] == rest;
    }
  }

  /** With the queue empty and the counter past the maximum, borrowing changes nothing until somebody gives back. */
  lemma ExhaustedPoolSpins(p: Pool, connects: bool)
    ensures p.idle == [] && p.size > p.max <==> Get(p, connects) == p && GetOutcome(p, connects) == Again
  {
    if p.idle != [] {
      assert |Get(p, connects).idle| <= |p.idle|;
      if p.idle[0].None? && connects {
        assert Get(p, connects).created > p.created;
      }
    }
  }

  // ------------------------------------------------ one thread's whole borrow

  /** What other threads do meanwhile; a step that breaks the discipline is not one of theirs. */
  function Others(p: Pool, es: seq<Step>): Pool
    decreases |es|
  {
    if es == [] then p else Others(if Disciplined(p, es[0]) then Next(p, es[0]) else p, es[1..])
  }

  /** A thread in `GetRedisConn`: how its loop has gone so far, and the pool. */
  datatype Borrowing = Borrowing(outcome: Outcome, pool: Pool)

  /** Its first n turns, before each of which other threads take some steps; it stops when it has an answer. */
  function Turns(p: Pool, others: seq<seq<Step>>, connects: seq<bool>, n: nat): Borrowing
    requires n <= |others| && n <= |connects|
  {
    if n == 0 then Borrowing(Again, p)
    else
      var b := Turns(p, others, connects, n - 1);
      if b.outcome != Again then b
      else
        var q := Others(b.pool, others[n - 1]);
        Borrowing(GetOutcome(q, connects[n - 1]), Get(q, connects[n - 1]))
  }

  lemma {:induction false} OthersConserve(p: Pool, es: seq<Step>)
    requires Conserved(p)
    ensures Conserved(Others(p, es))
    decreases |es|
  {
    if es != [] {
      var q := if Disciplined(p, es[0]) then Next(p, es[0]) else p;
      StepConserves(p, es[0]);
      OthersConserve(q, es[1..]);
    }
  }

  /** One turn that gets a connection takes one that nobody held. */
  lemma TurnLends(q: Pool, connects: bool)
    requires Conserved(q)
    ensures Conserved(Get(q, connects))
    ensures match GetOutcome(q, connects)
      case Got(c) => c !in q.lent && Get(q, connects).lent == q.lent + {c}
      case Failed => Get(q, connects) == q
      case Again => Get(q, connects).lent == q.lent
  {
    StepConserves(q, GetStep(connects));
    if q.idle != [] {
      assert q.idle[0] in q.idle;
    }
  }

  /** Whatever other threads do between the turns, the pool stays conserved and a borrowed connection is lent. */
  lemma {:induction false} TurnsConserve(p: Pool, others: seq<seq<Step>>, connects: seq<bool>, n: nat)
    requires Conserved(p) && n <= |others| && n <= |connects|
    ensures var b := Turns(p, others, connects, n);
      Conserved(b.pool) && (b.outcome.Got? ==> b.outcome.conn in b.pool.lent)
  {
    if n > 0 {
      TurnsConserve(p, others, connects, n - 1);
      var b := Turns(p, others, connects, n - 1);
      OthersConserve(b.pool, others[n - 1]);
      TurnLends(Others(b.pool, others[n - 1]), connects[n - 1]);
    }
  }

  /** When no other thread interferes, two turns decide: it has its answer, or it goes round for ever. */
  lemma {:induction false} TurnsAlone(p: Pool, connects: bool, n: nat)
    requires Conserved(p) && n >= 2
    ensures var b := Turns(p, seq(n, _ => []), seq(n, _ => connects), n);
      if Lends(p) then
        && b.pool == AfterBorrow(p, connects)
        && b.outcome == match Borrowed(p, connects) { case Some(c) => Got(c) case None => Failed }
      else
        b == Borrowing(Again, p)
  {
    var others: seq<seq<Step>>, all := seq(n, _ => []), seq(n, _ => connects);
    if n > 2 {
      TurnsAlone(p, connects, n - 1);
      SameTurns(p, seq(n - 1, _ => []), others, seq(n - 1, _ => connects), all, n - 1);
    } else {
      assert Turns(p, others, all, 1) == Borrowing(GetOutcome(p, connects), Get(p, connects));
      if p.idle != [] {
        assert p.idle[0].Some?;
      }
    }
  }

  /** Only the turns counted matter. */
  lemma {:induction false} SameTurns(p: Pool, o1: seq<seq<Step>>, o2: seq<seq<Step>>,
                                     c1: seq<bool>, c2: seq<bool>, n: nat)
    requires n <= |o1| && n <= |o2| && n <= |c1| && n <= |c2|
    requires forall i :: 0 <= i < n ==> o1[i] == o2[i] && c1[i] == c2[i]
    ensures Turns(p, o1, c1, n) == Turns(p, o2, c2, n)
  {
    if n > 0 {
      SameTurns(p, o1, o2, c1, c2, n - 1);
    }
  }

  /** `GetRedisConn` returns when no other thread interferes; otherwise it goes round for ever. */
  predicate Lends(p: Pool) {
    p.idle != [] || p.size <= p.max
  }

  /** What it returns, and the pool it leaves. */
  function Borrowed(p: Pool, connects: bool): Option<Conn> {
    if p.idle != [] then p.idle[0] else if connects then Some(p.created) else None
  }

  function AfterBorrow(p: Pool, connects: bool): Pool {
    if p.idle == [] && connects then Get(Get(p, true), true) else Get(p, connects)
  }

  lemma BorrowConserves(p: Pool, connects: bool)
    requires Conserved(p) && Lends(p)
    ensures var q := AfterBorrow(p, connects);
      Conserved(q) && q.dropped == p.dropped
      && match Borrowed(p, connects)
         case Some(c) => c !in p.lent && q.lent == p.lent + {c}
         case None => q == p
  {
    StepConserves(p, GetStep(connects));
    if p.idle == [] && connects {
      StepConserves(Get(p, true), GetStep(true));
    } else if p.idle != [] {
      assert p.idle[0] in p.idle;
    }
  }

  /** A borrow and a return around an operation leave nothing lent that was not, and lose nothing. */
  function Bracket(p: Pool, connects: bool): Pool {
    Free(AfterBorrow(p, connects), Borrowed(p, connects))
  }

  lemma BracketConserves(p: Pool, connects: bool)
    requires Conserved(p) && Lends(p)
    ensures var q := Bracket(p, connects);
      Conserved(q) && q.lent == p.lent && q.dropped == p.dropped
  {
    BorrowConserves(p, connects);
    StepConserves(AfterBorrow(p, connects), FreeStep(Borrowed(p, connects)));
  }

  /** The queue is first in, first out: what is borrowed is at the front, and what is given back goes to the end. */
  lemma BracketRotates(p: Pool, connects: bool)
    requires Conserved(p) && p.idle != []
    ensures Borrowed(p, connects) == p.idle[0] && AfterBorrow(p, connects).idle == p.idle[1..]
    ensures Bracket(p, connects).idle == p.idle[1..] + [p.idle[0]]
  {
    assert p.idle[0].Some?;
  }

  /** An empty queue that may grow lends a new connection, which is then the only one waiting. */
  lemma BracketCreates(p: Pool)
    requires p.idle == [] && p.size <= p.max
    ensures Borrowed(p, true) == Some(p.created)
    ensures Bracket(p, true).idle == [Some(p.created)] && Bracket(p, true).created == p.created + 1
  {
  }

  /**
   Who borrows a second time before giving back waits for itself exactly if it
   took the last idle connection and the counter is past the maximum.
   */
  lemma SecondBorrow(p: Pool, connects: bool)
    requires Conserved(p) && Lends(p) && Borrowed(p, connects).Some?
    ensures var q := AfterBorrow(p, connects);
      (|p.idle| <= 1 && q.size > q.max) <==> forall again :: Get(q, again) == q && GetOutcome(q, again) == Again
  {
    var q := AfterBorrow(p, connects);
    ExhaustedPoolSpins(q, false);
    ExhaustedPoolSpins(q, true);
  }

  // -------------------------------------------------------------- the class

  class RedisPool {
    /** `conn_pool_` */
    var connPool: seq<Option<Conn>>
    var poolSize: nat
    var poolMaxSize: nat
    /** How many connections were made, and which of them holders have or have let go of. */
    var made: nat
    var lent: set<Conn>
    var dropped: set<Conn>

    function View(): Pool
      reads this
    {
      Pool(connPool, poolSize, poolMaxSize, made, lent, dropped)
    }

    constructor ()
      ensures View() == Pool([], 50, 150, 0, {}, {})
    {
      connPool, poolSize, poolMaxSize, made := [], 50, MAX_SIZE, 0;
      lent, dropped := {}, {};
    }

    method CreateConnection(connects: bool)
      modifies this
      ensures View() == Create(old(View()), connects)
    {
      if connects {
        connPool := connPool + [Some(made)];
        made := made + 1;
        poolSize := poolSize + 1;
      }
    }

    /** `connects` says which of the attempts reach the server. The maximum passed in is not used. */
    method InitPool(n: nat, maxSize: nat, connects: seq<bool>) returns (ok: bool)
      requires |connects| == n
      modifies this
      ensures View() == CreateAll(old(View()).(size := n), connects)
      ensures ok <==> connPool != []
    {
      poolSize := n;
      poolMaxSize := poolMaxSize;
      ghost var start := View();
      for i := 0 to n
        invariant CreateAll(View(), connects[i..]) == CreateAll(start, connects)
      {
        assert connects[i..][1..] == connects[i + 1..];
        CreateConnection(connects[i]);
      }
      assert connects[n..] == [];
      return connPool != [];
    }

    /** One iteration of the loop in `GetRedisConn`, under the lock. */
    method TryGet(connects: bool) returns (r: Outcome)
      modifies this
      ensures View() == Get(old(View()), connects)
      ensures r == GetOutcome(old(View()), connects)
    {
      if connPool == [] {
        if poolSize <= poolMaxSize {
          CreateConnection(connects);
          if connPool == [] {
            return Failed;
          }
        }
        return Again;
      }
      var conn := connPool[0];
      connPool := connPool[1..];
      if conn.Some? {
        lent := lent + {conn.value};
        return Got(conn.value);
      } else {
        CreateConnection(connects);
        return Again;
      }
    }

    /** What other threads do between two turns of this one. */
    method Interfere(es: seq<Step>)
      modifies this
      ensures View() == Others(old(View()), es)
    {
      var q := Others(View(), es);
      connPool, poolSize, poolMaxSize, made, lent, dropped := q.idle, q.size, q.max, q.created, q.lent, q.dropped;
    }

    /**
     `GetRedisConn`, watched for as many turns of its loop as `others` has
     entries; entry k is what other threads do before turn k.
     */
    method GetRedisConn(others: seq<seq<Step>>, connects: seq<bool>) returns (r: Outcome)
      requires |connects| == |others|
      modifies this
      ensures Borrowing(r, View()) == Turns(old(View()), others, connects, |others|)
    {
      r := Again;
      for k := 0 to |others|
        invariant Borrowing(r, View()) == Turns(old(View()), others, connects, k)
      {
        if r == Again {
          Interfere(others[k]);
          r := TryGet(connects[k]);
        }
      }
    }

    /** The same undisturbed, for a pool that lends; null stands for no connection. */
    method Borrow(connects: bool) returns (conn: Option<Conn>)
      requires Conserved(View()) && Lends(View())
      modifies this
      ensures conn == Borrowed(old(View()), connects)
      ensures View() == AfterBorrow(old(View()), connects)
    {
      TurnsAlone(View(), connects, 2);
      var r := GetRedisConn(seq(2, _ => []), seq(2, _ => connects));
      conn := if r.Got? then Some(r.conn) else None;
    }

    /** A holder returns without giving its connection back; nothing in the pool changes. */
    method Forget(conn: Conn)
      modifies this`lent, this`dropped
      ensures View() == Next(old(View()), DropStep(conn))
    {
      lent, dropped := lent - {conn}, dropped + {conn};
    }

    method FreeRedisConn(conn: Option<Conn>)
      modifies this
      ensures View() == Free(old(View()), conn)
    {
      if conn.Some? {
        connPool := connPool + [conn];
        lent := lent - {conn.value};
      }
    }
  }
}
