/** Handing out event loops in turn. */
module LoopPool {
  import opened Bits

  type Loop = nat

  /** After `start` with n threads the pool holds n loops; with none it falls back to the base loop. */
  class EventLoopThreadPool {
    const baseLoop: Loop
    const loops: seq<Loop>
    var next: nat
    /** How many loops were handed out. */
    ghost var calls: nat

    ghost predicate Valid()
      reads this
    {
      next == if loops == [] then 0 else calls % |loops|
    }

    constructor (baseLoop: Loop, loops: seq<Loop>)
      ensures Valid() && calls == 0 && this.baseLoop == baseLoop && this.loops == loops
    {
      this.baseLoop, this.loops := baseLoop, loops;
      next, calls := 0, 0;
    }

    /** Call k, counted from 0, returns loop k modulo the number of loops. */
    method GetNextLoop() returns (loop: Loop)
      requires Valid()
      modifies this
      ensures Valid() && calls == old(calls) + 1
      ensures loop == if loops == [] then baseLoop else loops[old(calls) % |loops|]
    {
      loop := baseLoop;
      if loops != [] {
        loop := loops[next];
        NextIndex(calls, |loops|);
        next := next + 1;
        if next >= |loops| {
          next := 0;
        }
      }
      calls := calls + 1;
    }
  }

  lemma NextIndex(k: nat, n: nat)
    requires n > 0
    ensures (k + 1) % n == if k % n + 1 == n then 0 else k % n + 1
    ensures (k + 1) / n == if k % n + 1 == n then k / n + 1 else k / n
  {
    var q, r := k / n, k % n;
    if r + 1 == n {
      DivModUnique(k + 1, n, q + 1, 0);
    } else {
      DivModUnique(k + 1, n, q, r + 1);
    }
  }

  /** How often the first k calls on a pool of n loops return loop j. */
  function Served(k: nat, n: nat, j: nat): nat
    requires j < n
  {
    if k == 0 then 0 else Served(k - 1, n, j) + if (k - 1) % n == j then 1 else 0
  }

  /** Every loop is served k / n times, rounded up for the first k % n loops and down for the others. */
  lemma {:induction false} Fairness(k: nat, n: nat, j: nat)
    requires j < n
    ensures Served(k, n, j) == k / n + if j < k % n then 1 else 0
  {
    if k > 0 {
      Fairness(k - 1, n, j);
      NextIndex(k - 1, n);
    } else {
      DivModUnique(0, n, 0, 0);
    }
  }
}
