/** Memory requests that may fail: `calloc`, `malloc`, `realloc`, `mmap` and `EFObjectAlloc`. */
module Allocation {

  /** So many requests, all granted. */
  function Granted(n: nat): (history: seq<bool>)
    ensures |history| == n && false !in history
  {
    seq(n, _ => true)
  }

  lemma GrantedMore(n: nat)
    ensures Granted(n) + [true] == Granted(n + 1)
    ensures Granted(0) == [] && Granted(1) == [true] && Granted(2) == [true, true]
  {
  }

  lemma GrantedBoth(m: nat, n: nat)
    ensures Granted(m) + Granted(n) == Granted(m + n)
  {
  }

  /** Requests up to a refused one say how many were granted before. */
  lemma RefusedAfter(before: seq<bool>, m: nat, n: nat, refused: bool)
    ensures before + Granted(m) + (if refused then [false] else []) == before + Granted(n) + [false] <==>
            refused && m == n
  {
    var x, y := before + Granted(m) + (if refused then [false] else []), before + Granted(n) + [false];
    if x == y {
      assert |x| == |y| && x[|x| - 1] == y[|y| - 1];
    }
  }

  /** The environment decides each request. */
  class Allocator {
    /** How many requests were refused, so that contracts can speak of them. */
    ghost var failures: nat

    /** All requests, and whether they were granted. */
    ghost var history: seq<bool>

    /** Blocks given back: pointers to them dangle. */
    ghost var freed: set<object>

    method Request() returns (granted: bool)
      modifies this
      ensures failures == old(failures) + if granted then 0 else 1
      ensures history == old(history) + [granted] && freed == old(freed)
    {
      granted := *;
      if !granted {
        failures := failures + 1;
      }
      history := history + [granted];
    }

    /** A request that no environment grants. */
    method Refuse()
      modifies this
      ensures failures == old(failures) + 1 && history == old(history) + [false] && freed == old(freed)
    {
      failures := failures + 1;
      history := history + [false];
    }
  }
}
