/** What holds of a stack of nodes that a walk still has to visit. */
module Stacks {

  /** The sizes of all entries together; the last one is the top. */
  function Total<T>(size: T -> nat, stack: seq<T>): nat {
    if stack == [] then 0 else Total(size, stack[..|stack| - 1]) + size(stack[|stack| - 1])
  }

  predicate All<T>(holds: T -> bool, stack: seq<T>) {
    forall i :: 0 <= i < |stack| ==> holds(stack[i])
  }

  lemma {:induction false} TotalAppend<T>(size: T -> nat, a: seq<T>, b: seq<T>)
    ensures Total(size, a + b) == Total(size, a) + Total(size, b)
  {
    if b == [] {
      assert a + b == a;
    } else {
      assert (a + b)[..|a + b| - 1] == a + b[..|b| - 1];
      TotalAppend(size, a, b[..|b| - 1]);
    }
  }

  lemma AllAppend<T>(holds: T -> bool, a: seq<T>, b: seq<T>)
    ensures All(holds, a + b) <==> All(holds, a) && All(holds, b)
  {
    assert forall i :: 0 <= i < |a| ==> (a + b)[i] == a[i];
    assert forall i :: 0 <= i < |b| ==> (a + b)[|a| + i] == b[i];
  }

  lemma AllFirst<T>(holds: T -> bool, x: T, rest: seq<T>)
    ensures All(holds, [x] + rest) <==> holds(x) && All(holds, rest)
  {
    assert [x][0] == x;
    AllAppend(holds, [x], rest);
  }

  lemma OneEntry<T>(size: T -> nat, x: T)
    ensures Total(size, [x]) == size(x)
  {
    assert [x][..0] == [];
  }
}
