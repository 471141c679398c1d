/**
 * `asyncForEach`: await a callback on every element of an array, one call
 * after the other. Each call sees the world exactly as the previous call left
 * it, which is how the model expresses "each call completes before the next
 * one starts".
 */
module PolyfillHelpers {

  /** One invocation of the callback: `callback(value, index, array)`. */
  datatype Call<T> = Call(value: T, index: nat, items: seq<T>)

  /** The world after the callback has run, in order, on the first `n` elements. */
  function RunSequentially<T, S>(callback: (S, T, nat, seq<T>) -> S, init: S, items: seq<T>, n: nat): S
    requires n <= |items|
  {
    if n == 0 then init
    else callback(RunSequentially(callback, init, items, n - 1), items[n - 1], n - 1, items)
  }

  /**
   * Runs `callback` once per index, in increasing index order, threading the
   * world `init` through the calls. `calls` is the method's own trace of the
   * arguments it passed, one entry per call in the order the calls were made;
   * what the callbacks did with them is stated by the `world` clause alone.
   */
  method AsyncForEach<T, S>(items: seq<T>, callback: (S, T, nat, seq<T>) -> S, init: S)
    returns (world: S, calls: seq<Call<T>>)
    ensures |calls| == |items|
    ensures forall i :: 0 <= i < |calls| ==> calls[i] == Call(items[i], i, items)
    ensures world == RunSequentially(callback, init, items, |items|)
  {
    world := init;
    calls := [];
    var index := 0;
    while index < |items|
      invariant 0 <= index <= |items|
      invariant |calls| == index
      invariant forall i :: 0 <= i < index ==> calls[i] == Call(items[i], i, items)
      invariant world == RunSequentially(callback, init, items, index)
    {
      world := callback(world, items[index], index, items);
      calls := calls + [Call(items[index], index, items)];
      index := index + 1;
    }
  }

  /** A callback that records its own index when it completes. */
  function RecordIndex<T>(completed: seq<nat>, value: T, index: nat, items: seq<T>): seq<nat> {
    completed + [index]
  }

  /** However long each call takes, the calls complete in index order. */
  lemma {:induction false} CompletionOrderIsIndexOrder<T>(items: seq<T>, n: nat)
    requires n <= |items|
    ensures var completed := RunSequentially(RecordIndex, [], items, n);
            |completed| == n && forall i :: 0 <= i < n ==> completed[i] == i
  {
    if n > 0 {
      CompletionOrderIsIndexOrder(items, n - 1);
    }
  }

  /** A callback that appends `f` of its element to what earlier calls collected. */
  function Collect<T, U>(f: T -> U): (S: (seq<U>, T, nat, seq<T>) -> seq<U>) {
    (done: seq<U>, value: T, index: nat, items: seq<T>) => done + [f(value)]
  }

  /** Collecting after the first `n` calls gives `f` of the first `n` elements, in index order. */
  lemma {:induction false} CollectInOrder<T, U>(f: T -> U, items: seq<T>, n: nat)
    requires n <= |items|
    ensures var done := RunSequentially(Collect(f), [], items, n);
            |done| == n && forall i :: 0 <= i < n ==> done[i] == f(items[i])
  {
    if n > 0 {
      CollectInOrder(f, items, n - 1);
      var before := RunSequentially(Collect(f), [], items, n - 1);
      assert RunSequentially(Collect(f), [], items, n) == before + [f(items[n - 1])];
    }
  }
}
