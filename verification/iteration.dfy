/**
 * `Iteration`: a step function applied a number of times, and the two ways
 * of reasoning about it the timers need — an invariant the step keeps, and
 * a countdown that reaches a finishing condition; and a step function folded
 * along a sequence, with the invariant such a fold keeps and the loop that
 * folds until the accumulator grows past a limit.
 */
module Iteration {
  /** `f` applied `n` times to `s`, first application first. */
  function Iterate<S>(f: S -> S, s: S, n: nat): S
    decreases n
  {
    if n == 0 then s else Iterate(f, f(s), n - 1)
  }

  /** A condition every step keeps holds after any number of steps. */
  lemma {:induction false} Keeps<S>(f: S -> S, inv: S -> bool, s: S, n: nat)
    requires forall x :: inv(x) ==> inv(f(x))
    requires inv(s)
    ensures inv(Iterate(f, s, n))
    decreases n
  {
    if n > 0 {
      Keeps(f, inv, f(s), n - 1);
    }
  }

  /**
   * While `busy` with work left, each step keeps `busy` and lowers `work`;
   * `busy` with no work left, one step reaches `done`, which every later
   * step keeps. So more steps than there is work always end `done`.
   */
  lemma {:induction false} Countdown<S>(f: S -> S, busy: S -> bool, work: S -> nat, done: S -> bool, s: S, n: nat)
    requires forall x :: busy(x) && work(x) > 0 ==> busy(f(x)) && work(f(x)) < work(x)
    requires forall x :: busy(x) && work(x) == 0 ==> done(f(x))
    requires forall x :: done(x) ==> done(f(x))
    requires busy(s) && n > work(s)
    ensures done(Iterate(f, s, n))
    decreases n
  {
    if work(s) > 0 {
      Countdown(f, busy, work, done, f(s), n - 1);
    } else {
      Keeps(f, done, f(s), n - 1);
    }
  }

  /** `step` folded along the first `n` elements of `s`, starting from `init`. */
  function Fold<A, B>(step: (A, B) -> A, init: A, s: seq<B>, n: nat): A
    requires n <= |s|
  {
    if n == 0 then init else step(Fold(step, init, s, n - 1), s[n - 1])
  }

  /** A condition on the accumulator and the count of elements folded, kept by every step, holds after any prefix. */
  lemma {:induction false} FoldKeeps<A, B>(step: (A, B) -> A, inv: (A, nat) -> bool, init: A, s: seq<B>, n: nat)
    requires n <= |s|
    requires inv(init, 0)
    requires forall acc, i :: 0 <= i < |s| && inv(acc, i) ==> inv(step(acc, s[i]), i + 1)
    ensures inv(Fold(step, init, s, n), n)
  {
    if n > 0 {
      FoldKeeps(step, inv, init, s, n - 1);
    }
  }

  /**
   * Folds `step` along `s` from `init`, one element at a time, and stops
   * right after the first element that takes the accumulator past `limit`.
   * `n` is how many elements were folded and `over` whether it stopped early.
   */
  method FoldUntilOver<C, B>(step: (seq<C>, B) -> seq<C>, init: seq<C>, s: seq<B>, limit: nat)
    returns (acc: seq<C>, over: bool, n: nat)
    requires |init| <= limit
    ensures n <= |s| && acc == Fold(step, init, s, n)
    ensures over <==> |acc| > limit
    ensures !over ==> n == |s|
    ensures forall j :: 0 <= j < n ==> |Fold(step, init, s, j)| <= limit
  {
    acc := init;
    over := false;
    n := 0;
    while n < |s|
      invariant n <= |s| && acc == Fold(step, init, s, n)
      invariant !over && |acc| <= limit
      invariant forall j :: 0 <= j < n ==> |Fold(step, init, s, j)| <= limit
    {
      acc := step(acc, s[n]);
      n := n + 1;
      if |acc| > limit {
        over := true;
        break;
      }
    }
  }
}
