/** Order-preserving filtering and searching of sequences (JavaScript's `Array.prototype.filter` and `find`). */
module Seqs {
  import opened Wrappers


  /** The elements of `s` that satisfy `keep`, in their original order. */
  function Filter<T>(s: seq<T>, keep: T -> bool): (r: seq<T>)
    ensures |r| <= |s|
    ensures forall i :: 0 <= i < |r| ==> keep(r[i]) && r[i] in s
    ensures forall i :: 0 <= i < |s| && keep(s[i]) ==> s[i] in r
  {
    if |s| == 0 then []
    else if keep(s[0]) then [s[0]] + Filter(s[1..], keep)
    else Filter(s[1..], keep)
  }

  /** Filtering a concatenation filters each part and keeps the parts in order. */
  lemma {:induction false} FilterConcat<T>(a: seq<T>, b: seq<T>, keep: T -> bool)
    ensures Filter(a + b, keep) == Filter(a, keep) + Filter(b, keep)
  {
    if |a| == 0 {
      assert a + b == b;
    } else {
      assert (a + b)[1..] == a[1..] + b;
      FilterConcat(a[1..], b, keep);
    }
  }

  /** Nothing survives a filter that rejects every element. */
  lemma {:induction false} FilterRejectsAll<T>(s: seq<T>, keep: T -> bool)
    requires forall i :: 0 <= i < |s| ==> !keep(s[i])
    ensures Filter(s, keep) == []
  {
    if |s| > 0 {
      FilterRejectsAll(s[1..], keep);
    }
  }

  /** `Array.prototype.find` from index `k` on, giving the index of the first element that satisfies `test`. */
  function FindFrom<T>(s: seq<T>, test: T -> bool, k: nat): (r: Option<nat>)
    requires k <= |s|
    ensures r.None? <==> forall j :: k <= j < |s| ==> !test(s[j])
    ensures r.Some? ==> k <= r.value < |s| && test(s[r.value])
    ensures r.Some? ==> forall j :: k <= j < r.value ==> !test(s[j])
    decreases |s| - k
  {
    if k == |s| then None
    else if test(s[k]) then Some(k)
    else FindFrom(s, test, k + 1)
  }
}
