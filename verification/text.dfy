/**
 * The JavaScript string operations the source relies on: `includes`,
 * `indexOf`, `replace` with a string pattern (first occurrence only),
 * `split` on a single character, and the `\d` and `\s` regular-expression
 * character classes.
 */
module Text {
  import opened Wrappers

  /** `pat` occurs in `s` starting at index `i`. */
  predicate OccursAt(s: string, pat: string, i: int) {
    0 <= i && i + |pat| <= |s| && s[i..i + |pat|] == pat
  }

  /** `s.includes(pat)`. */
  predicate Contains(s: string, pat: string) {
    exists i :: 0 <= i <= |s| && OccursAt(s, pat, i)
  }

  predicate EndsWith(s: string, suffix: string) {
    |suffix| <= |s| && s[|s| - |suffix|..] == suffix
  }

  /** The first index at or after `k` where `pat` occurs in `s`. */
  function IndexOfFrom(s: string, pat: string, k: nat): (r: Option<nat>)
    requires k <= |s|
    ensures r.Some? ==> k <= r.value && OccursAt(s, pat, r.value)
    ensures r.Some? ==> forall j :: k <= j < r.value ==> !OccursAt(s, pat, j)
    ensures r.None? ==> forall j :: k <= j ==> !OccursAt(s, pat, j)
    decreases |s| - k
  {
    if k + |pat| > |s| then None
    else if s[k..k + |pat|] == pat then Some(k)
    else IndexOfFrom(s, pat, k + 1)
  }

  /** `s.indexOf(pat)`, with `None` for JavaScript's -1. */
  function IndexOf(s: string, pat: string): (r: Option<nat>)
    ensures r.Some? <==> Contains(s, pat)
    ensures r.Some? ==> OccursAt(s, pat, r.value)
    ensures r.Some? ==> forall j :: 0 <= j < r.value ==> !OccursAt(s, pat, j)
  {
    var r := IndexOfFrom(s, pat, 0);
    assert r.Some? ==> r.value <= |s|;
    r
  }

  /** `s.replace(pat, rep)` with a string pattern: only the first occurrence is replaced. */
  function ReplaceFirst(s: string, pat: string, rep: string): (r: string)
    ensures !Contains(s, pat) ==> r == s
    ensures Contains(s, pat) ==> |r| == |s| - |pat| + |rep|
    ensures forall i :: OccursAt(s, pat, i) && (forall j :: 0 <= j < i ==> !OccursAt(s, pat, j))
              ==> r == s[..i] + rep + s[i + |pat|..]
  {
    match IndexOf(s, pat)
    case None => s
    case Some(i) =>
      FirstOccurrenceIsUnique(s, pat, i);
      s[..i] + rep + s[i + |pat|..]
  }

  /** At most one position is the first occurrence. */
  lemma FirstOccurrenceIsUnique(s: string, pat: string, i: int)
    requires OccursAt(s, pat, i) && forall j :: 0 <= j < i ==> !OccursAt(s, pat, j)
    ensures forall i' :: OccursAt(s, pat, i') && (forall j :: 0 <= j < i' ==> !OccursAt(s, pat, j)) ==> i' == i
  {
    forall i' | OccursAt(s, pat, i') && (forall j :: 0 <= j < i' ==> !OccursAt(s, pat, j))
      ensures i' == i
    {
      assert i' < i ==> !OccursAt(s, pat, i');
      assert i < i' ==> !OccursAt(s, pat, i);
    }
  }

  /** No proper suffix of `pat` is also a prefix of it, so two occurrences can never overlap. */
  ghost predicate NoBorder(pat: string) {
    forall d :: 0 < d < |pat| ==> pat[d..] != pat[..|pat| - d]
  }

  /** A pattern whose first character appears nowhere else has no border. */
  lemma FirstCharUniqueNoBorder(pat: string)
    requires |pat| > 0
    requires forall d :: 0 < d < |pat| ==> pat[d] != pat[0]
    ensures NoBorder(pat)
  {
    forall d | 0 < d < |pat|
      ensures pat[d..] != pat[..|pat| - d]
    {
      assert pat[d..][0] == pat[d];
      assert pat[..|pat| - d][0] == pat[0];
    }
  }

  /**
   * In `a + pat + b`, when `a` does not contain `pat` and `pat` cannot overlap
   * itself, the first occurrence of `pat` is the one right after `a`.
   */
  lemma {:induction false} FirstOccurrenceAfter(a: string, pat: string, b: string)
    requires NoBorder(pat)
    requires !Contains(a, pat)
    ensures OccursAt(a + pat + b, pat, |a|)
    ensures forall j :: 0 <= j < |a| ==> !OccursAt(a + pat + b, pat, j)
  {
    var s := a + pat + b;
    assert s[|a|..|a| + |pat|] == pat;
    forall j | 0 <= j < |a|
      ensures !OccursAt(s, pat, j)
    {
      if OccursAt(s, pat, j) {
        if j + |pat| <= |a| {
          assert s[j..j + |pat|] == a[j..j + |pat|];
          assert OccursAt(a, pat, j);
          assert false;
        } else {
          StraddleIsBorder(a, pat, b, j);
          assert false;
        }
      }
    }
  }

  /** An occurrence of `pat` that starts inside `a` and ends inside `pat` in `a + pat + b` is a border of `pat`. */
  lemma StraddleIsBorder(a: string, pat: string, b: string, j: int)
    requires 0 <= j < |a| < j + |pat|
    requires OccursAt(a + pat + b, pat, j)
    ensures pat[|a| - j..] == pat[..|pat| - (|a| - j)]
  {
    var s := a + pat + b;
    var d := |a| - j;
    forall k | 0 <= k < |pat| - d
      ensures pat[d..][k] == pat[..|pat| - d][k]
    {
      assert pat[d + k] == s[j + d + k];
      assert s[|a| + k] == pat[k];
    }
  }

  /** Removing the first occurrence of a border-free `pat` from `a + pat + b` gives back `a + b`. */
  lemma RemoveFirstOccurrence(a: string, pat: string, b: string)
    requires NoBorder(pat)
    requires !Contains(a, pat)
    ensures ReplaceFirst(a + pat + b, pat, "") == a + b
  {
    var s := a + pat + b;
    FirstOccurrenceAfter(a, pat, b);
    assert s[..|a|] == a;
    assert s[|a| + |pat|..] == b;
  }

  /** JavaScript's `\d`. */
  predicate IsDigit(c: char) {
    '0' <= c <= '9'
  }

  predicate AllDigits(s: string) {
    forall i :: 0 <= i < |s| ==> IsDigit(s[i])
  }

  /** JavaScript's `\s`: white space and line terminators. */
  predicate IsWhitespace(c: char) {
    || c == '\t' || c == '\n' || c == '\U{000B}' || c == '\U{000C}' || c == '\r' || c == ' '
    || c == '\U{00A0}' || c == '\U{1680}' || ('\U{2000}' <= c <= '\U{200A}')
    || c == '\U{2028}' || c == '\U{2029}' || c == '\U{202F}' || c == '\U{205F}'
    || c == '\U{3000}' || c == '\U{FEFF}'
  }

  /** `s.split(sep)` for a one-character separator. */
  function Split(s: string, sep: char): (parts: seq<string>)
    ensures |parts| >= 1
    ensures forall i :: 0 <= i < |parts| ==> sep !in parts[i]
  {
    if |s| == 0 then [""]
    else
      var rest := Split(s[1..], sep);
      if s[0] == sep then [""] + rest
      else [[s[0]] + rest[0]] + rest[1..]
  }

  /** `parts.join(sep)`: the inverse of `Split`. */
  function Join(parts: seq<string>, sep: char): string
    requires |parts| >= 1
  {
    if |parts| == 1 then parts[0] else parts[0] + [sep] + Join(parts[1..], sep)
  }

  /** Splitting and re-joining gives the original string back. */
  lemma {:induction false} JoinSplit(s: string, sep: char)
    ensures Join(Split(s, sep), sep) == s
  {
    if |s| > 0 {
      var rest := Split(s[1..], sep);
      JoinSplit(s[1..], sep);
      if s[0] == sep {
        assert ([""] + rest)[1..] == rest;
      } else {
        var parts := [[s[0]] + rest[0]] + rest[1..];
        if |rest| == 1 {
          assert parts == [[s[0]] + rest[0]];
        } else {
          assert parts[1..] == rest[1..];
          assert Join(rest, sep) == rest[0] + [sep] + Join(rest[1..], sep);
        }
        assert s == [s[0]] + s[1..];
      }
    }
  }

  /** A string splits into exactly one piece iff it has no separator. */
  lemma {:induction false} SplitSinglePiece(s: string, sep: char)
    ensures |Split(s, sep)| == 1 <==> sep !in s
  {
    if |s| > 0 {
      SplitSinglePiece(s[1..], sep);
      assert s == [s[0]] + s[1..];
      assert sep in s <==> s[0] == sep || sep in s[1..];
    }
  }

  /** A trailing separator leaves an empty last piece. */
  lemma {:induction false} SplitTrailingSeparator(s: string, sep: char)
    ensures Split(s + [sep], sep) == Split(s, sep) + [""]
  {
    if |s| == 0 {
      assert [sep][1..] == [];
    } else {
      assert (s + [sep])[1..] == s[1..] + [sep];
      SplitTrailingSeparator(s[1..], sep);
      var rest := Split(s[1..], sep);
      var rest' := Split(s[1..] + [sep], sep);
      assert rest' == rest + [""];
      if s[0] != sep {
        assert rest'[0] == rest[0];
        assert rest'[1..] == rest[1..] + [""];
      }
    }
  }
}
