/** The few Python string operations the match code relies on, over `seq<char>`. */
module Strings {

  /** `sub` occurs in `s` starting at index `i`. */
  predicate OccursAt(s: string, sub: string, i: int) {
    0 <= i && i + |sub| <= |s| && s[i..i + |sub|] == sub
  }

  /** Python's `s.startswith(p)`. */
  predicate StartsWith(s: string, p: string) {
    |p| <= |s| && s[..|p|] == p
  }

  /** Python's `s.endswith(p)`. */
  predicate EndsWith(s: string, p: string) {
    |p| <= |s| && s[|s| - |p|..] == p
  }

  /** `r` is what `Find(s, sub)` promises: the first occurrence, or -1 when there is none. */
  ghost predicate IsFirstOccurrence(s: string, sub: string, r: int) {
    && -1 <= r <= |s|
    && (r == -1 <==> forall i :: !OccursAt(s, sub, i))
    && (r >= 0 ==> OccursAt(s, sub, r) && forall i :: i < r ==> !OccursAt(s, sub, i))
  }

  lemma OccursAtTail(s: string, sub: string, i: int)
    requires |s| > 0 && i >= 1
    ensures OccursAt(s, sub, i) <==> OccursAt(s[1..], sub, i - 1)
  {
    if i + |sub| <= |s| {
      assert s[1..][i - 1..i - 1 + |sub|] == s[i..i + |sub|];
    }
  }

  /** The first occurrence in `s[1..]`, moved one place right, is the first in `s` when `s` does not start with `sub`. */
  lemma FirstOccurrenceTail(s: string, sub: string, r: int)
    requires |s| > 0 && !OccursAt(s, sub, 0)
    requires IsFirstOccurrence(s[1..], sub, r)
    ensures IsFirstOccurrence(s, sub, if r < 0 then -1 else r + 1)
  {
    forall i | i >= 1 ensures OccursAt(s, sub, i) <==> OccursAt(s[1..], sub, i - 1) {
      OccursAtTail(s, sub, i);
    }
    if r >= 0 {
      assert OccursAt(s, sub, r + 1);
    }
  }

  /** Python's `s.find(sub)`: the lowest index where `sub` occurs, or -1. */
  function Find(s: string, sub: string): (r: int)
    ensures IsFirstOccurrence(s, sub, r)
    decreases |s|
  {
    if |s| < |sub| then -1
    else if s[..|sub|] == sub then
      assert OccursAt(s, sub, 0);
      0
    else
      var r := Find(s[1..], sub);
      FirstOccurrenceTail(s, sub, r);
      if r < 0 then -1 else r + 1
  }

  /** If some character of `sub` does not occur in `s` at all, neither does `sub`. */
  lemma AbsentCharMeansNotFound(s: string, sub: string, j: int)
    requires 0 <= j < |sub| && sub[j] !in s
    ensures Find(s, sub) == -1
  {
    forall i | 0 <= i && i + |sub| <= |s| ensures !OccursAt(s, sub, i) {
      assert s[i..i + |sub|][j] == s[i + j];
    }
  }

  /** Python's `s[n:]`: everything after the first `n` characters, empty when `s` is shorter. */
  function SliceFrom(s: string, n: nat): (r: string)
    ensures |r| == if n <= |s| then |s| - n else 0
    ensures forall i :: 0 <= i < |r| ==> r[i] == s[n + i]
  {
    if n <= |s| then s[n..] else []
  }

  /** Python's `s[:-n]` for `n > 0`: all but the last `n` characters, empty when `s` is shorter. */
  function SliceDropLast(s: string, n: nat): (r: string)
    requires n > 0
    ensures |r| == if n <= |s| then |s| - n else 0
    ensures forall i :: 0 <= i < |r| ==> r[i] == s[i]
  {
    if n <= |s| then s[..|s| - n] else []
  }

  /** Stripping a prefix that is present gives back the rest: `p + s[len(p):] == s`. */
  lemma StripPrefix(s: string, p: string)
    requires StartsWith(s, p)
    ensures p + SliceFrom(s, |p|) == s
  {
    assert s == s[..|p|] + s[|p|..];
  }

  /** An occurrence inside the stripped rest is an occurrence in the whole string, shifted. */
  lemma OccursInRest(p: string, rest: string, sub: string, i: int)
    requires OccursAt(rest, sub, i)
    ensures OccursAt(p + rest, sub, |p| + i)
  {
    assert (p + rest)[|p| + i..|p| + i + |sub|] == rest[i..i + |sub|];
  }
}
