/** `string.Split(string separator)` with a non-empty separator and no
    options: the string is cut at the occurrences of the separator found
    left to right without overlap, and empty parts are kept.
 */
module Splitting {
  import opened Wrappers
  import opened Text

  /** The separator `d` occurs in `s` starting at index `i`. */
  predicate OccursAt(s: String, d: String, i: int) {
    0 <= i && i + |d| <= |s| && s[i..i + |d|] == d
  }

  /** The separator does not occur in `s` at or after index `m`. */
  predicate FreeFrom(s: String, d: String, m: int) {
    forall j :: m <= j <= |s| ==> !OccursAt(s, d, j)
  }

  /** The separator does not occur anywhere in `s`. */
  predicate Free(s: String, d: String) {
    FreeFrom(s, d, 0)
  }

  /** `s.IndexOf(d, from, StringComparison.Ordinal)`: the leftmost
      occurrence of `d` at or after `from`, or None. */
  function IndexOf(s: String, d: String, from: nat): (r: Option<nat>)
    decreases |s| - from
    ensures r.Some? ==> from <= r.value && OccursAt(s, d, r.value)
    ensures r.Some? ==> forall j :: from <= j < r.value ==> !OccursAt(s, d, j)
    ensures r.None? ==> FreeFrom(s, d, from)
  {
    if from + |d| > |s| then None
    else if s[from..from + |d|] == d then Some(from)
    else IndexOf(s, d, from + 1)
  }

  /** The parts of `s` between the separators, in order. */
  function Split(s: String, d: String): (r: seq<String>)
    requires |d| > 0
    decreases |s|
    ensures |r| >= 1
  {
    match IndexOf(s, d, 0)
    case None => [s]
    case Some(i) => [s[..i]] + Split(s[i + |d|..], d)
  }

  /** Rejoins parts with the separator between them: `string.Join(d, parts)`. */
  function Join(parts: seq<String>, d: String): String
    requires |parts| >= 1
  {
    if |parts| == 1 then parts[0] else parts[0] + d + Join(parts[1..], d)
  }

  /** One step of `Split`: the part before the leftmost occurrence, then
      the parts of the remainder after it. */
  lemma SplitStep(s: String, d: String, i: nat)
    requires |d| > 0 && IndexOf(s, d, 0) == Some(i)
    ensures Split(s, d) == [s[..i]] + Split(s[i + |d|..], d)
    ensures s == s[..i] + d + s[i + |d|..]
  {
    assert s[i..i + |d|] == d;
    assert s == s[..i] + s[i..i + |d|] + s[i + |d|..];
  }

  /** An occurrence in a suffix is an occurrence in the whole string. */
  lemma OccursInSuffix(s: String, d: String, m: nat, j: int)
    requires m <= |s|
    ensures OccursAt(s[m..], d, j) <==> (0 <= j && OccursAt(s, d, m + j))
  {
    if 0 <= j && m + j + |d| <= |s| {
      assert s[m..][j..j + |d|] == s[m + j..m + j + |d|];
    }
  }

  /** A suffix is free of the separator iff the string is from there on. */
  lemma FreeSuffix(s: String, d: String, m: nat)
    requires m <= |s|
    ensures Free(s[m..], d) <==> FreeFrom(s, d, m)
  {
    if !Free(s[m..], d) {
      var j :| 0 <= j <= |s| - m && OccursAt(s[m..], d, j);
      OccursInSuffix(s, d, m, j);
    }
    if !FreeFrom(s, d, m) {
      var j :| m <= j <= |s| && OccursAt(s, d, j);
      OccursInSuffix(s, d, m, j - m);
    }
  }

  /** A prefix that ends before the leftmost occurrence is free of the
      separator. */
  lemma FreePrefix(s: String, d: String, i: nat)
    requires |d| > 0 && i <= |s| && forall j :: 0 <= j < i ==> !OccursAt(s, d, j)
    ensures Free(s[..i], d)
  {
    forall j | 0 <= j <= i ensures !OccursAt(s[..i], d, j) {
      if j + |d| <= i {
        assert s[..i][j..j + |d|] == s[j..j + |d|];
        assert !OccursAt(s, d, j);
      }
    }
  }

  /** Join of a part followed by more parts. */
  lemma JoinCons(p: String, parts: seq<String>, d: String)
    requires |parts| >= 1
    ensures Join([p] + parts, d) == p + d + Join(parts, d)
  {
    assert ([p] + parts)[1..] == parts;
  }

  /** Joining the parts with the separator gives back the string. */
  lemma {:induction false} SplitJoin(s: String, d: String)
    requires |d| > 0
    decreases |s|
    ensures Join(Split(s, d), d) == s
  {
    match IndexOf(s, d, 0)
    case None =>
    case Some(i) =>
      var rest := s[i + |d|..];
      SplitStep(s, d, i);
      SplitJoin(rest, d);
      JoinCons(s[..i], Split(rest, d), d);
  }

  /** No part of a split contains the separator. */
  lemma {:induction false} SplitPartsFree(s: String, d: String)
    requires |d| > 0
    decreases |s|
    ensures forall k :: 0 <= k < |Split(s, d)| ==> Free(Split(s, d)[k], d)
  {
    match IndexOf(s, d, 0)
    case None =>
    case Some(i) =>
      var rest := s[i + |d|..];
      SplitStep(s, d, i);
      SplitPartsFree(rest, d);
      FreePrefix(s, d, i);
      ConsFree(s[..i], Split(rest, d), d);
  }

  /** Prepending a separator-free part keeps every part separator-free. */
  lemma ConsFree(p: String, parts: seq<String>, d: String)
    requires Free(p, d)
    requires forall k :: 0 <= k < |parts| ==> Free(parts[k], d)
    ensures forall k :: 0 <= k < |[p] + parts| ==> Free(([p] + parts)[k], d)
  {
    forall k | 0 <= k < |[p] + parts| ensures Free(([p] + parts)[k], d) {
      if k > 0 {
        assert ([p] + parts)[k] == parts[k - 1];
      }
    }
  }

  /** The separator occurs once at `i` and splitting yields exactly two
      parts: `i` is its leftmost occurrence and it does not occur again in
      the remainder after it. Overlapping occurrences inside the first
      match do not count, just as in the left-to-right scan. */
  predicate SplitsOnceAt(s: String, d: String, i: int) {
    && OccursAt(s, d, i)
    && (forall j :: 0 <= j < i ==> !OccursAt(s, d, j))
    && FreeFrom(s, d, i + |d|)
  }

  /** Splitting yields one part exactly when the separator is absent. */
  lemma SplitSingle(s: String, d: String)
    requires |d| > 0
    ensures |Split(s, d)| == 1 <==> Free(s, d)
    ensures Free(s, d) ==> Split(s, d) == [s]
  {
    match IndexOf(s, d, 0)
    case None =>
    case Some(i) =>
      assert !Free(s, d);
  }

  /** Once the leftmost occurrence is at `i`, the string splits in two
      exactly when it splits once at `i`. */
  lemma SplitTwoAt(s: String, d: String, i: nat)
    requires |d| > 0 && IndexOf(s, d, 0) == Some(i)
    ensures |Split(s, d)| == 2 <==> SplitsOnceAt(s, d, i)
    ensures SplitsOnceAt(s, d, i) ==> Split(s, d) == [s[..i], s[i + |d|..]]
  {
    var rest := s[i + |d|..];
    SplitStep(s, d, i);
    SplitSingle(rest, d);
    FreeSuffix(s, d, i + |d|);
  }

  /** A string splits once at no more than one index. */
  lemma SplitsOnceAtUnique(s: String, d: String, i: int, i2: int)
    requires |d| > 0 && SplitsOnceAt(s, d, i) && SplitsOnceAt(s, d, i2)
    ensures i == i2
  {
  }

  /** Splitting yields exactly two parts iff the separator splits the
      string once, and then the parts are what lies before and after it. */
  lemma SplitTwo(s: String, d: String)
    requires |d| > 0
    ensures |Split(s, d)| == 2 <==> exists i :: SplitsOnceAt(s, d, i)
    ensures forall i :: SplitsOnceAt(s, d, i) ==> Split(s, d) == [s[..i], s[i + |d|..]]
  {
    match IndexOf(s, d, 0)
    case None =>
      SplitSingle(s, d);
    case Some(i) =>
      SplitTwoAt(s, d, i);
      forall i2 | SplitsOnceAt(s, d, i2) ensures i2 == i {
        assert OccursAt(s, d, i);
      }
  }

  /** A one-character separator that occurs nowhere else splits the line
      once, at the join. */
  lemma SingleCharSplitsOnce(u: String, ch: char, p: String)
    requires ch !in u && ch !in p
    ensures SplitsOnceAt(u + [ch] + p, [ch], |u|)
  {
    var s := u + [ch] + p;
    assert s[|u|..|u| + 1] == [ch];
    forall j | 0 <= j < |s| && j != |u| ensures !OccursAt(s, [ch], j) {
      assert s[j..j + 1] == [s[j]];
      if j < |u| { assert s[j] == u[j]; } else { assert s[j] == p[j - |u| - 1]; }
    }
  }

  /** Two non-overlapping occurrences leave no index at which the string
      splits once. */
  lemma TwoOccurrencesNoSingleSplit(s: String, d: String, j1: int, j2: int)
    requires OccursAt(s, d, j1) && OccursAt(s, d, j2) && j1 + |d| <= j2
    ensures forall i :: !SplitsOnceAt(s, d, i)
  {
  }
}
