/** The .NET string comparisons the credentials type calls:
    the instance `string.Equals` overloads (ordinal and ordinal
    ignore-case), and the static `string.Compare(a, b,
    StringComparison.OrdinalIgnoreCase)`.
 */
module Ordinal {
  import opened Wrappers
  import opened Text

  /** `x` is lexicographically less than `y` at `k`: they agree on their
      first `k` characters, and then either `x` ends while `y` goes on, or
      `x` has the smaller character at `k`. */
  ghost predicate LexLessAt(x: String, y: String, k: int) {
    && 0 <= k <= |x| && k <= |y| && x[..k] == y[..k]
    && ((k == |x| && |x| < |y|) || (k < |x| && k < |y| && x[k] < y[k]))
  }

  /** Lexicographic order on character codes with a proper prefix first. */
  ghost predicate LexLess(x: String, y: String) {
    exists k :: LexLessAt(x, y, k)
  }

  /** Ordinal comparison: the difference of the first pair of differing
      characters or, when one string is a prefix of the other, the
      difference of the lengths. */
  function CompareOrdinal(x: String, y: String): (r: int)
    ensures r == 0 <==> x == y
  {
    if x == [] || y == [] then |x| - |y|
    else if x[0] != y[0] then x[0] as int - y[0] as int
    else
      assert x == [x[0]] + x[1..] && y == [y[0]] + y[1..];
      CompareOrdinal(x[1..], y[1..])
  }

  /** Dropping an equal first character moves the witness one step left. */
  lemma LexLessAtTail(x: String, y: String, k: int)
    requires |x| > 0 && |y| > 0 && x[0] == y[0]
    ensures LexLessAt(x, y, k) <==> (k > 0 && LexLessAt(x[1..], y[1..], k - 1))
  {
    if 0 < k <= |x| && k <= |y| {
      assert x[..k] == [x[0]] + x[1..][..k - 1];
      assert y[..k] == [y[0]] + y[1..][..k - 1];
    }
  }

  /** With equal first characters, the order is decided by the rest. */
  lemma LexLessTail(x: String, y: String)
    requires |x| > 0 && |y| > 0 && x[0] == y[0]
    ensures LexLess(x, y) <==> LexLess(x[1..], y[1..])
  {
    if LexLess(x, y) {
      var k :| LexLessAt(x, y, k);
      LexLessAtTail(x, y, k);
    }
    if LexLess(x[1..], y[1..]) {
      var k :| LexLessAt(x[1..], y[1..], k);
      LexLessAtTail(x, y, k + 1);
    }
  }

  /** With different first characters, the smaller one decides. */
  lemma LexLessHead(x: String, y: String)
    requires |x| > 0 && |y| > 0 && x[0] != y[0]
    ensures LexLess(x, y) <==> x[0] < y[0]
  {
    if x[0] < y[0] {
      assert LexLessAt(x, y, 0);
    }
    if LexLess(x, y) {
      var k :| LexLessAt(x, y, k);
      if k > 0 {
        assert x[..k][0] == y[..k][0];
      }
    }
  }

  /** A negative ordinal comparison means exactly "lexicographically less". */
  lemma {:induction false} CompareOrdinalNegative(x: String, y: String)
    ensures CompareOrdinal(x, y) < 0 <==> LexLess(x, y)
    decreases |x|
  {
    if x == [] {
      if |y| > 0 {
        assert LexLessAt(x, y, 0);
      }
    } else if y == [] {
    } else if x[0] != y[0] {
      LexLessHead(x, y);
    } else {
      LexLessTail(x, y);
      CompareOrdinalNegative(x[1..], y[1..]);
    }
  }

  /** Swapping the arguments negates the comparison. */
  lemma {:induction false} CompareOrdinalAntisymmetric(x: String, y: String)
    ensures CompareOrdinal(x, y) == -CompareOrdinal(y, x)
    decreases |x|
  {
    if x != [] && y != [] && x[0] == y[0] {
      CompareOrdinalAntisymmetric(x[1..], y[1..]);
    }
  }

  /** "At most" under the ordinal comparison is transitive. */
  lemma {:induction false} CompareOrdinalTransitive(x: String, y: String, z: String)
    requires CompareOrdinal(x, y) <= 0 && CompareOrdinal(y, z) <= 0
    ensures CompareOrdinal(x, z) <= 0
    decreases |x|
  {
    if x != [] && y != [] && z != [] && x[0] == y[0] && y[0] == z[0] {
      CompareOrdinalTransitive(x[1..], y[1..], z[1..]);
    }
  }

  /** Nullable strings ordered with null first, then lexicographically. */
  ghost predicate OptLess(a: Option<String>, b: Option<String>) {
    match (a, b)
    case (None, Some(_)) => true
    case (Some(x), Some(y)) => LexLess(x, y)
    case _ => false
  }

  /** `string.Compare(a, b, StringComparison.OrdinalIgnoreCase)`: null
      sorts before every string and equals null; two strings compare
      ordinally after folding each character to upper case. */
  function CompareIgnoreCase(a: Option<String>, b: Option<String>): (r: int)
    ensures r == 0 <==> FoldOpt(a) == FoldOpt(b)
    ensures r < 0 <==> OptLess(FoldOpt(a), FoldOpt(b))
  {
    match (a, b)
    case (None, None) => 0
    case (None, Some(_)) => -1
    case (Some(_), None) => 1
    case (Some(x), Some(y)) =>
      CompareOrdinalNegative(FoldStr(x), FoldStr(y));
      CompareOrdinal(FoldStr(x), FoldStr(y))
  }

  /** Swapping the arguments negates the ignore-case comparison. */
  lemma CompareIgnoreCaseAntisymmetric(a: Option<String>, b: Option<String>)
    ensures CompareIgnoreCase(a, b) == -CompareIgnoreCase(b, a)
  {
    if a.Some? && b.Some? {
      CompareOrdinalAntisymmetric(FoldStr(a.value), FoldStr(b.value));
    }
  }

  /** Equality of two (non-null) strings under ordinal ignore-case
      comparison: same length, and the characters agree after folding. */
  function EqualsIgnoreCase(x: String, y: String): (r: bool)
    ensures r <==> FoldStr(x) == FoldStr(y)
  {
    |x| == |y| && forall i :: 0 <= i < |x| ==> Fold(x[i]) == Fold(y[i])
  }

  /** The instance call `self.Equals(other, StringComparison.OrdinalIgnoreCase)`:
      throws when `self` is null, is false when `other` is null. */
  function InstanceEqualsIgnoreCase(self: Option<String>, other: Option<String>): (r: Outcome<bool>)
    ensures r.Throws? <==> self.None?
    ensures r.Returns? ==> (r.value <==> FoldOpt(self) == FoldOpt(other))
  {
    match self
    case None => Throws
    case Some(x) =>
      match other
      case None => Returns(false)
      case Some(y) => Returns(EqualsIgnoreCase(x, y))
  }

  /** The instance call `self.Equals(other)`: ordinal, case-sensitive;
      throws when `self` is null, is false when `other` is null. */
  function InstanceEquals(self: Option<String>, other: Option<String>): (r: Outcome<bool>)
    ensures r.Throws? <==> self.None?
    ensures r.Returns? ==> (r.value <==> self == other)
  {
    match self
    case None => Throws
    case Some(x) =>
      match other
      case None => Returns(false)
      case Some(y) => Returns(x == y)
  }
}
