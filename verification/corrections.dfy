/** Null-safe counterparts of the two members that throw on inputs the
    type otherwise allows: `TryParse` on a one-character line, and
    `Equals` on a null user name or password. Each is proved to agree with
    the original wherever the original returns. */
module Corrections {
  import opened Wrappers
  import opened Text
  import opened Splitting
  import opened CM
  import opened ParseLaws
  import opened EqualityLaws

  /** `TryParse` with the comment test guarded by a length check: a line
      shorter than the marker is simply not a comment. */
  function TryParseGuarded(line: Option<String>, delimiter: Option<String>): (r: Parsed)
    ensures TryParse(line, delimiter).Returns? ==> r == TryParse(line, delimiter).value
    ensures TryParse(line, delimiter).Throws? ==> r == Rejected
    ensures !r.success ==> r.credentials == Default
  {
    if IsNullOrWhiteSpace(line) then Rejected
    else if IsNullOrEmpty(delimiter) then Rejected
    else if StartsWithComment(line.value) then Rejected
    else if |line.value| < 2 then
      ShortLineRejected(line.value, delimiter.value);
      ParseRow(line.value, delimiter.value)
    else ParseRow(line.value, delimiter.value)
  }

  /** A line shorter than two characters never splits into two non-blank
      parts: the delimiter would have to be the whole line. */
  lemma ShortLineRejected(line: String, delimiter: String)
    requires |line| < 2 && delimiter != []
    ensures ParseRow(line, delimiter) == Rejected
  {
    SplitTwo(line, delimiter);
    if i :| SplitsOnceAt(line, delimiter, i) {
      assert i == 0;
      assert Split(line, delimiter)[0] == [];
    }
  }

  /** The static `string.Equals(a, b, comparison)`: two nulls are equal, a
      null and a string are not. */
  function StaticEqualsIgnoreCase(a: Option<String>, b: Option<String>): (r: bool)
    ensures r <==> FoldOpt(a) == FoldOpt(b)
  {
    match (a, b)
    case (None, None) => true
    case (Some(x), Some(y)) => Ordinal.EqualsIgnoreCase(x, y)
    case _ => false
  }

  /** `Equals` written with the static, null-safe string comparisons. */
  function EqualsNullSafe(a: Credentials, b: Credentials): (r: bool)
    ensures r <==> Key(a) == Key(b)
    ensures Equals(a, b).Returns? ==> Equals(a, b).value == r
  {
    StaticEqualsIgnoreCase(a.userName, b.userName) && a.userPassword == b.userPassword
  }

  /** The null-safe equality is an equivalence on every instance,
      `default` included, and stays consistent with `GetHashCode`. */
  lemma EqualsNullSafeIsEquivalence(a: Credentials, b: Credentials, c: Credentials,
                                    strHash: String -> int, combine: (int, int) -> int)
    ensures EqualsNullSafe(a, a)
    ensures EqualsNullSafe(a, b) == EqualsNullSafe(b, a)
    ensures EqualsNullSafe(a, b) && EqualsNullSafe(b, c) ==> EqualsNullSafe(a, c)
    ensures EqualsNullSafe(a, b) ==> GetHashCode(a, strHash, combine) == GetHashCode(b, strHash, combine)
    ensures EqualsNullSafe(Default, Default)
  {
    if EqualsNullSafe(a, b) {
      HashDependsOnKey(a, b, strHash, combine);
    }
  }
}
