/** Laws of `Equals`, the equality operators and `GetHashCode`. */
module EqualityLaws {
  import opened Wrappers
  import opened Text
  import opened CM

  /** Both fields are non-null. */
  predicate NonNull(c: Credentials) {
    c.userName.Some? && c.userPassword.Some?
  }

  /** On instances with non-null fields, `Equals` never throws and is an
      equivalence relation. */
  lemma EqualsIsEquivalence(a: Credentials, b: Credentials, c: Credentials)
    requires NonNull(a) && NonNull(b) && NonNull(c)
    ensures Equals(a, b).Returns?
    ensures Equals(a, a) == Returns(true)
    ensures Equals(a, b) == Equals(b, a)
    ensures Equals(a, b) == Returns(true) && Equals(b, c) == Returns(true) ==> Equals(a, c) == Returns(true)
  {
  }

  /** User names that differ only in ASCII letter case are equal user
      names; passwords that differ only in letter case are not. */
  lemma EqualsIgnoresNameCaseOnly(name: String, name2: String, password: String, password2: String)
    requires |name| == |name2| && forall i :: 0 <= i < |name| ==> Fold(name[i]) == Fold(name2[i])
    ensures Equals(Credentials(Some(name), Some(password)), Credentials(Some(name2), Some(password2)))
            == Returns(password == password2)
  {
    assert FoldStr(name) == FoldStr(name2);
  }

  /** `Equals(object)` is false for null and for anything that is not a
      `Credentials`, and agrees with `Equals` on a boxed `Credentials`. */
  lemma EqualsObjectAgrees(a: Credentials, obj: Obj)
    ensures obj.Null? || obj.Other? ==> EqualsObject(a, obj) == Returns(false)
    ensures obj.Cred? ==> EqualsObject(a, obj) == Equals(a, obj.c)
  {
  }

  /** `!=` is the negation of `==`, and throws exactly when `==` does. */
  lemma InequalityNegatesEquality(a: Credentials, b: Credentials)
    ensures OpInequality(a, b).Throws? <==> OpEquality(a, b).Throws?
    ensures OpInequality(a, b).Returns? ==> OpInequality(a, b).value == !OpEquality(a, b).value
  {
  }

  /** Equal instances hash alike, whatever the string hash and the mixing
      step are. */
  lemma HashConsistent(a: Credentials, b: Credentials, strHash: String -> int, combine: (int, int) -> int)
    requires Equals(a, b) == Returns(true)
    ensures GetHashCode(a, strHash, combine) == GetHashCode(b, strHash, combine)
  {
  }

  /** The hash depends on the folded user name and the password only. */
  lemma HashDependsOnKey(a: Credentials, b: Credentials, strHash: String -> int, combine: (int, int) -> int)
    requires Key(a) == Key(b)
    ensures GetHashCode(a, strHash, combine) == GetHashCode(b, strHash, combine)
  {
  }

  /** `default(Credentials) == default(Credentials)` throws: `Equals` calls
      a method on the null user name. So do `!=` and `Equals(object)`. */
  lemma DefaultEqualsThrows()
    ensures Equals(Default, Default) == Throws
    ensures OpEquality(Default, Default) == Throws
    ensures OpInequality(Default, Default) == Throws
    ensures EqualsObject(Default, Cred(Default)) == Throws
  {
  }

  /** A null password throws too, but only once the user names match. */
  lemma NullPasswordThrowsOnMatchingName(name: String, other: Credentials)
    requires other.userName == Some(name)
    ensures Equals(Credentials(Some(name), None), other) == Throws
  {
  }
}
