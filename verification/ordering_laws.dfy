/** Laws of `CompareTo` and the relational operators: a total preorder on
    the folded user name, blind to the password. */
module OrderingLaws {
  import opened Wrappers
  import opened Text
  import opened Ordinal
  import opened CM

  /** Swapping the arguments negates the comparison. */
  lemma CompareToAntisymmetric(a: Credentials, b: Credentials)
    ensures CompareTo(a, b) == -CompareTo(b, a)
  {
    CompareIgnoreCaseAntisymmetric(a.userName, b.userName);
  }

  /** The comparison depends on the folded user names only. */
  lemma CompareToDependsOnRank(a: Credentials, a2: Credentials, b: Credentials, b2: Credentials)
    requires Rank(a) == Rank(a2) && Rank(b) == Rank(b2)
    ensures CompareTo(a, b) == CompareTo(a2, b2)
  {
  }

  /** `<=` is transitive. */
  lemma LessOrEqualTransitive(a: Credentials, b: Credentials, c: Credentials)
    requires LessOrEqual(a, b) && LessOrEqual(b, c)
    ensures LessOrEqual(a, c)
  {
    match (a.userName, b.userName, c.userName)
    case (Some(x), Some(y), Some(z)) =>
      CompareOrdinalTransitive(FoldStr(x), FoldStr(y), FoldStr(z));
    case _ =>
  }

  /** `<` is transitive. */
  lemma LessTransitive(a: Credentials, b: Credentials, c: Credentials)
    requires Less(a, b) && Less(b, c)
    ensures Less(a, c)
  {
    LessOrEqualTransitive(a, b, c);
    if CompareTo(a, c) == 0 {
      CompareToDependsOnRank(a, c, b, b);
      CompareToAntisymmetric(b, c);
    }
  }

  /** `<=` is a total preorder, `<` is its strict part, and `>`, `>=`
      are `<`, `<=` with the arguments swapped. */
  lemma OperatorsFormTotalPreorder(a: Credentials, b: Credentials)
    ensures LessOrEqual(a, a)
    ensures LessOrEqual(a, b) || LessOrEqual(b, a)
    ensures Less(a, b) <==> LessOrEqual(a, b) && !LessOrEqual(b, a)
    ensures LessOrEqual(a, b) && LessOrEqual(b, a) <==> CompareTo(a, b) == 0
    ensures Greater(a, b) <==> Less(b, a)
    ensures GreaterOrEqual(a, b) <==> LessOrEqual(b, a)
  {
    CompareToAntisymmetric(a, b);
  }

  /** A null user name sorts before every other, and ties with null;
      `CompareTo(object)` puts a null argument first. */
  lemma NullSortsFirst(a: Credentials, b: Credentials)
    ensures a.userName.None? && b.userName.Some? ==> Less(a, b)
    ensures a.userName.None? && b.userName.None? ==> CompareTo(a, b) == 0
    ensures CompareToObject(a, Null) == Returns(1)
  {
  }

  /** `CompareTo(object)` agrees with `CompareTo` on a boxed `Credentials`
      and throws for any other type. */
  lemma CompareToObjectAgrees(a: Credentials, obj: Obj)
    ensures obj.Cred? ==> CompareToObject(a, obj) == Returns(CompareTo(a, obj.c))
    ensures obj.Other? ==> CompareToObject(a, obj) == Throws
  {
  }

  /** Equal instances compare as 0. */
  lemma EqualImpliesSameRank(a: Credentials, b: Credentials)
    requires Equals(a, b) == Returns(true)
    ensures CompareTo(a, b) == 0
  {
  }

  /** Comparing as 0 does not make instances equal: the password is not
      part of the order. */
  lemma SameRankDoesNotImplyEqual()
    ensures CompareTo(Credentials(Some("alice"), Some("a")), Credentials(Some("ALICE"), Some("b"))) == 0
    ensures Equals(Credentials(Some("alice"), Some("a")), Credentials(Some("ALICE"), Some("b"))) == Returns(false)
  {
    assert FoldStr("alice") == "ALICE" == FoldStr("ALICE");
  }
}
