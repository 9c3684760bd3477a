/** Concrete lines and instances evaluated in the model. */
module Scenarios {
  import opened Wrappers
  import opened Text
  import opened Splitting
  import opened CM
  import opened ParseLaws

  /** ':' occurs once in "alice:pw", after the user name. */
  lemma SimpleLineSplitsOnce()
    ensures SplitsOnceAt("alice:pw", ":", 5)
    ensures !StartsWithComment("alice:pw")
  {
    assert "alice:pw" == "alice" + ":" + "pw";
    SingleCharSplitsOnce("alice", ':', "pw");
    assert ("alice:pw")[..2] == "al";
  }

  /** "alice:pw" on ":" parses to ("alice", "pw"). */
  lemma ParsesSimpleLine()
    ensures TryParse(Some("alice:pw"), Some(":")) == Returns(Parsed(true, Credentials(Some("alice"), Some("pw"))))
  {
    assert TryParse(Some("alice:pw"), Some(":"))
           == Returns(Parsed(true, Credentials(Some(Trim("alice")), Some(Trim("pw"))))) by {
      SimpleLineSplitsOnce();
      assert "alice:pw" == "alice" + ":" + "pw";
      assert !IsWs("alice"[0]) && !IsWs("pw"[0]);
      TryParseJoined("alice", ":", "pw");
    }
    SimpleTrims();
  }

  /** "alice" and "pw" have nothing to trim. */
  lemma SimpleTrims()
    ensures Trim("alice") == "alice" && Trim("pw") == "pw"
  {
    TrimTrimmed("alice");
    TrimTrimmed("pw");
  }

  /** Blank lines and a null or empty delimiter are rejected. */
  lemma RejectsBlankLineOrDelimiter()
    ensures TryParse(Some(""), Some(":")) == Returns(Rejected)
    ensures TryParse(Some("   "), Some(":")) == Returns(Rejected)
    ensures TryParse(None, Some(":")) == Returns(Rejected)
    ensures TryParse(Some("alice:pw"), Some("")) == Returns(Rejected)
    ensures TryParse(Some("alice:pw"), None) == Returns(Rejected)
  {
    assert !AllWs("alice:pw") by {
      assert !IsWs("alice:pw"[0]);
    }
  }

  /** A line starting with "//" is a comment and is rejected. */
  lemma RejectsComment()
    ensures TryParse(Some("//alice:pw"), Some(":")) == Returns(Rejected)
  {
    assert !AllWs("//alice:pw") by {
      assert !IsWs("//alice:pw"[0]);
    }
    assert "//alice:pw"[..2] == "//";
  }

  /** Three fields are rejected. */
  lemma RejectsThreeFields()
    ensures TryParse(Some("a:b:c"), Some(":")) == Returns(Rejected)
  {
    var s := "a:b:c";
    assert !AllWs(s) by {
      assert !IsWs(s[0]);
    }
    assert s[..2] != "//" by {
      assert s[..2][0] == 'a';
    }
    assert s[1..2] == ":" && s[3..4] == ":";
    TwoOccurrencesNoSingleSplit(s, ":", 1, 3);
    ParseRowNoSplit(s, ":");
  }

  /** A valid instance whose user name starts with "//" serializes to a
      comment line and does not come back. */
  lemma CommentNameRoundTripScenario()
    ensures Validate(Credentials(Some("//a"), Some("p")))
    ensures TryParse(Some(Serialize(Credentials(Some("//a"), Some("p")), ":")), Some(":")) == Returns(Rejected)
  {
    var c := Credentials(Some("//a"), Some("p"));
    assert !AllWs("//a") by {
      assert !IsWs("//a"[2]);
    }
    assert !AllWs("p") by {
      assert !IsWs("p"[0]);
    }
    var s := Serialize(c, ":");
    assert s == "//a:p";
    assert s[..2] == "//";
    CommentBreaksRoundTrip(c, ":");
  }

  /** A valid instance whose password holds the delimiter serializes to a
      three-field line and does not come back. */
  lemma DelimiterInPasswordScenario()
    ensures Validate(Credentials(Some("a"), Some("p:w")))
    ensures TryParse(Some(Serialize(Credentials(Some("a"), Some("p:w")), ":")), Some(":")) == Returns(Rejected)
  {
    var c := Credentials(Some("a"), Some("p:w"));
    assert !AllWs("a") by {
      assert !IsWs("a"[0]);
    }
    assert !AllWs("p:w") by {
      assert !IsWs("p:w"[0]);
    }
    var s := Serialize(c, ":");
    assert s == "a:p:w";
    assert !AllWs(s) by {
      assert !IsWs(s[0]);
    }
    assert s[..2] != "//" by {
      assert s[..2][0] == 'a';
    }
    assert s[1..2] == ":" && s[3..4] == ":";
    TwoOccurrencesNoSingleSplit(s, ":", 1, 3);
    ParseRowNoSplit(s, ":");
  }

  /** A blank password field is rejected. */
  lemma RejectsBlankField()
    ensures TryParse(Some("alice:"), Some(":")) == Returns(Rejected)
  {
    var s := "alice:";
    assert s == "alice" + [':'] + "";
    SingleCharSplitsOnce("alice", ':', "");
    assert !AllWs(s) by {
      assert !IsWs(s[0]);
    }
    assert s[..2] != "//" by {
      assert s[..2][0] == 'a';
    }
    ParseRowAt(s, ":", 5);
    assert s[6..] == [];
  }

  /** A one-character line throws rather than being rejected. */
  lemma OneCharacterLineScenario()
    ensures TryParse(Some("x"), Some(":")) == Throws
  {
    OneCharacterLineThrows('x', ":");
  }

  /** User names compare ignoring case, passwords exactly. */
  lemma EqualityScenario()
    ensures Equals(Credentials(Some("Alice"), Some("pw")), Credentials(Some("alice"), Some("pw"))) == Returns(true)
    ensures Equals(Credentials(Some("alice"), Some("PW")), Credentials(Some("alice"), Some("pw"))) == Returns(false)
  {
    assert FoldStr("Alice") == "ALICE" == FoldStr("alice");
  }

  /** "bob" sorts after "alice" whatever the passwords. */
  lemma OrderingScenario()
    ensures Greater(Credentials(Some("bob"), Some("x")), Credentials(Some("alice"), Some("z")))
  {
    assert FoldStr("bob") == "BOB";
    assert FoldStr("alice") == "ALICE";
  }
}
