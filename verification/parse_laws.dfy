/** What `TryParse` accepts, stated without reference to its steps, and
    the round trip from a serialized instance back to itself. */
module ParseLaws {
  import opened Wrappers
  import opened Text
  import opened Splitting
  import opened CM

  /** The line starts with the comment marker. */
  predicate StartsWithComment(s: String) {
    |s| >= 2 && s[..2] == CommentMarker
  }

  /** `line` is accepted and parses to `c`: the delimiter is non-empty, the
      line has at least two characters and is no comment, the delimiter
      splits it once at some `i`, and the trimmed parts before and after
      that occurrence are non-empty and are the fields of `c`. */
  ghost predicate ParsesTo(line: Option<String>, delimiter: Option<String>, c: Credentials) {
    && line.Some? && delimiter.Some? && delimiter.value != []
    && |line.value| >= 2 && !StartsWithComment(line.value)
    && exists i :: RowAt(line.value, delimiter.value, i, c)
  }

  /** A trimmed string is blank only when it is empty. */
  lemma BlankTrimmedIsEmpty(s: String)
    ensures AllWs(Trim(s)) <==> Trim(s) == []
  {
    if Trim(s) != [] {
      assert !IsWs(Trim(s)[0]);
    }
  }

  /** The delimiter splits `line` once at `i` and the trimmed parts
      around it are non-empty and make up `c`. */
  ghost predicate RowAt(line: String, delimiter: String, i: int, c: Credentials) {
    && SplitsOnceAt(line, delimiter, i)
    && Trim(line[..i]) != []
    && Trim(line[i + |delimiter|..]) != []
    && c == Credentials(Some(Trim(line[..i])), Some(Trim(line[i + |delimiter|..])))
  }

  /** When the delimiter splits the line once at `i`, `ParseRow` succeeds
      exactly with the trimmed parts around `i`, provided both are non-empty. */
  lemma ParseRowAt(line: String, delimiter: String, i: nat)
    requires delimiter != [] && SplitsOnceAt(line, delimiter, i)
    ensures forall c :: ParseRow(line, delimiter) == Parsed(true, c) <==> RowAt(line, delimiter, i, c)
  {
    var u, p := line[..i], line[i + |delimiter|..];
    SplitTwo(line, delimiter);
    assert Split(line, delimiter) == [u, p];
    BlankTrimmedIsEmpty(u);
    BlankTrimmedIsEmpty(p);
  }

  /** When the delimiter does not split the line exactly once, `ParseRow` rejects. */
  lemma ParseRowNoSplit(line: String, delimiter: String)
    requires delimiter != [] && forall i :: !SplitsOnceAt(line, delimiter, i)
    ensures ParseRow(line, delimiter) == Rejected
  {
    SplitTwo(line, delimiter);
  }

  /** `ParseRow` succeeds with `c` exactly when the delimiter splits the
      line once and the two trimmed parts are non-empty and make up `c`. */
  lemma ParseRowSucceedsIff(line: String, delimiter: String, c: Credentials)
    requires delimiter != []
    ensures ParseRow(line, delimiter) == Parsed(true, c) <==> exists i :: RowAt(line, delimiter, i, c)
  {
    if i :| SplitsOnceAt(line, delimiter, i) {
      ParseRowAt(line, delimiter, i);
      forall i2 | RowAt(line, delimiter, i2, c) ensures i2 == i {
        SplitsOnceAtUnique(line, delimiter, i, i2);
      }
    } else {
      ParseRowNoSplit(line, delimiter);
    }
  }

  /** `TryParse` returns true with `c` exactly when `line` parses to `c`. */
  lemma TryParseSucceedsIff(line: Option<String>, delimiter: Option<String>, c: Credentials)
    ensures TryParse(line, delimiter) == Returns(Parsed(true, c)) <==> ParsesTo(line, delimiter, c)
  {
    if line.None? || delimiter.None? || delimiter.value == [] {
      assert !ParsesTo(line, delimiter, c);
    } else if AllWs(line.value) {
      assert TryParse(line, delimiter) == Returns(Rejected);
    } else if |line.value| < 2 || StartsWithComment(line.value) {
      assert !ParsesTo(line, delimiter, c);
    } else {
      assert TryParse(line, delimiter) == Returns(ParseRow(line.value, delimiter.value));
      ParseRowSucceedsIff(line.value, delimiter.value, c);
    }
  }

  /** Every way `TryParse` can go: it throws (on a one-character line),
      rejects with the default instance, or succeeds with what the line
      parses to. */
  lemma TryParseOutcomes(line: Option<String>, delimiter: Option<String>)
    ensures || TryParse(line, delimiter) == Throws
            || TryParse(line, delimiter) == Returns(Rejected)
            || (&& TryParse(line, delimiter).Returns?
                && TryParse(line, delimiter).value.success
                && ParsesTo(line, delimiter, TryParse(line, delimiter).value.credentials))
  {
    var r := TryParse(line, delimiter);
    if r.Returns? && r.value.success {
      TryParseSucceedsIff(line, delimiter, r.value.credentials);
    }
  }

  /** Joining two non-blank strings with a delimiter that splits the
      result once, at the join, parses back to the two trimmed strings. */
  lemma TryParseJoined(u: String, delimiter: String, p: String)
    requires !AllWs(u) && !AllWs(p) && delimiter != []
    requires SplitsOnceAt(u + delimiter + p, delimiter, |u|)
    requires !StartsWithComment(u + delimiter + p)
    ensures TryParse(Some(u + delimiter + p), Some(delimiter))
            == Returns(Parsed(true, Credentials(Some(Trim(u)), Some(Trim(p)))))
  {
    var s := u + delimiter + p;
    var c := Credentials(Some(Trim(u)), Some(Trim(p)));
    assert RowAt(s, delimiter, |u|, c) by {
      assert s[..|u|] == u;
      assert s[|u| + |delimiter|..] == p;
    }
    assert |s| >= 2 by {
      assert |u| > 0;
    }
    assert ParsesTo(Some(s), Some(delimiter), c);
    TryParseSucceedsIff(Some(s), Some(delimiter), c);
  }

  /** The canonical serialization of an instance with both fields present. */
  function Serialize(c: Credentials, delimiter: String): (s: String)
    requires c.userName.Some? && c.userPassword.Some?
    ensures |s| == |c.userName.value| + |delimiter| + |c.userPassword.value|
    ensures s[..|c.userName.value|] == c.userName.value
  {
    c.userName.value + delimiter + c.userPassword.value
  }

  /** Round trip: a valid instance whose fields carry no surrounding
      whitespace, serialized with a delimiter that splits the line only at
      the join, parses back to itself, and the result equals the original. */
  lemma SerializeRoundTrip(c: Credentials, delimiter: String)
    requires Validate(c) && delimiter != []
    requires IsTrimmed(c.userName.value) && IsTrimmed(c.userPassword.value)
    requires SplitsOnceAt(Serialize(c, delimiter), delimiter, |c.userName.value|)
    requires !StartsWithComment(Serialize(c, delimiter))
    ensures TryParse(Some(Serialize(c, delimiter)), Some(delimiter)) == Returns(Parsed(true, c))
    ensures Equals(TryParse(Some(Serialize(c, delimiter)), Some(delimiter)).value.credentials, c)
            == Returns(true)
  {
    var u, p := c.userName.value, c.userPassword.value;
    TryParseJoined(u, delimiter, p);
    TrimTrimmed(u);
    TrimTrimmed(p);
  }

  /** A user name ending before the join is the only way to read a joined
      line: the delimiter occurs at the join, so no split lies after it,
      and a split inside the user name leaves a part too short to trim to it. */
  lemma RowAtJoin(u: String, delimiter: String, p: String, i: int, c: Credentials)
    requires delimiter != [] && c.userName == Some(u)
    requires RowAt(u + delimiter + p, delimiter, i, c)
    ensures i == |u|
  {
    var s := u + delimiter + p;
    assert OccursAt(s, delimiter, |u|) by {
      assert s[|u|..|u| + |delimiter|] == delimiter;
    }
    assert 0 <= i <= |s| && Trim(s[..i]) == u;
    assert |Trim(s[..i])| <= i;
  }

  /** A serialized instance parses back to it only through the join. */
  lemma JoinedParsesOnlyAtJoin(c: Credentials, delimiter: String)
    requires c.userName.Some? && c.userPassword.Some? && delimiter != []
    ensures ParsesTo(Some(Serialize(c, delimiter)), Some(delimiter), c)
            ==> RowAt(Serialize(c, delimiter), delimiter, |c.userName.value|, c)
  {
    var s := Serialize(c, delimiter);
    if ParsesTo(Some(s), Some(delimiter), c) {
      var i :| RowAt(s, delimiter, i, c);
      RowAtJoin(c.userName.value, delimiter, c.userPassword.value, i, c);
    }
  }

  /** A serialization starting with "//" is read as a comment and rejected:
      a user name starting with "//" does not survive the round trip. */
  lemma CommentBreaksRoundTrip(c: Credentials, delimiter: String)
    requires c.userName.Some? && c.userPassword.Some? && delimiter != []
    requires StartsWithComment(Serialize(c, delimiter))
    ensures TryParse(Some(Serialize(c, delimiter)), Some(delimiter)) == Returns(Rejected)
  {
    var s := Serialize(c, delimiter);
    assert !AllWs(s) by {
      assert s[0] == s[..2][0] == '/';
    }
  }

  /** When the delimiter does not split the serialization once at the join
      (it occurs inside a field), the instance does not come back. */
  lemma DelimiterInFieldBreaksRoundTrip(c: Credentials, delimiter: String)
    requires c.userName.Some? && c.userPassword.Some? && delimiter != []
    requires !SplitsOnceAt(Serialize(c, delimiter), delimiter, |c.userName.value|)
    ensures TryParse(Some(Serialize(c, delimiter)), Some(delimiter)) != Returns(Parsed(true, c))
  {
    JoinedParsesOnlyAtJoin(c, delimiter);
    TryParseSucceedsIff(Some(Serialize(c, delimiter)), Some(delimiter), c);
  }

  /** For a valid instance with trimmed fields, the round trip succeeds
      exactly when the delimiter splits the serialization once, at the
      join, and the serialization does not start with "//". */
  lemma SerializeRoundTripIff(c: Credentials, delimiter: String)
    requires Validate(c) && delimiter != []
    requires IsTrimmed(c.userName.value) && IsTrimmed(c.userPassword.value)
    ensures TryParse(Some(Serialize(c, delimiter)), Some(delimiter)) == Returns(Parsed(true, c))
            <==> && SplitsOnceAt(Serialize(c, delimiter), delimiter, |c.userName.value|)
                 && !StartsWithComment(Serialize(c, delimiter))
  {
    if StartsWithComment(Serialize(c, delimiter)) {
      CommentBreaksRoundTrip(c, delimiter);
    } else if SplitsOnceAt(Serialize(c, delimiter), delimiter, |c.userName.value|) {
      SerializeRoundTrip(c, delimiter);
    } else {
      DelimiterInFieldBreaksRoundTrip(c, delimiter);
    }
  }

  /** A non-blank one-character line makes `TryParse` throw whatever the
      (non-empty) delimiter. */
  lemma OneCharacterLineThrows(ch: char, delimiter: String)
    requires !IsWs(ch) && delimiter != []
    ensures TryParse(Some([ch]), Some(delimiter)) == Throws
  {
    assert !AllWs([ch]) by {
      assert [ch][0] == ch;
    }
  }
}
