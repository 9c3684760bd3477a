/** The `Credentials` value type of namespace CM.BL: an immutable pair of
    nullable strings with validation, a line parser, equality, hashing and
    ordering. Operations that can throw in .NET return an `Outcome`.
 */
module CM {
  import opened Wrappers
  import opened Text
  import opened Splitting
  import opened Ordinal

  /** The struct itself. The constructor stores both values verbatim. */
  datatype Credentials = Credentials(userName: Option<String>, userPassword: Option<String>)

  /** `default(Credentials)`: both fields null. */
  const Default := Credentials(None, None)

  /** The argument of an `object`-typed entry point: null, a boxed
      `Credentials`, or a value of some other type. */
  datatype Obj = Null | Cred(c: Credentials) | Other

  /** What `TryParse` hands back: its return value and its `out` argument. */
  datatype Parsed = Parsed(success: bool, credentials: Credentials)

  /** The result of every rejecting path of `TryParse`. */
  const Rejected := Parsed(false, Default)

  /** Number of parts a well-formed line splits into. */
  const ValidRowLength := 2

  /** The comment marker a line may start with. */
  const CommentMarker := "//"

  /** A field that is present and holds at least one non-whitespace character. */
  ghost predicate HasVisible(o: Option<String>) {
    o.Some? && exists i :: 0 <= i < |o.value| && !IsWs(o.value[i])
  }

  /** What equality and hashing look at: the folded user name and the
      password as it is. */
  function Key(c: Credentials): (Option<String>, Option<String>) {
    (FoldOpt(c.userName), c.userPassword)
  }

  /** What ordering looks at: the folded user name. */
  function Rank(c: Credentials): Option<String> {
    FoldOpt(c.userName)
  }

  /** `Validate()`: both fields are non-null and not blank. */
  function Validate(c: Credentials): (r: bool)
    ensures r <==> HasVisible(c.userName) && HasVisible(c.userPassword)
    ensures r <==> && c.userName.Some? && Trim(c.userName.value) != []
                   && c.userPassword.Some? && Trim(c.userPassword.value) != []
  {
    !IsNullOrWhiteSpace(c.userName) && !IsNullOrWhiteSpace(c.userPassword)
  }

  /** `TryParse(line, delimiter, out credentials)`.
      Rejects a blank line, a null or empty delimiter and a line starting
      with "//", then hands over to `ParseRow`. Slicing the first two
      characters throws on a one-character line that is not blank. */
  function TryParse(line: Option<String>, delimiter: Option<String>): (r: Outcome<Parsed>)
    ensures r.Throws? <==> && line.Some? && !AllWs(line.value)
                           && delimiter.Some? && delimiter.value != []
                           && |line.value| < 2
    ensures r.Returns? && !r.value.success ==> r.value.credentials == Default
    ensures r.Returns? && r.value.success ==>
              && Validate(r.value.credentials)
              && IsTrimmed(r.value.credentials.userName.value)
              && IsTrimmed(r.value.credentials.userPassword.value)
  {
    if IsNullOrWhiteSpace(line) then Returns(Rejected)
    else if IsNullOrEmpty(delimiter) then Returns(Rejected)
    else if |line.value| < 2 then Throws
    else if line.value[..2] == CommentMarker then Returns(Rejected)
    else Returns(ParseRow(line.value, delimiter.value))
  }

  /** The part of `TryParse` after the guards: split on the delimiter,
      demand exactly two parts, trim them, demand both be non-blank, and
      return the new instance if it validates. */
  function ParseRow(line: String, delimiter: String): (r: Parsed)
    requires delimiter != []
    ensures !r.success ==> r.credentials == Default
    ensures r.success ==> && Validate(r.credentials)
                          && IsTrimmed(r.credentials.userName.value)
                          && IsTrimmed(r.credentials.userPassword.value)
  {
    var row := Split(line, delimiter);
    if |row| != ValidRowLength then Rejected
    else
      var userName := Trim(row[0]);
      var userPassword := Trim(row[1]);
      if IsNullOrWhiteSpace(Some(userName)) || IsNullOrWhiteSpace(Some(userPassword)) then
        Rejected
      else
        var credentials := Credentials(Some(userName), Some(userPassword));
        Parsed(Validate(credentials), credentials)
  }

  /** `Equals(Credentials other)`: the user names agree ignoring case and
      the passwords agree exactly. Calls `Equals` on this instance's user
      name, and on its password when the names agree, so a null there throws. */
  function Equals(a: Credentials, b: Credentials): (r: Outcome<bool>)
    ensures r.Throws? <==> a.userName.None? || (Rank(a) == Rank(b) && a.userPassword.None?)
    ensures r.Returns? ==> (r.value <==> Key(a) == Key(b))
  {
    match InstanceEqualsIgnoreCase(a.userName, b.userName)
    case Throws => Throws
    case Returns(sameName) =>
      if !sameName then Returns(false)
      else InstanceEquals(a.userPassword, b.userPassword)
  }

  /** `Equals(object? obj)`: false unless `obj` is a boxed `Credentials`. */
  function EqualsObject(a: Credentials, obj: Obj): (r: Outcome<bool>)
    ensures !obj.Cred? ==> r == Returns(false)
    ensures r.Throws? ==> obj.Cred? && Equals(a, obj.c).Throws?
    ensures r.Returns? && r.value ==> obj.Cred? && Key(a) == Key(obj.c)
  {
    match obj
    case Cred(other) => Equals(a, other)
    case _ => Returns(false)
  }

  /** What `HashCode.Add` feeds in for a nullable string: 0 for null. */
  function HashOf(o: Option<String>, strHash: String -> int): int {
    match o
    case None => 0
    case Some(s) => strHash(s)
  }

  /** `GetHashCode()`: the user name's case-insensitive hash and the
      password's hash, each 0 for null, mixed by `HashCode.ToHashCode`.
      `strHash` is the ordinal hash of a string and `combine` the mixing
      step; both are seeded per process in .NET. */
  function GetHashCode(c: Credentials, strHash: String -> int, combine: (int, int) -> int): (r: int)
    ensures r == combine(HashOf(Key(c).0, strHash), HashOf(Key(c).1, strHash))
    ensures c == Default ==> r == combine(0, 0)
  {
    combine(HashOf(FoldOpt(c.userName), strHash), HashOf(c.userPassword, strHash))
  }

  /** `operator ==`. */
  function OpEquality(left: Credentials, right: Credentials): (r: Outcome<bool>)
    ensures r.Throws? <==> Equals(left, right).Throws?
    ensures r.Returns? ==> (r.value <==> Key(left) == Key(right))
  {
    Equals(left, right)
  }

  /** `operator !=`: the negation of `Equals`, throwing when it throws. */
  function OpInequality(left: Credentials, right: Credentials): (r: Outcome<bool>)
    ensures r.Throws? <==> Equals(left, right).Throws?
    ensures r.Returns? ==> (r.value <==> Key(left) != Key(right))
  {
    match Equals(left, right)
    case Throws => Throws
    case Returns(eq) => Returns(!eq)
  }

  /** `CompareTo(Credentials other)`: the user names compared ordinally
      ignoring case, null first; the passwords play no part. */
  function CompareTo(a: Credentials, b: Credentials): (r: int)
    ensures r == 0 <==> Rank(a) == Rank(b)
    ensures r < 0 <==> OptLess(Rank(a), Rank(b))
    ensures r > 0 <==> OptLess(Rank(b), Rank(a))
  {
    CompareIgnoreCaseAntisymmetric(a.userName, b.userName);
    CompareIgnoreCase(a.userName, b.userName)
  }

  /** `CompareTo(object? obj)`: 1 for null, `CompareTo` for a boxed
      `Credentials`, and an `ArgumentException` for anything else. */
  function CompareToObject(a: Credentials, obj: Obj): (r: Outcome<int>)
    ensures r.Throws? <==> obj.Other?
    ensures obj.Null? ==> r == Returns(1)
    ensures obj.Cred? ==> && (r.value == 0 <==> Rank(a) == Rank(obj.c))
                          && (r.value < 0 <==> OptLess(Rank(a), Rank(obj.c)))
  {
    match obj
    case Null => Returns(1)
    case Cred(other) => Returns(CompareTo(a, other))
    case Other => Throws
  }

  /** `operator <`. */
  function Less(left: Credentials, right: Credentials): (r: bool)
    ensures r <==> OptLess(Rank(left), Rank(right))
  {
    CompareTo(left, right) < 0
  }

  /** `operator <=`. */
  function LessOrEqual(left: Credentials, right: Credentials): (r: bool)
    ensures r <==> !OptLess(Rank(right), Rank(left))
  {
    CompareTo(left, right) <= 0
  }

  /** `operator >`. */
  function Greater(left: Credentials, right: Credentials): (r: bool)
    ensures r <==> OptLess(Rank(right), Rank(left))
  {
    CompareTo(left, right) > 0
  }

  /** `operator >=`. */
  function GreaterOrEqual(left: Credentials, right: Credentials): (r: bool)
    ensures r <==> !OptLess(Rank(left), Rank(right))
  {
    CompareTo(left, right) >= 0
  }
}
