# Credentials value type, modelled in Dafny

This project models `CM.BL.Credentials`, the one type of the credentials
manager: an immutable pair of nullable strings (user name, password) with

- `Validate()`: both fields non-null and not blank;
- `TryParse(line, delimiter, out credentials)`: a line parser that rejects
  blank lines, an empty delimiter and `//` comment lines, splits on the
  delimiter, demands exactly two parts, and trims them;
- equality (`Equals`, `==`, `!=`) that ignores letter case in the user name
  but not in the password, and a matching `GetHashCode`;
- an ordering (`CompareTo`, `<`, `<=`, `>`, `>=`) on the user name alone,
  ignoring case, with null first.

The model is functional. The struct is a datatype with two
`Option<String>` fields. `None` stands for `null`. Every operation that can
throw in .NET returns `Outcome<T> = Returns(value) | Throws`. The model keeps
the two places where the source throws on values the type allows:

- `TryParse` throws on a one-character line that is not blank, because it
  slices `line[..2]` without a length check.
- `Equals` throws when the user name is null, so `default == default`
  throws. It also throws when the names match and the password is null.

Modules and files:

| file | module | models |
|---|---|---|
| wrappers.dfy | Wrappers | `null` (Option) and "returns or throws" (Outcome) |
| text.dfy | Text | `char.IsWhiteSpace`, `string.IsNullOrWhiteSpace`, `IsNullOrEmpty`, `Trim()`, ignore-case folding |
| split.dfy | Splitting | `string.Split(string)` and its characterisation |
| ordinal.dfy | Ordinal | `string.Equals` (instance, ordinal and ordinal-ignore-case) and `string.Compare(a, b, OrdinalIgnoreCase)` |
| credentials.dfy | CM | the `Credentials` struct and all its members |
| parse_laws.dfy | ParseLaws | what `TryParse` accepts, and the serialize/parse round trip |
| equality_laws.dfy | EqualityLaws | equivalence, `!=`, and hash consistency |
| ordering_laws.dfy | OrderingLaws | total preorder on the folded user name |
| corrections.dfy | Corrections | null-safe `TryParseGuarded` and `EqualsNullSafe` (see Findings) |
| scenarios.dfy | Scenarios | concrete lines and instances |

`IsWs` is the exact `char.IsWhiteSpace` set: categories Zs, Zl and Zp, plus
U+0009 to U+000D and U+0085. `Fold` is the ASCII upper-casing that the
ordinal ignore-case comparison applies to ASCII letters.

The code and the evident intent disagree on short lines. The intent is that a
line shorter than the two-character comment marker is simply not a comment.
The code throws instead. `CM.TryParse` models the code, and
`Corrections.TryParseGuarded` models the intended behaviour.

## Model

| member | source | states |
|---|---|---|
| CM.Validate | CM.BL/Credentials.cs:16-23 | true exactly when both fields are non-null and contain a non-whitespace character; equivalently, both trim to a non-empty string |
| CM.TryParse | CM.BL/Credentials.cs:25-50 | throws exactly for a non-blank one-character line with a non-empty delimiter; every false result carries the default instance (so the final `Validate` gate never fails); every true result validates and has trimmed fields |
| CM.ParseRow | CM.BL/Credentials.cs:36-49 | after the guards: a false result carries the default instance, a true one validates and has trimmed fields |
| ParseLaws.TryParseSucceedsIff | CM.BL/Credentials.cs:25-50 | `TryParse` returns true with `c` iff the delimiter is non-empty, the line has two or more characters and does not start with `//`, the delimiter splits the line once, and `c` holds the two trimmed parts, both non-empty |
| ParseLaws.ParseRowSucceedsIff | CM.BL/Credentials.cs:36-49 | the split/trim stage succeeds with `c` iff the delimiter splits the line once at some index and `c` holds the two non-empty trimmed parts around it |
| ParseLaws.ParseRowAt | CM.BL/Credentials.cs:36-45 | when the line splits once at `i`, the stage succeeds exactly with the trimmed parts around `i` |
| ParseLaws.ParseRowNoSplit | CM.BL/Credentials.cs:36-37 | a line that does not split in exactly two parts is rejected |
| ParseLaws.TryParseOutcomes | CM.BL/Credentials.cs:25-50 | every call throws, rejects with the default instance, or succeeds with what the line parses to |
| ParseLaws.TryParseJoined | CM.BL/Credentials.cs:25-50 | `u + delimiter + p` with non-blank `u` and `p` parses to `(Trim(u), Trim(p))`, provided the line does not start with `//` and the delimiter splits it once, at the join |
| ParseLaws.SerializeRoundTrip | CM.BL/Credentials.cs:25-56 | a valid instance with trimmed fields, whose serialization does not start with `//` and is split by the delimiter once, at the join, parses back to itself and is `Equals` to the original |
| ParseLaws.SerializeRoundTripIff | CM.BL/Credentials.cs:25-50 | for a valid instance with trimmed fields, the round trip succeeds exactly when the serialization does not start with `//` and the delimiter splits it once, at the join |
| ParseLaws.CommentBreaksRoundTrip | CM.BL/Credentials.cs:33-34 | a serialization starting with `//` (a user name starting with `//`) is rejected with the default instance |
| ParseLaws.DelimiterInFieldBreaksRoundTrip | CM.BL/Credentials.cs:36-37 | when the delimiter does not split the serialization once at the join, the instance does not come back |
| ParseLaws.RowAtJoin | CM.BL/Credentials.cs:36-40 | a joined line can yield its own user name only by splitting at the join |
| ParseLaws.JoinedParsesOnlyAtJoin | CM.BL/Credentials.cs:36-40 | a serialized instance parses back to itself only through a split at the join |
| ParseLaws.OneCharacterLineThrows | CM.BL/Credentials.cs:33 | a non-blank one-character line makes `TryParse` throw |
| CM.Equals | CM.BL/Credentials.cs:52-56 | throws iff the user name is null, or the folded names match and the password is null; otherwise true iff the folded user names and the exact passwords agree |
| CM.EqualsObject | CM.BL/Credentials.cs:58-61 | false for null and for other types; true only for a boxed instance with the same folded name and password |
| CM.OpEquality | CM.BL/Credentials.cs:71-74 | throws when `Equals` does; otherwise true iff folded names and passwords agree |
| CM.OpInequality | CM.BL/Credentials.cs:76-79 | throws when `Equals` does; otherwise true iff folded names or passwords differ |
| EqualityLaws.EqualsIsEquivalence | CM.BL/Credentials.cs:52-56 | on instances with non-null fields `Equals` never throws and is reflexive, symmetric and transitive |
| EqualityLaws.EqualsIgnoresNameCaseOnly | CM.BL/Credentials.cs:54-55 | names that agree character by character after folding are equal names; the result is then decided by exact password equality |
| EqualityLaws.EqualsObjectAgrees | CM.BL/Credentials.cs:58-61 | `Equals(object)` is false for null and other types and agrees with `Equals` on a boxed instance |
| EqualityLaws.InequalityNegatesEquality | CM.BL/Credentials.cs:71-79 | `!=` throws exactly when `==` does and otherwise is its negation |
| CM.GetHashCode | CM.BL/Credentials.cs:63-68 | a function of the equality key (folded user name, password), each part hashing to 0 when null, so the default instance has a hash even though its `Equals` throws; `HashConsistent` and `HashDependsOnKey` relate it to equality |
| EqualityLaws.HashConsistent | CM.BL/Credentials.cs:63-68 | instances that are `Equals` have the same hash, for every string hash and mixing function |
| EqualityLaws.HashDependsOnKey | CM.BL/Credentials.cs:63-68 | the hash depends only on the folded user name and the password |
| EqualityLaws.DefaultEqualsThrows | CM.BL/Credentials.cs:54 | `Equals`, `==`, `!=` and `Equals(object)` on two default instances throw |
| EqualityLaws.NullPasswordThrowsOnMatchingName | CM.BL/Credentials.cs:55 | a null password throws once the user names match |
| Text.Trim | CM.BL/Credentials.cs:39-40 | the result starts and ends with a non-whitespace character, is no longer than the input, and is empty iff the input is blank |
| Text.TrimIsInfix | CM.BL/Credentials.cs:39-40 | the result is an infix of the input with only whitespace before and after it |
| Text.TrimPadded | CM.BL/Credentials.cs:39-40 | trimming whitespace-padded trimmed text gives that text back |
| Text.TrimIdempotent | CM.BL/Credentials.cs:39-40 | trimming twice is trimming once |
| Splitting.Split | CM.BL/Credentials.cs:36 | at least one part; `SplitStep` with the leftmost-occurrence contract of `IndexOf` fixes every part, and `SplitSingle` and `SplitTwo` characterise the one- and two-part results, which is all line 37 inspects |
| Splitting.SplitStep | CM.BL/Credentials.cs:36 | the first part is what precedes the leftmost occurrence of the delimiter, and the remaining parts are the split of what follows it |
| Splitting.IndexOf | CM.BL/Credentials.cs:36 | returns the leftmost occurrence at or after the start index, or None when there is none |
| Splitting.SplitJoin | CM.BL/Credentials.cs:36 | joining the parts with the delimiter gives back the line |
| Splitting.SplitPartsFree | CM.BL/Credentials.cs:36 | no part contains the delimiter |
| Splitting.SplitSingle | CM.BL/Credentials.cs:36-37 | one part exactly when the delimiter is absent, and that part is the whole line |
| Splitting.SplitTwo | CM.BL/Credentials.cs:36-37 | two parts iff the delimiter splits the line once, non-overlapping from the left; the parts are what lies before and after it |
| Ordinal.CompareOrdinal | CM.BL/Credentials.cs:83 | zero exactly for equal strings |
| Ordinal.CompareOrdinalNegative | CM.BL/Credentials.cs:83 | negative exactly when the first string is lexicographically less, a proper prefix counting as less |
| Ordinal.CompareOrdinalAntisymmetric | CM.BL/Credentials.cs:83 | swapping the arguments negates the result |
| Ordinal.CompareOrdinalTransitive | CM.BL/Credentials.cs:83 | "at most" is transitive |
| Ordinal.CompareIgnoreCase | CM.BL/Credentials.cs:83 | zero iff the folded strings are equal (null only with null); negative iff null against a string, or folded lexicographically less |
| Ordinal.CompareIgnoreCaseAntisymmetric | CM.BL/Credentials.cs:83 | swapping the arguments negates the result |
| Ordinal.EqualsIgnoreCase | CM.BL/Credentials.cs:54 | equal length and characters equal after folding is the same as equal folded strings |
| Ordinal.InstanceEqualsIgnoreCase | CM.BL/Credentials.cs:54 | throws iff the receiver is null; otherwise true iff the folded strings agree, false against null |
| Ordinal.InstanceEquals | CM.BL/Credentials.cs:55 | throws iff the receiver is null; otherwise true iff the strings are identical |
| CM.CompareTo | CM.BL/Credentials.cs:81-84 | zero iff the folded user names agree; negative iff this name sorts first (null first, then lexicographic on folded names); positive iff the other sorts first |
| CM.CompareToObject | CM.BL/Credentials.cs:86-92 | 1 for null; throws exactly for a non-`Credentials` argument; on a boxed instance its sign follows the folded user names |
| CM.Less | CM.BL/Credentials.cs:94-97 | true iff this user name sorts strictly first |
| CM.LessOrEqual | CM.BL/Credentials.cs:99-102 | true iff the other user name does not sort strictly first |
| CM.Greater | CM.BL/Credentials.cs:104-107 | true iff the other user name sorts strictly first |
| CM.GreaterOrEqual | CM.BL/Credentials.cs:109-112 | true iff this user name does not sort strictly first |
| OrderingLaws.CompareToAntisymmetric | CM.BL/Credentials.cs:81-84 | swapping the arguments negates the comparison |
| OrderingLaws.CompareToDependsOnRank | CM.BL/Credentials.cs:83 | the comparison depends only on the folded user names |
| OrderingLaws.LessOrEqualTransitive | CM.BL/Credentials.cs:99-102 | `<=` is transitive |
| OrderingLaws.LessTransitive | CM.BL/Credentials.cs:94-97 | `<` is transitive |
| OrderingLaws.OperatorsFormTotalPreorder | CM.BL/Credentials.cs:94-112 | `<=` is reflexive and total, `<` is its strict part, mutual `<=` is comparing as 0, and `>`/`>=` are `<`/`<=` swapped |
| OrderingLaws.NullSortsFirst | CM.BL/Credentials.cs:81-92 | a null user name sorts before any other and ties with null; `CompareTo(null)` is 1 |
| OrderingLaws.CompareToObjectAgrees | CM.BL/Credentials.cs:86-92 | the object entry point agrees with the typed one on a boxed instance and throws on other types |
| OrderingLaws.EqualImpliesSameRank | CM.BL/Credentials.cs:81-84 | instances that are `Equals` compare as 0 |
| OrderingLaws.SameRankDoesNotImplyEqual | CM.BL/Credentials.cs:81-84 | two instances can compare as 0 without being `Equals` (the passwords differ) |
| Corrections.TryParseGuarded | CM.BL/Credentials.cs:33-34 | agrees with `TryParse` wherever it returns, rejects where it throws, and never leaves non-default output on failure |
| Corrections.ShortLineRejected | CM.BL/Credentials.cs:33-49 | a line shorter than two characters never yields two non-blank parts |
| Corrections.EqualsNullSafe | CM.BL/Credentials.cs:52-56 | true iff folded user names (null only with null) and passwords agree; agrees with `Equals` wherever `Equals` returns |
| Corrections.EqualsNullSafeIsEquivalence | CM.BL/Credentials.cs:52-68 | the null-safe equality is reflexive, symmetric and transitive on all instances, the default included, and consistent with the hash |
| Scenarios.ParsesSimpleLine | CM.BL/Credentials.cs:25-50 | `"alice:pw"` on `":"` parses to `("alice", "pw")` |
| Scenarios.RejectsBlankLineOrDelimiter | CM.BL/Credentials.cs:30-31 | empty, blank and null lines and an empty or null delimiter are rejected with the default instance |
| Scenarios.RejectsComment | CM.BL/Credentials.cs:33-34 | `"//alice:pw"` is rejected |
| Scenarios.RejectsThreeFields | CM.BL/Credentials.cs:36-37 | `"a:b:c"` is rejected |
| Scenarios.CommentNameRoundTripScenario | CM.BL/Credentials.cs:33-34 | the valid instance `("//a", "p")` serializes with `":"` to a comment line that is rejected |
| Scenarios.DelimiterInPasswordScenario | CM.BL/Credentials.cs:36-37 | the valid instance `("a", "p:w")` serializes with `":"` to a three-field line that is rejected |
| Scenarios.RejectsBlankField | CM.BL/Credentials.cs:42-45 | `"alice:"` is rejected |
| Scenarios.OneCharacterLineScenario | CM.BL/Credentials.cs:33 | `"x"` makes `TryParse` throw |
| Scenarios.EqualityScenario | CM.BL/Credentials.cs:52-56 | `("Alice","pw")` equals `("alice","pw")`; `("alice","PW")` does not equal `("alice","pw")` |
| Scenarios.OrderingScenario | CM.BL/Credentials.cs:104-107 | `("bob","x") > ("alice","z")` |

## Left out

- The two properties (CM.BL/Credentials.cs:7-8) and the constructor (lines 10-14) are the datatype constructor and its fields. It stores its arguments unchanged, so it has no contract of its own.
- Exception types and messages: every throw is the single outcome `Throws`.
- Boxing and the `IComparable`/`IEquatable` interface plumbing: the `object`-typed entry points take `Obj = Null | Cred(c) | Other`.
- Text.Fold: only ASCII letters are case-folded. The Unicode simple upper-case mapping that ordinal ignore-case comparison applies to other characters is not modelled.
- Dafny's `char` is a Unicode scalar value, while a .NET `char` is a UTF-16 code unit. Surrogate pairs are not modelled.
- Ordinal.CompareOrdinal: returns the difference of the first differing folded characters, or of the lengths. This is the value of .NET's ASCII path. The magnitude may differ for non-ASCII text, so the laws state the sign, plus antisymmetry of the value.
- CM.GetHashCode: the string hash (Marvin, seeded per process) and the `HashCode` mixing step are parameters. Only consistency with equality is proved, not a concrete value.
- The reference-equality shortcuts inside `string.Equals` and `string.Compare` are not modelled. They change no result.
- `line` is declared non-nullable but is checked with `IsNullOrWhiteSpace`. The model accepts a null line and rejects it, as that check does.
- ParseLaws.SerializeRoundTrip: not every valid instance survives serialization, so the lemma requires three things. The fields must be trimmed, because lines 39-40 trim. The serialization must not start with `//`, because line 33 rejects it as a comment. The delimiter must split the serialization once, at the join, because line 36 splits at every occurrence. `ParseLaws.SerializeRoundTripIff` shows the last two are necessary, and `Scenarios.CommentNameRoundTripScenario` and `Scenarios.DelimiterInPasswordScenario` give valid instances that do not come back.
- ParseLaws.TryParseJoined: requires that `u + delimiter + p` does not start with `//`, which is necessary because line 33 rejects such a line (`ParseLaws.CommentBreaksRoundTrip`). It also requires that the delimiter splits the line once, at the join. That is sufficient. It is necessary only when `u` and `p` are trimmed (`ParseLaws.SerializeRoundTripIff`): with padded fields a split elsewhere can yield the same trimmed parts. `ParseLaws.TryParseSucceedsIff` gives the exact condition.

## Findings

| source | as written | input that shows it | evidently intended | confidence | as-written member | corrected member |
|---|---|---|---|---|---|---|
| CM.BL/Credentials.cs:33 | `line[..2]` is taken with no length check | line `"x"`, delimiter `":"`: the slice throws instead of the parser returning false | a line shorter than the marker is not a comment, and `TryParse` returns false | high; not executed | ParseLaws.OneCharacterLineThrows | Corrections.TryParseGuarded |
| CM.BL/Credentials.cs:54-55 | `Equals` calls instance methods on `UserName` and `UserPassword`, which may be null | `default(Credentials) == default(Credentials)` throws; so does `("a", null) == ("A", "p")` | null-safe comparison, so that equality is reflexive on every instance and agrees with `GetHashCode`, which already accepts nulls | medium; not executed | EqualityLaws.DefaultEqualsThrows | Corrections.EqualsNullSafe |
