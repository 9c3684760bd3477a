/** The .NET string primitives the credentials type relies on:
    `char.IsWhiteSpace`, `string.IsNullOrWhiteSpace`, `string.IsNullOrEmpty`,
    `string.Trim()` and the per-character case folding used by
    `StringComparison.OrdinalIgnoreCase`.
 */
module Text {
  import opened Wrappers

  type String = seq<char>

  /** `char.IsWhiteSpace`: the Unicode space, line and paragraph separators
      (categories Zs, Zl, Zp) plus U+0009..U+000D and U+0085. */
  predicate IsWs(c: char) {
    || ('\t' <= c <= '\r')
    || c == ' '
    || c == '\U{85}'
    || c == '\U{A0}'
    || c == '\U{1680}'
    || ('\U{2000}' <= c <= '\U{200A}')
    || c == '\U{2028}'
    || c == '\U{2029}'
    || c == '\U{202F}'
    || c == '\U{205F}'
    || c == '\U{3000}'
  }

  /** Every character of `s` is whitespace (true of the empty string). */
  predicate AllWs(s: String)
  {
    forall i :: 0 <= i < |s| ==> IsWs(s[i])
  }

  /** `string.IsNullOrWhiteSpace`. */
  predicate IsNullOrWhiteSpace(o: Option<String>) {
    o.None? || AllWs(o.value)
  }

  /** `string.IsNullOrEmpty`. */
  predicate IsNullOrEmpty(o: Option<String>) {
    o.None? || o.value == []
  }

  /** No whitespace at either end: what `Trim` leaves behind. */
  predicate IsTrimmed(s: String) {
    |s| == 0 || (!IsWs(s[0]) && !IsWs(s[|s| - 1]))
  }

  /** Number of leading whitespace characters. */
  function LeadingWs(s: String): (n: nat)
    ensures n <= |s|
    ensures forall i :: 0 <= i < n ==> IsWs(s[i])
    ensures n < |s| ==> !IsWs(s[n])
  {
    if |s| > 0 && IsWs(s[0]) then 1 + LeadingWs(s[1..]) else 0
  }

  /** Number of trailing whitespace characters. */
  function TrailingWs(s: String): (n: nat)
    ensures n <= |s|
    ensures forall i :: |s| - n <= i < |s| ==> IsWs(s[i])
    ensures n < |s| ==> !IsWs(s[|s| - 1 - n])
  {
    if |s| > 0 && IsWs(s[|s| - 1]) then 1 + TrailingWs(s[..|s| - 1]) else 0
  }

  /** `string.Trim()`: `s` with its leading and trailing whitespace removed.
      The result is the infix of `s` that starts and ends with a
      non-whitespace character and is surrounded by whitespace only. */
  function Trim(s: String): (r: String)
    ensures |r| <= |s|
    ensures IsTrimmed(r)
    ensures r == [] <==> AllWs(s)
  {
    var a := LeadingWs(s);
    if a == |s| then []
    else
      var b := |s| - TrailingWs(s);
      assert a < b;
      s[a..b]
  }

  /** What `Trim` removes is whitespace on both sides of its result. */
  lemma TrimIsInfix(s: String)
    ensures exists k :: && 0 <= k <= |s| - |Trim(s)| && Trim(s) == s[k..k + |Trim(s)|]
                        && AllWs(s[..k]) && AllWs(s[k + |Trim(s)|..])
  {
    var a := LeadingWs(s);
    if a == |s| {
      assert s[..0] == [] && s[0..] == s;
    } else {
      var b := |s| - TrailingWs(s);
      assert AllWs(s[..a]);
      assert AllWs(s[b..]);
    }
  }

  /** A whitespace run ended by a non-blank character is exactly what
      `LeadingWs` counts. */
  lemma LeadingWsExact(s: String, p: nat)
    requires p < |s| && !IsWs(s[p])
    requires forall i :: 0 <= i < p ==> IsWs(s[i])
    ensures LeadingWs(s) == p
  {
  }

  /** A whitespace run preceded by a non-blank character is exactly what
      `TrailingWs` counts. */
  lemma TrailingWsExact(s: String, q: nat)
    requires q < |s| && !IsWs(s[|s| - 1 - q])
    requires forall i :: |s| - q <= i < |s| ==> IsWs(s[i])
    ensures TrailingWs(s) == q
  {
  }

  /** Whitespace framing a non-blank string is exactly what `Trim` removes. */
  lemma TrimPaddedCore(pre: String, r: String, post: String)
    requires AllWs(pre) && AllWs(post) && IsTrimmed(r) && r != []
    ensures Trim(pre + r + post) == r
  {
    var s := pre + r + post;
    assert LeadingWs(s) == |pre| by {
      forall i | 0 <= i < |pre|
        ensures IsWs(s[i])
      {
        assert s[i] == pre[i];
      }
      assert s[|pre|] == r[0];
      LeadingWsExact(s, |pre|);
    }
    assert TrailingWs(s) == |post| by {
      var front := pre + r;
      assert s == front + post;
      forall i | |front| <= i < |s|
        ensures IsWs(s[i])
      {
        var j := i - |front|;
        assert s[i] == post[j];
      }
      assert s[|front| - 1] == front[|front| - 1] == r[|r| - 1];
      TrailingWsExact(s, |post|);
    }
    assert s[|pre|..|s| - |post|] == r;
  }

  /** Trimming a whitespace-padded trimmed string gives that string back:
      `Trim` finds exactly the non-blank core of its input. */
  lemma TrimPadded(pre: String, r: String, post: String)
    requires AllWs(pre) && AllWs(post) && IsTrimmed(r)
    ensures Trim(pre + r + post) == r
  {
    if r == [] {
      var s := pre + r + post;
      forall i | 0 <= i < |s|
        ensures IsWs(s[i])
      {
        if i < |pre| {
          assert s[i] == pre[i];
        } else {
          assert s[i] == post[i - |pre|];
        }
      }
    } else {
      TrimPaddedCore(pre, r, post);
    }
  }

  /** `Trim` leaves a string without surrounding whitespace unchanged. */
  lemma TrimTrimmed(s: String)
    requires IsTrimmed(s)
    ensures Trim(s) == s
  {
    TrimPadded([], s, []);
    assert [] + s + [] == s;
  }

  /** `Trim` is idempotent. */
  lemma TrimIdempotent(s: String)
    ensures Trim(Trim(s)) == Trim(s)
  {
    TrimTrimmed(Trim(s));
  }

  /** Upper-case mapping of one character, as the ordinal ignore-case
      comparison applies it: ASCII `a`..`z` become `A`..`Z`, every other
      character is left alone. */
  function Fold(c: char): (r: char)
    ensures !('a' <= r <= 'z')
    ensures r != c <==> 'a' <= c <= 'z'
    ensures r != c ==> r as int == c as int - 32
  {
    if 'a' <= c <= 'z' then (c as int - 32) as char else c
  }

  /** `Fold` applied to every character of `s`. */
  function FoldStr(s: String): (r: String)
    ensures |r| == |s|
    ensures forall i :: 0 <= i < |s| ==> r[i] == Fold(s[i])
  {
    if |s| == 0 then [] else [Fold(s[0])] + FoldStr(s[1..])
  }

  /** `FoldStr` lifted to nullable strings. */
  function FoldOpt(o: Option<String>): Option<String> {
    match o
    case None => None
    case Some(s) => Some(FoldStr(s))
  }
}
