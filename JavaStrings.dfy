/**
 * The java.lang.String operations the friendlizer relies on, over strings as
 * sequences of characters: startsWith, endsWith, contains, trim,
 * equalsIgnoreCase, lastIndexOf and split around a single character.
 */
module JavaStrings {

  /** `s.startsWith(p)` */
  predicate StartsWith(s: string, p: string) {
    |p| <= |s| && s[..|p|] == p
  }

  /** `s.endsWith(p)` */
  predicate EndsWith(s: string, p: string) {
    |p| <= |s| && s[|s| - |p|..] == p
  }

  /** `s.contains(t)`: t occurs in s at some position (a plain substring test). */
  predicate Contains(s: string, t: string)
    decreases |s|
  {
    StartsWith(s, t) || (|s| > 0 && Contains(s[1..], t))
  }

  /** An occurrence of t at position i makes `s.contains(t)` true. */
  lemma {:induction false} ContainsAt(s: string, t: string, i: nat)
    requires i + |t| <= |s| && s[i..i + |t|] == t
    ensures Contains(s, t)
    decreases i
  {
    if i == 0 {
      assert s[..|t|] == t;
    } else {
      assert s[1..][i - 1..i - 1 + |t|] == s[i..i + |t|];
      ContainsAt(s[1..], t, i - 1);
    }
  }

  /** t occurs in s at position i. */
  predicate OccursAt(s: string, t: string, i: nat) {
    i + |t| <= |s| && s[i..i + |t|] == t
  }

  /** `s.contains(t)` holds exactly when t occurs in s at some position. */
  lemma {:induction false} ContainsIffOccurs(s: string, t: string)
    ensures Contains(s, t) <==> exists i: nat :: OccursAt(s, t, i)
    decreases |s|
  {
    if exists i: nat :: OccursAt(s, t, i) {
      var i: nat :| OccursAt(s, t, i);
      ContainsAt(s, t, i);
    }
    if StartsWith(s, t) {
      assert OccursAt(s, t, 0);
    } else if Contains(s, t) {
      ContainsIffOccurs(s[1..], t);
      var i: nat :| OccursAt(s[1..], t, i);
      assert s[i + 1..i + 1 + |t|] == s[1..][i..i + |t|];
      assert OccursAt(s, t, i + 1);
    }
  }

  /** Every string contains what it ends with. */
  lemma ContainsSuffix(p: string, t: string)
    ensures Contains(p + t, t)
  {
    assert (p + t)[|p|..|p| + |t|] == t;
    ContainsAt(p + t, t, |p|);
  }

  /** A string shorter than t cannot contain t. */
  lemma {:induction false} ShortNeverContains(s: string, t: string)
    requires |s| < |t|
    ensures !Contains(s, t)
    decreases |s|
  {
    if |s| > 0 {
      ShortNeverContains(s[1..], t);
    }
  }

  /** The characters `String.trim` strips: every code point up to and including U+0020. */
  predicate IsTrimmable(c: char) {
    c <= ' '
  }

  /** The first position from i on whose character `trim` keeps, or |s|. */
  function TrimStart(s: string, i: nat): (r: nat)
    requires i <= |s|
    ensures i <= r <= |s|
    ensures forall k :: i <= k < r ==> IsTrimmable(s[k])
    ensures r == |s| || !IsTrimmable(s[r])
    decreases |s| - i
  {
    if i < |s| && IsTrimmable(s[i]) then TrimStart(s, i + 1) else i
  }

  /** Scanning down from j to lo: the end of the part `trim` keeps. */
  function TrimEnd(s: string, lo: nat, j: nat): (r: nat)
    requires lo <= j <= |s|
    ensures lo <= r <= j
    ensures forall k :: r <= k < j ==> IsTrimmable(s[k])
    ensures r == lo || !IsTrimmable(s[r - 1])
    decreases j
  {
    if lo < j && IsTrimmable(s[j - 1]) then TrimEnd(s, lo, j - 1) else j
  }

  /**
   * `s.trim()`: the result is the slice of s starting at the first kept
   * character, every character of s around it is trimmable, and the result
   * neither starts nor ends with one.
   */
  function Trim(s: string): (r: string)
    ensures var a := TrimStart(s, 0);
      a + |r| <= |s| && r == s[a..a + |r|]
      && forall k :: 0 <= k < a || a + |r| <= k < |s| ==> IsTrimmable(s[k])
    ensures r == [] || (!IsTrimmable(r[0]) && !IsTrimmable(r[|r| - 1]))
  {
    var a := TrimStart(s, 0);
    s[a..TrimEnd(s, a, |s|)]
  }

  /** Text that neither starts nor ends with a trimmable character is its own trim. */
  lemma TrimKeepsTrimmed(s: string)
    requires s == [] || (!IsTrimmable(s[0]) && !IsTrimmable(s[|s| - 1]))
    ensures Trim(s) == s
  {
  }

  /** Java's Character.toUpperCase, exact on ASCII and on the two characters that map onto ASCII. */
  function UpperCase(c: char): char {
    if 'a' <= c <= 'z' then (c as int - 32) as char
    else if c == '\U{0131}' then 'I'  // LATIN SMALL LETTER DOTLESS I
    else if c == '\U{017F}' then 'S'  // LATIN SMALL LETTER LONG S
    else c
  }

  /** Java's Character.toLowerCase, exact on ASCII and on the two characters that map onto ASCII. */
  function LowerCase(c: char): char {
    if 'A' <= c <= 'Z' then (c as int + 32) as char
    else if c == '\U{0130}' then 'i'  // LATIN CAPITAL LETTER I WITH DOT ABOVE
    else if c == '\U{212A}' then 'k'  // KELVIN SIGN
    else c
  }

  /** The per-character test of `String.regionMatches(true, ...)`. */
  predicate SameIgnoringCase(a: char, b: char) {
    a == b || UpperCase(a) == UpperCase(b) || LowerCase(UpperCase(a)) == LowerCase(UpperCase(b))
  }

  /** `s.equalsIgnoreCase(t)` */
  predicate EqualsIgnoreCase(s: string, t: string) {
    |s| == |t| && forall i :: 0 <= i < |s| ==> SameIgnoringCase(s[i], t[i])
  }

  /** `equalsIgnoreCase` is reflexive and symmetric, and only strings of one length match. */
  lemma EqualsIgnoreCaseLaws(s: string, t: string)
    ensures EqualsIgnoreCase(s, s)
    ensures EqualsIgnoreCase(s, t) <==> EqualsIgnoreCase(t, s)
    ensures EqualsIgnoreCase(s, t) ==> |s| == |t|
  {
  }

  /** `s.lastIndexOf(c)`: the last position holding c, or -1. */
  function LastIndexOf(s: string, c: char): (r: int)
    ensures -1 <= r < |s|
    ensures r == -1 ==> forall i :: 0 <= i < |s| ==> s[i] != c
    ensures r >= 0 ==> s[r] == c && forall i :: r < i < |s| ==> s[i] != c
    decreases |s|
  {
    if |s| == 0 then -1
    else if s[|s| - 1] == c then |s| - 1
    else LastIndexOf(s[..|s| - 1], c)
  }

  /** The pieces of s between the occurrences of d, all of them kept (empty ones too). */
  function Pieces(s: string, d: char): (r: seq<string>)
    ensures |r| >= 1
    ensures forall k :: 0 <= k < |r| ==> d !in r[k]
    decreases |s|
  {
    if |s| == 0 then [""]
    else
      var rest := Pieces(s[1..], d);
      if s[0] == d then [""] + rest else [[s[0]] + rest[0]] + rest[1..]
  }

  /** The pieces put back together with d between neighbours. */
  function Join(parts: seq<string>, d: char): string
    requires |parts| >= 1
    decreases |parts|
  {
    if |parts| == 1 then parts[0] else parts[0] + [d] + Join(parts[1..], d)
  }

  /** Cutting at every d and joining again with d gives the text back. */
  lemma {:induction false} JoinPieces(s: string, d: char)
    ensures Join(Pieces(s, d), d) == s
    decreases |s|
  {
    if |s| > 0 {
      JoinPieces(s[1..], d);
      var rest := Pieces(s[1..], d);
      if s[0] == d {
        assert Join([""] + rest, d) == [d] + Join(rest, d);
      } else if |rest| == 1 {
        assert Join([[s[0]] + rest[0]] + rest[1..], d) == [s[0]] + rest[0];
      } else {
        var parts := [[s[0]] + rest[0]] + rest[1..];
        assert parts[1..] == rest[1..];
        assert Join(parts, d) == [s[0]] + rest[0] + [d] + Join(rest[1..], d);
      }
    }
  }

  /** Text without the delimiter is a single piece. */
  lemma {:induction false} PiecesWithoutDelimiter(s: string, d: char)
    requires d !in s
    ensures Pieces(s, d) == [s]
    decreases |s|
  {
    if |s| > 0 {
      PiecesWithoutDelimiter(s[1..], d);
      assert [s[0]] + s[1..] == s;
    }
  }

  /** Cutting a + d + b is cutting a, then cutting b. */
  lemma {:induction false} PiecesAround(a: string, d: char, b: string)
    ensures Pieces(a + [d] + b, d) == Pieces(a, d) + Pieces(b, d)
    decreases |a|
  {
    var s := a + [d] + b;
    if |a| == 0 {
      assert s[1..] == b;
    } else {
      assert s[1..] == a[1..] + [d] + b;
      PiecesAround(a[1..], d, b);
    }
  }

  /** Drops the empty strings at the end of a list, as `split` does. */
  function DropTrailingEmpty(parts: seq<string>): (r: seq<string>)
    ensures |r| <= |parts| && r == parts[..|r|]
    ensures forall k :: |r| <= k < |parts| ==> parts[k] == ""
    ensures r == [] || r[|r| - 1] != ""
    decreases |parts|
  {
    if |parts| == 0 || parts[|parts| - 1] != "" then parts
    else DropTrailingEmpty(parts[..|parts| - 1])
  }

  /**
   * `s.split(String.valueOf(d))` for a delimiter that is no regular-expression
   * metacharacter: without an occurrence the whole string is the one element
   * (even when it is empty); otherwise the pieces, trailing empty ones removed.
   */
  function Split(s: string, d: char): (r: seq<string>)
    ensures d !in s ==> r == [s]
    ensures d in s ==> |r| <= |Pieces(s, d)| && r == Pieces(s, d)[..|r|]
    ensures d in s ==> forall k :: |r| <= k < |Pieces(s, d)| ==> Pieces(s, d)[k] == ""
    ensures d in s ==> r == [] || r[|r| - 1] != ""
    ensures forall k :: 0 <= k < |r| ==> d !in r[k]
  {
    if d !in s then [s] else DropTrailingEmpty(Pieces(s, d))
  }
}
