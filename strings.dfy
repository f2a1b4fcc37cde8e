/**
 * The JavaScript string operations the ingestion code relies on, over
 * `string` (a sequence of `char`).  Searches walk an index through the
 * string rather than cutting it, so that each step only looks at one
 * character.
 */
module Strings {

  /** `t` occurs in `s` at position `k`. */
  predicate OccursAt(s: string, t: string, k: nat) {
    k + |t| <= |s| && s[k..k + |t|] == t
  }

  /** Some occurrence of `t` in `s` starts at or after position `i`. */
  predicate ContainsFrom(s: string, t: string, i: nat)
    decreases |s| - i
  {
    i + |t| <= |s| && (OccursAt(s, t, i) || ContainsFrom(s, t, i + 1))
  }

  /** `s.indexOf(t) !== -1`, equivalently `s.includes(t)` */
  predicate Contains(s: string, t: string) {
    ContainsFrom(s, t, 0)
  }

  /** The search succeeds exactly when `t` occurs at some position at or after `i`. */
  lemma {:induction false} ContainsFromSpec(s: string, t: string, i: nat)
    ensures ContainsFrom(s, t, i) <==> exists k: nat :: i <= k && OccursAt(s, t, k)
    decreases |s| - i
  {
    if i + |t| <= |s| {
      ContainsFromSpec(s, t, i + 1);
      if exists k: nat :: i <= k && OccursAt(s, t, k) {
        var k: nat :| i <= k && OccursAt(s, t, k);
        if k != i {
          assert i + 1 <= k;
        }
      }
    }
  }

  /** `s.startsWith(p)` */
  predicate StartsWith(s: string, p: string) {
    |p| <= |s| && s[..|p|] == p
  }

  /** Lower-casing of one character; only the ASCII capitals are mapped. */
  function LowerChar(c: char): (r: char)
    ensures 'A' <= c <= 'Z' ==> r as int == c as int + 32
    ensures !('A' <= c <= 'Z') ==> r == c
  {
    if 'A' <= c <= 'Z' then (c as int + 32) as char else c
  }

  /** `s.toLowerCase()`, restricted to ASCII letters. */
  function ToLower(s: string): (r: string)
    ensures |r| == |s|
  {
    seq(|s|, i requires 0 <= i < |s| => LowerChar(s[i]))
  }

  /** The characters `String.prototype.trim` removes: ECMAScript WhiteSpace and LineTerminator. */
  predicate IsWhitespace(c: char) {
    ('\U{0009}' <= c <= '\U{000D}') || c == ' ' || c == '\U{00A0}' || c == '\U{1680}'
    || ('\U{2000}' <= c <= '\U{200A}') || c == '\U{2028}' || c == '\U{2029}'
    || c == '\U{202F}' || c == '\U{205F}' || c == '\U{3000}' || c == '\U{FEFF}'
  }

  /** The first position at or after `i` holding `c`, or `|s|` when there is none. */
  function IndexOf(s: string, c: char, i: nat): (k: nat)
    requires i <= |s|
    ensures i <= k <= |s|
    decreases |s| - i
  {
    if i == |s| || s[i] == c then i else IndexOf(s, c, i + 1)
  }

  lemma {:induction false} IndexOfSpec(s: string, c: char, i: nat)
    requires i <= |s|
    ensures forall j :: i <= j < IndexOf(s, c, i) ==> s[j] != c
    ensures IndexOf(s, c, i) < |s| ==> s[IndexOf(s, c, i)] == c
    decreases |s| - i
  {
    if i < |s| && s[i] != c {
      IndexOfSpec(s, c, i + 1);
    }
  }

  /** The first position at or after `i` that is not whitespace, or `|s|`. */
  function SkipSpace(s: string, i: nat): (k: nat)
    requires i <= |s|
    ensures i <= k <= |s|
    decreases |s| - i
  {
    if i == |s| || !IsWhitespace(s[i]) then i else SkipSpace(s, i + 1)
  }

  lemma {:induction false} SkipSpaceSpec(s: string, i: nat)
    requires i <= |s|
    ensures forall j :: i <= j < SkipSpace(s, i) ==> IsWhitespace(s[j])
    ensures SkipSpace(s, i) < |s| ==> !IsWhitespace(s[SkipSpace(s, i)])
    decreases |s| - i
  {
    if i < |s| && IsWhitespace(s[i]) {
      SkipSpaceSpec(s, i + 1);
    }
  }

  /** The end of `s[..n]` once its trailing whitespace is dropped. */
  function TrimEnd(s: string, n: nat): (k: nat)
    requires n <= |s|
    ensures k <= n
  {
    if n == 0 || !IsWhitespace(s[n - 1]) then n else TrimEnd(s, n - 1)
  }

  lemma {:induction false} TrimEndSpec(s: string, n: nat)
    requires n <= |s|
    ensures forall j :: TrimEnd(s, n) <= j < n ==> IsWhitespace(s[j])
    ensures TrimEnd(s, n) > 0 ==> !IsWhitespace(s[TrimEnd(s, n) - 1])
  {
    if n > 0 && IsWhitespace(s[n - 1]) {
      TrimEndSpec(s, n - 1);
    }
  }

  /** `s.trim()`: drops the leading and the trailing whitespace of `s`. */
  function Trim(s: string): (r: string)
    ensures |r| <= |s|
  {
    var a := SkipSpace(s, 0);
    var b := TrimEnd(s, |s|);
    if b <= a then [] else s[a..b]
  }

  /**
   * The trimmed string is an infix of `s` that neither starts nor ends
   * with whitespace, every character cut off is whitespace, and it is
   * empty exactly when `s` is all whitespace.
   */
  lemma TrimSpec(s: string)
    ensures exists a, b :: (0 <= a <= b <= |s| && Trim(s) == s[a..b]
      && (forall i :: 0 <= i < a ==> IsWhitespace(s[i]))
      && (forall i :: b <= i < |s| ==> IsWhitespace(s[i])))
    ensures Trim(s) != [] ==> !IsWhitespace(Trim(s)[0]) && !IsWhitespace(Trim(s)[|Trim(s)| - 1])
    ensures Trim(s) == [] <==> forall i :: 0 <= i < |s| ==> IsWhitespace(s[i])
  {
    var a, b := SkipSpace(s, 0), TrimEnd(s, |s|);
    SkipSpaceSpec(s, 0);
    TrimEndSpec(s, |s|);
    if b <= a {
      assert Trim(s) == s[a..a];
      assert forall i :: 0 <= i < |s| ==> IsWhitespace(s[i]) by {
        forall i | 0 <= i < |s|
          ensures IsWhitespace(s[i])
        {
          if a <= i && i < b {
            assert false;
          }
        }
      }
    } else {
      assert !IsWhitespace(s[a]);
    }
  }

  /** The part of `s` before the first `c`, i.e. `s.split(c)[0]`. */
  function Before(s: string, c: char): (r: string)
    ensures |r| <= |s|
  {
    s[..IndexOf(s, c, 0)]
  }

  /** `Before` is the longest prefix without `c`; it is all of `s` exactly when `c` is missing. */
  lemma BeforeSpec(s: string, c: char)
    ensures var r := Before(s, c);
      && r == s[..|r|] && c !in r
      && (|r| < |s| <==> c in s)
      && (|r| < |s| ==> s[|r|] == c)
  {
    IndexOfSpec(s, c, 0);
  }

  /** The part of `s` after the first `c`, empty when there is none. */
  function After(s: string, c: char): string {
    var k := IndexOf(s, c, 0);
    if k < |s| then s[k + 1..] else []
  }

  lemma AfterSpec(s: string, c: char)
    ensures c in s ==> s == Before(s, c) + [c] + After(s, c)
    ensures c !in s ==> After(s, c) == []
  {
    BeforeSpec(s, c);
    var k := IndexOf(s, c, 0);
    if c in s {
      assert s == s[..k] + [c] + s[k + 1..];
    }
  }

  /** Field `i` (0 or 1) of `s.split(c)`; only called when field 1 exists. */
  function SplitField(s: string, c: char, i: nat): (r: string)
    requires i == 0 || c in s
  {
    if i == 0 then Before(s, c) else Before(After(s, c), c)
  }

  /** `s.replace(a, b)` with a one-character search string: only the first `a` is replaced. */
  function ReplaceFirst(s: string, a: char, b: char): (r: string)
    ensures |r| == |s|
  {
    var k := IndexOf(s, a, 0);
    if k < |s| then s[k := b] else s
  }

  lemma ReplaceFirstSpec(s: string, a: char, b: char)
    ensures a !in s ==> ReplaceFirst(s, a, b) == s
    ensures a in s ==> var r, k := ReplaceFirst(s, a, b), |Before(s, a)|;
      k < |s| && r[k] == b && forall i :: 0 <= i < |s| && i != k ==> r[i] == s[i]
  {
    BeforeSpec(s, a);
  }
}
