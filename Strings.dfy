/**
 * The few System.String operations the plugin relies on, with .NET semantics:
 * ordinal IndexOf(char), ordinal Contains(string), Split(char) and Trim().
 */
module Strings {

  /**
   * The characters String.Trim() removes on the pre-4.0 .NET profile the game runs on: a fixed
   * list that has U+200B and U+FEFF and lacks U+202F and U+205F (unlike char.IsWhiteSpace).
   */
  predicate IsWhiteSpace(c: char) {
    ('\t' <= c <= '\r') || c == ' ' || c == '\U{85}' || c == '\U{A0}' || c == '\U{1680}'
    || ('\U{2000}' <= c <= '\U{200B}') || c == '\U{2028}' || c == '\U{2029}'
    || c == '\U{3000}' || c == '\U{FEFF}'
  }

  predicate AllWhiteSpace(s: string) {
    forall i | 0 <= i < |s| :: IsWhiteSpace(s[i])
  }

  /** A string that Trim() leaves alone: it neither starts nor ends with white space. */
  predicate IsTrimmed(s: string) {
    s == [] || (!IsWhiteSpace(s[0]) && !IsWhiteSpace(s[|s| - 1]))
  }

  /** s.IndexOf(c): the position of the first c, or -1. */
  function IndexOf(s: string, c: char): (i: int)
    ensures -1 <= i < |s|
    ensures i == -1 <==> c !in s
    ensures 0 <= i ==> s[i] == c && c !in s[..i]
  {
    if s == [] then -1
    else if s[0] == c then 0
    else
      var j := IndexOf(s[1..], c);
      assert s[1..][..j + 1] == s[1..j + 2] by { }
      if j < 0 then -1 else j + 1
  }

  /** sub occurs in s at position i. */
  predicate OccursAt(s: string, sub: string, i: int) {
    0 <= i && i + |sub| <= |s| && s[i..i + |sub|] == sub
  }

  /** s.Contains(sub), ordinal. */
  function Contains(s: string, sub: string): (r: bool)
    ensures r <==> exists i :: OccursAt(s, sub, i)
    decreases |s|
  {
    if |sub| <= |s| && s[..|sub|] == sub then
      assert OccursAt(s, sub, 0);
      true
    else if |s| == 0 then
      assert forall i :: !OccursAt(s, sub, i);
      false
    else
      var r := Contains(s[1..], sub);
      assert forall j :: OccursAt(s[1..], sub, j) <==> OccursAt(s, sub, j + 1) by {
        forall j ensures OccursAt(s[1..], sub, j) <==> OccursAt(s, sub, j + 1) {
          if 0 <= j && j + |sub| <= |s| - 1 { assert s[1..][j..j + |sub|] == s[j + 1..j + 1 + |sub|]; }
        }
      }
      assert r ==> exists i :: OccursAt(s, sub, i);
      assert (exists i :: OccursAt(s, sub, i)) ==> r by {
        if exists i :: OccursAt(s, sub, i) {
          var i :| OccursAt(s, sub, i);
          assert i != 0;
          assert OccursAt(s[1..], sub, i - 1);
        }
      }
      r
  }

  /** The inverse of Split: the pieces glued back together with the separator between them. */
  function Join(parts: seq<string>, sep: char): string
    requires |parts| >= 1
  {
    if |parts| == 1 then parts[0] else parts[0] + [sep] + Join(parts[1..], sep)
  }

  /** s.Split(sep): every piece between separators, empty ones included. */
  function Split(s: string, sep: char): (parts: seq<string>)
    ensures |parts| >= 1
    ensures forall k | 0 <= k < |parts| :: sep !in parts[k]
    ensures Join(parts, sep) == s
    decreases |s|
  {
    var i := IndexOf(s, sep);
    if i < 0 then [s]
    else
      var rest := Split(s[i + 1..], sep);
      assert s == s[..i] + [sep] + s[i + 1..];
      [s[..i]] + rest
  }

  /** Splitting a joined list gives the list back when no piece holds the separator. */
  lemma {:induction false} SplitJoin(parts: seq<string>, sep: char)
    requires |parts| >= 1
    requires forall k | 0 <= k < |parts| :: sep !in parts[k]
    ensures Split(Join(parts, sep), sep) == parts
  {
    if |parts| > 1 {
      var rest := Join(parts[1..], sep);
      assert Join(parts, sep) == parts[0] + [sep] + rest;
      IndexOfFirst(parts[0], sep, rest);
      SplitJoin(parts[1..], sep);
    }
  }

  /** s.TrimEnd() */
  function TrimEnd(s: string): (r: string)
    ensures |r| <= |s| && r == s[..|r|]
    ensures AllWhiteSpace(s[|r|..])
    ensures r == [] || !IsWhiteSpace(r[|r| - 1])
  {
    if s != [] && IsWhiteSpace(s[|s| - 1]) then
      var r := TrimEnd(s[..|s| - 1]);
      assert s[|r|..] == s[..|s| - 1][|r|..] + [s[|s| - 1]];
      r
    else s
  }

  /** s.Trim(): leading and trailing white space removed. */
  function Trim(s: string): (r: string)
    ensures IsTrimmed(r) && |r| <= |s|
    decreases |s|
  {
    if s != [] && IsWhiteSpace(s[0]) then Trim(s[1..]) else TrimEnd(s)
  }

  /** Leading white space does not change the result of Trim(). */
  lemma {:induction false} TrimLeading(w: string, s: string)
    requires AllWhiteSpace(w)
    ensures Trim(w + s) == Trim(s)
    decreases |w|
  {
    if w != [] {
      assert (w + s)[0] == w[0] && (w + s)[1..] == w[1..] + s;
      TrimLeading(w[1..], s);
    } else {
      assert w + s == s;
    }
  }

  /** TrimEnd() undoes padding a string that does not end in white space on the right. */
  lemma {:induction false} TrimEndPadded(s: string, w: string)
    requires AllWhiteSpace(w)
    requires s == [] || !IsWhiteSpace(s[|s| - 1])
    ensures TrimEnd(s + w) == s
    decreases |w|
  {
    if w != [] {
      assert (s + w)[..|s + w| - 1] == s + w[..|w| - 1];
      TrimEndPadded(s, w[..|w| - 1]);
    } else {
      assert s + w == s;
    }
  }

  /** Trailing white space after a trimmed string is all Trim() removes. */
  lemma TrimTrailing(s: string, w: string)
    requires IsTrimmed(s) && AllWhiteSpace(w)
    ensures Trim(s + w) == s
  {
    if s == [] {
      assert s + w == w + [];
      TrimLeading(w, []);
    } else {
      assert (s + w)[0] == s[0];
      TrimEndPadded(s, w);
    }
  }

  /** Trim() leaves a trimmed string alone. */
  lemma TrimTrimmed(s: string)
    requires IsTrimmed(s)
    ensures Trim(s) == s
  {
    TrimTrailing(s, []);
    assert s + [] == s;
  }

  /** Trim() undoes padding a trimmed string with white space on either side. */
  lemma TrimPadded(w1: string, s: string, w2: string)
    requires AllWhiteSpace(w1) && AllWhiteSpace(w2) && IsTrimmed(s)
    ensures Trim(w1 + s + w2) == s
  {
    assert w1 + s + w2 == w1 + (s + w2);
    TrimLeading(w1, s + w2);
    TrimTrailing(s, w2);
  }

  /** The first c in a + [c] + rest, when a holds none, is the one after a. */
  lemma IndexOfFirst(a: string, c: char, rest: string)
    requires c !in a
    ensures var s := a + [c] + rest;
            IndexOf(s, c) == |a| && s[..|a|] == a && s[|a| + 1..] == rest
  {
    var s := a + [c] + rest;
    assert s[|a|] == c && s[..|a|] == a;
  }
}
