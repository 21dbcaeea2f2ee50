/**
 * The string primitives the services rely on: the character classes of Python's
 * regular expressions (`\s`, `\w`), `str.strip`, `str.lower`, "text after the last
 * dot" (`rsplit(".", 1)[-1]`) and the substring test `q in s`.
 * Characters outside ASCII are treated as neither whitespace nor word characters
 * and are left unchanged by `Lower`.
 */
module Text {

  /** Python's `str.isspace()` and the regex class `\s`, restricted to ASCII:
      tab, line feed, vertical tab, form feed, carriage return, the four
      information separators 0x1C-0x1F, and space. */
  predicate IsSpace(c: char) {
    (9 <= c as int <= 13) || (28 <= c as int <= 31) || c == ' '
  }

  predicate IsAsciiLetter(c: char) {
    ('a' <= c <= 'z') || ('A' <= c <= 'Z')
  }

  predicate IsDigit(c: char) {
    '0' <= c <= '9'
  }

  /** The regex class `\w` restricted to ASCII. */
  predicate IsWordChar(c: char) {
    IsAsciiLetter(c) || IsDigit(c) || c == '_'
  }

  predicate AllSpace(s: string) {
    forall i :: 0 <= i < |s| ==> IsSpace(s[i])
  }

  predicate NoSpace(s: string) {
    forall i :: 0 <= i < |s| ==> !IsSpace(s[i])
  }

  /** `str.lower` on one character (ASCII letters only). */
  function LowerChar(c: char): (d: char)
    ensures !('A' <= d <= 'Z')
    ensures IsAsciiLetter(d) == IsAsciiLetter(c)
    ensures !IsAsciiLetter(c) ==> d == c
    ensures 'a' <= c <= 'z' ==> d == c
    ensures 'A' <= c <= 'Z' ==> d as int - c as int == 'a' as int - 'A' as int
  {
    if 'A' <= c <= 'Z' then (c as int - 'A' as int + 'a' as int) as char else c
  }

  /** `str.lower`: every character lowered, in place. */
  function Lower(s: string): (r: string)
    ensures |r| == |s|
    ensures forall i :: 0 <= i < |s| ==> r[i] == LowerChar(s[i])
  {
    seq(|s|, i requires 0 <= i < |s| => LowerChar(s[i]))
  }

  /** Lowering neither adds nor removes a character that is not a letter. */
  lemma LowerKeeps(s: string, c: char)
    requires !IsAsciiLetter(c)
    ensures c in s <==> c in Lower(s)
  {
    if c in s {
      var i :| 0 <= i < |s| && s[i] == c;
      assert Lower(s)[i] == c;
    }
    if c in Lower(s) {
      var i :| 0 <= i < |s| && Lower(s)[i] == c;
      assert s[i] == c;
    }
  }

  /** Number of whitespace characters at the front of `s`. */
  function LeadingSpaces(s: string): (n: nat)
    ensures n <= |s|
    ensures AllSpace(s[..n])
    ensures n == |s| || !IsSpace(s[n])
  {
    if s != [] && IsSpace(s[0]) then
      var n := 1 + LeadingSpaces(s[1..]);
      assert s[..n] == [s[0]] + s[1..][..n - 1];
      n
    else 0
  }

  /** Number of whitespace characters at the back of `s`. */
  function TrailingSpaces(s: string): (n: nat)
    ensures n <= |s|
    ensures AllSpace(s[|s| - n..])
    ensures n == |s| || !IsSpace(s[|s| - n - 1])
  {
    if s != [] && IsSpace(s[|s| - 1]) then
      var t := s[..|s| - 1];
      var m := TrailingSpaces(t);
      assert s[|s| - (m + 1)..] == t[|t| - m..] + [s[|s| - 1]];
      AllSpaceConcat(t[|t| - m..], [s[|s| - 1]]);
      assert m < |t| ==> s[|s| - (m + 1) - 1] == t[|t| - m - 1];
      m + 1
    else 0
  }

  lemma AllSpaceConcat(x: string, y: string)
    ensures AllSpace(x + y) <==> AllSpace(x) && AllSpace(y)
  {
    if AllSpace(x + y) {
      forall i | 0 <= i < |x| ensures IsSpace(x[i]) { assert (x + y)[i] == x[i]; }
      forall i | 0 <= i < |y| ensures IsSpace(y[i]) { assert (x + y)[|x| + i] == y[i]; }
    }
  }

  /** `str.strip()`: `s` without its leading and trailing whitespace. The result is
      the slice of `s` that starts after the leading whitespace, everything cut off
      is whitespace, and what is left neither starts nor ends with whitespace; it is
      empty exactly when `s` is blank. */
  function Strip(s: string): (r: string)
    ensures LeadingSpaces(s) + |r| <= |s|
    ensures s[LeadingSpaces(s)..LeadingSpaces(s) + |r|] == r
    ensures AllSpace(s[LeadingSpaces(s) + |r|..])
    ensures r == [] <==> AllSpace(s)
    ensures r != [] ==> !IsSpace(r[0]) && !IsSpace(r[|r| - 1])
  {
    var a := LeadingSpaces(s);
    var t := s[a..];
    var b := TrailingSpaces(t);
    var r := t[..|t| - b];
    assert s[a + |r|..] == t[|t| - b..];
    StripBlank(s, a, r, t[|t| - b..]);
    r
  }

  lemma StripBlank(s: string, a: nat, r: string, tail: string)
    requires a <= |s| && s == s[..a] + r + tail
    requires AllSpace(s[..a]) && AllSpace(tail)
    requires a == |s| || !IsSpace(s[a])
    ensures r == [] <==> AllSpace(s)
  {
    AllSpaceConcat(s[..a], r + tail);
    AllSpaceConcat(r, tail);
    if r == [] {
      assert s[a..] == tail;
    }
  }

  /** A character that is not whitespace survives `Strip`. */
  lemma StripKeeps(s: string, c: char)
    requires !IsSpace(c) && c in s
    ensures c in Strip(s)
  {
    var r := Strip(s);
    var a := LeadingSpaces(s);
    var i :| 0 <= i < |s| && s[i] == c;
    forall j | 0 <= j < a ensures IsSpace(s[j]) { assert s[..a][j] == s[j]; }
    forall j | a + |r| <= j < |s| ensures IsSpace(s[j]) { assert s[a + |r|..][j - a - |r|] == s[j]; }
    assert a <= i < a + |r|;
    assert r[i - a] == c;
  }

  /** `i` is the position of the last `.` in `s`. */
  predicate IsLastDot(s: string, i: int) {
    0 <= i < |s| && s[i] == '.' && forall j :: i < j < |s| ==> s[j] != '.'
  }

  /** The text after the last `.` of `s` (all of `s` when it has no dot):
      Python's `s.rsplit(".", 1)[-1]`. */
  function AfterLastDot(s: string): (r: string)
    ensures |r| <= |s| && r == s[|s| - |r|..]
    ensures '.' !in r
    ensures |r| < |s| ==> s[|s| - |r| - 1] == '.'
  {
    if s == [] || s[|s| - 1] == '.' then []
    else
      var t := s[..|s| - 1];
      var r := AfterLastDot(t) + [s[|s| - 1]];
      assert s[|s| - |r|..] == t[|t| - (|r| - 1)..] + [s[|s| - 1]];
      r
  }

  /** The last dot of a string with a dot sits right before `AfterLastDot`, and
      nowhere else. */
  lemma {:induction false} LastDotIsUnique(s: string, i: int)
    ensures IsLastDot(s, i) <==> (|AfterLastDot(s)| < |s| && i == |s| - |AfterLastDot(s)| - 1)
  {
    var r := AfterLastDot(s);
    var k := |s| - |r| - 1;
    forall j | |s| - |r| <= j < |s| ensures s[j] != '.' {
      assert r[j - (|s| - |r|)] == s[j];
    }
    if IsLastDot(s, i) {
      assert i < |s| - |r|;
      assert |r| < |s|;
      assert i == k;
    }
  }

  lemma HasDotIffShorter(s: string)
    ensures '.' in s <==> |AfterLastDot(s)| < |s|
  {
    var r := AfterLastDot(s);
    if |r| == |s| {
      assert r == s;
    }
  }

  /** `q` occurs in `s` starting at position `i`. */
  predicate OccursAt(q: string, s: string, i: int) {
    0 <= i <= |s| - |q| && s[i..i + |q|] == q
  }

  /** `q` occurs in `s` somewhere: Python's `q in s` for strings. */
  ghost predicate Occurs(q: string, s: string) {
    exists i :: OccursAt(q, s, i)
  }

  predicate StartsWith(s: string, q: string) {
    |q| <= |s| && s[..|q|] == q
  }

  /** Executable substring search, scanning `s` from the front. */
  function Contains(s: string, q: string): (b: bool)
    ensures b <==> Occurs(q, s)
    decreases |s|
  {
    if StartsWith(s, q) then
      assert OccursAt(q, s, 0);
      true
    else if s == [] then
      false
    else
      var b := Contains(s[1..], q);
      assert Occurs(q, s[1..]) ==> Occurs(q, s) by {
        if Occurs(q, s[1..]) {
          var i :| OccursAt(q, s[1..], i);
          assert s[1..][i..i + |q|] == s[i + 1..i + 1 + |q|];
          assert OccursAt(q, s, i + 1);
        }
      }
      assert Occurs(q, s) ==> Occurs(q, s[1..]) by {
        if Occurs(q, s) {
          var i :| OccursAt(q, s, i);
          assert i != 0;
          assert s[1..][i - 1..i - 1 + |q|] == s[i..i + |q|];
          assert OccursAt(q, s[1..], i - 1);
        }
      }
      b
  }
}
