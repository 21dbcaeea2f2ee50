/**
 * `ValidationService`: the stateless checks on file names, file sizes and e-mail
 * addresses, and the file-name sanitiser.
 */
module Validation {
  import opened Text
  import Config

  // ----- file extension and size ---------------------------------------------

  /** `validate_file_extension`: false without a dot, otherwise whether the
      lower-cased text after the last dot is an allowed extension. */
  function ValidateFileExtension(filename: string): (ok: bool)
    ensures ok <==> exists i :: IsLastDot(filename, i) && Lower(filename[i + 1..]) in Config.AllowedExtensions
    ensures '.' !in filename ==> !ok
    ensures forall i :: IsLastDot(filename, i) ==> (ok <==> Lower(filename[i + 1..]) in Config.AllowedExtensions)
  {
    HasDotIffShorter(filename);
    var k := |filename| - |AfterLastDot(filename)| - 1;
    forall i ensures IsLastDot(filename, i) <==> ('.' in filename && i == k) {
      LastDotIsUnique(filename, i);
    }
    if '.' in filename then
      assert IsLastDot(filename, k) && filename[k + 1..] == AfterLastDot(filename);
      Lower(AfterLastDot(filename)) in Config.AllowedExtensions
    else false
  }

  /** `validate_file_size`: strictly positive and at most 500 MiB, both ends as
      stated (zero is refused, exactly 500 MiB is accepted). */
  function ValidateFileSize(sizeBytes: int): (ok: bool)
    ensures ok <==> 0 < sizeBytes <= 524_288_000
  {
    var maxBytes := Config.MaxVideoSizeMb * 1024 * 1024;
    0 < sizeBytes <= maxBytes
  }

  // ----- e-mail shape ----------------------------------------------------------

  /** `[a-zA-Z0-9_.+-]` */
  predicate LocalChar(c: char) {
    IsAsciiLetter(c) || IsDigit(c) || c == '_' || c == '.' || c == '+' || c == '-'
  }

  /** `[a-zA-Z0-9-]` */
  predicate DomainChar(c: char) {
    IsAsciiLetter(c) || IsDigit(c) || c == '-'
  }

  /** `[a-zA-Z0-9-.]` */
  predicate TailChar(c: char) {
    IsAsciiLetter(c) || IsDigit(c) || c == '-' || c == '.'
  }

  predicate All(s: string, p: char -> bool) {
    forall i :: 0 <= i < |s| ==> p(s[i])
  }

  /** `s` splits, with `@` at `at` and `.` at `dot`, into the four parts of the
      pattern `^[a-zA-Z0-9_.+-]+@[a-zA-Z0-9-]+\.[a-zA-Z0-9-.]+` with nothing left over. */
  predicate EmailShapeAt(s: string, at: int, dot: int) {
    && 0 < at && at + 1 < dot && dot + 1 < |s|
    && All(s[..at], LocalChar) && s[at] == '@'
    && All(s[at + 1..dot], DomainChar) && s[dot] == '.'
    && All(s[dot + 1..], TailChar)
  }

  /** The language of the e-mail pattern, anchored at both ends. */
  ghost predicate EmailShape(s: string) {
    exists at, dot :: EmailShapeAt(s, at, dot)
  }

  /** Length of the longest prefix of `s` whose characters all satisfy `p`. */
  function Span(s: string, p: char -> bool): (n: nat)
    ensures n <= |s| && All(s[..n], p)
    ensures n == |s| || !p(s[n])
  {
    if s != [] && p(s[0]) then
      var n := 1 + Span(s[1..], p);
      assert s[..n] == [s[0]] + s[1..][..n - 1];
      n
    else 0
  }

  lemma SpanUnique(s: string, p: char -> bool, n: nat)
    requires n <= |s| && All(s[..n], p) && (n == |s| || !p(s[n]))
    ensures Span(s, p) == n
  {
    var m := Span(s, p);
    forall j | 0 <= j < n ensures p(s[j]) { assert s[..n][j] == s[j]; }
    forall j | 0 <= j < m ensures p(s[j]) { assert s[..m][j] == s[j]; }
  }

  lemma SliceOfSuffix(s: string, a: int, b: int)
    requires 0 <= a <= b <= |s|
    ensures s[a..][..b - a] == s[a..b]
  {
  }

  /** Any split that fits the pattern is the one the greedy spans find. */
  lemma GreedySplit(s: string, at: int, dot: int)
    requires EmailShapeAt(s, at, dot)
    ensures Span(s, LocalChar) == at
    ensures Span(s[at + 1..], DomainChar) == dot - at - 1
  {
    SpanUnique(s, LocalChar, at);
    var rest := s[at + 1..];
    assert rest[..dot - at - 1] == s[at + 1..dot];
    SpanUnique(rest, DomainChar, dot - at - 1);
  }

  /** Matches the pattern the way the regular expression engine does: the local
      part cannot hold `@` and the domain cannot hold `.`, so the greedy spans
      are the only split that can succeed. */
  function MatchesEmail(s: string): (ok: bool)
    ensures ok <==> EmailShape(s)
  {
    var at := Span(s, LocalChar);
    var rest := if at < |s| then s[at + 1..] else [];
    var dot := at + 1 + Span(rest, DomainChar);
    var ok := at < |s| && 0 < at && s[at] == '@' && at + 1 < dot && dot + 1 < |s|
              && s[dot] == '.' && All(s[dot + 1..], TailChar);
    if ok then
      SliceOfSuffix(s, at + 1, dot);
      assert EmailShapeAt(s, at, dot);
      true
    else
      assert !EmailShape(s) by {
        forall at', dot' | EmailShapeAt(s, at', dot')
          ensures at' == at && Span(s[at' + 1..], DomainChar) == dot' - at' - 1
        {
          GreedySplit(s, at', dot');
        }
      }
      false
  }

  /** `validate_email`: `re.match` with the e-mail pattern. Because `$` also
      matches just before a final line feed, an address followed by one `\n`
      is accepted too. Every accepted address holds an `@`. */
  function ValidateEmail(email: string): (ok: bool)
    ensures ok <==> EmailShape(email)
                    || (email != [] && email[|email| - 1] == '\n' && EmailShape(email[..|email| - 1]))
    ensures ok ==> '@' in email
  {
    if MatchesEmail(email) then
      ghost var at, dot :| EmailShapeAt(email, at, dot);
      true
    else if email != [] && email[|email| - 1] == '\n' && MatchesEmail(email[..|email| - 1]) then
      ghost var at, dot :| EmailShapeAt(email[..|email| - 1], at, dot);
      assert email[at] == '@';
      true
    else false
  }

  // ----- file-name sanitiser ----------------------------------------------------

  /** Characters the first substitution keeps: `[\w\s\-.]`. */
  predicate KeptChar(c: char) {
    IsWordChar(c) || IsSpace(c) || c == '-' || c == '.'
  }

  /** Characters a sanitised name is made of: word characters, `-` and `.`. */
  predicate SafeChar(c: char) {
    IsWordChar(c) || c == '-' || c == '.'
  }

  /** `re.sub(r"[^\w\s\-.]", "", s)`: drops every character outside `KeptChar`. */
  function RemoveDisallowed(s: string): (r: string)
    ensures |r| <= |s|
    ensures forall i :: 0 <= i < |r| ==> KeptChar(r[i]) && r[i] in s
  {
    if s == [] then []
    else (if KeptChar(s[0]) then [s[0]] else []) + RemoveDisallowed(s[1..])
  }

  /** The filter works character by character: it distributes over concatenation. */
  lemma {:induction false} RemoveDisallowedConcat(a: string, b: string)
    ensures RemoveDisallowed(a + b) == RemoveDisallowed(a) + RemoveDisallowed(b)
  {
    if a == [] {
      assert a + b == b;
    } else {
      var head := if KeptChar(a[0]) then [a[0]] else [];
      assert (a + b)[0] == a[0] && (a + b)[1..] == a[1..] + b;
      RemoveDisallowedConcat(a[1..], b);
      assert RemoveDisallowed(a + b) == head + RemoveDisallowed(a[1..] + b);
    }
  }

  /** A string of kept characters passes through unchanged. */
  lemma {:induction false} RemoveDisallowedKeepsKept(s: string)
    requires forall i :: 0 <= i < |s| ==> KeptChar(s[i])
    ensures RemoveDisallowed(s) == s
  {
    if s != [] {
      RemoveDisallowedKeepsKept(s[1..]);
    }
  }

  /** `re.sub(r"\s+", "_", s)`: every maximal run of whitespace becomes one `_`. */
  function CollapseSpaces(s: string): (r: string)
    ensures |r| <= |s| && NoSpace(r)
    decreases |s|
  {
    if s == [] then []
    else if IsSpace(s[0]) then "_" + CollapseSpaces(s[LeadingSpaces(s)..])
    else [s[0]] + CollapseSpaces(s[1..])
  }

  /** Replacing runs introduces no character but `_`. */
  lemma {:induction false} CollapseSpacesChars(s: string)
    ensures forall i :: 0 <= i < |CollapseSpaces(s)| ==> CollapseSpaces(s)[i] == '_' || CollapseSpaces(s)[i] in s
    decreases |s|
  {
    if s != [] {
      var rest := if IsSpace(s[0]) then s[LeadingSpaces(s)..] else s[1..];
      CollapseSpacesChars(rest);
      assert forall c :: c in rest ==> c in s;
    }
  }

  lemma LeadingSpacesUnique(s: string, n: nat)
    requires n <= |s| && AllSpace(s[..n]) && (n == |s| || !IsSpace(s[n]))
    ensures LeadingSpaces(s) == n
  {
    var m := LeadingSpaces(s);
    forall j | 0 <= j < n ensures IsSpace(s[j]) { assert s[..n][j] == s[j]; }
    forall j | 0 <= j < m ensures IsSpace(s[j]) { assert s[..m][j] == s[j]; }
  }

  /** Text without whitespace is left as it is. */
  lemma {:induction false} CollapseKeepsSpaceFree(w: string)
    requires NoSpace(w)
    ensures CollapseSpaces(w) == w
  {
    if w != [] {
      CollapseKeepsSpaceFree(w[1..]);
    }
  }

  /** A non-empty run of whitespace becomes exactly one `_`. */
  lemma CollapseRun(w: string)
    requires w != [] && AllSpace(w)
    ensures CollapseSpaces(w) == "_"
  {
    LeadingSpacesUnique(w, |w|);
    assert w[..|w|] == w;
  }

  /** A white-space prefix that stops before a non-space character of `a` is
      also the white-space prefix of `a + b`. */
  lemma LeadingSpacesPrefix(a: string, b: string)
    requires LeadingSpaces(a) < |a|
    ensures LeadingSpaces(a + b) == LeadingSpaces(a)
  {
    var n := LeadingSpaces(a);
    assert (a + b)[..n] == a[..n];
    LeadingSpacesUnique(a + b, n);
  }

  /** When `a` is all white space and `b` does not start with any, the
      white-space prefix of `a + b` is exactly `a`. */
  lemma LeadingSpacesWhole(a: string, b: string)
    requires AllSpace(a) && (b == [] || !IsSpace(b[0]))
    ensures LeadingSpaces(a + b) == |a|
  {
    assert (a + b)[..|a|] == a;
    LeadingSpacesUnique(a + b, |a|);
  }

  /** A whole run of white space in front of a non-space becomes one `_`. */
  lemma CollapseRunThen(a: string, b: string)
    requires a != [] && AllSpace(a) && (b == [] || !IsSpace(b[0]))
    ensures CollapseSpaces(a + b) == "_" + CollapseSpaces(b)
  {
    LeadingSpacesWhole(a, b);
    assert (a + b)[|a|..] == b;
  }

  /** Cutting between a non-space and anything else does not cut a run, so the
      collapse of the whole is the collapse of the parts. */
  lemma {:induction false} CollapseConcat(a: string, b: string)
    requires a == [] || b == [] || !IsSpace(a[|a| - 1]) || !IsSpace(b[0])
    ensures CollapseSpaces(a + b) == CollapseSpaces(a) + CollapseSpaces(b)
    decreases |a|, 1
  {
    if a == [] {
      assert a + b == b;
    } else if !IsSpace(a[0]) {
      assert (a + b)[1..] == a[1..] + b;
      CollapseConcat(a[1..], b);
    } else {
      CollapseConcatSpaceHead(a, b);
    }
  }

  /** A string that starts with white space collapses to `_` followed by the
      collapse of what comes after that run. */
  lemma CollapseSpaceStep(s: string)
    requires s != [] && IsSpace(s[0])
    ensures CollapseSpaces(s) == "_" + CollapseSpaces(s[LeadingSpaces(s)..])
  {
  }

  /** When `a` starts with a run of white space that ends inside `a`, the run
      collapses to the same `_` in `a` and in `a + b`. */
  lemma SpaceHeadStep(a: string, b: string)
    requires a != [] && IsSpace(a[0]) && LeadingSpaces(a) < |a|
    ensures CollapseSpaces(a + b) == "_" + CollapseSpaces(a[LeadingSpaces(a)..] + b)
    ensures CollapseSpaces(a) == "_" + CollapseSpaces(a[LeadingSpaces(a)..])
  {
    var n := LeadingSpaces(a);
    LeadingSpacesPrefix(a, b);
    assert (a + b)[n..] == a[n..] + b;
    assert (a + b)[0] == a[0];
    CollapseSpaceStep(a + b);
  }

  /** The case of `CollapseConcat` where `a` starts with white space. */
  lemma {:induction false} CollapseConcatSpaceHead(a: string, b: string)
    requires a != [] && IsSpace(a[0])
    requires b == [] || !IsSpace(a[|a| - 1]) || !IsSpace(b[0])
    ensures CollapseSpaces(a + b) == CollapseSpaces(a) + CollapseSpaces(b)
    decreases |a|, 0
  {
    var n := LeadingSpaces(a);
    if n < |a| {
      SpaceHeadStep(a, b);
      var c := a[n..];
      assert c[|c| - 1] == a[|a| - 1];
      CollapseConcat(c, b);
    } else {
      assert a[..n] == a;
      CollapseRunConcat(a, b);
    }
  }

  /** The case of `CollapseConcat` where `a` is one run of white space. */
  lemma CollapseRunConcat(a: string, b: string)
    requires a != [] && AllSpace(a) && (b == [] || !IsSpace(b[0]))
    ensures CollapseSpaces(a + b) == CollapseSpaces(a) + CollapseSpaces(b)
  {
    CollapseRunThen(a, b);
    CollapseRun(a);
  }

  /** `sanitize_filename`: the two substitutions in order. The result holds only
      word characters, `-` and `.`, and in particular no whitespace. */
  function SanitizeFilename(filename: string): (r: string)
    ensures |r| <= |filename|
    ensures forall i :: 0 <= i < |r| ==> SafeChar(r[i]) && !IsSpace(r[i])
  {
    var kept := RemoveDisallowed(filename);
    var r := CollapseSpaces(kept);
    assert forall i :: 0 <= i < |r| ==> SafeChar(r[i]) by {
      CollapseSpacesChars(kept);
      forall i | 0 <= i < |r| ensures SafeChar(r[i]) {
        if r[i] != '_' {
          var j :| 0 <= j < |kept| && kept[j] == r[i];
        }
      }
    }
    r
  }

  /** Sanitising a sanitised name changes nothing. */
  lemma SanitizeIdempotent(filename: string)
    ensures SanitizeFilename(SanitizeFilename(filename)) == SanitizeFilename(filename)
  {
    var r := SanitizeFilename(filename);
    RemoveDisallowedKeepsKept(r);
    CollapseKeepsSpaceFree(r);
  }

  /** Concrete cases: the two accepted file names exercised by the test suite. */
  lemma AcceptedExtensionExamples()
    ensures ValidateFileExtension("video.mp4") && ValidateFileExtension("video.webm")
  {
    var s := "video.mp4";
    assert IsLastDot(s, 5);
    assert Lower(s[6..]) == "mp4";
    var t := "video.webm";
    assert IsLastDot(t, 5);
    assert Lower(t[6..]) == "webm";
  }

  /** Concrete cases: a disallowed extension and a name with no dot at all. */
  lemma RejectedExtensionExamples()
    ensures !ValidateFileExtension("file.exe") && !ValidateFileExtension("noext")
  {
    var s := "file.exe";
    assert IsLastDot(s, 4);
    assert Lower(s[5..]) == "exe";
  }

  /** Concrete cases: one well-formed address and one without an '@'. */
  lemma EmailExamples()
    ensures ValidateEmail("user@example.com") && !ValidateEmail("not-an-email")
  {
    var s := "user@example.com";
    assert EmailShapeAt(s, 4, 12);
    var t := "not-an-email";
    assert '@' !in t;
  }
}
