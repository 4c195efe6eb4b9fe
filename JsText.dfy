/** The parts of JavaScript's string semantics the application relies on:
    the white-space class shared by `String.prototype.trim` and the regular
    expression escape `\s`, the regular expression word class `\w`, and
    `trim` itself. A Dafny `char` is a Unicode scalar value, whereas JavaScript
    strings are sequences of UTF-16 code units; no character outside the
    Basic Multilingual Plane is white space or a word character, so the
    predicates below decide the same for either reading. */
module JsText {

  /** The characters `trim` removes and `\s` matches: WhiteSpace (tab, vertical
      tab, form feed, space, no-break space, byte order mark and the other
      Unicode space separators) and LineTerminator (line feed, carriage
      return, line separator, paragraph separator). */
  predicate IsSpace(c: char) {
    || c == '\t' || c == '\n' || c == '\U{000B}' || c == '\U{000C}' || c == '\r'
    || c == ' ' || c == '\U{00A0}' || c == '\U{1680}'
    || ('\U{2000}' <= c <= '\U{200A}')
    || c == '\U{2028}' || c == '\U{2029}' || c == '\U{202F}' || c == '\U{205F}'
    || c == '\U{3000}' || c == '\U{FEFF}'
  }

  /** `\w` without the unicode flag: ASCII letters, digits and underscore. */
  predicate IsWordChar(c: char) {
    ('a' <= c <= 'z') || ('A' <= c <= 'Z') || ('0' <= c <= '9') || c == '_'
  }

  predicate AllSpace(s: string) {
    forall i :: 0 <= i < |s| ==> IsSpace(s[i])
  }

  /** A string with no white space at either end. */
  predicate IsTrimmed(s: string) {
    s == [] || (!IsSpace(s[0]) && !IsSpace(s[|s| - 1]))
  }

  /** Length of the longest all-white-space prefix of `s`. */
  function LeadingSpaces(s: string): (n: nat)
    ensures n <= |s| && AllSpace(s[..n])
    ensures n < |s| ==> !IsSpace(s[n])
  {
    if s == [] || !IsSpace(s[0]) then 0
    else
      var m := LeadingSpaces(s[1..]);
      assert s[..m + 1] == [s[0]] + s[1..][..m];
      1 + m
  }

  /** Length of the longest all-white-space suffix of `s`. */
  function TrailingSpaces(s: string): (n: nat)
    ensures n <= |s| && AllSpace(s[|s| - n..])
    ensures n < |s| ==> !IsSpace(s[|s| - n - 1])
  {
    if s == [] || !IsSpace(s[|s| - 1]) then 0
    else
      var init := s[..|s| - 1];
      var m := TrailingSpaces(init);
      assert s[|s| - (m + 1)..] == init[|init| - m..] + [s[|s| - 1]];
      1 + m
  }

  /** Length of the longest prefix of `s` matched by `\w*`. */
  function LeadingWordChars(s: string): (n: nat)
    ensures n <= |s|
    ensures forall i :: 0 <= i < n ==> IsWordChar(s[i])
    ensures n < |s| ==> !IsWordChar(s[n])
  {
    if s == [] || !IsWordChar(s[0]) then 0
    else
      var m := LeadingWordChars(s[1..]);
      assert forall i :: 1 <= i < m + 1 ==> s[i] == s[1..][i - 1];
      1 + m
  }

  function TrimStart(s: string): (r: string)
    ensures |r| <= |s| && r == s[|s| - |r|..]
    ensures AllSpace(s[..|s| - |r|])
    ensures r == [] || !IsSpace(r[0])
  {
    s[LeadingSpaces(s)..]
  }

  function TrimEnd(s: string): (r: string)
    ensures |r| <= |s| && r == s[..|r|]
    ensures AllSpace(s[|r|..])
    ensures r == [] || !IsSpace(r[|r| - 1])
  {
    s[..|s| - TrailingSpaces(s)]
  }

  /** `String.prototype.trim`: `s` is white space, then the result, then white
      space, and the result has no white space at either end. */
  function Trim(s: string): (r: string)
    ensures IsTrimmed(r)
    ensures LeadingSpaces(s) + |r| <= |s|
    ensures r == s[LeadingSpaces(s)..LeadingSpaces(s) + |r|]
    ensures AllSpace(s[..LeadingSpaces(s)]) && AllSpace(s[LeadingSpaces(s) + |r|..])
  {
    var n := LeadingSpaces(s);
    var t := TrimStart(s);
    assert t == s[n..];
    var r := TrimEnd(t);
    assert r != [] ==> r[0] == t[0];
    assert r == s[n..n + |r|];
    assert s[n + |r|..] == t[|r|..];
    r
  }

  lemma {:induction false} LeadingSpacesOfPadded(p: string, m: string)
    requires AllSpace(p)
    requires m == [] || !IsSpace(m[0])
    ensures LeadingSpaces(p + m) == |p|
  {
    if p != [] {
      assert (p + m)[1..] == p[1..] + m;
      LeadingSpacesOfPadded(p[1..], m);
    } else {
      assert p + m == m;
    }
  }

  lemma {:induction false} TrailingSpacesOfPadded(m: string, q: string)
    requires AllSpace(q)
    requires m == [] || !IsSpace(m[|m| - 1])
    ensures TrailingSpaces(m + q) == |q|
  {
    if q != [] {
      assert (m + q)[..|m + q| - 1] == m + q[..|q| - 1];
      TrailingSpacesOfPadded(m, q[..|q| - 1]);
    } else {
      assert m + q == m;
    }
  }

  /** `trim` removes exactly the white space around a trimmed core: it is the
      inverse of padding with white space. */
  lemma TrimPadded(p: string, m: string, q: string)
    requires AllSpace(p) && AllSpace(q) && IsTrimmed(m)
    ensures Trim(p + m + q) == m
  {
    if m == [] {
      assert p + m + q == p + q;
      TrimBlank(p + q);
    } else {
      assert p + m + q == p + (m + q);
      LeadingSpacesOfPadded(p, m + q);
      assert TrimStart(p + m + q) == m + q;
      TrailingSpacesOfPadded(m, q);
    }
  }

  /** A trimmed string is left unchanged by `trim`. */
  lemma TrimOfTrimmed(s: string)
    requires IsTrimmed(s)
    ensures Trim(s) == s
  {
    assert [] + s + [] == s;
    TrimPadded([], s, []);
  }

  /** `trim` is idempotent. */
  lemma TrimIdempotent(s: string)
    ensures Trim(Trim(s)) == Trim(s)
  {
    TrimOfTrimmed(Trim(s));
  }

  /** `trim` yields the empty string exactly for all-white-space input,
      which is what `!s.trim()` tests. */
  lemma TrimBlank(s: string)
    ensures Trim(s) == [] <==> AllSpace(s)
  {
    if AllSpace(s) && s != [] {
      assert LeadingSpaces(s) == |s|;
    }
  }
}
