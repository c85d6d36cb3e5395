/** The few Python `str` operations the classifier relies on: `in` (substring
    test), `split`, `strip`, `lower` and `isspace`, stated on `seq<char>`. */
module PyText {

  // ---------------------------------------------------------------------------
  // Characters
  // ---------------------------------------------------------------------------

  /** Python's `str.isspace()` on one character: the characters that
      `str.strip()` with no argument removes. */
  predicate IsSpace(c: char) {
    var n := c as int;
    n == 0x20 || 0x09 <= n <= 0x0D || 0x1C <= n <= 0x1F || n == 0x85 || n == 0xA0
    || n == 0x1680 || 0x2000 <= n <= 0x200A || n == 0x2028 || n == 0x2029
    || n == 0x202F || n == 0x205F || n == 0x3000
  }

  predicate AllSpace(s: string) {
    forall i :: 0 <= i < |s| ==> IsSpace(s[i])
  }

  /** Python's `str.lower()` on one character, for the ASCII and Latin-1
      upper-case letters (A-Z and À-Þ except ×); every other character is
      left as it is. */
  function LowerChar(c: char): char {
    var n := c as int;
    if 0x41 <= n <= 0x5A || (0xC0 <= n <= 0xDE && n != 0xD7) then (n + 0x20) as char else c
  }

  predicate IsUpper(c: char) {
    LowerChar(c) != c
  }

  predicate IsAscii(s: string) {
    forall i :: 0 <= i < |s| ==> s[i] as int < 0x80
  }

  // ---------------------------------------------------------------------------
  // lower()
  // ---------------------------------------------------------------------------

  /** No upper-case letter. */
  predicate IsLowerCase(s: string) {
    forall i :: 0 <= i < |s| ==> !IsUpper(s[i])
  }

  /** Python's `s.lower()`. */
  function Lower(s: string): (r: string)
    ensures |r| == |s|
    ensures IsLowerCase(r)
    ensures forall i :: 0 <= i < |s| && !IsUpper(s[i]) ==> r[i] == s[i]
    ensures forall i :: 0 <= i < |s| ==> (IsSpace(r[i]) <==> IsSpace(s[i]))
  {
    seq(|s|, i requires 0 <= i < |s| => LowerChar(s[i]))
  }

  /** A lower-case string is its own lower-casing; in particular lower-casing
      twice is lower-casing once. */
  lemma LowerFixesLowerCase(s: string)
    requires IsLowerCase(s)
    ensures Lower(s) == s
  {
  }

  // ---------------------------------------------------------------------------
  // strip()
  // ---------------------------------------------------------------------------

  /** No whitespace at either end. */
  predicate Trimmed(s: string) {
    s == [] || (!IsSpace(s[0]) && !IsSpace(s[|s| - 1]))
  }

  /** `r` is `s` with the whitespace run `s[..i]` before it and the
      whitespace run after it removed. */
  predicate PaddedAt(s: string, r: string, i: int) {
    0 <= i && i + |r| <= |s| && s[i..i + |r|] == r && AllSpace(s[..i]) && AllSpace(s[i + |r|..])
  }

  /** Python's `s.lstrip()`. */
  function LStrip(s: string): string {
    if s != [] && IsSpace(s[0]) then LStrip(s[1..]) else s
  }

  /** Python's `s.rstrip()`. */
  function RStrip(s: string): string {
    if s != [] && IsSpace(s[|s| - 1]) then RStrip(s[..|s| - 1]) else s
  }

  /** `lstrip` removes a whitespace prefix and stops at the first other
      character. */
  lemma {:induction false} LStripRemovesPrefix(s: string)
    ensures |LStrip(s)| <= |s| && LStrip(s) == s[|s| - |LStrip(s)|..]
    ensures AllSpace(s[..|s| - |LStrip(s)|])
    ensures LStrip(s) == [] || !IsSpace(LStrip(s)[0])
  {
    if s != [] && IsSpace(s[0]) {
      LStripRemovesPrefix(s[1..]);
      var k := |s| - |LStrip(s)|;
      assert s[..k] == [s[0]] + s[1..][..k - 1];
    }
  }

  /** `rstrip` removes a whitespace suffix and stops at the last other
      character. */
  lemma {:induction false} RStripRemovesSuffix(s: string)
    ensures |RStrip(s)| <= |s| && RStrip(s) == s[..|RStrip(s)|]
    ensures AllSpace(s[|RStrip(s)|..])
    ensures RStrip(s) == [] || !IsSpace(RStrip(s)[|RStrip(s)| - 1])
  {
    if s != [] && IsSpace(s[|s| - 1]) {
      RStripRemovesSuffix(s[..|s| - 1]);
      var k := |RStrip(s)|;
      assert s[k..] == s[..|s| - 1][k..] + [s[|s| - 1]];
    }
  }

  /** Python's `s.strip()`: the result has no whitespace at either end, and is
      empty exactly when `s` is all whitespace. */
  function Strip(s: string): (r: string)
    ensures Trimmed(r)
    ensures r == [] <==> AllSpace(s)
  {
    LStripRemovesPrefix(s);
    RStripRemovesSuffix(LStrip(s));
    StripEmptyIff(s);
    RStrip(LStrip(s))
  }

  lemma StripEmptyIff(s: string)
    ensures RStrip(LStrip(s)) == [] <==> AllSpace(s)
  {
    LStripRemovesPrefix(s);
    var l := LStrip(s);
    RStripRemovesSuffix(l);
    var k := |s| - |l|;
    if RStrip(l) == [] {
      assert AllSpace(l);
      assert k == |s|;
      assert s[..k] == s;
    }
    if l != [] {
      assert l[0] == s[k];
    }
  }

  /** What `strip` keeps is an infix of `s` surrounded only by whitespace. */
  lemma StripIsPadded(s: string)
    ensures exists i :: PaddedAt(s, Strip(s), i)
  {
    LStripRemovesPrefix(s);
    var l := LStrip(s);
    RStripRemovesSuffix(l);
    var r := RStrip(l);
    var k := |s| - |l|;
    assert Strip(s) == r;
    assert s[k..k + |r|] == r;
    assert s[k + |r|..] == l[|r|..];
    assert PaddedAt(s, r, k);
  }

  /** `Strip` recovers the text between two whitespace runs, provided the text
      itself is non-empty and trimmed: the converse of its postcondition. */
  lemma StripPadded(p: string, m: string, q: string)
    requires AllSpace(p) && AllSpace(q) && m != [] && Trimmed(m)
    ensures Strip(p + m + q) == m
  {
    assert p + m + q == p + (m + q);
    LStripPadded(p, m + q);
    RStripPadded(m, q);
  }

  lemma {:induction false} LStripPadded(p: string, t: string)
    requires AllSpace(p) && t != [] && !IsSpace(t[0])
    ensures LStrip(p + t) == t
  {
    if p != [] {
      assert (p + t)[1..] == p[1..] + t;
      LStripPadded(p[1..], t);
    }
  }

  lemma {:induction false} RStripPadded(t: string, q: string)
    requires AllSpace(q) && t != [] && !IsSpace(t[|t| - 1])
    ensures RStrip(t + q) == t
  {
    if q != [] {
      assert (t + q)[..|t + q| - 1] == t + q[..|q| - 1];
      RStripPadded(t, q[..|q| - 1]);
    } else {
      assert t + q == t;
    }
  }

  // ---------------------------------------------------------------------------
  // split() and join()
  // ---------------------------------------------------------------------------

  /** Python's `sep.join(fs)` for a one-character separator. */
  function Join(fs: seq<string>, sep: char): string {
    if |fs| == 0 then "" else if |fs| == 1 then fs[0] else fs[0] + [sep] + Join(fs[1..], sep)
  }

  /** Python's `s.split(sep)` for a one-character separator: every fragment
      between separators is kept, empty ones included, so the result is never
      empty (`"".split(";") == [""]`). */
  function Split(s: string, sep: char): (r: seq<string>)
    ensures |r| >= 1
    ensures forall f :: f in r ==> sep !in f
    ensures Join(r, sep) == s
  {
    if s == [] then [""]
    else
      var rest := Split(s[1..], sep);
      if s[0] == sep then
        [""] + rest
      else
        assert Join(rest, sep) == rest[0] + (if |rest| == 1 then "" else [sep] + Join(rest[1..], sep));
        [[s[0]] + rest[0]] + rest[1..]
  }

  /** A string without the separator splits into itself. */
  lemma {:induction false} SplitWithoutSeparator(s: string, sep: char)
    requires sep !in s
    ensures Split(s, sep) == [s]
  {
    if s != [] {
      SplitWithoutSeparator(s[1..], sep);
    }
  }

  /** Splitting distributes over a separator: the fragments of `a` are followed
      by those of `b`. */
  lemma {:induction false} SplitAtSeparator(a: string, b: string, sep: char)
    ensures Split(a + [sep] + b, sep) == Split(a, sep) + Split(b, sep)
  {
    if a == [] {
      assert (a + [sep] + b)[1..] == b;
    } else {
      assert (a + [sep] + b)[1..] == a[1..] + [sep] + b;
      SplitAtSeparator(a[1..], b, sep);
    }
  }

  /** `Split` inverts `Join`: a non-empty list of separator-free fragments is
      recovered from its joined form. */
  lemma {:induction false} SplitJoin(fs: seq<string>, sep: char)
    requires |fs| >= 1
    requires forall f :: f in fs ==> sep !in f
    ensures Split(Join(fs, sep), sep) == fs
  {
    if |fs| == 1 {
      SplitWithoutSeparator(fs[0], sep);
    } else {
      SplitJoin(fs[1..], sep);
      SplitAtSeparator(fs[0], Join(fs[1..], sep), sep);
      SplitWithoutSeparator(fs[0], sep);
      assert fs == [fs[0]] + fs[1..];
    }
  }

  // ---------------------------------------------------------------------------
  // The `in` operator on strings
  // ---------------------------------------------------------------------------

  /** `p` starts at index `i` of `s`. */
  predicate OccursAt(p: string, s: string, i: int) {
    0 <= i && i + |p| <= |s| && s[i..i + |p|] == p
  }

  /** Python's `p in s` for two strings. */
  predicate IsSubstring(p: string, s: string) {
    exists i :: 0 <= i <= |s| - |p| && OccursAt(p, s, i)
  }

  /** Every character of a substring occurs in the text. */
  lemma SubstringCharsOccur(p: string, s: string, k: int)
    requires IsSubstring(p, s)
    requires 0 <= k < |p|
    ensures p[k] in s
  {
    var i :| 0 <= i <= |s| - |p| && OccursAt(p, s, i);
    assert s[i..i + |p|][k] == s[i + k];
  }

  /** A string with a character the text lacks is not a substring of it. */
  lemma NotSubstringByChar(p: string, s: string, k: int)
    requires 0 <= k < |p| && p[k] !in s
    ensures !IsSubstring(p, s)
  {
    if IsSubstring(p, s) {
      SubstringCharsOccur(p, s, k);
    }
  }

  /** A string with a non-ASCII character is never a substring of an ASCII
      text. */
  lemma NonAsciiNotInAscii(p: string, s: string)
    requires IsAscii(s) && !IsAscii(p)
    ensures !IsSubstring(p, s)
  {
    var k :| 0 <= k < |p| && p[k] as int >= 0x80;
    if IsSubstring(p, s) {
      SubstringCharsOccur(p, s, k);
    }
  }
}
