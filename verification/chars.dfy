/** Character classes and string helpers standing for the Python built-ins the
    question extractor relies on: `str.isspace` (which is also what the `re`
    module's `\s` matches in a str pattern), `\d`, `str.strip`, `str.lower`
    and the slice `[:n]`. */
module Chars {

  /** `str.isspace()`: TAB..CR, the separators FS..US, SPACE, NEL, NO-BREAK SPACE
      and the Unicode space and line/paragraph separators. */
  predicate IsSpace(c: char) {
    || ('\t' <= c <= '\r')
    || ('\U{1C}' <= c <= '\U{1F}')
    || c == ' '
    || c == '\U{85}'
    || c == '\U{A0}'
    || c == '\U{1680}'
    || ('\U{2000}' <= c <= '\U{200A}')
    || c == '\U{2028}'
    || c == '\U{2029}'
    || c == '\U{202F}'
    || c == '\U{205F}'
    || c == '\U{3000}'
  }

  /** `\d`, restricted to the ASCII digits. */
  predicate IsDigit(c: char) {
    '0' <= c <= '9'
  }

  predicate AllSpace(s: string) {
    forall i :: 0 <= i < |s| ==> IsSpace(s[i])
  }

  /** Number of whitespace characters at the front of `s`. */
  function LeadingSpace(s: string): (n: nat)
    ensures n <= |s|
    ensures n < |s| ==> !IsSpace(s[n])
  {
    if |s| == 0 || !IsSpace(s[0]) then 0 else 1 + LeadingSpace(s[1..])
  }

  /** The leading run is all whitespace. */
  lemma {:induction false} LeadingSpaceAll(s: string)
    ensures AllSpace(s[..LeadingSpace(s)])
    decreases |s|
  {
    if |s| > 0 && IsSpace(s[0]) {
      var n := LeadingSpace(s);
      LeadingSpaceAll(s[1..]);
      assert s[..n] == [s[0]] + s[1..][..n - 1];
    }
  }

  /** Number of whitespace characters at the back of `s`. */
  function TrailingSpace(s: string): (n: nat)
    ensures n <= |s|
    ensures n < |s| ==> !IsSpace(s[|s| - n - 1])
  {
    if |s| == 0 || !IsSpace(s[|s| - 1]) then 0 else 1 + TrailingSpace(s[..|s| - 1])
  }

  /** The trailing run is all whitespace. */
  lemma {:induction false} TrailingSpaceAll(s: string)
    ensures AllSpace(s[|s| - TrailingSpace(s)..])
    decreases |s|
  {
    if |s| > 0 && IsSpace(s[|s| - 1]) {
      var n := TrailingSpace(s);
      var t := s[..|s| - 1];
      TrailingSpaceAll(t);
      assert s[|s| - n..] == t[|t| - (n - 1)..] + [s[|s| - 1]];
    }
  }

  /** `str.strip()`: `s` without its leading and trailing whitespace. */
  function Strip(s: string): (r: string)
    ensures |r| <= |s|
  {
    var k := LeadingSpace(s);
    var t := s[k..];
    t[..|t| - TrailingSpace(t)]
  }

  /** What stripping leaves: the infix of `s` that starts after the leading
      whitespace and is followed only by whitespace. */
  lemma StripInfix(s: string)
    ensures var r := Strip(s); var k := LeadingSpace(s);
            && k + |r| <= |s| && s[k..k + |r|] == r
            && AllSpace(s[..k]) && AllSpace(s[k + |r|..])
  {
    var k := LeadingSpace(s);
    var t := s[k..];
    var n := TrailingSpace(t);
    LeadingSpaceAll(s);
    TrailingSpaceAll(t);
    assert Strip(s) == t[..|t| - n] == s[k..k + (|t| - n)];
    assert s[k + (|t| - n)..] == t[|t| - n..];
  }

  /** Stripping gives the empty string exactly when `s` is all whitespace;
      otherwise the result starts and ends with a non-whitespace character. */
  lemma StripEnds(s: string)
    ensures Strip(s) == [] <==> AllSpace(s)
    ensures Strip(s) != [] ==> !IsSpace(Strip(s)[0]) && !IsSpace(Strip(s)[|Strip(s)| - 1])
  {
    var k := LeadingSpace(s);
    var t := s[k..];
    var n := TrailingSpace(t);
    LeadingSpaceAll(s);
    TrailingSpaceAll(t);
    if k < |s| {
      assert t[0] == s[k];
      assert !AllSpace(s);
    } else {
      assert s == s[..k];
    }
  }

  /** `s[:n]`: the first `n` characters of `s`, or all of `s` when it is shorter. */
  function Take(s: string, n: nat): (r: string)
    ensures |r| <= n
    ensures r <= s
    ensures |s| <= n ==> r == s
    ensures |s| > n ==> |r| == n
  {
    if |s| <= n then s else s[..n]
  }

  /** `str.lower()` on one character, for the ASCII letters. */
  function LowerChar(c: char): (r: char)
    ensures 'A' <= c <= 'Z' ==> 'a' <= r <= 'z' && r as int - c as int == 'a' as int - 'A' as int
    ensures !('A' <= c <= 'Z') ==> r == c
  {
    if 'A' <= c <= 'Z' then (c as int - 'A' as int + 'a' as int) as char else c
  }

  /** `str.lower()`: lowers every character and keeps the length. */
  function Lower(s: string): (r: string)
    ensures |r| == |s|
    ensures forall i :: 0 <= i < |s| ==> r[i] == LowerChar(s[i])
  {
    seq(|s|, i requires 0 <= i < |s| => LowerChar(s[i]))
  }

  /** Whitespace in front of `t` adds exactly its length to the leading run. */
  lemma {:induction false} LeadingSpaceSkip(a: string, t: string)
    requires AllSpace(a)
    ensures LeadingSpace(a + t) == |a| + LeadingSpace(t)
    decreases |a|
  {
    if a == [] {
      assert a + t == t;
    } else {
      assert (a + t)[0] == a[0];
      assert (a + t)[1..] == a[1..] + t;
      assert AllSpace(a[1..]) by {
        forall i | 0 <= i < |a[1..]| ensures IsSpace(a[1..][i]) {
          assert a[1..][i] == a[i + 1];
        }
      }
      LeadingSpaceSkip(a[1..], t);
    }
  }

  /** Whitespace behind `t` adds exactly its length to the trailing run. */
  lemma {:induction false} TrailingSpaceSkip(t: string, b: string)
    requires AllSpace(b)
    ensures TrailingSpace(t + b) == |b| + TrailingSpace(t)
    decreases |b|
  {
    if b == [] {
      assert t + b == t;
    } else {
      var s := t + b;
      var b' := b[..|b| - 1];
      assert s[|s| - 1] == b[|b| - 1];
      assert s[..|s| - 1] == t + b';
      assert AllSpace(b') by {
        forall i | 0 <= i < |b'| ensures IsSpace(b'[i]) {
          assert b'[i] == b[i];
        }
      }
      TrailingSpaceSkip(t, b');
    }
  }

  /** Stripping is determined by its two properties: whatever sits between a
      whitespace prefix and a whitespace suffix, and neither starts nor ends with
      whitespace, is the stripped text. */
  lemma {:induction false} StripUnique(a: string, m: string, b: string)
    requires AllSpace(a) && AllSpace(b)
    requires m != [] ==> !IsSpace(m[0]) && !IsSpace(m[|m| - 1])
    ensures Strip(a + m + b) == m
  {
    var s := a + m + b;
    assert s == a + (m + b);
    LeadingSpaceSkip(a, m + b);
    if m == [] {
      assert m + b == b + [];
      LeadingSpaceSkip(b, []);
      assert s[|s|..] == [];
    } else {
      assert (m + b)[0] == m[0];
      assert s[|a|..] == m + b;
      TrailingSpaceSkip(m, b);
      assert (m + b)[..|m|] == m;
    }
  }
}
