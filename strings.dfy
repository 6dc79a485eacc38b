/**
 * The character and string operations the app takes from Swift's standard
 * library, restricted to ASCII: `Character.isNumber` is a decimal digit,
 * `lowercased()` folds A-Z, and the whitespace that `trimmingCharacters(in:
 * .whitespaces)` removes is space and tab.
 */
module Strings {

  /** `Character.isNumber` on ASCII. */
  predicate IsDigit(c: char) {
    '0' <= c <= '9'
  }

  predicate AllDigits(s: string) {
    forall i :: 0 <= i < |s| ==> IsDigit(s[i])
  }

  /** `s.contains(where: { $0.isNumber })` */
  predicate HasDigit(s: string) {
    exists i :: 0 <= i < |s| && IsDigit(s[i])
  }

  /** `s.filter { $0.isNumber }`: the digits of `s`, in their order. */
  function Digits(s: string): (d: string)
    ensures AllDigits(d) && |d| <= |s|
  {
    if s == [] then [] else (if IsDigit(s[0]) then [s[0]] else []) + Digits(s[1..])
  }

  lemma {:induction false} DigitsAppend(a: string, b: string)
    ensures Digits(a + b) == Digits(a) + Digits(b)
  {
    if a == [] {
      assert a + b == b;
    } else {
      assert (a + b)[1..] == a[1..] + b;
      DigitsAppend(a[1..], b);
    }
  }

  /** Filtering a string of digits keeps all of it. */
  lemma {:induction false} DigitsOfDigits(s: string)
    requires AllDigits(s)
    ensures Digits(s) == s
  {
    if s != [] {
      DigitsOfDigits(s[1..]);
    }
  }

  /** A string contains a digit exactly when its digit filter is non-empty. */
  lemma {:induction false} HasDigitIffDigits(s: string)
    ensures HasDigit(s) <==> Digits(s) != []
  {
    if s != [] {
      HasDigitIffDigits(s[1..]);
      if HasDigit(s[1..]) {
        var i :| 0 <= i < |s[1..]| && IsDigit(s[1..][i]);
        assert IsDigit(s[i + 1]);
      }
      if HasDigit(s) && !IsDigit(s[0]) {
        var i :| 0 <= i < |s| && IsDigit(s[i]);
        assert IsDigit(s[1..][i - 1]);
      }
    }
  }

  /** `Character.lowercased()` on ASCII. */
  function LowerChar(c: char): char {
    if 'A' <= c <= 'Z' then (c as int + 32) as char else c
  }

  /** `String.lowercased()` on ASCII. */
  function Lower(s: string): string {
    seq(|s|, i requires 0 <= i < |s| => LowerChar(s[i]))
  }

  /** `s.hasPrefix(p)` */
  predicate HasPrefix(s: string, p: string) {
    |p| <= |s| && s[..|p|] == p
  }

  predicate OccursAt(q: string, s: string, i: int) {
    0 <= i && i + |q| <= |s| && s[i..i + |q|] == q
  }

  /** `s.contains(q)` for a non-empty `q`: `q` occurs somewhere in `s`. */
  predicate IsSubstring(q: string, s: string) {
    exists i :: 0 <= i <= |s| - |q| && OccursAt(q, s, i)
  }

  /** `xs.joined(separator: sep)` */
  function Join(xs: seq<string>, sep: string): string {
    if |xs| == 0 then "" else if |xs| == 1 then xs[0] else xs[0] + sep + Join(xs[1..], sep)
  }

  /** The members of `CharacterSet.whitespaces` that are ASCII. */
  predicate IsSpace(c: char) {
    c == ' ' || c == '\t'
  }

  predicate AllSpace(s: string) {
    forall i :: 0 <= i < |s| ==> IsSpace(s[i])
  }

  /** The number of whitespace characters `s` starts with. */
  function LeadingSpaces(s: string): (n: nat)
    ensures n <= |s|
    ensures forall k :: 0 <= k < n ==> IsSpace(s[k])
    ensures n < |s| ==> !IsSpace(s[n])
  {
    if s != [] && IsSpace(s[0]) then 1 + LeadingSpaces(s[1..]) else 0
  }

  /** The number of whitespace characters `s` ends with. */
  function TrailingSpaces(s: string): (n: nat)
    ensures n <= |s|
    ensures forall k :: |s| - n <= k < |s| ==> IsSpace(s[k])
    ensures n < |s| ==> !IsSpace(s[|s| - 1 - n])
  {
    if s != [] && IsSpace(s[|s| - 1]) then 1 + TrailingSpaces(s[..|s| - 1]) else 0
  }

  /** Where the trimmed middle of `s` starts: after the whitespace it starts with. */
  function TrimStart(s: string): (i: nat)
    ensures i <= |s| && AllSpace(s[..i])
    ensures i < |s| ==> !IsSpace(s[i])
  {
    LeadingAllSpace(s);
    LeadingSpaces(s)
  }

  /** Where the trimmed middle of `s` stops: before the whitespace it ends with. */
  function TrimStop(s: string): (j: nat)
    ensures TrimStart(s) <= j <= |s| && AllSpace(s[j..])
    ensures TrimStart(s) < j ==> !IsSpace(s[j - 1])
  {
    var u := s[TrimStart(s)..];
    TrailingAllSpace(s, TrimStart(s));
    assert TrailingSpaces(u) < |u| ==> s[|s| - TrailingSpaces(u) - 1] == u[|u| - 1 - TrailingSpaces(u)];
    |s| - TrailingSpaces(u)
  }

  /**
   * `s.trimmingCharacters(in: .whitespaces)`: the middle of `s` left after
   * removing the whitespace at both ends.
   */
  function Trim(s: string): string
  {
    s[TrimStart(s)..TrimStop(s)]
  }

  /** A trimmed string neither starts nor ends with whitespace. */
  lemma TrimEnds(s: string)
    ensures |Trim(s)| > 0 ==> !IsSpace(Trim(s)[0]) && !IsSpace(Trim(s)[|Trim(s)| - 1])
  {
    var i, j := TrimStart(s), TrimStop(s);
    if i < j {
      assert Trim(s)[0] == s[i];
      assert Trim(s)[|Trim(s)| - 1] == s[j - 1];
    }
  }

  lemma LeadingAllSpace(s: string)
    ensures AllSpace(s[..LeadingSpaces(s)])
  {
    var i := LeadingSpaces(s);
    forall k | 0 <= k < i
      ensures IsSpace(s[..i][k])
    {
    }
  }

  lemma TrailingAllSpace(s: string, i: nat)
    requires i <= |s|
    ensures AllSpace(s[|s| - TrailingSpaces(s[i..])..])
  {
    var u := s[i..];
    var n := TrailingSpaces(u);
    var t := s[|s| - n..];
    forall k | 0 <= k < n
      ensures IsSpace(t[k])
    {
      assert t[k] == u[|u| - n + k];
    }
  }

  /** Trimming leaves nothing exactly when the string is all whitespace. */
  lemma TrimEmpty(s: string)
    ensures Trim(s) == [] <==> AllSpace(s)
  {
    var i, j := TrimStart(s), TrimStop(s);
    if i == j {
      assert s == s[..i] + s[j..];
    } else {
      assert !IsSpace(s[i]);
    }
  }
}
