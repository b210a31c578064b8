/** Filters on the bytes of a text, each a `char` below 256. */
module Ascii {

  /** The characters that satisfy a test, in order. */
  function Kept(s: string, p: char -> bool): string {
    if s == [] then [] else Kept(s[..|s| - 1], p) + (if p(s[|s| - 1]) then [s[|s| - 1]] else [])
  }

  predicate IsAscii(c: char) { c as int <= 127 }

  predicate IsLower(c: char) { 'a' <= c <= 'z' }

  predicate IsUpper(c: char) { 'A' <= c <= 'Z' }

  /** The letters below 256. */
  predicate IsLetter(c: char) {
    var n := c as int;
    IsLower(c) || IsUpper(c) || n == 0xAA || n == 0xB5 || n == 0xBA || (0xC0 <= n <= 0xFF && n != 0xD7 && n != 0xF7)
  }

  /** The numbers below 256: digits, superscripts and fractions. */
  predicate IsNumber(c: char) {
    var n := c as int;
    '0' <= c <= '9' || n == 0xB2 || n == 0xB3 || n == 0xB9 || 0xBC <= n <= 0xBE
  }

  predicate IsWordOrDash(c: char) { IsLetter(c) || IsNumber(c) || c == '-' }

  method IsASCII(s: string) returns (all: bool)
    ensures all <==> forall i :: 0 <= i < |s| ==> IsAscii(s[i])
  {
    for i := 0 to |s|
      invariant forall j :: 0 <= j < i ==> IsAscii(s[j])
    {
      if s[i] as int > 127 {
        return false;
      }
    }
    return true;
  }

  method RemoveNonASCII(s: string) returns (b: string)
    ensures b == Kept(s, IsAscii)
  {
    b := [];
    for i := 0 to |s|
      invariant b == Kept(s[..i], IsAscii)
    {
      assert s[..i + 1][..i] == s[..i];
      if s[i] as int <= 127 {
        b := b + [s[i]];
      }
    }
    assert s[..|s|] == s;
  }

  method RemoveNonAlphaNumeric(s: string) returns (b: string)
    ensures b == Kept(s, IsWordOrDash)
  {
    b := [];
    for i := 0 to |s|
      invariant b == Kept(s[..i], IsWordOrDash)
    {
      assert s[..i + 1][..i] == s[..i];
      if IsLetter(s[i]) || IsNumber(s[i]) || s[i] == '-' {
        b := b + [s[i]];
      }
    }
    assert s[..|s|] == s;
  }

  /** What is kept is all of what passes the test, as often as before, and nothing else. */
  lemma {:induction false} KeptExact(s: string, p: char -> bool, c: char)
    ensures multiset(Kept(s, p))[c] == if p(c) then multiset(s)[c] else 0
    ensures c in Kept(s, p) <==> c in s && p(c)
    ensures (forall i :: 0 <= i < |s| ==> p(s[i])) ==> Kept(s, p) == s
  {
    if s != [] {
      KeptExact(s[..|s| - 1], p, c);
      assert s == s[..|s| - 1] + [s[|s| - 1]];
    }
  }

  /** Two filters can change places. */
  lemma {:induction false} FiltersCommute(s: string, p: char -> bool, q: char -> bool)
    ensures Kept(Kept(s, p), q) == Kept(Kept(s, q), p)
  {
    if s != [] {
      var init, last := s[..|s| - 1], s[|s| - 1];
      FiltersCommute(init, p, q);
      KeptMore(Kept(init, p), last, q);
      KeptMore(Kept(init, q), last, p);
      assert !p(last) ==> Kept(s, p) == Kept(init, p);
      assert !q(last) ==> Kept(s, q) == Kept(init, q);
    }
  }

  lemma KeptMore(s: string, c: char, p: char -> bool)
    ensures Kept(s + [c], p) == Kept(s, p) + (if p(c) then [c] else [])
  {
    assert (s + [c])[..|s|] == s;
  }
}
