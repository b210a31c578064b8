/** The string functions of Go's library that names and identifiers go through. */
module Text {
  import opened Outcomes

  function TrimLeft(s: string, c: char): string {
    if s != [] && s[0] == c then TrimLeft(s[1..], c) else s
  }

  function TrimRight(s: string, c: char): string {
    if s != [] && s[|s| - 1] == c then TrimRight(s[..|s| - 1], c) else s
  }

  function Trim(s: string, c: char): string { TrimRight(TrimLeft(s, c), c) }

  predicate Outer(s: string, c: char) {
    s != [] && (s[0] == c || s[|s| - 1] == c)
  }

  predicate Only(s: string, c: char) {
    forall i :: 0 <= i < |s| ==> s[i] == c
  }

  /** Trimming takes off nothing but the character, and leaves none of it at either end. */
  lemma TrimExact(s: string, c: char) returns (left: string, right: string)
    ensures s == left + Trim(s, c) + right && Only(left, c) && Only(right, c) && !Outer(Trim(s, c), c)
  {
    left := TrimLeftExact(s, c);
    right := TrimRightExact(TrimLeft(s, c), c);
  }

  lemma {:induction false} TrimLeftExact(s: string, c: char) returns (left: string)
    ensures s == left + TrimLeft(s, c) && Only(left, c)
    ensures TrimLeft(s, c) != [] ==> TrimLeft(s, c)[0] != c
  {
    if s != [] && s[0] == c {
      var rest := TrimLeftExact(s[1..], c);
      left := [c] + rest;
    } else {
      left := [];
    }
  }

  lemma {:induction false} TrimRightExact(s: string, c: char) returns (right: string)
    ensures s == TrimRight(s, c) + right && Only(right, c)
    ensures TrimRight(s, c) != [] ==> TrimRight(s, c)[|TrimRight(s, c)| - 1] != c
  {
    if s != [] && s[|s| - 1] == c {
      var rest := TrimRightExact(s[..|s| - 1], c);
      right := rest + [c];
    } else {
      right := [];
    }
  }

  /** There is only one way to take a run of a character off both ends of a text that keeps something. */
  lemma {:induction false} TrimsTo(left: string, core: string, right: string, c: char)
    requires Only(left, c) && Only(right, c) && core != [] && !Outer(core, c)
    ensures Trim(left + core + right, c) == core
    decreases |left| + |right|
  {
    var s := left + core + right;
    if left != [] {
      assert s[1..] == left[1..] + core + right;
      TrimsTo(left[1..], core, right, c);
    } else if right != [] {
      assert s[..|s| - 1] == left + core + right[..|right| - 1];
      TrimsTo(left, core, right[..|right| - 1], c);
    } else {
      assert s == core;
    }
  }

  /** The pieces between the separators; a text without any is its own only piece. */
  function Split(s: string, c: char): (r: seq<string>)
    ensures r != []
  {
    if s == [] then [[]]
    else
      var rest := Split(s[1..], c);
      if s[0] == c then [[]] + rest else [[s[0]] + rest[0]] + rest[1..]
  }

  /** Splitting a text at its first separator. */
  lemma {:induction false} SplitAt(before: string, c: char, after: string)
    requires c !in before
    ensures Split(before, c) == [before]
    ensures Split(before + [c] + after, c) == [before] + Split(after, c)
  {
    var s := before + [c] + after;
    if before == [] {
      assert s[1..] == after;
    } else {
      assert s[1..] == before[1..] + [c] + after;
      SplitAt(before[1..], c, after);
      assert [before[0]] + before[1..] == before;
    }
  }

  function Join(parts: seq<string>, c: char): string {
    if parts == [] then [] else if |parts| == 1 then parts[0] else parts[0] + [c] + Join(parts[1..], c)
  }

  /** Splitting loses nothing, and no piece holds the separator. */
  lemma {:induction false} JoinUndoesSplit(s: string, c: char)
    ensures Join(Split(s, c), c) == s
    ensures forall i :: 0 <= i < |Split(s, c)| ==> c !in Split(s, c)[i]
  {
    if s != [] {
      JoinUndoesSplit(s[1..], c);
      var rest, all := Split(s[1..], c), Split(s, c);
      assert s == [s[0]] + s[1..];
      if s[0] == c {
        assert all[1..] == rest;
      } else if |rest| == 1 {
        assert all == [[s[0]] + rest[0]];
      } else {
        assert all[1..] == rest[1..];
        assert Join(all, c) == [s[0]] + rest[0] + [c] + Join(rest[1..], c);
      }
    }
  }

  // --- Numbers --------------------------------------------------------------------------------

  predicate IsDigit(c: char) { '0' <= c <= '9' }

  predicate IsNumeral(s: string) { forall i :: 0 <= i < |s| ==> IsDigit(s[i]) }

  function Digits(n: nat): (r: string)
    ensures r != [] && IsNumeral(r)
  {
    if n < 10 then ['0' + n as char] else Digits(n / 10) + ['0' + (n % 10) as char]
  }

  function Value(s: string): nat
    requires IsNumeral(s)
  {
    if s == [] then 0 else 10 * Value(s[..|s| - 1]) + (s[|s| - 1] as int - '0' as int)
  }

  lemma {:induction false} ValueOfDigits(n: nat)
    ensures Value(Digits(n)) == n
  {
    if n >= 10 {
      ValueOfDigits(n / 10);
      assert Digits(n)[..|Digits(n)| - 1] == Digits(n / 10);
    }
  }

  function Power10(k: nat): nat { if k == 0 then 1 else 10 * Power10(k - 1) }

  /** A number has at most `k` digits exactly when it is below the `k`-th power of ten. */
  lemma {:induction false} DigitsLength(n: nat, k: nat)
    requires k > 0
    ensures |Digits(n)| <= k <==> n < Power10(k)
  {
    if n >= 10 && k > 1 {
      DigitsLength(n / 10, k - 1);
    } else if n >= 10 {
      assert Power10(1) == 10 * Power10(0);
    } else {
      AtLeastTen(k);
    }
  }

  lemma {:induction false} AtLeastTen(k: nat)
    requires k > 0
    ensures Power10(k) >= 10
  {
    if k > 1 {
      AtLeastTen(k - 1);
    } else {
      assert Power10(1) == 10 * Power10(0);
    }
  }

  const MAX_INT64: int := 0x7fff_ffff_ffff_ffff

  /** `%d` */
  function Decimal(n: int): string {
    if n >= 0 then Digits(n) else "-" + Digits(-n)
  }

  /** Base ten and 64 bits: an optional sign, at least one digit, and no overflow. */
  function ParseInt64(s: string): Option<int> {
    var signed := s != [] && (s[0] == '-' || s[0] == '+');
    var digits := if signed then s[1..] else s;
    if digits == [] || !IsNumeral(digits) then None
    else
      var n := Value(digits) * (if signed && s[0] == '-' then -1 else 1);
      if -MAX_INT64 - 1 <= n <= MAX_INT64 then Some(n) else None
  }

  lemma ParsesBack(n: int)
    ensures ParseInt64(Decimal(n)) == if -MAX_INT64 - 1 <= n <= MAX_INT64 then Some(n) else None
  {
    if n >= 0 {
      ValueOfDigits(n);
      assert IsDigit(Digits(n)[0]);
    } else {
      ValueOfDigits(-n);
      assert Decimal(n)[1..] == Digits(-n);
    }
  }
}
