/** Repository object identifiers: a number, the kind of object and the repository. */
module RoIDs {
  import opened Outcomes
  import opened Text

  const REPOSITORY := "APEX"

  /** The code in the identifier of each kind of object. */
  function Code(kind: string): Option<string> {
    if kind == "contact" then Some("CONT")
    else if kind == "host" then Some("HOST")
    else if kind == "domain" then Some("DOM")
    else None
  }

  function NewRoid(id: int, kind: string): Option<string> {
    match Code(kind)
    case None => None
    case Some(code) => Some(Written(Decimal(id), code))
  }

  function Written(number: string, code: string): string { number + "_" + code + "-" + REPOSITORY }

  predicate IsWord(s: string) {
    forall i :: 0 <= i < |s| ==> IsDigit(s[i]) || 'a' <= s[i] <= 'z' || 'A' <= s[i] <= 'Z' || s[i] == '_'
  }

  /** `^(\w|_){1,80}-\w{1,8}$`, with an underscore somewhere. */
  predicate IsValid(r: string) {
    && (exists i | 0 <= i < |r| :: r[i] == '-' && 1 <= i <= 80 && 1 <= |r| - i - 1 <= 8 && IsWord(r[..i]) && IsWord(r[i + 1..]))
    && '_' in r
  }

  function Int64(r: string): Option<int> { ParseInt64(Split(r, '_')[0]) }

  /** `None` where the program indexes out of range. */
  function ObjectIdentifier(r: string): Option<string> {
    var parts := Split(r, '_');
    if |parts| < 2 then None else Some(Split(parts[1], '-')[0])
  }

  function SystemIdentifier(r: string): Option<string> {
    var parts := Split(r, '-');
    if |parts| < 2 then None else Some(parts[1])
  }

  /**
   * For every 64-bit number the parts come back, except that a negative one makes an invalid
   * identifier with another repository.
   */
  lemma PartsComeBack(id: int, kind: string)
    requires -MAX_INT64 - 1 <= id <= MAX_INT64 && Code(kind).Some?
    ensures NewRoid(id, kind).Some?
    ensures var r := NewRoid(id, kind).value;
            && Int64(r) == Some(id)
            && ObjectIdentifier(r) == Code(kind)
            && (IsValid(r) <==> id >= 0)
            && (SystemIdentifier(r) == Some(REPOSITORY) <==> id >= 0)
  {
    CodeIsWord(kind);
    ParsesBack(id);
    hide ParseInt64, Split, Digits, IsValid, Code, IsWord, Int64, ObjectIdentifier, SystemIdentifier;
    var code := Code(kind).value;
    NumberAndObject(Decimal(id), code, Written(Decimal(id), code));
    if id >= 0 {
      PositiveIsValid(id, code, Written(Digits(id), code));
    } else {
      NegativeIsInvalid(Digits(-id), code, Written("-" + Digits(-id), code));
    }
  }

  lemma NumberAndObject(number: string, code: string, r: string)
    requires '_' !in number && '_' !in code && '-' !in code && r == Written(number, code)
    ensures Int64(r) == ParseInt64(number) && ObjectIdentifier(r) == Some(code)
  {
    hide ParseInt64, Split;
    var tail := code + ['-'] + REPOSITORY;
    assert r == number + ['_'] + tail;
    SplitAt(number, '_', tail);
    assert '_' !in tail;
    SplitAt(tail, '_', []);
    SplitAt(code, '-', REPOSITORY);
  }

  /** The three kinds of objects, and their codes in the written identifier. */
  lemma KindsAndCodes(id: int, kind: string)
    ensures NewRoid(id, kind)
            == if kind == "contact" then Some(Decimal(id) + "_CONT-APEX")
               else if kind == "host" then Some(Decimal(id) + "_HOST-APEX")
               else if kind == "domain" then Some(Decimal(id) + "_DOM-APEX")
               else None
  {
    hide Decimal;
    forall code | code in {"CONT", "HOST", "DOM"}
      ensures Written(Decimal(id), code) == Decimal(id) + ("_" + code + "-APEX")
    {
    }
    assert "_" + "CONT" + "-APEX" == "_CONT-APEX" && "_" + "HOST" + "-APEX" == "_HOST-APEX" && "_" + "DOM" + "-APEX" == "_DOM-APEX";
  }

  lemma CodeIsWord(kind: string)
    requires Code(kind).Some?
    ensures var code := Code(kind).value;
            IsWord(code) && 3 <= |code| <= 4 && '-' !in code && '_' !in code && '_' !in REPOSITORY && |REPOSITORY| == 4
  {
  }

  lemma PositiveIsValid(id: nat, code: string, r: string)
    requires id <= MAX_INT64 && r == Written(Digits(id), code)
    requires IsWord(code) && 3 <= |code| <= 4 && '-' !in code
    ensures IsValid(r) && SystemIdentifier(r) == Some(REPOSITORY)
  {
    hide Split, Digits;
    var front := Digits(id) + ['_'] + code;
    SplitAt(front, '-', REPOSITORY);
    SplitAt(REPOSITORY, '-', []);
    DigitsLength(id, 19);
    Nineteen();
    assert r[..|front|] == front && r[|front|] == '-' && r[|front| + 1..] == REPOSITORY;
    assert IsWord(front);
    assert r[|Digits(id)|] == '_';
  }

  lemma NegativeIsInvalid(digits: string, code: string, r: string)
    requires r == Written("-" + digits, code) && digits != [] && '-' !in digits && '-' !in code && |code| >= 3
    ensures !IsValid(r) && SystemIdentifier(r) != Some(REPOSITORY)
  {
    var rest := digits + ['_'] + code;
    hide Split;
    SplitAt([], '-', rest + ['-'] + REPOSITORY);
    assert [] + ['-'] + (rest + ['-'] + REPOSITORY) == r;
    SplitAt(rest, '-', REPOSITORY);
    forall i | 1 <= i < |r|
      ensures !IsWord(r[..i])
    {
      assert r[..i][0] == '-';
    }
  }

  lemma Nineteen()
    ensures MAX_INT64 < Power10(19)
  {
    assert Power10(4) == 10000;
    assert Power10(8) == 10000 * Power10(4);
    assert Power10(12) == 10000 * Power10(8);
    assert Power10(16) == 10000 * Power10(12);
    assert Power10(19) == 1000 * Power10(16);
  }

  /** No two objects share an identifier. */
  lemma RoIDsAreUnique(i: int, j: int, a: string, b: string)
    requires -MAX_INT64 - 1 <= i <= MAX_INT64 && -MAX_INT64 - 1 <= j <= MAX_INT64
    requires NewRoid(i, a).Some? && NewRoid(i, a) == NewRoid(j, b)
    ensures i == j && a == b
  {
    PartsComeBack(i, a);
    PartsComeBack(j, b);
  }

  /** Two words of the right lengths around a dash. */
  predicate WordsAroundDash(r: string, a: string, b: string) {
    r == a + "-" + b && IsWord(a) && IsWord(b) && 1 <= |a| <= 80 && 1 <= |b| <= 8
  }

  /** They are valid with an underscore somewhere, and nothing else is. */
  lemma ValidExactly(r: string)
    ensures IsValid(r) <==> '_' in r && exists a, b :: WordsAroundDash(r, a, b)
  {
    hide IsWord;
    if IsValid(r) {
      var i :| 0 <= i < |r| && r[i] == '-' && 1 <= i <= 80 && 1 <= |r| - i - 1 <= 8 && IsWord(r[..i]) && IsWord(r[i + 1..]);
      assert WordsAroundDash(r, r[..i], r[i + 1..]);
    }
    if a, b :| WordsAroundDash(r, a, b) {
      assert r[|a|] == '-' && r[..|a|] == a && r[|a| + 1..] == b;
    }
  }

  /** A valid identifier always has its parts; without an underscore there is no object identifier. */
  lemma ValidHasParts(r: string)
    ensures ObjectIdentifier(r).Some? <==> '_' in r
    ensures IsValid(r) ==> SystemIdentifier(r).Some? && 1 <= |SystemIdentifier(r).value| <= 8 && IsWord(SystemIdentifier(r).value)
  {
    HasTwoParts(r, '_');
    hide Split, IsWord;
    if IsValid(r) {
      var i :| 0 <= i < |r| && r[i] == '-' && 1 <= i <= 80 && 1 <= |r| - i - 1 <= 8 && IsWord(r[..i]) && IsWord(r[i + 1..]);
      WordPart(r[..i], r[i + 1..]);
      assert r == r[..i] + ['-'] + r[i + 1..];
    }
  }

  lemma WordPart(a: string, b: string)
    requires IsWord(a) && IsWord(b)
    ensures SystemIdentifier(a + ['-'] + b) == Some(b)
  {
    hide Split;
    SplitAt(a, '-', b);
    SplitAt(b, '-', []);
  }

  lemma {:induction false} HasTwoParts(s: string, c: char)
    ensures |Split(s, c)| >= 2 <==> c in s
  {
    if s != [] {
      HasTwoParts(s[1..], c);
    }
  }
}
