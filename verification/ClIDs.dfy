/** Registrar identifiers made from a registrar's number and name. */
module ClIDs {
  import opened Outcomes
  import opened Text
  import opened Ascii

  predicate IsSpace(c: char) { c == ' ' || 9 <= c as int <= 13 }

  /** Every white space becomes a blank. */
  function Blanked(s: string): string {
    seq(|s|, i requires 0 <= i < |s| => if IsSpace(s[i]) then ' ' else s[i])
  }

  function NonEmpty(parts: seq<string>): seq<string> {
    if parts == [] then [] else (if parts[0] == [] then [] else [parts[0]]) + NonEmpty(parts[1..])
  }

  /** Words with one blank between them, without a trailing dot. */
  function Normalized(s: string): string {
    var words := Join(NonEmpty(Split(Blanked(s), ' ')), ' ');
    Trim(if words != [] && words[|words| - 1] == '.' then words[..|words| - 1] else words, ' ')
  }

  const MIN_LENGTH := 3
  const MAX_LENGTH := 16

  predicate IsClID(s: string) {
    MIN_LENGTH <= |s| <= MAX_LENGTH && forall i :: 0 <= i < |s| ==> IsAscii(s[i])
  }

  function NewClID(s: string): Option<string> {
    if IsClID(Normalized(s)) then Some(Normalized(s)) else None
  }

  function Replaced(s: string, was: char, put: char): string {
    seq(|s|, i requires 0 <= i < |s| => if s[i] == was then put else s[i])
  }

  function Truncated(s: string, n: nat): string { if |s| > n then s[..n] else s }

  predicate NoDot(c: char) { c != '.' }

  /** The name's part of the identifier; lower-casing is the library's. */
  function Slug(name: string, lower: string -> string): string {
    var first := Kept(lower(Split(name, ',')[0]), IsAscii);
    var words := Kept(Replaced(first, ' ', '-'), IsWordOrDash);
    Trim(Kept(words, NoDot), '-')
  }

  function Draft(gurID: int, name: string, lower: string -> string): string {
    Trim(Truncated(Decimal(gurID) + "-" + Slug(name, lower), MAX_LENGTH), '-')
  }

  function CreateClID(gurID: int, name: string, lower: string -> string): Option<string> {
    NewClID(Draft(gurID, name, lower))
  }

  // --- The alphabet ---------------------------------------------------------------------------

  /** Lower-casing leaves no ASCII capital. */
  ghost predicate Lowers(lower: string -> string) {
    forall s, c :: c in lower(s) ==> !IsUpper(c)
  }

  predicate InAlphabet(c: char) { IsLower(c) || IsDigit(c) || c == '-' }

  predicate Plain(s: string) { forall i :: 0 <= i < |s| ==> InAlphabet(s[i]) }

  lemma TrimStaysPlain(s: string, c: char)
    requires Plain(s)
    ensures Plain(Trim(s, c))
  {
    var left, right := TrimExact(s, c);
    forall i | 0 <= i < |Trim(s, c)|
      ensures InAlphabet(Trim(s, c)[i])
    {
      assert s[|left| + i] == Trim(s, c)[i];
    }
  }

  lemma SlugIsPlain(name: string, lower: string -> string)
    requires Lowers(lower)
    ensures Plain(Slug(name, lower)) && !Outer(Slug(name, lower), '-')
  {
    var text := lower(Split(name, ',')[0]);
    var words := Kept(Replaced(Kept(text, IsAscii), ' ', '-'), IsWordOrDash);
    var bare := Kept(words, NoDot);
    assert Plain(bare) by {
      hide IsLetter, IsNumber, Split, Trim, Outer, Replaced;
      forall i | 0 <= i < |bare|
        ensures InAlphabet(bare[i])
      {
        KeptExact(words, NoDot, bare[i]);
        WordsArePlain(text, bare[i]);
      }
    }
    hide Kept, Plain;
    TrimStaysPlain(bare, '-');
    var _, _ := TrimExact(bare, '-');
  }

  lemma WordsArePlain(text: string, c: char)
    requires forall d :: d in text ==> !IsUpper(d)
    requires c in Kept(Replaced(Kept(text, IsAscii), ' ', '-'), IsWordOrDash)
    ensures InAlphabet(c)
  {
    hide Kept, IsAscii, IsUpper, IsWordOrDash;
    var first := Kept(text, IsAscii);
    var dashed := Replaced(first, ' ', '-');
    KeptExact(dashed, IsWordOrDash, c);
    var j :| 0 <= j < |dashed| && dashed[j] == c;
    KeptExact(text, IsAscii, first[j]);
    if c != '-' {
      LowerWordIsPlain(c);
    } else {
      assert InAlphabet('-');
    }
  }

  lemma LowerWordIsPlain(c: char)
    requires IsAscii(c) && IsWordOrDash(c) && !IsUpper(c)
    ensures InAlphabet(c)
  {
  }

  /** Normalizing changes nothing in the alphabet. */
  lemma PlainIsNormal(s: string)
    requires Plain(s)
    ensures Normalized(s) == s
  {
    assert Blanked(s) == s;
    if s != [] {
      SplitAt(s, ' ', []);
      assert NonEmpty([s]) == [s];
      assert !Outer(s, ' ');
      TrimsTo([], s, [], ' ');
      assert [] + s + [] == s;
    }
  }

  /** What becomes of a character of the lower-cased name: letters, digits and dashes stay, a blank is a dash, the rest goes. */
  function Kernel(c: char): string {
    if IsLower(c) || IsDigit(c) || c == '-' then [c] else if c == ' ' then "-" else []
  }

  function Kernels(s: string): string {
    if s == [] then [] else Kernels(s[..|s| - 1]) + Kernel(s[|s| - 1])
  }

  /** The filters one after the other do what one look at each character does. */
  lemma SlugInOnePass(name: string, lower: string -> string)
    requires Lowers(lower)
    ensures Slug(name, lower) == Trim(Kernels(lower(Split(name, ',')[0])), '-')
  {
    FiltersInOnePass(lower(Split(name, ',')[0]));
  }

  lemma {:induction false} FiltersInOnePass(s: string)
    requires forall c :: c in s ==> !IsUpper(c)
    ensures Kept(Kept(Replaced(Kept(s, IsAscii), ' ', '-'), IsWordOrDash), NoDot) == Kernels(s)
  {
    if s != [] {
      var init, c := s[..|s| - 1], s[|s| - 1];
      FiltersInOnePass(init);
      assert s == init + [c];
      OneMoreCharacter(init, c);
      KernelIsWhatIsLeft(c);
      hide Kept, Kernel, Replaced, IsAscii, IsWordOrDash;
    }
  }

  lemma OneMoreCharacter(s: string, c: char)
    ensures var d := if c == ' ' then '-' else c;
            Kept(Kept(Replaced(Kept(s + [c], IsAscii), ' ', '-'), IsWordOrDash), NoDot)
            == Kept(Kept(Replaced(Kept(s, IsAscii), ' ', '-'), IsWordOrDash), NoDot)
               + (if IsAscii(c) && IsWordOrDash(d) && d != '.' then [d] else [])
  {
    hide Kept, IsAscii, IsWordOrDash;
    var ascii := Kept(s, IsAscii);
    var dashed := Replaced(ascii, ' ', '-');
    KeptMore(s, c, IsAscii);
    if IsAscii(c) {
      var d := if c == ' ' then '-' else c;
      assert Replaced(ascii + [c], ' ', '-') == dashed + [d];
      KeptMore(dashed, d, IsWordOrDash);
      var words := Kept(dashed, IsWordOrDash);
      KeptMore(words, d, NoDot);
      assert words + [] == words;
    } else {
      assert ascii + [] == ascii;
    }
  }

  lemma KernelIsWhatIsLeft(c: char)
    requires !IsUpper(c)
    ensures var d := if c == ' ' then '-' else c;
            Kernel(c) == if IsAscii(c) && IsWordOrDash(d) && d != '.' then [d] else []
  {
  }

  /** Only what stands before the first comma counts. */
  lemma CommaEndsTheName(first: string, rest: string, lower: string -> string)
    requires ',' !in first
    ensures Slug(first + "," + rest, lower) == Slug(first, lower)
  {
    hide Kept, Trim, Replaced;
    SplitAt(first, ',', rest);
  }

  // --- The draft ------------------------------------------------------------------------------

  lemma OuterRuns(left: string, core: string, right: string, c: char)
    requires Only(left, c) && Only(right, c)
    ensures var s := left + core + right;
            forall i :: 0 <= i < |s| && !(|left| <= i < |left + core|) ==> s[i] == c
  {
  }

  /** A draft begins with the number's first sixteen digits, and nothing or a dash and more follows. */
  lemma DraftBegins(gurID: nat, name: string, lower: string -> string)
    requires Lowers(lower)
    ensures var draft, digits := Draft(gurID, name, lower), Truncated(Digits(gurID), MAX_LENGTH);
            && Plain(draft) && |draft| <= MAX_LENGTH && !Outer(draft, '-')
            && (if Slug(name, lower) == [] || |Digits(gurID)| >= MAX_LENGTH - 1 then draft == digits
                else |draft| >= |digits| + 2 && draft[..|digits| + 1] == digits + "-")
  {
    hide Slug;
    SlugIsPlain(name, lower);
    var slug := Slug(name, lower);
    var digits := Truncated(Digits(gurID), MAX_LENGTH);
    var full := Decimal(gurID) + "-" + slug;
    var whole := Truncated(full, MAX_LENGTH);
    assert Plain(whole);
    TrimStaysPlain(whole, '-');
    var left, right := TrimExact(whole, '-');
    var draft := Draft(gurID, name, lower);
    assert whole[0] == Digits(gurID)[0];
    OuterRuns(left, Trim(whole, '-'), right, '-');
    assert left == [];
    var n := |digits|;
    assert whole[..n] == digits;
    assert whole[n - 1] == digits[n - 1];
    assert |draft| >= n;
    assert forall i :: 0 <= i < |draft| ==> draft[i] == whole[i];
    assert draft[..n] == digits;
    if slug != [] && |Digits(gurID)| < MAX_LENGTH - 1 {
      assert full[n + 1] == slug[0];
      assert whole[n] == '-' && whole[n + 1] == slug[0];
      assert draft[..n + 1] == digits + "-";
    } else {
      assert forall i :: n <= i < |whole| ==> whole[i] == '-';
      assert draft == digits;
    }
  }

  /**
   * An identifier is made exactly when the number has three digits or the name leaves something; it
   * has three to sixteen characters of lower-case letters, digits and dashes, with no outer dash.
   */
  lemma CreateClIDExact(gurID: nat, name: string, lower: string -> string)
    requires Lowers(lower)
    ensures CreateClID(gurID, name, lower).Some? <==> gurID >= 100 || Slug(name, lower) != []
    ensures CreateClID(gurID, name, lower).Some? ==>
              var id := CreateClID(gurID, name, lower).value;
              id == Draft(gurID, name, lower) && Plain(id) && MIN_LENGTH <= |id| <= MAX_LENGTH && !Outer(id, '-')
  {
    hide Slug, Draft, Normalized;
    DraftBegins(gurID, name, lower);
    var draft := Draft(gurID, name, lower);
    PlainIsNormal(draft);
    DigitsLength(gurID, 2);
    assert Power10(2) == 10 * Power10(1) == 100 * Power10(0);
  }

  /** A number of at most sixteen digits can be read off its identifier, whatever the name. */
  lemma NumberIsRecoverable(gurID: nat, name: string, lower: string -> string)
    requires Lowers(lower) && gurID < Power10(16) && CreateClID(gurID, name, lower).Some?
    ensures ParseInt64(Split(CreateClID(gurID, name, lower).value, '-')[0]) == Some(gurID)
  {
    hide Slug, Draft, CreateClID, ParseInt64;
    CreateClIDExact(gurID, name, lower);
    DraftBegins(gurID, name, lower);
    DigitsLength(gurID, 16);
    var id, digits := CreateClID(gurID, name, lower).value, Digits(gurID);
    assert '-' !in digits;
    if id == digits {
      SplitAt(digits, '-', []);
    } else {
      SplitAt(digits, '-', id[|digits| + 1..]);
      assert id == digits + ['-'] + id[|digits| + 1..];
    }
    SixteenDigitsFit();
    ParsesBack(gurID);
  }

  lemma SixteenDigitsFit()
    ensures Power10(16) == 10_000_000_000_000_000 < MAX_INT64
  {
    assert Power10(4) == 10000;
    assert Power10(8) == 10000 * Power10(4);
    assert Power10(12) == 10000 * Power10(8);
    assert Power10(16) == 10000 * Power10(12);
  }

  /** Registrars with different numbers of at most sixteen digits never get the same identifier. */
  lemma IdentifiersAreUnique(g: nat, h: nat, a: string, b: string, lower: string -> string)
    requires Lowers(lower) && g < Power10(16) && h < Power10(16)
    ensures CreateClID(g, a, lower).Some? && CreateClID(g, a, lower) == CreateClID(h, b, lower) ==> g == h
  {
    hide CreateClID, Split, ParseInt64;
    if CreateClID(g, a, lower).Some? && CreateClID(g, a, lower) == CreateClID(h, b, lower) {
      NumberIsRecoverable(g, a, lower);
      NumberIsRecoverable(h, b, lower);
    }
  }

  /** A longer number always shares its identifier with the number without its last digit. */
  lemma LongerNumbersCollide(gurID: nat, name: string, lower: string -> string)
    requires Lowers(lower) && gurID >= Power10(16)
    ensures CreateClID(gurID, name, lower).Some? && CreateClID(gurID, name, lower) == CreateClID(gurID / 10, name, lower)
  {
    hide Slug, Draft, Normalized;
    SixteenDigitsFit();
    DigitsLength(gurID, 16);
    CreateClIDExact(gurID, name, lower);
    DraftBegins(gurID, name, lower);
    DraftBegins(gurID / 10, name, lower);
    assert Digits(gurID)[..16] == Digits(gurID / 10)[..16];
  }

  /** The text before it is cut to length. */
  function Full(gurID: int, name: string, lower: string -> string): string {
    Decimal(gurID) + "-" + Slug(name, lower)
  }

  /**
   * The minus sign is cut off after it has taken one of the sixteen characters: a negative number
   * shares the identifier of its opposite exactly when that costs nothing but a dash.
   */
  lemma NegativeNumbersCollide(gurID: int, name: string, lower: string -> string)
    requires Lowers(lower) && gurID > 0
    ensures CreateClID(-gurID, name, lower) == CreateClID(gurID, name, lower) <==>
              var full := Full(gurID, name, lower);
              |full| < MAX_LENGTH || full[MAX_LENGTH - 1] == '-'
  {
    var full := Full(gurID, name, lower);
    CreateClIDExact(gurID, name, lower);
    NegativeDraft(gurID, name, lower);
    DraftBegins(gurID, name, lower);
    hide Slug, Normalized, Digits, TrimRight, Trim;
    var negative, positive := Draft(-gurID, name, lower), Draft(gurID, name, lower);
    PlainIsNormal(negative);
    PlainIsNormal(positive);
  }

  lemma NegativeDraft(gurID: int, name: string, lower: string -> string)
    requires Lowers(lower) && gurID > 0
    ensures var full, negative, positive := Full(gurID, name, lower), Draft(-gurID, name, lower), Draft(gurID, name, lower);
            && Plain(negative) && |negative| < MAX_LENGTH
            && (if |full| < MAX_LENGTH || full[MAX_LENGTH - 1] == '-' then negative == positive else |positive| == MAX_LENGTH)
  {
    SlugIsPlain(name, lower);
    hide Slug, Trim;
    var full := Full(gurID, name, lower);
    assert full[0] == Digits(gurID)[0];
    assert Decimal(-gurID) + "-" + Slug(name, lower) == "-" + full;
    CutWithMinus(full);
    TrimStaysPlain(Truncated("-" + full, MAX_LENGTH), '-');
  }

  lemma CutWithMinus(full: string)
    requires full != [] && full[0] != '-'
    ensures var negative, positive := Trim(Truncated("-" + full, MAX_LENGTH), '-'), Trim(Truncated(full, MAX_LENGTH), '-');
            && |negative| < MAX_LENGTH
            && (if |full| < MAX_LENGTH || full[MAX_LENGTH - 1] == '-' then negative == positive else |positive| == MAX_LENGTH)
  {
    var cut, whole := Truncated(full, MAX_LENGTH - 1), Truncated(full, MAX_LENGTH);
    assert Truncated("-" + full, MAX_LENGTH) == "-" + cut;
    assert ("-" + cut)[1..] == cut && cut[0] == whole[0] == full[0];
    assert TrimLeft("-" + cut, '-') == TrimLeft(cut, '-') == cut && TrimLeft(whole, '-') == whole;
    var right := TrimRightExact(cut, '-');
    assert |TrimRight(cut, '-')| <= |cut| < MAX_LENGTH;
    if |full| >= MAX_LENGTH {
      assert whole[..|whole| - 1] == cut && whole[|whole| - 1] == full[MAX_LENGTH - 1];
      assert TrimRight(whole, '-') == if full[MAX_LENGTH - 1] == '-' then TrimRight(cut, '-') else whole;
    }
  }
}
