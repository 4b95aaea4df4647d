/** The password engine of `SecurePasswordGenerator`: the alphabet built from
    the selected character classes, the random draw, and the six-point
    strength rubric with its four levels. */
module PasswordEngine {
  import opened AsciiText

  const Uppercase: string := "ABCDEFGHIJKLMNOPQRSTUVWXYZ"
  const Lowercase: string := "abcdefghijklmnopqrstuvwxyz"
  const Digits: string := "0123456789"
  /** The fixed punctuation class, used both to build the alphabet and to
      award the symbol point. */
  const Symbols: string := "!@#$%^&*()_+-=[]{}|;:,.<>?"

  predicate IsSymbol(c: char) { c in Symbols }

  /** Which of the four check boxes are ticked. */
  datatype Selection = Selection(upper: bool, lower: bool, digits: bool, symbols: bool)
  {
    predicate NoneSelected() { !upper && !lower && !digits && !symbols }

    /** How many classes are ticked. */
    function Count(): nat
    {
      (if upper then 1 else 0) + (if lower then 1 else 0)
      + (if digits then 1 else 0) + (if symbols then 1 else 0)
    }
  }

  /** `c` belongs to one of the classes ticked in `sel`, by the class's own
      definition (ASCII ranges, or the punctuation set). */
  predicate InSelectedClass(sel: Selection, c: char)
  {
    || (sel.upper && IsUpper(c))
    || (sel.lower && IsLower(c))
    || (sel.digits && IsDigit(c))
    || (sel.symbols && IsSymbol(c))
  }

  /** Position of a character's class in the order the alphabet is built. */
  function ClassRank(c: char): nat
  {
    if IsUpper(c) then 0 else if IsLower(c) then 1 else if IsDigit(c) then 2 else 3
  }

  predicate NoDuplicates(s: string)
  {
    forall i, j | 0 <= i < j < |s| :: s[i] != s[j]
  }

  /** The characters of `s` appear grouped by class, in alphabet order. */
  predicate RankSorted(s: string)
  {
    forall i, j | 0 <= i < j < |s| :: ClassRank(s[i]) <= ClassRank(s[j])
  }

  /** Where a punctuation character sits in `Symbols` (-1 if it is not one). */
  function SymbolPosition(c: char): int
  {
    match c
    case '!' => 0 case '@' => 1 case '#' => 2 case '$' => 3 case '%' => 4 case '^' => 5
    case '&' => 6 case '*' => 7 case '(' => 8 case ')' => 9 case '_' => 10 case '+' => 11
    case '-' => 12 case '=' => 13 case '[' => 14 case ']' => 15 case '{' => 16 case '}' => 17
    case '|' => 18 case ';' => 19 case ':' => 20 case ',' => 21 case '.' => 22 case '<' => 23
    case '>' => 24 case '?' => 25 case _ => -1
  }

  lemma UppercaseIsRange()
    ensures forall i | 0 <= i < |Uppercase| :: Uppercase[i] as int == 'A' as int + i
    ensures forall c :: c in Uppercase <==> IsUpper(c)
  {
  }

  lemma LowercaseIsRange()
    ensures forall i | 0 <= i < |Lowercase| :: Lowercase[i] as int == 'a' as int + i
    ensures forall c :: c in Lowercase <==> IsLower(c)
  {
  }

  lemma DigitsIsRange()
    ensures forall i | 0 <= i < |Digits| :: Digits[i] as int == '0' as int + i
    ensures forall c :: c in Digits <==> IsDigit(c)
  {
  }

  lemma SymbolPositions()
    ensures forall i | 0 <= i < |Symbols| :: SymbolPosition(Symbols[i]) == i
  {
  }

  /** The punctuation class shares no character with the other three. */
  lemma SymbolsAreNotAlphanumeric()
    ensures forall c | IsSymbol(c) :: !IsLetter(c) && !IsDigit(c)
  {
  }

  /** `chars` lists characters of one rank, each once. */
  predicate ClassBlock(chars: string, rank: nat)
  {
    NoDuplicates(chars) && forall i | 0 <= i < |chars| :: ClassRank(chars[i]) == rank
  }

  lemma ClassBlocks()
    ensures ClassBlock(Uppercase, 0) && ClassBlock(Lowercase, 1)
    ensures ClassBlock(Digits, 2) && ClassBlock(Symbols, 3)
  {
    UppercaseBlock();
    LowercaseBlock();
    DigitsBlock();
    SymbolsBlock();
  }

  lemma UppercaseBlock()
    ensures ClassBlock(Uppercase, 0)
  {
    UppercaseIsRange();
  }

  lemma LowercaseBlock()
    ensures ClassBlock(Lowercase, 1)
  {
    LowercaseIsRange();
  }

  lemma DigitsBlock()
    ensures ClassBlock(Digits, 2)
  {
    DigitsIsRange();
  }

  lemma SymbolsBlock()
    ensures ClassBlock(Symbols, 3)
  {
    SymbolPositions();
    SymbolsAreNotAlphanumeric();
  }

  /** Joining a duplicate-free, rank-sorted string whose ranks are at most
      `k` with a block of rank `k + 1` keeps it duplicate-free and sorted. */
  lemma JoinBlock(a: string, b: string, k: nat)
    requires NoDuplicates(a) && RankSorted(a)
    requires forall i | 0 <= i < |a| :: ClassRank(a[i]) <= k
    requires b == [] || ClassBlock(b, k + 1)
    ensures NoDuplicates(a + b) && RankSorted(a + b)
    ensures forall i | 0 <= i < |a + b| :: ClassRank((a + b)[i]) <= k + 1
  {
  }

  /** The characters `generate` draws from: the ticked classes concatenated
      in the order upper, lower, digits, symbols. */
  function Alphabet(sel: Selection): (r: string)
    ensures |r| == 0 <==> sel.NoneSelected()
    ensures |r| == ClassSize(sel.upper, 26) + ClassSize(sel.lower, 26)
                   + ClassSize(sel.digits, 10) + ClassSize(sel.symbols, 26)
    ensures forall c :: c in r <==> InSelectedClass(sel, c)
    ensures NoDuplicates(r)
    ensures RankSorted(r)
  {
    var r := Concat4(sel);
    AlphabetMembers(sel);
    AlphabetOrder(sel);
    r
  }

  function ClassSize(ticked: bool, size: nat): nat
  {
    if ticked then size else 0
  }

  function ClassPart(ticked: bool, chars: string): string
  {
    if ticked then chars else ""
  }

  function Concat4(sel: Selection): string
  {
    ClassPart(sel.upper, Uppercase) + ClassPart(sel.lower, Lowercase)
    + ClassPart(sel.digits, Digits) + ClassPart(sel.symbols, Symbols)
  }

  lemma AlphabetMembers(sel: Selection)
    ensures |Concat4(sel)| == 0 <==> sel.NoneSelected()
    ensures forall c :: c in Concat4(sel) <==> InSelectedClass(sel, c)
  {
    UppercaseIsRange();
    LowercaseIsRange();
    DigitsIsRange();
  }

  lemma AlphabetOrder(sel: Selection)
    ensures NoDuplicates(Concat4(sel)) && RankSorted(Concat4(sel))
  {
    ClassBlocks();
    var u, l := ClassPart(sel.upper, Uppercase), ClassPart(sel.lower, Lowercase);
    var d, s := ClassPart(sel.digits, Digits), ClassPart(sel.symbols, Symbols);
    assert forall i | 0 <= i < |u| :: ClassRank(u[i]) <= 0;
    JoinBlock(u, l, 0);
    JoinBlock(u + l, d, 1);
    JoinBlock(u + l + d, s, 2);
  }

  /** What pressing "Generate" leads to: a warning and no password, or a
      fresh password shown together with its strength. */
  datatype Generation = NoClassSelected | Generated(password: string, strength: Strength)

  /** `SecurePasswordGenerator.generate`. `display` is the password field
      before the click and `shown` after it. Each character is an arbitrary
      choice from the alphabet: the random source is not modelled, only that
      every draw lands in the alphabet. */
  method Generate(sel: Selection, length: nat, display: string) returns (shown: string, r: Generation)
    ensures r.NoClassSelected? <==> sel.NoneSelected()
    ensures r.NoClassSelected? ==> shown == display
    ensures r.Generated? ==> shown == r.password && |shown| == length
    ensures r.Generated? ==> forall i | 0 <= i < |shown| :: InSelectedClass(sel, shown[i])
    ensures r.Generated? ==> r.strength == StrengthOf(shown)
  {
    var chars := Alphabet(sel);
    if |chars| == 0 {
      return display, NoClassSelected;
    }
    var password := "";
    while |password| < length
      invariant |password| <= length
      invariant forall i | 0 <= i < |password| :: password[i] in chars
    {
      var k :| 0 <= k < |chars|;
      password := password + [chars[k]];
    }
    return password, Generated(password, StrengthOf(password));
  }

  predicate HasUpper(p: string) { exists c | c in p :: IsUpper(c) }
  predicate HasLower(p: string) { exists c | c in p :: IsLower(c) }
  predicate HasDigit(p: string) { exists c | c in p :: IsDigit(c) }
  predicate HasSymbol(p: string) { exists c | c in p :: IsSymbol(c) }

  function Point(met: bool): nat { if met then 1 else 0 }

  /** The six-point rubric of `calculate_strength`: one point each for
      length 8 or more, length 12 or more, an upper-case letter, a
      lower-case letter, a digit and a punctuation symbol. */
  function Score(p: string): (r: nat)
    ensures r <= 6
    ensures r == 6 <==> |p| >= 12 && HasUpper(p) && HasLower(p) && HasDigit(p) && HasSymbol(p)
    ensures |p| < 8 ==> r <= 4
  {
    Point(|p| >= 8) + Point(|p| >= 12)
    + Point(HasUpper(p)) + Point(HasLower(p)) + Point(HasDigit(p)) + Point(HasSymbol(p))
  }

  datatype Strength = Weak | Medium | Strong | VeryStrong

  /** Strength levels in increasing order. */
  function Rank(s: Strength): nat
  {
    match s
    case Weak => 0
    case Medium => 1
    case Strong => 2
    case VeryStrong => 3
  }

  /** `calculate_strength`: the level a password's score falls into. The
      four bands partition the score range, and only a password of 12 or
      more characters using all four classes is Very Strong. */
  function StrengthOf(p: string): (r: Strength)
    ensures r == Weak <==> Score(p) <= 2
    ensures r == Medium <==> 3 <= Score(p) <= 4
    ensures r == Strong <==> Score(p) == 5
    ensures r == VeryStrong <==> |p| >= 12 && HasUpper(p) && HasLower(p) && HasDigit(p) && HasSymbol(p)
    ensures |p| < 8 ==> Rank(r) <= Rank(Medium)
  {
    var score := Score(p);
    if score <= 2 then Weak
    else if score <= 4 then Medium
    else if score <= 5 then Strong
    else VeryStrong
  }

  /** The score range is 0..6, and its top value is the Very Strong band. */
  lemma StrengthBands(p: string)
    ensures 0 <= Score(p) <= 6
    ensures StrengthOf(p) == VeryStrong <==> Score(p) == 6
  {
  }

  /** Extending a password never lowers its score or its level. */
  lemma ScoreMonotone(p: string, q: string)
    ensures Score(p) <= Score(p + q)
    ensures Rank(StrengthOf(p)) <= Rank(StrengthOf(p + q))
  {
  }

  /** Appending a character that meets a criterion the password missed
      raises the score by at least one. */
  lemma NewCriterionRaisesScore(p: string, c: char)
    requires (IsUpper(c) && !HasUpper(p)) || (IsLower(c) && !HasLower(p))
          || (IsDigit(c) && !HasDigit(p)) || (IsSymbol(c) && !HasSymbol(p))
    ensures Score(p + [c]) >= Score(p) + 1
  {
  }

  /** A password drawn only from the ticked classes can earn at most the
      two length points plus one point per ticked class. */
  lemma ScoreWithinSelection(sel: Selection, p: string)
    requires forall i | 0 <= i < |p| :: InSelectedClass(sel, p[i])
    ensures Score(p) <= 2 + sel.Count()
  {
    SymbolsAreNotAlphanumeric();
    assert HasUpper(p) ==> sel.upper;
    assert HasLower(p) ==> sel.lower;
    assert HasDigit(p) ==> sel.digits;
    assert HasSymbol(p) ==> sel.symbols;
  }

  /** A digits-only password of 8 to 11 characters scores exactly 2 (Weak);
      from 12 characters on it scores 3 (Medium). */
  lemma DigitsOnlyStrength(p: string)
    requires |p| >= 8 && forall i | 0 <= i < |p| :: IsDigit(p[i])
    ensures Score(p) == if |p| >= 12 then 3 else 2
    ensures StrengthOf(p) == if |p| >= 12 then Medium else Weak
  {
    SymbolsAreNotAlphanumeric();
    assert p[0] in p;
  }
}
