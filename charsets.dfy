// util/CharacterSet.java (and its earlier copy, CharacterSet.java at the
// package root): a character set is a membership test. The model keeps the
// shape of the set as a value and gives its meaning by Contains.
module CharSets {
  import Ranges

  /** The predefined sets, each backed by a java.lang.Character classification. */
  datatype Named =
    | DecimalDigit        // Character.isDigit
    | WhiteSpaces         // Character.isWhitespace
    | AlphaNumeric        // Character.isLetterOrDigit
    | Punctuation         // the seven *_PUNCTUATION general categories
    | CapitalizedLetters  // Character.isUpperCase
    | LowerCaseLetters    // Character.isLowerCase
    | NonBase             // NON_SPACING_MARK
    | Symbols             // the four *_SYMBOL general categories

  datatype CharSet =
    | Predefined(name: Named)
    | Single(character: char)
    | Interval(lowerBound: int, upperBound: int)
    | Nothing
    | CharactersIn(allowed: string)
    | Both(left: CharSet, right: CharSet)
    | Complement(inner: CharSet)

  /**
   * The classification of the Java platform restricted to ASCII: a
   * character above U+007F belongs to no predefined set.
   */
  predicate IsNamed(name: Named, c: char)
  {
    match name
    case DecimalDigit => '0' <= c <= '9'
    case WhiteSpaces => c == ' ' || '\t' <= c <= '\r' || '\U{1C}' <= c <= '\U{1F}'
    case AlphaNumeric => 'A' <= c <= 'Z' || 'a' <= c <= 'z' || '0' <= c <= '9'
    case Punctuation => c in "!\"#%&'()*,-./:;?@[\\]_{}"
    case CapitalizedLetters => 'A' <= c <= 'Z'
    case LowerCaseLetters => 'a' <= c <= 'z'
    case NonBase => false
    case Symbols => c in "$+<=>^`|~"
  }

  /** The `contains` method of the interface. */
  predicate Contains(s: CharSet, c: char)
  {
    match s
    case Predefined(name) => IsNamed(name, c)
    case Single(x) => c == x
    case Interval(lo, hi) => c as int >= lo && c as int <= hi
    case Nothing => false
    case CharactersIn(allowed) => c in allowed
    case Both(l, r) => Contains(l, c) || Contains(r, c)
    case Complement(t) => !Contains(t, c)
  }

  /** charactersIn: a character belongs when it occurs in the string. */
  function MakeCharactersIn(allowed: string): (s: CharSet)
    ensures forall c :: Contains(s, c) <==> exists i :: 0 <= i < |allowed| && allowed[i] == c
  {
    CharactersIn(allowed)
  }

  /** fromChar: the set holding one character. */
  function FromChar(x: char): (s: CharSet)
    ensures Contains(s, x)
    ensures forall c :: Contains(s, c) ==> c == x
  {
    Single(x)
  }

  /** fromRange: both bounds are included, unlike Range.contains. */
  function FromRange(r: Ranges.Range): (s: CharSet)
    ensures forall c :: Contains(s, c) <==> r.lowerBound <= c as int <= r.upperBound
  {
    Interval(r.lowerBound, r.upperBound)
  }

  function Empty(): (s: CharSet)
    ensures forall c :: !Contains(s, c)
  {
    Nothing
  }

  function Union(a: CharSet, b: CharSet): (s: CharSet)
    ensures forall c :: Contains(s, c) <==> Contains(a, c) || Contains(b, c)
  {
    Both(a, b)
  }

  function Inverted(a: CharSet): (s: CharSet)
    ensures forall c :: Contains(s, c) <==> !Contains(a, c)
  {
    Complement(a)
  }

  const DecimalDigitSet := Predefined(DecimalDigit)
  const WhiteSpaceSet := Predefined(WhiteSpaces)
  const AlphaNumericSet := Predefined(AlphaNumeric)
  /** word is alphaNumeric together with the underscore. */
  const WordSet := Union(AlphaNumericSet, MakeCharactersIn("_"))
  const PunctuationSet := Predefined(Punctuation)
  const CapitalizedSet := Predefined(CapitalizedLetters)
  const LowerCaseSet := Predefined(LowerCaseLetters)
  const NonBaseSet := Predefined(NonBase)
  const SymbolSet := Predefined(Symbols)

  /** A word character is a letter, a digit or the underscore. */
  lemma WordMembers(c: char)
    ensures Contains(WordSet, c) <==> c == '_' || 'A' <= c <= 'Z' || 'a' <= c <= 'z' || '0' <= c <= '9'
  {
  }

  /** Inverting twice gives back the same membership. */
  lemma InvertedInvolution(a: CharSet, c: char)
    ensures Contains(Inverted(Inverted(a)), c) <==> Contains(a, c)
  {
  }

  /** The empty set is the identity of union, which makeCharacterSet relies on as its seed. */
  lemma EmptyUnionIdentity(a: CharSet, c: char)
    ensures Contains(Union(Empty(), a), c) <==> Contains(a, c)
  {
  }

  /** The union example from the test suite: alphaNumeric with "@#". */
  lemma UnionExample()
    ensures var s := Union(AlphaNumericSet, MakeCharactersIn("@#"));
      Contains(s, 'A') && Contains(s, '1') && Contains(s, '@') && Contains(s, '#')
      && !Contains(s, ' ') && !Contains(s, '&')
  {
  }

  /** The inversion example from the test suite. */
  lemma InvertedExample()
    ensures var s := Inverted(AlphaNumericSet);
      !Contains(s, 'A') && !Contains(s, 'z') && !Contains(s, '0') && Contains(s, ' ') && Contains(s, '@')
  {
  }
}
