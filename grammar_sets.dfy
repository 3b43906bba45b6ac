// grammar/Grammar.java, the parsers of character sets, character groups and
// single matches: CHARACTER_CLASS, the Unicode-category parsers,
// CHARACTER_SET, CHARACTER_RANGE, CHARACTER_GROUP_ITEM, CHARACTER_GROUP and
// MATCH. As in module GrammarAtoms, the parsers carry no contracts and each
// one is described by a lemma `...On(s)`.
module GrammarSets {
  import opened Common
  import opened Parsing
  import opened Parsers
  import opened Combinators
  import opened Ast
  import opened GrammarAtoms
  import CharSets

  const MissingCategoryName := "Missing unicode category name"
  const MissingClosingBrace := "Missing closing brace"
  const UnescapedDelimiter := "An unescaped delimiter must be escaped with a backslash"
  const EmptyCharacterGroup := "Character group is empty"
  const MissingClosingBracket := "Character group missing closing square bracket"

  /** The switch of UNICODE_CATEGORY; an unknown name is a ParseException. */
  function CategoryOf(name: string): Result<CharSets.CharSet>
  {
    if name == "P" then Ok(CharSets.PunctuationSet)
    else if name == "Lt" then Ok(CharSets.CapitalizedSet)
    else if name == "Ll" then Ok(CharSets.LowerCaseSet)
    else if name == "N" then Ok(CharSets.NonBaseSet)
    else if name == "S" then Ok(CharSets.SymbolSet)
    else Err("Unknown unicode category: " + name)
  }

  /** Util.characterListToString: the characters, joined in order. */
  function CharactersToString(cs: seq<char>): string
  {
    cs
  }

  /** UNICODE_CATEGORY: "{name}", where a missing '{', name or '}' raises an exception. */
  function UnicodeCategory(): Parser<CharSets.CharSet>
  {
    MapTry(Map(First(Second(OrThrow(Str("{"), MissingCategoryName),
                            OrThrow(StringExcluding("}"), MissingCategoryName)),
                     OrThrow(Str("}"), MissingClosingBrace)),
               CharactersToString),
           CategoryOf)
  }

  /** The outcome of looking a category name up, with the input left after the brace. */
  function CategoryOutcome(name: string, rest: string): Parsed<CharSets.CharSet>
  {
    match CategoryOf(name)
    case Ok(charSet) => Success(charSet, rest)
    case Err(m) => Thrown(m)
  }

  /**
   * What UNICODE_CATEGORY reads: it never fails quietly, but throws unless
   * the input starts with '{', a non-empty name without '}', and '}'; the
   * name is then looked up.
   */
  function CategoryRead(s: string): Parsed<CharSets.CharSet>
  {
    if s == [] || s[0] != '{' || |s| == 1 || s[1] == '}' then Thrown(MissingCategoryName)
    else if SpanExcluding(s[1..], "}") == |s| - 1 then Thrown(MissingClosingBrace)
    else CategoryOutcome(s[1..][..SpanExcluding(s[1..], "}")], s[SpanExcluding(s[1..], "}") + 2..])
  }

  /** A category that is read leaves less input than it was given. */
  lemma CategoryReadSpec(s: string)
    ensures !CategoryRead(s).Failure?
    ensures CategoryRead(s).Success? ==> |CategoryRead(s).remaining| < |s|
  {
  }

  lemma UnicodeCategoryOn(s: string)
    ensures UnicodeCategory()(s) == CategoryRead(s)
  {
    var a := OrThrow(Str("{"), MissingCategoryName);
    var b := OrThrow(StringExcluding("}"), MissingCategoryName);
    var c := OrThrow(Str("}"), MissingClosingBrace);
    var sec := Second(a, b);
    var fst := First(sec, c);
    var m := Map(fst, CharactersToString);
    assert UnicodeCategory() == MapTry(m, CategoryOf);
    StrOn("{", s);
    OrThrowOn(Str("{"), MissingCategoryName, s);
    SecondOn(a, b, s);
    MapOn(fst, CharactersToString, s);
    MapTryOn(m, CategoryOf, s);
    FirstOn(sec, c, s);
    if s == [] || s[0] != '{' {
      assert a(s) == Thrown(MissingCategoryName);
    } else {
      var t := s[1..];
      StringExcludingOn("}", t);
      OrThrowOn(StringExcluding("}"), MissingCategoryName, t);
      if |s| == 1 || s[1] == '}' {
        assert b(t) == Thrown(MissingCategoryName);
      } else {
        var k := SpanExcluding(t, "}");
        var rest := t[k..];
        assert b(t) == Success(t[..k], rest);
        assert sec(s) == Success(t[..k], rest);
        StrOn("}", rest);
        OrThrowOn(Str("}"), MissingClosingBrace, rest);
        if k == |t| {
          assert c(rest) == Thrown(MissingClosingBrace);
        } else {
          assert rest[1..] == s[k + 2..];
          assert c(rest) == Success((), s[k + 2..]);
          assert fst(s) == Success(t[..k], s[k + 2..]);
        }
      }
    }
  }

  /** A category name between braces is looked up, whatever follows the closing brace. */
  lemma UnicodeCategoryNamed(name: string, t: string)
    requires name != [] && '}' !in name
    ensures CategoryRead("{" + name + "}" + t) == CategoryOutcome(name, t)
  {
    var s := "{" + name + "}" + t;
    assert s[1..] == name + ("}" + t);
    assert s[1..][..|name|] == name;
    assert s[1..][|name|] == '}';
    assert s[|name| + 2..] == t;
    SpanExcludingIs(s[1..], "}", |name|);
  }

  const ClassLetters := "dDsSwW"

  /** The switch of CHARACTER_CLASS; its default branch throws IllegalStateException. */
  function ClassOf(c: char): Result<CharSets.CharSet>
  {
    match c
    case 'd' => Ok(CharSets.DecimalDigitSet)
    case 'D' => Ok(CharSets.Inverted(CharSets.DecimalDigitSet))
    case 's' => Ok(CharSets.WhiteSpaceSet)
    case 'S' => Ok(CharSets.Inverted(CharSets.WhiteSpaceSet))
    case 'w' => Ok(CharSets.WordSet)
    case 'W' => Ok(CharSets.Inverted(CharSets.WordSet))
    case _ => Err("Unexpected value: " + [c])
  }

  /** The default branch is reached by no letter that charFrom lets through. */
  lemma ClassOfLetters(c: char)
    ensures ClassOf(c).Ok? <==> c in ClassLetters
  {
  }

  /** CHARACTER_CLASS: a backslash and one of d D s S w W. */
  function CharacterClass(): Parser<CharSets.CharSet>
  {
    MapTry(Second(Str("\\"), CharFrom(ClassLetters)), ClassOf)
  }

  lemma CharacterClassOn(s: string)
    ensures StartsWithEscape(s, ClassLetters) ==> ClassOf(s[1]).Ok?
    ensures CharacterClass()(s) == if StartsWithEscape(s, ClassLetters) then Success(ClassOf(s[1]).value, s[2..])
                                   else Failure
  {
    if |s| >= 2 {
      ClassOfLetters(s[1]);
    }
    var b := Second(Str("\\"), CharFrom(ClassLetters));
    assert CharacterClass() == MapTry(b, ClassOf);
    EscapedLetterOn(ClassLetters, s);
    MapTryOn(b, ClassOf, s);
  }

  /** The value of CHARACTER_CLASS_FROM_UNICODE_CATEGORY: \p keeps the set, \P inverts it. */
  function Polarity(r: Double<char, CharSets.CharSet>): CharSets.CharSet
  {
    if r.firstValue == 'p' then r.secondValue else CharSets.Inverted(r.secondValue)
  }

  /** CHARACTER_CLASS_FROM_UNICODE_CATEGORY: "\\p" or "\\P" followed by a Unicode category. */
  function ClassFromCategory(): Parser<CharSets.CharSet>
  {
    Map(Zip(Second(Str("\\"), CharFrom("pP")), UnicodeCategory()), Polarity)
  }

  /** After "\\p" or "\\P" the category is read, and its exceptions propagate. */
  lemma ClassFromCategoryOn(s: string)
    ensures ClassFromCategory()(s) ==
            if !StartsWithEscape(s, "pP") then Failure
            else match CategoryRead(s[2..])
                 case Success(cs, r) => Success(Polarity(Double(s[1], cs)), r)
                 case Failure => Failure
                 case Thrown(m) => Thrown(m)
  {
    var b := Second(Str("\\"), CharFrom("pP"));
    var u := UnicodeCategory();
    assert ClassFromCategory() == Map(Zip(b, u), Polarity);
    EscapedLetterOn("pP", s);
    MapOn(Zip(b, u), Polarity, s);
    ZipOn(b, u, s);
    if StartsWithEscape(s, "pP") {
      UnicodeCategoryOn(s[2..]);
    }
  }

  /** CHARACTER_SET: a character class, or else a Unicode category. */
  function CharacterSetParser(): Parser<CharSets.CharSet>
  {
    OneOf([Lazy(() => CharacterClass()), ClassFromCategory()])
  }

  lemma CharacterSetOn(s: string)
    ensures StartsWithEscape(s, ClassLetters) ==> ClassOf(s[1]).Ok?
    ensures CharacterSetParser()(s) ==
            if StartsWithEscape(s, ClassLetters) then Success(ClassOf(s[1]).value, s[2..])
            else ClassFromCategory()(s)
  {
    var a := Lazy(() => CharacterClass());
    var b := ClassFromCategory();
    assert CharacterSetParser() == OneOf([a, b]);
    LazyOn(() => CharacterClass(), s);
    CharacterClassOn(s);
    OneOf2On(a, b, s);
  }

  /** CHARACTER_RANGE: two characters other than ']' around a '-', both bounds kept. */
  function CharacterRange(): Parser<Item>
  {
    Map(Zip(First(CharExcluding("]"), Str("-")), CharExcluding("]")),
        (r: Double<char, char>) => RangeItem(r.firstValue, r.secondValue))
  }

  predicate StartsWithRange(s: string)
  {
    |s| >= 3 && s[0] != ']' && s[1] == '-' && s[2] != ']'
  }

  lemma CharacterRangeOn(s: string)
    ensures CharacterRange()(s) == if StartsWithRange(s) then Success(RangeItem(s[0], s[2]), s[3..]) else Failure
  {
    if |s| >= 3 {
      assert s[1..][1..] == s[2..] && s[2..][1..] == s[3..];
    }
    var lo := First(CharExcluding("]"), Str("-"));
    var f := (r: Double<char, char>) => RangeItem(r.firstValue, r.secondValue);
    assert CharacterRange() == Map(Zip(lo, CharExcluding("]")), f);
    CharExcludingOn("]", s);
    FirstOn(CharExcluding("]"), Str("-"), s);
    if |s| > 0 {
      StrOn("-", s[1..]);
    }
    ZipOn(lo, CharExcluding("]"), s);
    if |s| >= 2 {
      CharExcludingOn("]", s[2..]);
    }
    MapOn(Zip(lo, CharExcluding("]")), f, s);
  }

  // The constructors of CharacterGroup.Item, as the functions map applies.
  function SetItemOf(cs: CharSets.CharSet): Item { SetItem(cs) }
  function CharItemOf(c: char): Item { CharItem(c) }

  /**
   * What a group item starting with a backslash is: a character class, a
   * Unicode category, a range whose lower bound is the backslash itself, or
   * the escaped character, tried in that order.
   */
  function BackslashItem(s: string): Parsed<Item>
    requires |s| > 0 && s[0] == '\\'
  {
    if StartsWithEscape(s, ClassLetters) then
      ClassOfLetters(s[1]);
      Success(SetItem(ClassOf(s[1]).value), s[2..])
    else if StartsWithEscape(s, "pP") then
      match CategoryRead(s[2..])
      case Success(cs, r) => Success(SetItem(Polarity(Double(s[1], cs))), r)
      case Failure => Failure
      case Thrown(m) => Thrown(m)
    else if StartsWithRange(s) then Success(RangeItem(s[0], s[2]), s[3..])
    else if |s| == 1 then Thrown(TrailingBackslash)
    else Success(CharItem(s[1]), s[2..])
  }

  /**
   * What CHARACTER_GROUP_ITEM reads: an unescaped '/' throws, a backslash
   * starts an escape, a range is tried next, and any other character but ']'
   * stands for itself.
   */
  function ItemOf(s: string): Parsed<Item>
  {
    if |s| > 0 && s[0] == '/' then Thrown(UnescapedDelimiter)
    else if |s| > 0 && s[0] == '\\' then BackslashItem(s)
    else if StartsWithRange(s) then Success(RangeItem(s[0], s[2]), s[3..])
    else if |s| > 0 && s[0] != ']' then Success(CharItem(s[0]), s[1..])
    else Failure
  }

  /** CHARACTER_GROUP_ITEM; the '/' alternative never succeeds, so its null value never appears. */
  function CharacterGroupItem(): Parser<Item>
  {
    OneOf([ZeroOrThrow<(), Item>(Str("/"), UnescapedDelimiter),
           Map(CharacterSetParser(), SetItemOf),
           Lazy(() => CharacterRange()),
           Map(EscapedCharacter(), CharItemOf),
           Map(CharExcluding("]"), CharItemOf)])
  }

  lemma CharacterGroupItemOn(s: string)
    ensures CharacterGroupItem()(s) == ItemOf(s)
  {
    var a := ZeroOrThrow<(), Item>(Str("/"), UnescapedDelimiter);
    var b := Map(CharacterSetParser(), SetItemOf);
    var c := Lazy(() => CharacterRange());
    var d := Map(EscapedCharacter(), CharItemOf);
    var e := Map(CharExcluding("]"), CharItemOf);
    assert CharacterGroupItem() == OneOf([a, b, c, d, e]);
    OneOf5On(a, b, c, d, e, s);
    StrOn("/", s);
    ZeroOrThrowOn<(), Item>(Str("/"), UnescapedDelimiter, s);
    if |s| > 0 && s[0] == '/' {
    } else {
      CharacterSetOn(s);
      MapOn(CharacterSetParser(), SetItemOf, s);
      LazyOn(() => CharacterRange(), s);
      CharacterRangeOn(s);
      if |s| > 0 && s[0] == '\\' {
        BackslashItemOn(s);
      } else {
        EscapedCharacterOn(s);
        MapOn(EscapedCharacter(), CharItemOf, s);
        CharExcludingOn("]", s);
        MapOn(CharExcluding("]"), CharItemOf, s);
      }
    }
  }

  /** The last three alternatives of an item, after a backslash. */
  lemma BackslashItemOn(s: string)
    requires |s| > 0 && s[0] == '\\'
    ensures !StartsWithEscape(s, ClassLetters) ==>
              BackslashItem(s) ==
              if !ClassFromCategory()(s).Failure? then Map(CharacterSetParser(), SetItemOf)(s)
              else if !CharacterRange()(s).Failure? then CharacterRange()(s)
              else Map(EscapedCharacter(), CharItemOf)(s)
  {
    if StartsWithEscape(s, "pP") {
      CharacterSetOn(s);
      ClassFromCategoryOn(s);
      CategoryReadSpec(s[2..]);
      MapOn(CharacterSetParser(), SetItemOf, s);
    } else if !StartsWithEscape(s, ClassLetters) {
      ClassFromCategoryOn(s);
      CharacterRangeOn(s);
      EscapedCharacterOn(s);
      MapOn(EscapedCharacter(), CharItemOf, s);
    }
  }

  /** Items fail only at the end of the input or at ']', and every item read consumes input. */
  lemma ItemOfSpec(s: string)
    ensures ItemOf(s).Failure? <==> s == [] || s[0] == ']'
    ensures ItemOf(s).Success? ==> |ItemOf(s).remaining| < |s|
  {
    if StartsWithEscape(s, "pP") {
      CategoryReadSpec(s[2..]);
    }
  }

  lemma CharacterGroupItemSpec()
    ensures Consuming(CharacterGroupItem())
  {
    forall s ensures CharacterGroupItem()(s).Success? ==> |CharacterGroupItem()(s).remaining| < |s| {
      CharacterGroupItemOn(s);
      ItemOfSpec(s);
    }
  }

  /**
   * The items of a character group, read one after another up to the first
   * position where no item can start; an exception from any item propagates.
   */
  function ItemsOf(t: string): Parsed<seq<Item>>
    decreases |t|
  {
    match ItemOf(t)
    case Failure => Success([], t)
    case Thrown(m) => Thrown(m)
    case Success(v, rest) =>
      ItemOfSpec(t);
      Prefixed([v], ItemsOf(rest))
  }

  /** The items stop at the end of the input or at a ']', never elsewhere. */
  lemma {:induction false} ItemsOfStop(t: string)
    ensures !ItemsOf(t).Failure?
    ensures ItemsOf(t).Success? ==> ItemsOf(t).remaining == [] || ItemsOf(t).remaining[0] == ']'
    ensures ItemsOf(t).Success? ==> |ItemsOf(t).remaining| <= |t|
    decreases |t|
  {
    ItemOfSpec(t);
    if ItemOf(t).Success? {
      ItemsOfStop(ItemOf(t).remaining);
    }
  }

  /** zeroOrMore over CHARACTER_GROUP_ITEM computes ItemsOf. */
  lemma {:induction false} ManyItems(t: string)
    requires Consuming(CharacterGroupItem())
    ensures Many(CharacterGroupItem(), t) == ItemsOf(t)
    decreases |t|
  {
    CharacterGroupItemOn(t);
    ItemOfSpec(t);
    if ItemOf(t).Success? {
      ManyItems(ItemOf(t).remaining);
    }
  }

  function MakeGroup(r: Double<bool, seq<Item>>): CharacterGroup
  {
    CharacterGroup(r.firstValue, r.secondValue)
  }

  /** CHARACTER_GROUP: '[', an optional '^', at least one item, and ']'. */
  function CharacterGroupParser(): Parser<CharacterGroup>
  {
    CharacterGroupItemSpec();
    Map(Zip(Second(Str("["), OptionalB(Str("^"))),
            First(OrThrow(OneOrMore(CharacterGroupItem()), EmptyCharacterGroup),
                  OrThrow(Str("]"), MissingClosingBracket))),
        MakeGroup)
  }

  /**
   * The part of CHARACTER_GROUP after '[' and the optional '^': an empty
   * group throws, the items run to the first ']', and a group that reaches
   * the end of the input without one throws.
   */
  function GroupBodyOf(t: string): Parsed<seq<Item>>
  {
    if t == [] || t[0] == ']' then Thrown(EmptyCharacterGroup)
    else match ItemsOf(t)
         case Thrown(m) => Thrown(m)
         case Failure => Failure
         case Success(items, r) => if r == [] then Thrown(MissingClosingBracket) else Success(items, r[1..])
  }

  /** What CHARACTER_GROUP reads: '[', then '^' if the group is inverted, then the body. */
  function GroupOf(s: string): Parsed<CharacterGroup>
  {
    if s == [] || s[0] != '[' then Failure
    else
      var inverted := |s| > 1 && s[1] == '^';
      match GroupBodyOf(if inverted then s[2..] else s[1..])
      case Success(items, r) => Success(CharacterGroup(inverted, items), r)
      case Failure => Failure
      case Thrown(m) => Thrown(m)
  }

  lemma GroupBodyOn(t: string)
    requires Consuming(CharacterGroupItem())
    ensures First(OrThrow(OneOrMore(CharacterGroupItem()), EmptyCharacterGroup),
                  OrThrow(Str("]"), MissingClosingBracket))(t) == GroupBodyOf(t)
  {
    var items := OrThrow(OneOrMore(CharacterGroupItem()), EmptyCharacterGroup);
    var close := OrThrow(Str("]"), MissingClosingBracket);
    FirstOn(items, close, t);
    OrThrowOn(OneOrMore(CharacterGroupItem()), EmptyCharacterGroup, t);
    OneOrMoreOn(CharacterGroupItem(), t);
    CharacterGroupItemOn(t);
    ItemOfSpec(t);
    ManyItems(t);
    ItemsOfStop(t);
    if ItemsOf(t).Success? {
      var r := ItemsOf(t).remaining;
      StrOn("]", r);
      OrThrowOn(Str("]"), MissingClosingBracket, r);
    }
  }

  lemma CharacterGroupOn(s: string)
    ensures CharacterGroupParser()(s) == GroupOf(s)
  {
    CharacterGroupItemSpec();
    var open := Second(Str("["), OptionalB(Str("^")));
    var body := First(OrThrow(OneOrMore(CharacterGroupItem()), EmptyCharacterGroup),
                      OrThrow(Str("]"), MissingClosingBracket));
    assert CharacterGroupParser() == Map(Zip(open, body), MakeGroup);
    MapOn(Zip(open, body), MakeGroup, s);
    ZipOn(open, body, s);
    SecondOn(Str("["), OptionalB(Str("^")), s);
    StrOn("[", s);
    if s != [] && s[0] == '[' {
      var inverted := |s| > 1 && s[1] == '^';
      var t := if inverted then s[2..] else s[1..];
      StrOn("^", s[1..]);
      OptionalBOn(Str("^"), s[1..]);
      if inverted {
        assert s[1..][1..] == s[2..];
      }
      assert open(s) == Success(inverted, t);
      GroupBodyOn(t);
    }
  }

  /** A group never fails once its '[' is read, and what it reads it consumes. */
  lemma GroupOfSpec(s: string)
    ensures GroupOf(s).Failure? <==> s == [] || s[0] != '['
    ensures GroupOf(s).Success? ==> |GroupOf(s).remaining| < |s|
  {
    if s != [] && s[0] == '[' {
      ItemsOfStop(if |s| > 1 && s[1] == '^' then s[2..] else s[1..]);
    }
  }

  /** A character other than '/', '\\' and ']' not followed by a range's '-' is an item of its own. */
  lemma ItemOfCharacter(c: char, t: string)
    requires c !in "/\\]"
    requires !(|t| >= 2 && t[0] == '-' && t[1] != ']')
    ensures ItemOf([c] + t) == Success(CharItem(c), t)
  {
    var s := [c] + t;
    assert s[0] == c && s[1..] == t;
    assert !StartsWithRange(s);
  }

  /** lo-hi is a range item when neither bound is ']' and lo does not start an escape. */
  lemma ItemOfRange(lo: char, hi: char, t: string)
    requires lo !in "/\\]" && hi != ']'
    ensures ItemOf([lo, '-', hi] + t) == Success(RangeItem(lo, hi), t)
  {
    var s := [lo, '-', hi] + t;
    assert s[0] == lo && s[1] == '-' && s[2] == hi && s[3..] == t;
  }

  /** \\d, \\D, \\s, \\S, \\w and \\W are set items. */
  lemma ItemOfClass(c: char, t: string)
    requires c in ClassLetters
    ensures ClassOf(c).Ok?
    ensures ItemOf(['\\', c] + t) == Success(SetItem(ClassOf(c).value), t)
  {
    ClassOfLetters(c);
    var s := ['\\', c] + t;
    assert s[0] == '\\' && s[1] == c && s[2..] == t;
  }

  /** Any other escaped character but '-' stands for itself. */
  lemma ItemOfEscaped(c: char, t: string)
    requires c !in ClassLetters + "pP-"
    ensures ItemOf(['\\', c] + t) == Success(CharItem(c), t)
  {
    var s := ['\\', c] + t;
    assert s[0] == '\\' && s[1] == c && s[2..] == t;
    assert !StartsWithEscape(s, ClassLetters) && !StartsWithEscape(s, "pP");
  }

  /** Reading the items one at a time. */
  lemma ItemsOfCons(t: string)
    requires ItemOf(t).Success?
    ensures ItemsOf(t) == Prefixed([ItemOf(t).value], ItemsOf(ItemOf(t).remaining))
  {
  }

  lemma ItemsOfCharacter(c: char, t: string)
    requires c !in "/\\]"
    requires t == [] || t[0] != '-'
    ensures ItemsOf([c] + t) == Prefixed([CharItem(c)], ItemsOf(t))
  {
    var s := [c] + t;
    assert ItemOf(s) == Success(CharItem(c), t) by {
      ItemOfCharacter(c, t);
    }
    ItemsOfCons(s);
  }

  lemma ItemsOfRange(lo: char, hi: char, t: string)
    requires lo !in "/\\]" && hi != ']'
    ensures ItemsOf([lo, '-', hi] + t) == Prefixed([RangeItem(lo, hi)], ItemsOf(t))
  {
    ItemOfRange(lo, hi, t);
    ItemsOfCons([lo, '-', hi] + t);
  }

  lemma ItemsOfClass(c: char, t: string)
    requires c in ClassLetters
    ensures ClassOf(c).Ok?
    ensures ItemsOf(['\\', c] + t) == Prefixed([SetItem(ClassOf(c).value)], ItemsOf(t))
  {
    ItemOfClass(c, t);
    ItemsOfCons(['\\', c] + t);
  }

  lemma ItemsOfEscaped(c: char, t: string)
    requires c !in ClassLetters + "pP-"
    ensures ItemsOf(['\\', c] + t) == Prefixed([CharItem(c)], ItemsOf(t))
  {
    ItemOfEscaped(c, t);
    ItemsOfCons(['\\', c] + t);
  }

  lemma ItemsOfBracket(t: string)
    requires t != [] && t[0] == ']'
    ensures ItemsOf(t) == Success([], t)
  {
  }

  /** A group that closes right after it opens is empty, and says so. */
  lemma EmptyGroupAt(s: string)
    requires |s| == 2 && s[0] == '[' && s[1] == ']'
    ensures CharacterGroupParser()(s) == Thrown(EmptyCharacterGroup)
  {
    CharacterGroupOn(s);
    assert s[1..][0] == ']';
  }

  lemma EmptyGroupVector()
    ensures CharacterGroupParser()("[]") == Thrown(EmptyCharacterGroup)
  {
    EmptyGroupAt("[]");
  }

  lemma ItemsOfOneRange()
    ensures ItemsOf("a-z]") == Success([RangeItem('a', 'z')], "]")
  {
    ItemsOfBracket("]");
    ItemOfRange('a', 'z', "]");
    assert ['a', '-', 'z'] + "]" == "a-z]";
    ItemsOfCons("a-z]");
    assert [RangeItem('a', 'z')] + [] == [RangeItem('a', 'z')];
  }

  /** "[a-z]" holds one range. */
  lemma RangeGroupVector()
    ensures CharacterGroupParser()("[a-z]") == Success(CharacterGroup(false, [RangeItem('a', 'z')]), "")
  {
    CharacterGroupOn("[a-z]");
    assert "[a-z]"[1..] == "a-z]";
    ItemsOfOneRange();
  }

  /** "[^a-z]" holds the same range; the '^' only inverts the group. */
  lemma InvertedRangeGroupVector()
    ensures CharacterGroupParser()("[^a-z]") == Success(CharacterGroup(true, [RangeItem('a', 'z')]), "")
  {
    CharacterGroupOn("[^a-z]");
    GroupOfInvertedRange();
  }

  lemma GroupOfInvertedRange()
    ensures GroupOf("[^a-z]") == Success(CharacterGroup(true, [RangeItem('a', 'z')]), "")
  {
    assert "[^a-z]"[2..] == "a-z]";
    ItemsOfOneRange();
  }

  lemma ItemsOfEscapes(u: string)
    requires u != [] && u[0] == ']'
    ensures ItemsOf(['\\', 'd'] + (['\\', 'a'] + u)) == Success([SetItem(CharSets.DecimalDigitSet), CharItem('a')], u)
  {
    var a, d := CharItem('a'), SetItem(CharSets.DecimalDigitSet);
    assert ItemsOf(['\\', 'a'] + u) == Success([a], u) by {
      ItemsOfBracket(u);
      ItemsOfEscaped('a', u);
      assert [a] + [] == [a];
    }
    ItemsOfClass('d', ['\\', 'a'] + u);
    assert [d] + [a] == [d, a];
  }

  lemma ItemsOfRangeEscapes(u: string)
    requires u != [] && u[0] == ']'
    ensures ItemsOf(['c', '-', 'd'] + (['\\', 'd'] + (['\\', 'a'] + u))) ==
            Success([RangeItem('c', 'd'), SetItem(CharSets.DecimalDigitSet), CharItem('a')], u)
  {
    ItemsOfEscapes(u);
    ItemsOfRange('c', 'd', ['\\', 'd'] + (['\\', 'a'] + u));
    var r, d, a := RangeItem('c', 'd'), SetItem(CharSets.DecimalDigitSet), CharItem('a');
    assert [r] + [d, a] == [r, d, a];
  }

  /** The items of "abc-d\\d\\a" in front of a closing bracket. */
  lemma ItemsOfMixedBefore(u: string)
    requires u != [] && u[0] == ']'
    ensures ItemsOf(['a'] + (['b'] + (['c', '-', 'd'] + (['\\', 'd'] + (['\\', 'a'] + u))))) ==
            Success([CharItem('a'), CharItem('b'), RangeItem('c', 'd'), SetItem(CharSets.DecimalDigitSet), CharItem('a')], u)
  {
    var t2 := ['c', '-', 'd'] + (['\\', 'd'] + (['\\', 'a'] + u));
    var t1 := ['b'] + t2;
    var a, b, r, d := CharItem('a'), CharItem('b'), RangeItem('c', 'd'), SetItem(CharSets.DecimalDigitSet);
    assert ItemsOf(t1) == Success([b, r, d, a], u) by {
      ItemsOfRangeEscapes(u);
      assert t2[0] == 'c';
      ItemsOfCharacter('b', t2);
      assert [b] + [r, d, a] == [b, r, d, a];
    }
    assert t1[0] == 'b';
    ItemsOfCharacter('a', t1);
    assert [a] + [b, r, d, a] == [a, b, r, d, a];
  }

  lemma ItemsOfMixed()
    ensures ItemsOf("abc-d\\d\\a]") ==
            Success([CharItem('a'), CharItem('b'), RangeItem('c', 'd'), SetItem(CharSets.DecimalDigitSet), CharItem('a')], "]")
  {
    ItemsOfMixedBefore("]");
    assert ['a'] + (['b'] + (['c', '-', 'd'] + (['\\', 'd'] + (['\\', 'a'] + "]")))) == "abc-d\\d\\a]";
  }

  lemma GroupOfMixed()
    ensures GroupOf("[^abc-d\\d\\a]") ==
            Success(CharacterGroup(true, [CharItem('a'), CharItem('b'), RangeItem('c', 'd'),
                                          SetItem(CharSets.DecimalDigitSet), CharItem('a')]), "")
  {
    var s := "[^abc-d\\d\\a]";
    assert s[2..] == "abc-d\\d\\a]";
    ItemsOfMixed();
  }

  /** "[^abc-d\\d\\a]": two characters, a range, a class and an escaped character. */
  lemma MixedGroupVector()
    ensures CharacterGroupParser()("[^abc-d\\d\\a]") ==
            Success(CharacterGroup(true, [CharItem('a'), CharItem('b'), RangeItem('c', 'd'),
                                          SetItem(CharSets.DecimalDigitSet), CharItem('a')]), "")
  {
    CharacterGroupOn("[^abc-d\\d\\a]");
    GroupOfMixed();
  }

  // The constructors of Match, as the functions map applies.
  function AnyCharacterOf(u: ()): Match { AnyCharacter }
  function GroupMatchOf(g: CharacterGroup): Match { GroupMatch(g) }
  function SetMatchOf(cs: CharSets.CharSet): Match { SetMatch(cs) }
  function CharacterMatchOf(c: char): Match { CharacterMatch(c) }

  /** The characters MATCH does not take literally. */
  const NotMatched := ")|" + Quantifiers

  /** What a match starting with a backslash is: a class, a Unicode category, or the escaped character. */
  function BackslashMatch(s: string): Parsed<Match>
    requires |s| > 0 && s[0] == '\\'
  {
    if StartsWithEscape(s, ClassLetters) then
      ClassOfLetters(s[1]);
      Success(SetMatch(ClassOf(s[1]).value), s[2..])
    else if StartsWithEscape(s, "pP") then
      match CategoryRead(s[2..])
      case Success(cs, r) => Success(SetMatch(Polarity(Double(s[1], cs))), r)
      case Failure => Failure
      case Thrown(m) => Thrown(m)
    else if |s| == 1 then Thrown(TrailingBackslash)
    else Success(CharacterMatch(s[1]), s[2..])
  }

  /**
   * What MATCH reads: '.' is any character, '[' starts a character group, a
   * backslash starts an escape, and any other character but ')', '|' and the
   * quantifier symbols stands for itself.
   */
  function MatchOf(s: string): Parsed<Match>
  {
    if s == [] then Failure
    else if s[0] == '.' then Success(AnyCharacter, s[1..])
    else if s[0] == '[' then
      match GroupOf(s)
      case Success(g, r) => Success(GroupMatch(g), r)
      case Failure => Failure
      case Thrown(m) => Thrown(m)
    else if s[0] == '\\' then BackslashMatch(s)
    else if s[0] !in NotMatched then Success(CharacterMatch(s[0]), s[1..])
    else Failure
  }

  /** MATCH. */
  function MatchParser(): Parser<Match>
  {
    OneOf([Map(Str("."), AnyCharacterOf),
           Map(CharacterGroupParser(), GroupMatchOf),
           Map(CharacterSetParser(), SetMatchOf),
           Map(EscapedCharacter(), CharacterMatchOf),
           Map(CharExcluding(NotMatched), CharacterMatchOf)])
  }

  lemma MatchOn(s: string)
    ensures MatchParser()(s) == MatchOf(s)
  {
    var a := Map(Str("."), AnyCharacterOf);
    var b := Map(CharacterGroupParser(), GroupMatchOf);
    var c := Map(CharacterSetParser(), SetMatchOf);
    var d := Map(EscapedCharacter(), CharacterMatchOf);
    var e := Map(CharExcluding(NotMatched), CharacterMatchOf);
    assert MatchParser() == OneOf([a, b, c, d, e]);
    OneOf5On(a, b, c, d, e, s);
    StrOn(".", s);
    MapOn(Str("."), AnyCharacterOf, s);
    CharacterGroupOn(s);
    GroupOfSpec(s);
    MapOn(CharacterGroupParser(), GroupMatchOf, s);
    if s != [] && s[0] != '.' && s[0] != '[' {
      if s[0] == '\\' {
        BackslashMatchOn(s);
      } else {
        CharacterSetOn(s);
        ClassFromCategoryOn(s);
        MapOn(CharacterSetParser(), SetMatchOf, s);
        EscapedCharacterOn(s);
        MapOn(EscapedCharacter(), CharacterMatchOf, s);
        CharExcludingOn(NotMatched, s);
        MapOn(CharExcluding(NotMatched), CharacterMatchOf, s);
      }
    }
  }

  /** The last three alternatives of a match, after a backslash. */
  lemma BackslashMatchOn(s: string)
    requires |s| > 0 && s[0] == '\\'
    ensures BackslashMatch(s) ==
            if !Map(CharacterSetParser(), SetMatchOf)(s).Failure? then Map(CharacterSetParser(), SetMatchOf)(s)
            else Map(EscapedCharacter(), CharacterMatchOf)(s)
  {
    CharacterSetOn(s);
    ClassFromCategoryOn(s);
    MapOn(CharacterSetParser(), SetMatchOf, s);
    if StartsWithEscape(s, "pP") {
      CategoryReadSpec(s[2..]);
    } else if !StartsWithEscape(s, ClassLetters) {
      EscapedCharacterOn(s);
      MapOn(EscapedCharacter(), CharacterMatchOf, s);
    }
  }

  /** A match fails only at the end of the input and at ')', '|' or a quantifier symbol, and it consumes what it reads. */
  lemma MatchOfSpec(s: string)
    ensures MatchOf(s).Failure? <==> s == [] || s[0] in NotMatched
    ensures MatchOf(s).Success? ==> |MatchOf(s).remaining| < |s|
  {
    GroupOfSpec(s);
    if StartsWithEscape(s, "pP") {
      CategoryReadSpec(s[2..]);
    }
  }

  lemma MatchSpec()
    ensures Consuming(MatchParser())
  {
    forall s ensures MatchParser()(s).Success? ==> |MatchParser()(s).remaining| < |s| {
      MatchOn(s);
      MatchOfSpec(s);
    }
  }

  /** A character with no meaning of its own in a pattern stands for itself. */
  lemma MatchOfCharacter(c: char, t: string)
    requires c !in ".[\\" + NotMatched
    ensures MatchOf([c] + t) == Success(CharacterMatch(c), t)
  {
    assert ([c] + t)[0] == c && ([c] + t)[1..] == t;
  }

  lemma MatchOfAny(t: string)
    ensures MatchOf(['.'] + t) == Success(AnyCharacter, t)
  {
    assert (['.'] + t)[1..] == t;
  }

  lemma MatchOfClass(c: char, t: string)
    requires c in ClassLetters
    ensures ClassOf(c).Ok?
    ensures MatchOf(['\\', c] + t) == Success(SetMatch(ClassOf(c).value), t)
  {
    ClassOfLetters(c);
    var s := ['\\', c] + t;
    assert s[0] == '\\' && s[1] == c && s[2..] == t;
  }

  /** Outside a group, an escaped '-' is a character like any other. */
  lemma MatchOfEscaped(c: char, t: string)
    requires c !in ClassLetters + "pP"
    ensures MatchOf(['\\', c] + t) == Success(CharacterMatch(c), t)
  {
    var s := ['\\', c] + t;
    assert s[0] == '\\' && s[1] == c && s[2..] == t;
    assert !StartsWithEscape(s, ClassLetters) && !StartsWithEscape(s, "pP");
  }

  lemma AnyCharacterMatch(t: string)
    ensures MatchParser()(['.'] + t) == Success(AnyCharacter, t)
  {
    MatchOn(['.'] + t);
    MatchOfAny(t);
  }

  lemma AnyCharacterVector()
    ensures MatchParser()(".") == Success(AnyCharacter, "")
  {
    AnyCharacterMatch("");
    assert ['.'] + "" == ".";
  }

  lemma ClassMatch(c: char, t: string)
    requires c in ClassLetters
    ensures ClassOf(c).Ok?
    ensures MatchParser()(['\\', c] + t) == Success(SetMatch(ClassOf(c).value), t)
  {
    MatchOn(['\\', c] + t);
    MatchOfClass(c, t);
  }

  lemma ClassMatchVector()
    ensures MatchParser()("\\d") == Success(SetMatch(CharSets.DecimalDigitSet), "")
  {
    ClassMatch('d', "");
    assert ['\\', 'd'] + "" == "\\d";
  }

  lemma LiteralMatch(c: char, t: string)
    requires c !in ".[\\" + NotMatched
    ensures MatchParser()([c] + t) == Success(CharacterMatch(c), t)
  {
    MatchOn([c] + t);
    MatchOfCharacter(c, t);
  }

  lemma CharacterMatchVectors()
    ensures MatchParser()("a") == Success(CharacterMatch('a'), "")
    ensures MatchParser()("") == Failure
  {
    LiteralMatch('a', "");
    assert ['a'] + "" == "a";
    MatchOn("");
  }

  lemma EscapedMatch(c: char, t: string)
    requires c !in ClassLetters + "pP"
    ensures MatchParser()(['\\', c] + t) == Success(CharacterMatch(c), t)
  {
    MatchOn(['\\', c] + t);
    MatchOfEscaped(c, t);
  }

  lemma EscapedMatchVector()
    ensures MatchParser()("\\a") == Success(CharacterMatch('a'), "")
  {
    EscapedMatch('a', "");
    assert ['\\', 'a'] + "" == "\\a";
  }

  lemma GroupOfSingle()
    ensures GroupOf("[a]") == Success(CharacterGroup(false, [CharItem('a')]), "")
  {
    assert "[a]"[1..] == ['a'] + "]";
    ItemsOfBracket("]");
    ItemsOfCharacter('a', "]");
    assert [CharItem('a')] + [] == [CharItem('a')];
  }

  /** "[a]" is a match of a character group. */
  lemma GroupMatchVector()
    ensures MatchParser()("[a]") == Success(GroupMatch(CharacterGroup(false, [CharItem('a')])), "")
  {
    MatchOn("[a]");
    GroupOfSingle();
  }

  /** "\\p{name}" reads the named set, "\\P{name}" its complement. */
  lemma CategoryClassNamed(kind: char, name: string, t: string)
    requires kind in "pP" && name != [] && '}' !in name
    ensures ClassFromCategory()(['\\', kind] + ("{" + name + "}" + t)) ==
            match CategoryOf(name)
            case Ok(cs) => Success(if kind == 'p' then cs else CharSets.Inverted(cs), t)
            case Err(m) => Thrown(m)
  {
    var s := ['\\', kind] + ("{" + name + "}" + t);
    assert s[0] == '\\' && s[1] == kind && s[2..] == "{" + name + "}" + t;
    ClassFromCategoryOn(s);
    UnicodeCategoryNamed(name, t);
  }

  /** The same on a whole input that is nothing but the category class. */
  lemma CategoryClassAlone(kind: char, name: string, s: string)
    requires kind in "pP" && name != [] && '}' !in name
    requires s == ['\\', kind] + ("{" + name + "}" + "")
    ensures ClassFromCategory()(s) ==
            match CategoryOf(name)
            case Ok(cs) => Success(if kind == 'p' then cs else CharSets.Inverted(cs), "")
            case Err(m) => Thrown(m)
  {
    CategoryClassNamed(kind, name, "");
  }

  lemma PunctuationVector()
    ensures ClassFromCategory()("\\p{P}") == Success(CharSets.PunctuationSet, "")
  {
    CategoryClassAlone('p', "P", "\\p{P}");
  }

  lemma CapitalizedVector()
    ensures ClassFromCategory()("\\p{Lt}") == Success(CharSets.CapitalizedSet, "")
  {
    CategoryClassAlone('p', "Lt", "\\p{Lt}");
  }

  lemma InvertedLowerCaseVector()
    ensures ClassFromCategory()("\\P{Ll}") == Success(CharSets.Inverted(CharSets.LowerCaseSet), "")
  {
    CategoryClassAlone('P', "Ll", "\\P{Ll}");
  }

  lemma UnknownCategoryVector()
    ensures ClassFromCategory()("\\p{XYZ}") == Thrown("Unknown unicode category: XYZ")
  {
    CategoryClassAlone('p', "XYZ", "\\p{XYZ}");
  }

  /** A missing name throws. */
  lemma MissingCategoryVectors()
    ensures ClassFromCategory()("\\pP}") == Thrown(MissingCategoryName)
    ensures ClassFromCategory()("\\p{}") == Thrown(MissingCategoryName)
  {
    ClassFromCategoryOn("\\pP}");
    ClassFromCategoryOn("\\p{}");
  }

  /** A missing closing brace throws. */
  lemma MissingBraceVector()
    ensures ClassFromCategory()("\\p{P") == Thrown(MissingClosingBrace)
  {
    ClassFromCategoryOn("\\p{P");
    assert "\\p{P"[2..][1..] == "P";
    SpanExcludingIs("P", "}", 1);
  }

  /** A letter other than p and P fails quietly. */
  lemma OtherLetterVector()
    ensures ClassFromCategory()("\\q{P}") == Failure
  {
    ClassFromCategoryOn("\\q{P}");
  }

  /** CHARACTER_CLASS needs a backslash and one of its six letters. */
  lemma CharacterClassRejects()
    ensures CharacterClass()("\\p").Failure? && CharacterClass()("\\P").Failure?
    ensures CharacterClass()("\\").Failure? && CharacterClass()("a").Failure? && CharacterClass()("").Failure?
  {
    CharacterClassOn("\\p");
    CharacterClassOn("\\P");
    CharacterClassOn("\\");
    CharacterClassOn("a");
    CharacterClassOn("");
  }

  lemma WordClassVector()
    ensures CharacterClass()("\\w") == Success(CharSets.WordSet, "")
  {
    CharacterClassOn("\\w");
  }

  lemma CharacterRangeVectors()
    ensures CharacterRange()("a-z") == Success(RangeItem('a', 'z'), "")
    ensures CharacterRange()("a-").Failure? && CharacterRange()("-z").Failure? && CharacterRange()("[a-b]").Failure?
    ensures CharacterRange()("-").Failure? && CharacterRange()("").Failure?
  {
    CharacterRangeOn("a-z");
    CharacterRangeOn("a-");
    CharacterRangeOn("-z");
    CharacterRangeOn("[a-b]");
    CharacterRangeOn("-");
    CharacterRangeOn("");
  }

  /** A lone character, '-' included, is a character item. */
  lemma CharacterItem(c: char)
    requires c !in "/\\]"
    ensures CharacterGroupItem()([c]) == Success(CharItem(c), "")
  {
    CharacterGroupItemOn([c]);
    ItemOfCharacter(c, "");
    assert [c] + "" == [c];
  }

  lemma GroupItemVectors()
    ensures CharacterGroupItem()("a") == Success(CharItem('a'), "")
    ensures CharacterGroupItem()("-") == Success(CharItem('-'), "")
    ensures CharacterGroupItem()("/") == Thrown(UnescapedDelimiter)
  {
    CharacterItem('a');
    CharacterItem('-');
    CharacterGroupItemOn("/");
  }
}
