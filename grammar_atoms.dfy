// grammar/Grammar.java, the token-level parsers: anchors, back-references,
// escaped characters and quantifiers.
//
// The parsers are constants of the grammar and carry no contracts of their
// own; what each one reads is stated by a lemma `...On(s)` for every input s.
// The proofs name the parts of a parser as local variables and rewrite one
// combinator at a time with the On lemmas of the parser modules.
module GrammarAtoms {
  import opened Common
  import opened Parsing
  import opened Parsers
  import opened Combinators
  import opened Ast

  const Quantifiers := "*+?"

  const UnmatchedClosing := "Unmatched closing parenthesis"
  const TrailingBackslash := "Pattern may not end with a trailing backslash"

  /** END_OF_PATTERN: the end of the input; a ')' there raises an exception. */
  function EndOfPattern(): Parser<()>
  {
    OneOf([End(), ZeroOrThrow(Str(")"), UnmatchedClosing)])
  }

  /** END_OF_PATTERN succeeds only at the end, and rejects a stray ')' with an exception. */
  lemma EndOfPatternOn(s: string)
    ensures EndOfPattern()(s) == if s == [] then Success((), s)
                                 else if s[0] == ')' then Thrown(UnmatchedClosing)
                                 else Failure
  {
    var e := End();
    var z: Parser<()> := ZeroOrThrow(Str(")"), UnmatchedClosing);
    assert EndOfPattern() == OneOf([e, z]);
    if s == [] {
      assert e(s) == Success((), s);
      OneOf2On(e, z, s);
    } else {
      assert e(s) == Failure;
      StrOn(")", s);
      ZeroOrThrowOn<(), ()>(Str(")"), UnmatchedClosing, s);
      assert z(s) == if s[0] == ')' then Thrown(UnmatchedClosing) else Failure;
      OneOf2On(e, z, s);
    }
  }

  /** The switch of ESCAPED_ANCHOR; its default branch throws IllegalStateException. */
  function AnchorOf(c: char): Result<AnchorKind>
  {
    match c
    case 'b' => Ok(WordBoundary)
    case 'B' => Ok(NonWordBoundary)
    case 'A' => Ok(StartOfStringOnly)
    case 'Z' => Ok(EndOfStringOnly)
    case 'z' => Ok(EndOfStringOnlyNotNewLine)
    case 'G' => Ok(PreviousMatchEnd)
    case _ => Err("Unexpected value: " + [c])
  }

  const AnchorLetters := "bBAZzG"

  /** The default branch of the switch is reached by no letter that charFrom lets through. */
  lemma AnchorOfLetters(c: char)
    ensures AnchorOf(c).Ok? <==> c in AnchorLetters
  {
  }

  /** Is s a backslash followed by one of the letters? */
  predicate StartsWithEscape(s: string, letters: string)
  {
    |s| >= 2 && s[0] == '\\' && s[1] in letters
  }

  /** second(string("\\"), charFrom(letters)) on one input. */
  lemma EscapedLetterOn(letters: string, s: string)
    ensures Second(Str("\\"), CharFrom(letters))(s) ==
            if StartsWithEscape(s, letters) then Success(s[1], s[2..]) else Failure
  {
    if |s| >= 2 {
      assert s[1..][1..] == s[2..];
    }
    SecondOn(Str("\\"), CharFrom(letters), s);
    StrOn("\\", s);
  }

  /** ESCAPED_ANCHOR: a backslash followed by one of b B A Z z G. */
  function EscapedAnchor(): Parser<AnchorKind>
  {
    MapTry(Second(Str("\\"), CharFrom(AnchorLetters)), AnchorOf)
  }

  lemma EscapedAnchorOn(s: string)
    ensures StartsWithEscape(s, AnchorLetters) ==> AnchorOf(s[1]).Ok?
    ensures EscapedAnchor()(s) == if StartsWithEscape(s, AnchorLetters) then Success(AnchorOf(s[1]).value, s[2..])
                                  else Failure
  {
    if |s| >= 2 {
      AnchorOfLetters(s[1]);
    }
    var b := Second(Str("\\"), CharFrom(AnchorLetters));
    assert EscapedAnchor() == MapTry(b, AnchorOf);
    EscapedLetterOn(AnchorLetters, s);
    MapTryOn(b, AnchorOf, s);
  }

  /** ANCHOR: an escaped anchor, or '$' for the end of the string. */
  function AnchorParser(): Parser<AnchorKind>
  {
    OneOf([EscapedAnchor(), Map(Str("$"), (_: ()) => EndOfString)])
  }

  /** ANCHOR reads exactly the two-character escaped anchors and '$'; it never throws. */
  lemma AnchorOn(s: string)
    ensures StartsWithEscape(s, AnchorLetters) ==> AnchorOf(s[1]).Ok?
    ensures AnchorParser()(s) == if StartsWithEscape(s, AnchorLetters) then Success(AnchorOf(s[1]).value, s[2..])
                                 else if |s| > 0 && s[0] == '$' then Success(EndOfString, s[1..])
                                 else Failure
  {
    var a := EscapedAnchor();
    var d := Map(Str("$"), (_: ()) => EndOfString);
    assert AnchorParser() == OneOf([a, d]);
    EscapedAnchorOn(s);
    MapOn(Str("$"), (_: ()) => EndOfString, s);
    StrOn("$", s);
    OneOf2On(a, d, s);
  }

  /** ANCHOR on a backslash and an anchor letter. */
  lemma AnchorSpelling(c: char, k: AnchorKind, t: string)
    requires AnchorOf(c) == Ok(k)
    ensures AnchorParser()(['\\', c] + t) == Success(k, t)
  {
    var s := ['\\', c] + t;
    assert s[0] == '\\' && s[1] == c && s[2..] == t;
    AnchorOfLetters(c);
    assert StartsWithEscape(s, AnchorLetters);
    AnchorOn(s);
  }

  /** ANCHOR on each of the seven anchor spellings. */
  lemma AnchorSpellings(t: string)
    ensures AnchorParser()(['\\', 'b'] + t) == Success(WordBoundary, t)
    ensures AnchorParser()(['\\', 'B'] + t) == Success(NonWordBoundary, t)
    ensures AnchorParser()(['\\', 'A'] + t) == Success(StartOfStringOnly, t)
    ensures AnchorParser()(['\\', 'Z'] + t) == Success(EndOfStringOnly, t)
  {
    AnchorSpelling('b', WordBoundary, t);
    AnchorSpelling('B', NonWordBoundary, t);
    AnchorSpelling('A', StartOfStringOnly, t);
    AnchorSpelling('Z', EndOfStringOnly, t);
  }

  lemma MoreAnchorSpellings(t: string)
    ensures AnchorParser()(['\\', 'z'] + t) == Success(EndOfStringOnlyNotNewLine, t)
    ensures AnchorParser()(['\\', 'G'] + t) == Success(PreviousMatchEnd, t)
    ensures AnchorParser()(['$'] + t) == Success(EndOfString, t)
  {
    assert (['$'] + t)[0] == '$' && (['$'] + t)[1..] == t;
    AnchorSpelling('z', EndOfStringOnlyNotNewLine, t);
    AnchorSpelling('G', PreviousMatchEnd, t);
    AnchorOn(['$'] + t);
  }

  /** BACK_REFERENCE: a backslash followed by a decimal number. */
  function BackReferenceParser(): Parser<Unit>
  {
    Map(Second(Str("\\"), Number()), (n: int) => BackReference(n))
  }

  /** BACK_REFERENCE reads every digit after the backslash; without a digit there it fails. */
  lemma BackReferenceOn(s: string)
    ensures BackReferenceParser()(s) ==
            if |s| >= 2 && s[0] == '\\' && IsDigit(s[1])
            then Success(BackReference(DecimalValue(s[1..][..Span(s[1..], IsDigit)])), s[1..][Span(s[1..], IsDigit)..])
            else Failure
  {
    var n := Number();
    var b := Second(Str("\\"), n);
    if |s| > 0 {
      NumberOn(s[1..]);
    }
    MapOn(b, (v: int) => BackReference(v), s);
    SecondOn(Str("\\"), n, s);
    StrOn("\\", s);
  }

  /** A backslash followed by exactly k digits is a back-reference to their value. */
  lemma BackReferenceReadsNumber(s: string, k: nat)
    requires 0 < k < |s| && s[0] == '\\'
    requires forall i :: 1 <= i <= k ==> IsDigit(s[i])
    requires k + 1 < |s| ==> !IsDigit(s[k + 1])
    ensures BackReferenceParser()(s) == Success(BackReference(DecimalValue(s[1..k + 1])), s[k + 1..])
  {
    assert s[1..][..k] == s[1..k + 1];
    assert s[1..][k..] == s[k + 1..];
    SpanIsMaximalPrefix(s[1..], IsDigit, k);
    BackReferenceOn(s);
  }

  /** ESCAPED_CHARACTER: a backslash and the character after it; a trailing backslash throws. */
  function EscapedCharacter(): Parser<char>
  {
    Second(Str("\\"), OrThrow(CharParser(), TrailingBackslash))
  }

  lemma EscapedCharacterOn(s: string)
    ensures EscapedCharacter()(s) == if |s| == 0 || s[0] != '\\' then Failure
                                     else if |s| == 1 then Thrown(TrailingBackslash)
                                     else Success(s[1], s[2..])
  {
    var b := OrThrow(CharParser(), TrailingBackslash);
    SecondOn(Str("\\"), b, s);
    StrOn("\\", s);
    if |s| > 0 && s[0] == '\\' {
      OrThrowOn(CharParser(), TrailingBackslash, s[1..]);
    }
  }

  /** The interpretation of "{m}", "{m,}" and "{m,n}". */
  function RangeOf(r: Double<int, Option<Option<int>>>): QuantifierType
  {
    RangeType(r.firstValue, match r.secondValue case None => Some(r.firstValue) case Some(n) => n)
  }

  /** The "{m" part of RANGE_QUANTIFIER. */
  function RangeOpening(): Parser<int>
  {
    Second(Str("{"), Number())
  }

  /** The ",n}" part of RANGE_QUANTIFIER, in which ",n" and then n may be missing. */
  function RangeClosing(): Parser<Option<Option<int>>>
  {
    First(Optional(Second(Str(","), Optional(Number()))), Str("}"))
  }

  /** RANGE_QUANTIFIER. */
  function RangeQuantifier(): Parser<QuantifierType>
  {
    Map(Zip(RangeOpening(), RangeClosing()), RangeOf)
  }

  /** The "{m" part: a '{' and then whatever number() reads. */
  lemma RangeOpeningOn(s: string)
    ensures RangeOpening()(s) == if |s| > 0 && s[0] == '{' then Number()(s[1..]) else Failure
  {
    var n := Number();
    assert RangeOpening() == Second(Str("{"), n);
    if |s| > 0 {
      NumberOn(s[1..]);
    }
    StrOn("{", s);
    SecondOn(Str("{"), n, s);
  }

  /** The ",n}" part: "}", ",}" or "," with a number and "}"; nothing in it throws. */
  lemma RangeClosingOn(r: string)
    ensures RangeClosing()(r) ==
            if |r| > 0 && r[0] == ',' then
              (match Number()(r[1..])
               case Success(n, r2) => if |r2| > 0 && r2[0] == '}' then Success(Some(Some(n)), r2[1..]) else Failure
               case _ => if |r| > 1 && r[1] == '}' then Success(Some(None), r[2..]) else Failure)
            else if |r| > 0 && r[0] == '}' then Success(None, r[1..])
            else Failure
  {
    if |r| > 1 {
      assert r[1..][1..] == r[2..];
    }
    var n := Number();
    var on := Optional(n);
    var tail := Second(Str(","), on);
    var ot := Optional(tail);
    assert RangeClosing() == First(ot, Str("}"));
    if |r| > 0 {
      NumberOn(r[1..]);
    }
    StrOn(",", r);
    SecondOn(Str(","), on, r);
    if |r| > 0 && r[0] == ',' {
      assert tail(r) == on(r[1..]);
      OptionalOn(n, r[1..]);
      OptionalOn(tail, r);
      if n(r[1..]).Success? {
        var r2 := n(r[1..]).remaining;
        assert ot(r) == Success(Some(Some(n(r[1..]).value)), r2);
        StrOn("}", r2);
        FirstOn(ot, Str("}"), r);
      } else {
        assert ot(r) == Success(Some(None), r[1..]);
        StrOn("}", r[1..]);
        FirstOn(ot, Str("}"), r);
      }
    } else {
      assert tail(r) == Failure;
      OptionalOn(tail, r);
      assert ot(r) == Success(None, r);
      StrOn("}", r);
      FirstOn(ot, Str("}"), r);
    }
  }

  /** RANGE_QUANTIFIER is "{m" and then the closing part; nothing in it throws. */
  lemma RangeQuantifierOn(s: string)
    ensures RangeQuantifier()(s) ==
            match RangeOpening()(s)
            case Success(m, r) => (match RangeClosing()(r)
                                   case Success(n, r2) => Success(RangeOf(Double(m, n)), r2)
                                   case _ => Failure)
            case _ => Failure
  {
    var o := RangeOpening();
    var c := RangeClosing();
    assert RangeQuantifier() == Map(Zip(o, c), RangeOf);
    if |s| > 0 {
      NumberOn(s[1..]);
    }
    RangeOpeningOn(s);
    MapOn(Zip(o, c), RangeOf, s);
    ZipOn(o, c, s);
    match o(s)
    case Success(m, r) =>
      RangeClosingOn(r);
    case _ =>
  }

  /** RANGE_QUANTIFIER never throws. */
  lemma RangeQuantifierNeverThrows(s: string)
    ensures !RangeQuantifier()(s).Thrown?
  {
    RangeQuantifierOn(s);
  }

  /** A non-empty run of digits. */
  predicate Digits(ds: string)
  {
    |ds| > 0 && forall i :: 0 <= i < |ds| ==> IsDigit(ds[i])
  }

  /** number() on digits followed by a non-digit. */
  lemma NumberBeforeNonDigit(ds: string, c: char, t: string)
    requires Digits(ds) && !IsDigit(c)
    ensures Number()(ds + [c] + t) == Success(DecimalValue(ds), [c] + t)
  {
    var s := ds + [c] + t;
    assert s[..|ds|] == ds;
    assert s[|ds|..] == [c] + t;
    NumberReadsDigits(s, |ds|);
  }

  /** "{m}" repeats exactly m times. */
  lemma RangeQuantifierExact(m: string, t: string)
    requires Digits(m)
    ensures RangeQuantifier()("{" + m + "}" + t) == Success(RangeType(DecimalValue(m), Some(DecimalValue(m))), t)
  {
    var s := "{" + m + "}" + t;
    var r := ['}'] + t;
    assert s[0] == '{' && s[1..] == m + [r[0]] + t;
    assert r[0] == '}' && r[1..] == t;
    NumberBeforeNonDigit(m, '}', t);
    RangeOpeningOn(s);
    RangeClosingOn(r);
    RangeQuantifierOn(s);
  }

  /** "{m,}" has no upper bound. */
  lemma RangeQuantifierAtLeast(m: string, t: string)
    requires Digits(m)
    ensures RangeQuantifier()("{" + m + ",}" + t) == Success(RangeType(DecimalValue(m), None), t)
  {
    var s := "{" + m + ",}" + t;
    var r := [','] + ("}" + t);
    assert s[0] == '{' && s[1..] == m + [','] + ("}" + t);
    assert r[0] == ',' && r[1..] == "}" + t && r[1] == '}' && r[2..] == t;
    NumberBeforeNonDigit(m, ',', "}" + t);
    RangeOpeningOn(s);
    RangeClosingOn(r);
    RangeQuantifierOn(s);
  }

  /** "{m,n}" is bounded by n, with no check that m <= n. */
  lemma RangeQuantifierBetween(m: string, n: string, t: string)
    requires Digits(m) && Digits(n)
    ensures RangeQuantifier()("{" + m + "," + n + "}" + t) ==
            Success(RangeType(DecimalValue(m), Some(DecimalValue(n))), t)
  {
    var s := "{" + m + "," + n + "}" + t;
    var r := [','] + (n + "}" + t);
    var r2 := ['}'] + t;
    assert s[0] == '{' && s[1..] == m + [','] + (n + "}" + t);
    assert r[0] == ',' && r[1..] == n + ['}'] + t;
    assert r2[0] == '}' && r2[1..] == t;
    NumberBeforeNonDigit(m, ',', n + "}" + t);
    NumberBeforeNonDigit(n, '}', t);
    RangeOpeningOn(s);
    RangeClosingOn(r);
    RangeQuantifierOn(s);
  }

  /** Without a digit right after '{', or without '{', RANGE_QUANTIFIER fails. */
  lemma RangeQuantifierRejects(s: string)
    requires s == [] || s[0] != '{' || |s| == 1 || !IsDigit(s[1])
    ensures RangeQuantifier()(s) == Failure
  {
    RangeOpeningOn(s);
    RangeQuantifierOn(s);
  }

  /** The quantifier type of '?', '*' and '+'. */
  function QuantifierTypeOf(c: char): QuantifierType
  {
    if c == '?' then ZeroOrOneType else if c == '*' then ZeroOrMoreType else OneOrMoreType
  }

  /** QUANTIFIER_TYPE: '?', '*', '+' or a range, tried in that order. */
  function QuantifierTypeParser(): Parser<QuantifierType>
  {
    OneOf([Map(Str("?"), (_: ()) => ZeroOrOneType),
           Map(Str("*"), (_: ()) => ZeroOrMoreType),
           Map(Str("+"), (_: ()) => OneOrMoreType),
           RangeQuantifier()])
  }

  /** A one-character symbol mapped to a constant. */
  lemma SymbolOn<B>(c: char, v: B, s: string)
    ensures Map(Str([c]), (_: ()) => v)(s) == if |s| > 0 && s[0] == c then Success(v, s[1..]) else Failure
  {
    MapOn(Str([c]), (_: ()) => v, s);
    StrOn([c], s);
  }

  /** QUANTIFIER_TYPE reads one of '?', '*', '+', and otherwise whatever RANGE_QUANTIFIER reads. */
  lemma QuantifierTypeOn(s: string)
    ensures QuantifierTypeParser()(s) ==
            if |s| > 0 && s[0] in Quantifiers then Success(QuantifierTypeOf(s[0]), s[1..])
            else RangeQuantifier()(s)
  {
    var a := Map(Str("?"), (_: ()) => ZeroOrOneType);
    var b := Map(Str("*"), (_: ()) => ZeroOrMoreType);
    var c := Map(Str("+"), (_: ()) => OneOrMoreType);
    var d := RangeQuantifier();
    assert "?" == ['?'] && "*" == ['*'] && "+" == ['+'];
    SymbolOn('?', ZeroOrOneType, s);
    SymbolOn('*', ZeroOrMoreType, s);
    SymbolOn('+', OneOrMoreType, s);
    OneOf4On(a, b, c, d, s);
  }

  /** QUANTIFIER: a quantifier type, made lazy by a following '?'. */
  function QuantifierParser(): Parser<Quantifier>
  {
    Map(Zip(QuantifierTypeParser(), OptionalB(Str("?"))),
        (r: Double<QuantifierType, bool>) => Quantifier(r.firstValue, r.secondValue))
  }

  /** QUANTIFIER_TYPE never throws. */
  lemma QuantifierTypeNeverThrows(s: string)
    ensures !QuantifierTypeParser()(s).Thrown?
  {
    RangeQuantifierNeverThrows(s);
    QuantifierTypeOn(s);
  }

  /** QUANTIFIER takes a '?' right after the quantifier type as the lazy mark, and never throws. */
  lemma QuantifierOn(s: string)
    ensures QuantifierParser()(s) ==
            match QuantifierTypeParser()(s)
            case Success(k, r) =>
              if |r| > 0 && r[0] == '?' then Success(Quantifier(k, true), r[1..])
              else Success(Quantifier(k, false), r)
            case _ => Failure
  {
    var qt := QuantifierTypeParser();
    var lazyMark := OptionalB(Str("?"));
    var f := (r: Double<QuantifierType, bool>) => Quantifier(r.firstValue, r.secondValue);
    assert QuantifierParser() == Map(Zip(qt, lazyMark), f);
    QuantifierTypeNeverThrows(s);
    MapOn(Zip(qt, lazyMark), f, s);
    ZipOn(qt, lazyMark, s);
    match qt(s)
    case Success(k, r) =>
      StrOn("?", r);
      OptionalBOn(Str("?"), r);
    case _ =>
  }

  /** QUANTIFIER never throws. */
  lemma QuantifierNeverThrows(s: string)
    ensures !QuantifierParser()(s).Thrown?
  {
    QuantifierOn(s);
  }

  /** '?', '*' or '+' gives its quantifier, lazy exactly when a second '?' follows. */
  lemma QuantifierOfSymbol(c: char, t: string)
    requires c in Quantifiers
    ensures QuantifierParser()([c] + t) ==
            if |t| > 0 && t[0] == '?' then Success(Quantifier(QuantifierTypeOf(c), true), t[1..])
            else Success(Quantifier(QuantifierTypeOf(c), false), t)
  {
    var s := [c] + t;
    assert s[0] == c && s[1..] == t;
    QuantifierTypeOn(s);
    QuantifierOn(s);
  }

  /** quantified(parser): the parser's unit, wrapped when a quantifier follows it. */
  function Quantified(p: Parser<Unit>): Parser<Unit>
  {
    Map(Zip(p, Optional(QuantifierParser())),
        (r: Double<Unit, Option<Quantifier>>) =>
          match r.secondValue
          case Some(k) => QuantifiedExpression(r.firstValue, k)
          case None => r.firstValue)
  }

  /** quantified(p) fails and throws as p does; after a success it takes a quantifier if one follows. */
  lemma QuantifiedOn(p: Parser<Unit>, s: string)
    ensures Quantified(p)(s) ==
            match p(s)
            case Success(u, r) => (match QuantifierParser()(r)
                                   case Success(k, r2) => Success(QuantifiedExpression(u, k), r2)
                                   case _ => Success(u, r))
            case Failure => Failure
            case Thrown(m) => Thrown(m)
  {
    var q := QuantifierParser();
    var oq := Optional(q);
    var f := (r: Double<Unit, Option<Quantifier>>) =>
               match r.secondValue
               case Some(k) => QuantifiedExpression(r.firstValue, k)
               case None => r.firstValue;
    assert Quantified(p) == Map(Zip(p, oq), f);
    MapOn(Zip(p, oq), f, s);
    ZipOn(p, oq, s);
    match p(s)
    case Success(u, r) =>
      QuantifierNeverThrows(r);
      OptionalOn(q, r);
    case _ =>
  }

  /** RANGE_QUANTIFIER consumes what it reads. */
  lemma RangeQuantifierConsumes(s: string)
    ensures RangeQuantifier()(s).Success? ==> |RangeQuantifier()(s).remaining| < |s|
  {
    RangeQuantifierOn(s);
    RangeOpeningOn(s);
    if |s| > 0 && s[0] == '{' {
      NumberOn(s[1..]);
      if Number()(s[1..]).Success? {
        var r := Number()(s[1..]).remaining;
        RangeClosingOn(r);
        if |r| > 0 {
          NumberOn(r[1..]);
        }
      }
    }
  }

  /** QUANTIFIER consumes what it reads. */
  lemma QuantifierConsumes(s: string)
    ensures QuantifierParser()(s).Success? ==> |QuantifierParser()(s).remaining| < |s|
  {
    QuantifierOn(s);
    QuantifierTypeOn(s);
    RangeQuantifierConsumes(s);
  }

  /** quantified(p) consumes whenever p does. */
  lemma QuantifiedSpec(p: Parser<Unit>)
    requires Consuming(p)
    ensures Consuming(Quantified(p))
  {
    forall s ensures Quantified(p)(s).Success? ==> |Quantified(p)(s).remaining| < |s| {
      QuantifiedOn(p, s);
      if p(s).Success? {
        QuantifierConsumes(p(s).remaining);
      }
    }
  }
}
