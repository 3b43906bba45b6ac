// grammar/Grammar.java, the recursive part of the grammar: SUB_EXPRESSION,
// EXPRESSION, GROUP and REGEX.
//
// In the Java grammar the three parsers refer to one another through lazy
// suppliers. Here each one is first written as a function of the parsers it
// refers to (SubExpressionWith, ExpressionWith, GroupWith). The recursion is
// then tied by three mutually recursive functions on the input
// (SubExpressionAt, ExpressionAt, GroupAt) that pass guarded parsers on:
// every recursive call is on an input no longer than the current one, and
// on a strictly shorter one where the recursion goes through a '(' or a '|'.
// The fixpoint lemmas show that the guards are never hit, so the parsers
// SubExpression(), Expression() and Group() are the ones of the Java grammar.
module GrammarExpressions {
  import opened Common
  import opened Parsing
  import opened Parsers
  import opened Combinators
  import opened Ast
  import opened GrammarAtoms
  import opened GrammarSets

  const NotQuantifiable := "The preceding token is not quantifiable"
  const PatternEmpty := "Pattern must not be empty"
  const UnmatchedOpening := "Unmatched opening parenthesis"
  const EmptyChildren := "Unexpected empty list of children"

  /** Grammar.flatten: one child stands for itself, several form an implicit group. */
  function Flatten(children: seq<Unit>): Result<Unit>
  {
    if children == [] then Err(EmptyChildren)
    else if |children| == 1 then Ok(children[0])
    else Ok(ImplicitGroup(children))
  }

  // The constructors of Unit, as the functions map applies.
  function AnchorUnitOf(k: AnchorKind): Unit { AnchorUnit(k) }
  function MatchUnitOf(m: Match): Unit { MatchUnit(m) }

  /** A parse result of a unit, with a quantifier taken after it when one follows. */
  function WithQuantifier(p: Parsed<Unit>): Parsed<Unit>
  {
    match p
    case Success(u, r) => (match QuantifierParser()(r)
                           case Success(k, r2) => Success(QuantifiedExpression(u, k), r2)
                           case _ => Success(u, r))
    case Failure => Failure
    case Thrown(m) => Thrown(m)
  }

  lemma QuantifiedIs(p: Parser<Unit>, s: string)
    ensures Quantified(p)(s) == WithQuantifier(p(s))
  {
    QuantifiedOn(p, s);
  }

  /** A quantifier never makes a unit fail, and consumes what it reads. */
  lemma WithQuantifierSpec(p: Parsed<Unit>)
    ensures WithQuantifier(p).Failure? <==> p.Failure?
    ensures WithQuantifier(p).Thrown? <==> p.Thrown?
    ensures p.Success? && WithQuantifier(p).Success? ==> |WithQuantifier(p).remaining| <= |p.remaining|
  {
    if p.Success? {
      QuantifierConsumes(p.remaining);
      QuantifierNeverThrows(p.remaining);
    }
  }

  function MatchAsUnit(p: Parsed<Match>): Parsed<Unit>
  {
    match p
    case Success(m, r) => Success(MatchUnit(m), r)
    case Failure => Failure
    case Thrown(msg) => Thrown(msg)
  }

  /**
   * What an alternative of SUB_EXPRESSION other than a group reads: an
   * anchor, then a back-reference, then a possibly quantified match; a
   * quantifier symbol with nothing before it throws.
   */
  function AtomOf(s: string): Parsed<Unit>
  {
    if StartsWithEscape(s, AnchorLetters) then
      AnchorOfLetters(s[1]);
      Success(AnchorUnit(AnchorOf(s[1]).value), s[2..])
    else if |s| > 0 && s[0] == '$' then Success(AnchorUnit(EndOfString), s[1..])
    else if |s| >= 2 && s[0] == '\\' && IsDigit(s[1]) then
      Success(BackReference(DecimalValue(s[1..][..Span(s[1..], IsDigit)])), s[1..][Span(s[1..], IsDigit)..])
    else if !MatchOf(s).Failure? then WithQuantifier(MatchAsUnit(MatchOf(s)))
    else if |s| > 0 && s[0] in Quantifiers then Thrown(NotQuantifiable)
    else Failure
  }

  /** The alternatives of SUB_EXPRESSION, tried in this order. */
  function SubItemWith(group: Parser<Unit>): Parser<Unit>
  {
    OneOf([Quantified(group),
           Map(AnchorParser(), AnchorUnitOf),
           BackReferenceParser(),
           Quantified(Map(MatchParser(), MatchUnitOf)),
           ZeroOrThrow<char, Unit>(CharFrom(Quantifiers), NotQuantifiable)])
  }

  /** AtomOf as a parser. */
  function AtomParser(): Parser<Unit>
  {
    s => AtomOf(s)
  }

  /**
   * The alternatives of SUB_EXPRESSION as one function of the input, in the
   * form SubItemOn gives them, with the alternatives other than a group
   * passed in (they are AtomParser()).
   */
  function SubItemAt(group: Parser<Unit>, atom: Parser<Unit>): Parser<Unit>
  {
    s => if !group(s).Failure? then WithQuantifier(group(s)) else atom(s)
  }

  lemma SubItemOn(group: Parser<Unit>, s: string)
    ensures SubItemWith(group)(s) == if !group(s).Failure? then WithQuantifier(group(s)) else AtomOf(s)
  {
    var a := Quantified(group);
    var b := Map(AnchorParser(), AnchorUnitOf);
    var c := BackReferenceParser();
    var d := Quantified(Map(MatchParser(), MatchUnitOf));
    var e := ZeroOrThrow<char, Unit>(CharFrom(Quantifiers), NotQuantifiable);
    assert SubItemWith(group) == OneOf([a, b, c, d, e]);
    OneOf5On(a, b, c, d, e, s);
    QuantifiedIs(group, s);
    WithQuantifierSpec(group(s));
    if group(s).Failure? {
      AnchorOn(s);
      MapOn(AnchorParser(), AnchorUnitOf, s);
      BackReferenceOn(s);
      QuantifiedIs(Map(MatchParser(), MatchUnitOf), s);
      MapOn(MatchParser(), MatchUnitOf, s);
      MatchOn(s);
      WithQuantifierSpec(MatchAsUnit(MatchOf(s)));
      CharFromOn(Quantifiers, s);
      ZeroOrThrowOn<char, Unit>(CharFrom(Quantifiers), NotQuantifiable, s);
    }
  }

  /** Outside a group, an alternative fails only at the end of the input, at ')' and at '|'. */
  lemma AtomOfSpec(s: string)
    ensures AtomOf(s).Failure? <==> s == [] || s[0] in ")|"
    ensures AtomOf(s).Success? ==> |AtomOf(s).remaining| < |s|
  {
    MatchOfSpec(s);
    WithQuantifierSpec(MatchAsUnit(MatchOf(s)));
    if |s| >= 2 && s[0] == '\\' && IsDigit(s[1]) {
      SpanSplits(s[1..], IsDigit);
    }
  }

  /** A parser that fails only at the end of the pattern, at ')' and at '|'. */
  ghost predicate StopsAtBoundary(p: Parser<Unit>)
  {
    forall x :: p(x).Failure? ==> x == [] || x[0] in ")|"
  }

  /** The alternatives other than a group consume what they read, and fail only at a boundary. */
  lemma AtomParserSpec()
    ensures Consuming(AtomParser())
    ensures StopsAtBoundary(AtomParser())
  {
    forall s ensures AtomParser()(s).Success? ==> |AtomParser()(s).remaining| < |s| {
      AtomOfSpec(s);
    }
    forall s ensures AtomParser()(s).Failure? ==> s == [] || s[0] in ")|" {
      AtomOfSpec(s);
    }
  }

  /** Every alternative consumes what it reads, when the group parser does. */
  lemma SubItemAtSpec(group: Parser<Unit>, atom: Parser<Unit>)
    requires Consuming(group) && Consuming(atom)
    ensures Consuming(SubItemAt(group, atom))
    ensures StopsAtBoundary(atom) ==> StopsAtBoundary(SubItemAt(group, atom))
  {
    forall s ensures SubItemAt(group, atom)(s).Success? ==> |SubItemAt(group, atom)(s).remaining| < |s| {
      WithQuantifierSpec(group(s));
    }
    forall s ensures SubItemAt(group, atom)(s).Failure? ==> atom(s).Failure? {
      WithQuantifierSpec(group(s));
    }
  }

  lemma SubItemSpec(group: Parser<Unit>)
    requires Consuming(group)
    ensures Consuming(SubItemWith(group))
  {
    forall s ensures SubItemWith(group)(s).Success? ==> |SubItemWith(group)(s).remaining| < |s| {
      SubItemOn(group, s);
      WithQuantifierSpec(group(s));
      AtomOfSpec(s);
    }
  }

  /** The alternatives agree where their group parsers agree. */
  lemma SubItemsAgree(g: Parser<Unit>, h: Parser<Unit>, atom: Parser<Unit>, bound: nat)
    requires AgreeUpTo(g, h, bound)
    ensures AgreeUpTo(SubItemAt(g, atom), SubItemAt(h, atom), bound)
  {
  }

  /** The value that SUB_EXPRESSION makes of the units it read. */
  function Flattened(r: Parsed<seq<Unit>>): Parsed<Unit>
  {
    match r
    case Success(units, rest) => (match Flatten(units)
                                  case Ok(u) => Success(u, rest)
                                  case Err(m) => Thrown(m))
    case Failure => Failure
    case Thrown(m) => Thrown(m)
  }

  /** SUB_EXPRESSION's repetition of one item parser, flattened. */
  function SubExpressionOf(item: Parser<Unit>): Parser<Unit>
    requires Consuming(item)
  {
    MapTry(OrThrow(OneOrMore(item), PatternEmpty), Flatten)
  }

  /** An empty repetition throws; otherwise the items repeat as long as one applies. */
  function Repeated(item: Parser<Unit>, s: string): Parsed<Unit>
    requires Consuming(item)
  {
    if item(s).Failure? then Thrown(PatternEmpty) else Flattened(Many(item, s))
  }

  lemma SubExpressionOfOn(item: Parser<Unit>, s: string)
    requires Consuming(item)
    ensures SubExpressionOf(item)(s) == Repeated(item, s)
  {
    var o := OrThrow(OneOrMore(item), PatternEmpty);
    MapTryOn(o, Flatten, s);
    OrThrowOn(OneOrMore(item), PatternEmpty, s);
    OneOrMoreOn(item, s);
  }

  /** The repetition reads only what its item parser does on inputs no longer than its own. */
  lemma RepeatedAgree(i: Parser<Unit>, j: Parser<Unit>, s: string)
    requires Consuming(i) && Consuming(j)
    requires AgreeUpTo(i, j, |s|)
    ensures Repeated(i, s) == Repeated(j, s)
  {
    ManyAgree(i, j, s, |s|);
  }

  /** The repetition never fails, consumes what it reads and stops where the item parser fails. */
  lemma RepeatedSpec(item: Parser<Unit>, s: string)
    requires Consuming(item)
    ensures !Repeated(item, s).Failure?
    ensures Repeated(item, s).Success? ==>
              |Repeated(item, s).remaining| < |s| && item(Repeated(item, s).remaining).Failure?
    ensures Repeated(item, s).Success? && StopsAtBoundary(item) ==>
              var r := Repeated(item, s).remaining; r == [] || r[0] in ")|"
  {
  }

  /** SUB_EXPRESSION, given the parser of groups. */
  function SubExpressionWith(group: Parser<Unit>): Parser<Unit>
    requires Consuming(group)
  {
    SubItemSpec(group);
    SubExpressionOf(SubItemWith(group))
  }

  /** SUB_EXPRESSION repeats the alternatives in the form SubItemOn gives them. */
  lemma SubExpressionWithOn(group: Parser<Unit>, s: string)
    requires Consuming(group)
    ensures Consuming(SubItemAt(group, AtomParser()))
    ensures SubExpressionWith(group)(s) == Repeated(SubItemAt(group, AtomParser()), s)
  {
    SubItemSpec(group);
    AtomParserSpec();
    SubItemAtSpec(group, AtomParser());
    assert AgreeUpTo(SubItemWith(group), SubItemAt(group, AtomParser()), |s|) by {
      forall x: string | |x| <= |s| ensures SubItemWith(group)(x) == SubItemAt(group, AtomParser())(x) {
        SubItemOn(group, x);
      }
    }
    SubExpressionOfOn(SubItemWith(group), s);
    RepeatedAgree(SubItemWith(group), SubItemAt(group, AtomParser()), s);
  }

  /** What follows "lhs|": the alternation when the right-hand side parsed, lhs alone when it failed. */
  function Alternatives(lhs: Unit, r: string, rhs: Parsed<Unit>): Parsed<Unit>
  {
    match rhs
    case Success(u, r2) => Success(Alternation([lhs, u]), r2)
    case Failure => Success(lhs, r)
    case Thrown(m) => Thrown(m)
  }

  function AlternationOf(r: Double<Unit, Option<Unit>>): Unit
  {
    match r.secondValue
    case Some(rhs) => Alternation([r.firstValue, rhs])
    case None => r.firstValue
  }

  /** EXPRESSION, given the parsers of sub-expressions and of expressions. */
  function ExpressionWith(sub: Parser<Unit>, expr: Parser<Unit>): Parser<Unit>
  {
    Map(Zip(sub, Optional(Second(Str("|"), Lazy(() => expr)))), AlternationOf)
  }

  /**
   * A sub-expression, then optionally '|' and an expression; when the
   * right-hand side fails, the '|' is left unread.
   */
  lemma ExpressionWithOn(sub: Parser<Unit>, expr: Parser<Unit>, s: string)
    ensures ExpressionWith(sub, expr)(s) ==
            match sub(s)
            case Success(lhs, r) => if |r| > 0 && r[0] == '|' then Alternatives(lhs, r, expr(r[1..])) else Success(lhs, r)
            case Failure => Failure
            case Thrown(m) => Thrown(m)
  {
    var rhs := Second(Str("|"), Lazy(() => expr));
    var o := Optional(rhs);
    assert ExpressionWith(sub, expr) == Map(Zip(sub, o), AlternationOf);
    MapOn(Zip(sub, o), AlternationOf, s);
    ZipOn(sub, o, s);
    if sub(s).Success? {
      var r := sub(s).remaining;
      OptionalOn(rhs, r);
      SecondOn(Str("|"), Lazy(() => expr), r);
      StrOn("|", r);
      if |r| > 0 {
        LazyOn(() => expr, r[1..]);
      }
    }
  }

  /** What follows the opening of GROUP: an expression and the closing parenthesis. */
  function GroupBody(isCapturing: bool, inner: Parsed<Unit>): Parsed<Unit>
  {
    match inner
    case Success(u, r) =>
      if |r| > 0 && r[0] == ')' then Success(Group(None, isCapturing, [u]), r[1..])
      else Thrown(UnmatchedOpening)
    case Failure => Failure
    case Thrown(m) => Thrown(m)
  }

  /** The value of GROUP: no index yet, and the flag set exactly when "?:" was read. */
  function GroupUnitOf(r: Double<bool, Unit>): Unit
  {
    Group(None, r.firstValue, [r.secondValue])
  }

  /** GROUP, given the parser of expressions. */
  function GroupWith(expr: Parser<Unit>): Parser<Unit>
  {
    Map(Zip(Second(Str("("), OptionalB(Str("?:"))),
            First(expr, OrThrow(Str(")"), UnmatchedOpening))),
        GroupUnitOf)
  }

  /** Does the group open with "(?:"? */
  predicate OpensWithFlag(s: string)
  {
    |s| >= 3 && s[0] == '(' && s[1] == '?' && s[2] == ':'
  }

  /** The input after "(" or "(?:". */
  function GroupInside(s: string): (t: string)
    requires |s| > 0
    ensures |t| < |s|
    ensures OpensWithFlag(s) ==> "(?:" + t == s
    ensures !OpensWithFlag(s) ==> [s[0]] + t == s
  {
    if OpensWithFlag(s) then s[3..] else s[1..]
  }

  /** '(' then an optional "?:", an expression and ')'; a missing ')' throws. */
  lemma GroupWithOn(expr: Parser<Unit>, s: string)
    ensures GroupWith(expr)(s) ==
            if s == [] || s[0] != '(' then Failure else GroupBody(OpensWithFlag(s), expr(GroupInside(s)))
  {
    var open := Second(Str("("), OptionalB(Str("?:")));
    var body := First(expr, OrThrow(Str(")"), UnmatchedOpening));
    assert GroupWith(expr) == Map(Zip(open, body), GroupUnitOf);
    MapOn(Zip(open, body), GroupUnitOf, s);
    ZipOn(open, body, s);
    SecondOn(Str("("), OptionalB(Str("?:")), s);
    StrOn("(", s);
    if s != [] && s[0] == '(' {
      var t := GroupInside(s);
      StrOn("?:", s[1..]);
      OptionalBOn(Str("?:"), s[1..]);
      if OpensWithFlag(s) {
        assert s[1..][2..] == s[3..];
      }
      assert open(s) == Success(OpensWithFlag(s), t);
      FirstOn(expr, OrThrow(Str(")"), UnmatchedOpening), t);
      if expr(t).Success? {
        var r := expr(t).remaining;
        StrOn(")", r);
        OrThrowOn(Str(")"), UnmatchedOpening, r);
      }
    }
  }

  /** EXPRESSION consumes what it reads, when its left-hand side does. */
  lemma ExpressionWithSpec(sub: Parser<Unit>, expr: Parser<Unit>)
    requires Consuming(sub) && NonGrowing(expr)
    ensures Consuming(ExpressionWith(sub, expr))
  {
    forall s ensures ExpressionWith(sub, expr)(s).Success? ==> |ExpressionWith(sub, expr)(s).remaining| < |s| {
      ExpressionWithOn(sub, expr, s);
    }
  }

  /** GROUP consumes what it reads. */
  lemma GroupWithSpec(expr: Parser<Unit>)
    requires NonGrowing(expr)
    ensures Consuming(GroupWith(expr))
  {
    forall s ensures GroupWith(expr)(s).Success? ==> |GroupWith(expr)(s).remaining| < |s| {
      GroupWithOn(expr, s);
    }
  }

  // The recursion. Each function is measured by the length of its input and
  // then by its rank in the order GroupAt < GroupUpTo < SubExpressionAt <
  // ExpressionAt. GroupAt and ExpressionAt call ExpressionAt on what follows
  // a '(' or a '|', which is shorter; SubExpressionAt hands the repetition a
  // group parser that is cut off above the length of its input. The
  // alternatives of SUB_EXPRESSION other than a group are the parameter
  // atom throughout; the grammar's parsers below pass AtomParser().

  /** GROUP on one input, in the form GroupWithOn gives it. */
  function GroupAt(atom: Parser<Unit>, s: string): (r: Parsed<Unit>)
    requires Consuming(atom) && StopsAtBoundary(atom)
    ensures r.Success? ==> |r.remaining| < |s|
    decreases |s|, 0
  {
    if s == [] || s[0] != '(' then Failure else GroupBody(OpensWithFlag(s), ExpressionAt(atom, GroupInside(s)))
  }

  /** The group parser on inputs no longer than n; it fails on longer ones. */
  function GroupUpTo(atom: Parser<Unit>, n: nat): (g: Parser<Unit>)
    requires Consuming(atom) && StopsAtBoundary(atom)
    ensures Consuming(g)
    decreases n, 1
  {
    x => if |x| <= n then GroupAt(atom, x) else Failure
  }

  /** SUB_EXPRESSION on one input. */
  function SubExpressionAt(atom: Parser<Unit>, s: string): (r: Parsed<Unit>)
    requires Consuming(atom) && StopsAtBoundary(atom)
    ensures !r.Failure?
    ensures r.Success? ==> |r.remaining| < |s|
    ensures r.Success? ==> r.remaining == [] || r.remaining[0] in ")|"
    decreases |s|, 2
  {
    SubItemAtSpec(GroupUpTo(atom, |s|), atom);
    RepeatedSpec(SubItemAt(GroupUpTo(atom, |s|), atom), s);
    Repeated(SubItemAt(GroupUpTo(atom, |s|), atom), s)
  }

  /** EXPRESSION on one input, in the form ExpressionWithOn gives it. */
  function ExpressionAt(atom: Parser<Unit>, s: string): (r: Parsed<Unit>)
    requires Consuming(atom) && StopsAtBoundary(atom)
    ensures !r.Failure?
    ensures r.Success? ==> |r.remaining| < |s|
    ensures r.Success? ==> r.remaining == [] || r.remaining[0] == ')'
    decreases |s|, 3
  {
    match SubExpressionAt(atom, s)
    case Success(lhs, r) => if |r| > 0 && r[0] == '|' then Alternatives(lhs, r, ExpressionAt(atom, r[1..])) else Success(lhs, r)
    case Failure => Failure
    case Thrown(m) => Thrown(m)
  }

  /** Grammar.GROUP. */
  function GroupParser(): Parser<Unit>
  {
    AtomParserSpec();
    s => GroupAt(AtomParser(), s)
  }

  /** Grammar.SUB_EXPRESSION. */
  function SubExpressionParser(): Parser<Unit>
  {
    AtomParserSpec();
    s => SubExpressionAt(AtomParser(), s)
  }

  /** Grammar.EXPRESSION. */
  function ExpressionParser(): Parser<Unit>
  {
    AtomParserSpec();
    s => ExpressionAt(AtomParser(), s)
  }

  /** A group consumes at least its opening parenthesis. */
  lemma GroupParserSpec()
    ensures Consuming(GroupParser())
  {
  }

  /** GROUP is its own definition with EXPRESSION in it. */
  lemma GroupFix(s: string)
    ensures GroupParser()(s) == GroupWith(ExpressionParser())(s)
  {
    GroupWithOn(ExpressionParser(), s);
  }

  /** EXPRESSION is its own definition with SUB_EXPRESSION and EXPRESSION in it. */
  lemma ExpressionFix(s: string)
    ensures ExpressionParser()(s) == ExpressionWith(SubExpressionParser(), ExpressionParser())(s)
  {
    ExpressionWithOn(SubExpressionParser(), ExpressionParser(), s);
  }

  /** SUB_EXPRESSION on one input repeats its alternatives with any group parser that agrees with GROUP there. */
  lemma SubExpressionAtIs(atom: Parser<Unit>, g: Parser<Unit>, s: string)
    requires Consuming(atom) && StopsAtBoundary(atom) && Consuming(g)
    requires AgreeUpTo(GroupUpTo(atom, |s|), g, |s|)
    ensures Consuming(SubItemAt(g, atom))
    ensures SubExpressionAt(atom, s) == Repeated(SubItemAt(g, atom), s)
  {
    SubItemAtSpec(GroupUpTo(atom, |s|), atom);
    SubItemAtSpec(g, atom);
    SubItemsAgree(GroupUpTo(atom, |s|), g, atom, |s|);
    RepeatedAgree(SubItemAt(GroupUpTo(atom, |s|), atom), SubItemAt(g, atom), s);
  }

  /** SUB_EXPRESSION is its own definition with GROUP in it: the cut-off is never reached. */
  lemma SubExpressionFix(s: string)
    ensures Consuming(GroupParser())
    ensures SubExpressionParser()(s) == SubExpressionWith(GroupParser())(s)
  {
    AtomParserSpec();
    assert AgreeUpTo(GroupUpTo(AtomParser(), |s|), GroupParser(), |s|);
    SubExpressionAtIs(AtomParser(), GroupParser(), s);
    SubExpressionWithOn(GroupParser(), s);
  }

  /** The value of REGEX. */
  function AstOf(r: Double<bool, Unit>): AST
  {
    AST(r.firstValue, r.secondValue)
  }

  /** Grammar.REGEX: an optional '^', an expression and the end of the pattern. */
  function RegexParser(): Parser<AST>
  {
    Map(Zip(OptionalB(Str("^")), First(ExpressionParser(), EndOfPattern())), AstOf)
  }

  /** Does the pattern start with '^'? */
  predicate Anchored(s: string)
  {
    |s| > 0 && s[0] == '^'
  }

  /** What REGEX makes of the expression after the optional '^'. */
  function RegexEnd(anchored: bool, e: Parsed<Unit>): Parsed<AST>
  {
    match e
    case Success(u, r) =>
      if r == [] then Success(AST(anchored, u), [])
      else if r[0] == ')' then Thrown(UnmatchedClosing)
      else Failure
    case Failure => Failure
    case Thrown(m) => Thrown(m)
  }

  lemma RegexOn(s: string)
    ensures RegexParser()(s) ==
            RegexEnd(Anchored(s), ExpressionParser()(if Anchored(s) then s[1..] else s))
  {
    var caret := OptionalB(Str("^"));
    var body := First(ExpressionParser(), EndOfPattern());
    assert RegexParser() == Map(Zip(caret, body), AstOf);
    MapOn(Zip(caret, body), AstOf, s);
    ZipOn(caret, body, s);
    StrOn("^", s);
    OptionalBOn(Str("^"), s);
    var t := if Anchored(s) then s[1..] else s;
    FirstOn(ExpressionParser(), EndOfPattern(), t);
    if ExpressionParser()(t).Success? {
      EndOfPatternOn(ExpressionParser()(t).remaining);
    }
  }

  /**
   * A pattern is either read whole or rejected with an exception: REGEX
   * never fails, and every success leaves nothing of the input.
   */
  lemma RegexWhole(s: string)
    ensures !RegexParser()(s).Failure?
    ensures RegexParser()(s).Success? ==> RegexParser()(s).remaining == []
    ensures RegexParser()(s).Success? ==> RegexParser()(s).value.isFromStartOfString == Anchored(s)
  {
    RegexOn(s);
  }
}
