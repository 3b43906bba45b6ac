// The cases of GrammarTest.testExpression, testGroup and testRegex
// (grammar/GrammarTest.java), proved from general lemmas about one
// character, one alternation and the end of the pattern.
module GrammarVectors {
  import opened Common
  import opened Parsing
  import opened Ast
  import opened GrammarAtoms
  import opened GrammarSets
  import opened GrammarExpressions

  /** A plain character of a pattern: not special to MATCH, not an anchor and not a group. */
  predicate Plain(c: char)
  {
    c !in ".[\\$(" + NotMatched
  }

  function CharUnit(c: char): Unit { MatchUnit(CharacterMatch(c)) }

  /** The item parser SUB_EXPRESSION repeats on an input of length n. */
  function Items(n: nat): Parser<Unit>
  {
    AtomParserSpec();
    SubItemAt(GroupUpTo(AtomParser(), n), AtomParser())
  }

  /** No quantifier starts here. */
  lemma NoQuantifier(t: string)
    requires t == [] || t[0] !in Quantifiers + "{"
    ensures QuantifierParser()(t).Failure?
  {
    QuantifierOn(t);
    QuantifierTypeOn(t);
    RangeQuantifierOn(t);
    RangeOpeningOn(t);
  }

  /** Where no group opens, the group parser fails. */
  lemma GroupAtFails(atom: Parser<Unit>, s: string)
    requires Consuming(atom) && StopsAtBoundary(atom)
    requires s == [] || s[0] != '('
    ensures GroupAt(atom, s) == Failure
  {
  }

  /** Where no group opens, an item is what the other alternatives make of it. */
  lemma ItemsAtNoGroup(atom: Parser<Unit>, n: nat, s: string)
    requires Consuming(atom) && StopsAtBoundary(atom)
    requires s == [] || s[0] != '('
    ensures SubItemAt(GroupUpTo(atom, n), atom)(s) == atom(s)
  {
    GroupAtFails(atom, s);
  }

  lemma ItemNoGroup(n: nat, s: string)
    requires s == [] || s[0] != '('
    ensures Items(n)(s) == AtomOf(s)
  {
    AtomParserSpec();
    ItemsAtNoGroup(AtomParser(), n, s);
  }

  lemma AtomOfCharacter(c: char, t: string)
    requires Plain(c)
    requires t == [] || t[0] !in Quantifiers + "{"
    ensures AtomOf([c] + t) == Success(CharUnit(c), t)
  {
    var s := [c] + t;
    assert s[0] == c && s[1..] == t;
    MatchOfCharacter(c, t);
    NoQuantifier(t);
  }

  lemma ItemCharacter(n: nat, c: char, t: string)
    requires Plain(c)
    requires t == [] || t[0] !in Quantifiers + "{"
    ensures Items(n)([c] + t) == Success(CharUnit(c), t)
  {
    assert ([c] + t)[0] == c;
    ItemNoGroup(n, [c] + t);
    AtomOfCharacter(c, t);
  }

  /** '$' is the end-of-string anchor and takes no quantifier. */
  lemma AtomOfDollar(t: string)
    ensures AtomOf(['$'] + t) == Success(AnchorUnit(EndOfString), t)
  {
    var s := ['$'] + t;
    assert s[0] == '$' && s[1..] == t;
  }

  lemma ItemDollar(n: nat, t: string)
    ensures Items(n)(['$'] + t) == Success(AnchorUnit(EndOfString), t)
  {
    var s := ['$'] + t;
    assert s[0] == '$' && s[1..] == t;
    ItemNoGroup(n, s);
  }

  lemma ItemStop(n: nat, t: string)
    requires t == [] || t[0] in ")|"
    ensures Items(n)(t).Failure?
  {
    ItemNoGroup(n, t);
    AtomOfSpec(t);
  }

  /** A quantifier symbol with nothing before it. */
  lemma ItemQuantifier(n: nat, c: char, t: string)
    requires c in Quantifiers
    ensures Items(n)([c] + t) == Thrown(NotQuantifiable)
  {
    var s := [c] + t;
    assert s[0] == c;
    ItemNoGroup(n, s);
    AtomOfQuantifier(c, t);
  }

  lemma AtomOfQuantifier(c: char, t: string)
    requires c in Quantifiers
    ensures AtomOf([c] + t) == Thrown(NotQuantifiable)
  {
    var s := [c] + t;
    assert s[0] == c;
    MatchOfSpec(s);
  }

  /** One unit, then the end of the sub-expression. */
  lemma SubExpressionOne(item: Parser<Unit>, s: string, u: Unit, t: string)
    requires Consuming(item)
    requires item(s) == Success(u, t) && item(t).Failure?
    ensures Repeated(item, s) == Success(u, t)
  {
    assert Many(item, t) == Success([], t);
    assert Many(item, s) == Success([u] + [], t);
    assert [u] + [] == [u];
  }

  /** Two units, then the end of the sub-expression: an implicit group. */
  lemma SubExpressionTwo(item: Parser<Unit>, s: string, u: Unit, t: string, v: Unit, w: string)
    requires Consuming(item)
    requires item(s) == Success(u, t) && item(t) == Success(v, w) && item(w).Failure?
    ensures Repeated(item, s) == Success(ImplicitGroup([u, v]), w)
  {
    assert [v] + [] == [v];
    assert Many(item, t) == Success([v], w);
    assert [u] + [v] == [u, v];
    assert Many(item, s) == Success([u, v], w);
  }

  // The same on SubExpressionAt where no group opens, for any parser of
  // the other alternatives.

  lemma SubExpressionAtUnfold(atom: Parser<Unit>, s: string)
    requires Consuming(atom) && StopsAtBoundary(atom)
    ensures Consuming(SubItemAt(GroupUpTo(atom, |s|), atom))
    ensures SubExpressionAt(atom, s) == Repeated(SubItemAt(GroupUpTo(atom, |s|), atom), s)
  {
    SubItemAtSpec(GroupUpTo(atom, |s|), atom);
  }

  predicate NoGroup(s: string)
  {
    s == [] || s[0] != '('
  }

  lemma SubExpressionAtOne(atom: Parser<Unit>, s: string, u: Unit, t: string)
    requires Consuming(atom) && StopsAtBoundary(atom)
    requires NoGroup(s) && NoGroup(t)
    requires atom(s) == Success(u, t) && atom(t).Failure?
    ensures SubExpressionAt(atom, s) == Success(u, t)
  {
    SubExpressionAtUnfold(atom, s);
    ItemsAtNoGroup(atom, |s|, s);
    ItemsAtNoGroup(atom, |s|, t);
    SubExpressionOne(SubItemAt(GroupUpTo(atom, |s|), atom), s, u, t);
  }

  lemma SubExpressionAtTwo(atom: Parser<Unit>, s: string, u: Unit, t: string, v: Unit, w: string)
    requires Consuming(atom) && StopsAtBoundary(atom)
    requires NoGroup(s) && NoGroup(t) && NoGroup(w)
    requires atom(s) == Success(u, t) && atom(t) == Success(v, w) && atom(w).Failure?
    ensures SubExpressionAt(atom, s) == Success(ImplicitGroup([u, v]), w)
  {
    SubExpressionAtUnfold(atom, s);
    ItemsAtNoGroup(atom, |s|, s);
    ItemsAtNoGroup(atom, |s|, t);
    ItemsAtNoGroup(atom, |s|, w);
    SubExpressionTwo(SubItemAt(GroupUpTo(atom, |s|), atom), s, u, t, v, w);
  }

  lemma SubExpressionAtNone(atom: Parser<Unit>, s: string)
    requires Consuming(atom) && StopsAtBoundary(atom)
    requires NoGroup(s) && atom(s).Failure?
    ensures SubExpressionAt(atom, s) == Thrown(PatternEmpty)
  {
    SubExpressionAtUnfold(atom, s);
    ItemsAtNoGroup(atom, |s|, s);
  }

  lemma SubExpressionAtThrows(atom: Parser<Unit>, s: string, m: string)
    requires Consuming(atom) && StopsAtBoundary(atom)
    requires NoGroup(s) && atom(s) == Thrown(m)
    ensures SubExpressionAt(atom, s) == Thrown(m)
  {
    SubExpressionAtUnfold(atom, s);
    ItemsAtNoGroup(atom, |s|, s);
  }

  lemma SubExpressionCharacter(c: char, t: string)
    requires Plain(c)
    requires t == [] || t[0] in ")|"
    ensures Consuming(AtomParser()) && StopsAtBoundary(AtomParser())
    ensures SubExpressionAt(AtomParser(), [c] + t) == Success(CharUnit(c), t)
  {
    AtomParserSpec();
    var s := [c] + t;
    assert s[0] == c;
    AtomOfCharacter(c, t);
    AtomOfSpec(t);
    SubExpressionAtOne(AtomParser(), s, CharUnit(c), t);
  }

  lemma SubExpressionEmpty(t: string)
    requires t == [] || t[0] in ")|"
    ensures Consuming(AtomParser()) && StopsAtBoundary(AtomParser())
    ensures SubExpressionAt(AtomParser(), t) == Thrown(PatternEmpty)
  {
    AtomParserSpec();
    AtomOfSpec(t);
    SubExpressionAtNone(AtomParser(), t);
  }

  lemma ExpressionCharacter(c: char, t: string)
    requires Plain(c)
    requires t == [] || t[0] == ')'
    ensures Consuming(AtomParser()) && StopsAtBoundary(AtomParser())
    ensures ExpressionAt(AtomParser(), [c] + t) == Success(CharUnit(c), t)
  {
    SubExpressionCharacter(c, t);
  }

  lemma ExpressionAlternation(c: char, d: char, t: string)
    requires Plain(c) && Plain(d)
    requires t == [] || t[0] == ')'
    ensures Consuming(AtomParser()) && StopsAtBoundary(AtomParser())
    ensures ExpressionAt(AtomParser(), [c] + (['|'] + ([d] + t))) ==
            Success(Alternation([CharUnit(c), CharUnit(d)]), t)
  {
    var r := ['|'] + ([d] + t);
    assert r[0] == '|' && r[1..] == [d] + t;
    SubExpressionCharacter(c, r);
    ExpressionCharacter(d, t);
  }

  lemma ExpressionDangling(c: char)
    requires Plain(c)
    ensures Consuming(AtomParser()) && StopsAtBoundary(AtomParser())
    ensures ExpressionAt(AtomParser(), [c, '|']) == Thrown(PatternEmpty)
  {
    var r := ['|'];
    assert [c] + r == [c, '|'] && r[1..] == [];
    SubExpressionCharacter(c, r);
    SubExpressionEmpty([]);
  }

  lemma AlternationAt(s: string)
    requires s == ['a'] + (['|'] + (['b'] + ""))
    ensures ExpressionParser()(s) == Success(Alternation([CharUnit('a'), CharUnit('b')]), "")
  {
    ExpressionAlternation('a', 'b', "");
  }

  lemma CharacterAt(s: string)
    requires s == ['a'] + ""
    ensures ExpressionParser()(s) == Success(CharUnit('a'), "")
  {
    ExpressionCharacter('a', "");
  }

  lemma DanglingAt(s: string)
    requires s == ['a', '|']
    ensures ExpressionParser()(s) == Thrown(PatternEmpty)
  {
    ExpressionDangling('a');
  }

  lemma NothingAt(s: string)
    requires s == [] || s == ['|']
    ensures ExpressionParser()(s) == Thrown(PatternEmpty)
  {
    SubExpressionEmpty(s);
  }

  /** GrammarTest.testExpression. */
  lemma ExpressionVectors()
    ensures ExpressionParser()("a|b") == Success(Alternation([CharUnit('a'), CharUnit('b')]), "")
    ensures ExpressionParser()("a") == Success(CharUnit('a'), "")
    ensures ExpressionParser()("") == Thrown(PatternEmpty)
    ensures ExpressionParser()("a|") == Thrown(PatternEmpty)
    ensures ExpressionParser()("|") == Thrown(PatternEmpty)
  {
    AlternationAt("a|b");
    CharacterAt("a");
    NothingAt("");
    DanglingAt("a|");
    NothingAt("|");
  }

  /** A group of one character, with or without "?:". */
  lemma GroupCharacter(flag: bool, c: char, t: string)
    requires Plain(c)
    ensures Consuming(AtomParser()) && StopsAtBoundary(AtomParser())
    ensures GroupAt(AtomParser(), (if flag then "(?:" else "(") + ([c] + ([')'] + t))) ==
            Success(Group(None, flag, [CharUnit(c)]), t)
  {
    var inner := [c] + ([')'] + t);
    var s := (if flag then "(?:" else "(") + inner;
    assert s[0] == '(';
    assert OpensWithFlag(s) == flag;
    assert GroupInside(s) == inner;
    ExpressionCharacter(c, [')'] + t);
    assert ([')'] + t)[1..] == t;
  }

  lemma PlainGroupAt(s: string)
    requires s == "(" + (['a'] + ([')'] + ""))
    ensures GroupParser()(s) == Success(Group(None, false, [CharUnit('a')]), "")
  {
    GroupCharacter(false, 'a', "");
  }

  lemma FlaggedGroupAt(s: string)
    requires s == "(?:" + (['a'] + ([')'] + ""))
    ensures GroupParser()(s) == Success(Group(None, true, [CharUnit('a')]), "")
  {
    GroupCharacter(true, 'a', "");
  }

  /** GrammarTest.testGroup. */
  lemma GroupVectors()
    ensures GroupParser()("(a)") == Success(Group(None, false, [CharUnit('a')]), "")
    ensures GroupParser()("(?:a)") == Success(Group(None, true, [CharUnit('a')]), "")
    ensures GroupParser()("(?a)") == Thrown(NotQuantifiable)
    ensures GroupParser()("()") == Thrown(PatternEmpty)
  {
    PlainGroupAt("(a)");
    FlaggedGroupAt("(?:a)");
    GroupQuestion();
    GroupEmpty();
  }

  lemma GroupQuestion()
    ensures Consuming(AtomParser()) && StopsAtBoundary(AtomParser())
    ensures GroupAt(AtomParser(), "(?a)") == Thrown(NotQuantifiable)
  {
    var s := "(?a)";
    var inner := "?a)";
    assert !OpensWithFlag(s) && GroupInside(s) == inner;
    AtomParserSpec();
    AtomOfQuantifier('?', "a)");
    assert ['?'] + "a)" == inner;
    SubExpressionAtThrows(AtomParser(), inner, NotQuantifiable);
  }

  lemma GroupEmpty()
    ensures Consuming(AtomParser()) && StopsAtBoundary(AtomParser())
    ensures GroupAt(AtomParser(), "()") == Thrown(PatternEmpty)
  {
    var s := "()";
    assert !OpensWithFlag(s) && GroupInside(s) == ")";
    SubExpressionEmpty(")");
  }

  /** Two atoms, then nothing the atom parser reads: an implicit group of the two. */
  lemma SubExpressionTwoAtoms(s: string, u: Unit, t: string, v: Unit, w: string)
    requires NoGroup(s) && NoGroup(t) && NoGroup(w)
    requires AtomOf(s) == Success(u, t) && AtomOf(t) == Success(v, w) && AtomOf(w).Failure?
    ensures Consuming(AtomParser()) && StopsAtBoundary(AtomParser())
    ensures SubExpressionAt(AtomParser(), s) == Success(ImplicitGroup([u, v]), w)
  {
    AtomParserSpec();
    SubExpressionAtTwo(AtomParser(), s, u, t, v, w);
  }

  lemma CharacterDollar(c: char)
    requires Plain(c)
    ensures Consuming(AtomParser()) && StopsAtBoundary(AtomParser())
    ensures ExpressionAt(AtomParser(), [c, '$']) == Success(ImplicitGroup([CharUnit(c), AnchorUnit(EndOfString)]), [])
  {
    AtomOfCharacter(c, ['$']);
    assert [c] + ['$'] == [c, '$'];
    AtomOfDollar([]);
    assert ['$'] + [] == ['$'];
    AtomOfSpec([]);
    SubExpressionTwoAtoms([c, '$'], CharUnit(c), ['$'], AnchorUnit(EndOfString), []);
  }

  lemma ExpressionCharacterDollar()
    ensures Consuming(AtomParser()) && StopsAtBoundary(AtomParser())
    ensures ExpressionAt(AtomParser(), "a$") == Success(ImplicitGroup([CharUnit('a'), AnchorUnit(EndOfString)]), "")
  {
    CharacterDollar('a');
  }

  /** GrammarTest.testRegex: "^a$" is anchored, and its root is the implicit group of 'a' and '$'. */
  lemma RegexVector()
    ensures RegexParser()("^a$") ==
            Success(AST(true, ImplicitGroup([CharUnit('a'), AnchorUnit(EndOfString)])), "")
  {
    var s := "^a$";
    assert Anchored(s) && s[1..] == "a$";
    RegexOn(s);
    ExpressionCharacterDollar();
  }
}
