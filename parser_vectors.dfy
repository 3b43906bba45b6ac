// Input/output vectors of the tests in parser/ParsersTest.java and
// parser/ParserCombinatorTest.java, proved about the model.
module ParserVectors {
  import opened Common
  import opened Parsing
  import opened Parsers
  import opened Combinators

  lemma StrMatch(p: string, s: string)
    requires p <= s
    ensures Str(p)(s) == Success((), s[|p|..])
  {
  }

  lemma FilterExamples()
    ensures Filter(CharParser(), c => c == 'a')("abcd") == Success('a', "bcd")
    ensures Filter(CharParser(), c => c == 'b')("abcd") == Failure
  {
  }

  lemma FlatMapExample()
    ensures FlatMap(CharParser(), (_: char) => Digit())("21") == Success('1', "")
  {
    assert "21"[1..] == "1";
  }

  /** zip of four parsers, step by step. */
  lemma Zip4Steps<A, B, C, D>(a: Parser<A>, b: Parser<B>, c: Parser<C>, d: Parser<D>,
                              s0: string, va: A, s1: string, vb: B, s2: string, vc: C, s3: string, vd: D, s4: string)
    requires a(s0) == Success(va, s1) && b(s1) == Success(vb, s2)
    requires c(s2) == Success(vc, s3) && d(s3) == Success(vd, s4)
    ensures Zip4(a, b, c, d)(s0) == Success(Quadruple(va, vb, vc, vd), s4)
  {
  }

  lemma NumberOnTwelve()
    ensures Number()("12b") == Success(12, "b")
  {
    assert "12b"[..2] == "12" && "12b"[2..] == "b";
    assert "12"[..1] == "1" && "1"[..0] == "";
    assert DecimalValue("12") == 12;
    NumberReadsDigits("12b", 2);
  }

  lemma StrAExample()
    ensures Str("a")("ac12b") == Success((), "c12b")
  {
    StrMatch("a", "ac12b");
    assert "ac12b"[1..] == "c12b";
  }

  lemma Zip4Example(a: Parser<()>, c: Parser<int>, d: Parser<()>)
    requires a == Str("a") && c == Number() && d == Str("b")
    ensures Zip4(a, CharParser(), c, d)("ac12b") == Success(Quadruple((), 'c', 12, ()), "")
  {
    StrAExample();
    NumberOnTwelve();
    StrMatch("b", "b");
    Zip4Steps(a, CharParser(), c, d, "ac12b", (), "c12b", 'c', "12b", 12, "b", (), "");
  }

  lemma OneOfFirstExample()
    ensures OneOf([Str("a"), Str("b"), Str("c")])("abcd") == Success((), "bcd")
  {
    StrMatch("a", "abcd");
    OneOfPicksFirst([Str("a"), Str("b"), Str("c")], "abcd", 0);
  }

  lemma OneOfSecondExample()
    ensures OneOf([Str("a"), Str("b"), Str("c")])("bcd") == Success((), "cd")
  {
    StrOnMismatch("a", "bcd");
    StrMatch("b", "bcd");
    OneOfPicksFirst([Str("a"), Str("b"), Str("c")], "bcd", 1);
  }

  lemma OneOfThirdExample()
    ensures OneOf([Str("a"), Str("b"), Str("c")])("cd") == Success((), "d")
  {
    StrOnMismatch("a", "cd");
    StrOnMismatch("b", "cd");
    StrMatch("c", "cd");
    OneOfPicksFirst([Str("a"), Str("b"), Str("c")], "cd", 2);
  }

  lemma OneOfNoneExample()
    ensures OneOf([Str("a"), Str("b"), Str("c")])("d") == Failure
  {
    StrOnMismatch("a", "d");
    StrOnMismatch("b", "d");
    StrOnMismatch("c", "d");
    OneOfFailsIffAllFail([Str("a"), Str("b"), Str("c")], "d");
  }

  lemma OptionalBExamples()
    ensures OptionalB(Str("abc"))("abc") == Success(true, "")
    ensures OptionalB(Str("abc"))("abcdef") == Success(true, "def")
    ensures OptionalB(Str("abc"))("def") == Success(false, "def")
  {
    StrMatch("abc", "abc");
    StrMatch("abc", "abcdef");
    StrOnMismatch("abc", "def");
  }
}
