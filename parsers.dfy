// parser/Parsers.java: the primitive parsers the grammar is built from.
module Parsers {
  import opened Common
  import opened Parsing
  import CharSets

  // As in module Parsing, each parser's behaviour on one input is the
  // lemma with the suffix On, and its promises for every input the lemma
  // with the suffix Spec.

  /** string(p): succeeds exactly on inputs that start with p, and takes p off. */
  function Str(p: string): Parser<()>
  {
    s => if p <= s then Success((), s[|p|..]) else Failure
  }

  lemma StrOn(p: string, s: string)
    ensures Str(p)(s) == if p <= s then Success((), s[|p|..]) else Failure
  {
  }

  lemma StrSpec(p: string)
    ensures forall s :: Str(p)(s).Success? <==> p <= s
    ensures forall s :: Str(p)(s).Success? ==> Str(p)(s).remaining == s[|p|..]
    ensures forall s :: !Str(p)(s).Thrown?
    ensures NonGrowing(Str(p))
    ensures |p| > 0 ==> Consuming(Str(p))
  {
  }

  /** string(p) on an input that starts with p leaves exactly what follows p. */
  lemma StrOnPrefix(p: string, t: string)
    ensures Str(p)(p + t) == Success((), t)
  {
    assert p <= p + t;
    assert (p + t)[|p|..] == t;
  }

  /** string(p) fails on an input that differs from p in its first character. */
  lemma StrOnMismatch(p: string, s: string)
    requires |p| > 0 && |s| > 0 && p[0] != s[0]
    ensures Str(p)(s) == Failure
  {
  }

  /** charParser(): takes the first character of a non-empty input. */
  function CharParser(): Parser<char>
  {
    s => if |s| > 0 then Success(s[0], s[1..]) else Failure
  }

  lemma CharParserOn(s: string)
    ensures CharParser()(s) == if |s| > 0 then Success(s[0], s[1..]) else Failure
  {
  }

  /** charParser().filter(test): one character that passes the test. */
  function CharWhere(test: char -> bool): Parser<char>
  {
    Filter(CharParser(), test)
  }

  lemma CharWhereOn(test: char -> bool, s: string)
    ensures CharWhere(test)(s) == if |s| > 0 && test(s[0]) then Success(s[0], s[1..]) else Failure
  {
    FilterOn(CharParser(), test, s);
  }

  lemma CharWhereSpec(test: char -> bool)
    ensures forall s :: CharWhere(test)(s) == if |s| > 0 && test(s[0]) then Success(s[0], s[1..]) else Failure
    ensures Consuming(CharWhere(test))
  {
    forall s ensures CharWhere(test)(s) == if |s| > 0 && test(s[0]) then Success(s[0], s[1..]) else Failure {
      CharWhereOn(test, s);
    }
  }

  /** charExcluding(excluded): one character that is not in the excluded string. */
  function CharExcluding(excluded: string): Parser<char>
  {
    CharWhere(c => c !in excluded)
  }

  lemma CharExcludingOn(excluded: string, s: string)
    ensures CharExcluding(excluded)(s) == if |s| > 0 && s[0] !in excluded then Success(s[0], s[1..]) else Failure
  {
    CharWhereOn(c => c !in excluded, s);
  }

  /** charFrom(allowed): one character of the allowed string. */
  function CharFrom(allowed: string): Parser<char>
  {
    CharWhere(c => c in allowed)
  }

  lemma CharFromOn(allowed: string, s: string)
    ensures CharFrom(allowed)(s) == if |s| > 0 && s[0] in allowed then Success(s[0], s[1..]) else Failure
  {
    CharWhereOn(c => c in allowed, s);
  }

  /** The length of the longest prefix of s whose characters all pass the test. */
  function Span(s: string, test: char -> bool): (k: nat)
    ensures k <= |s|
    ensures forall i :: 0 <= i < k ==> test(s[i])
    ensures k < |s| ==> !test(s[k])
  {
    if s == [] || !test(s[0]) then 0 else 1 + Span(s[1..], test)
  }

  /** Repeating a one-character parser collects exactly the longest passing prefix. */
  lemma {:induction false} ManyCharWhere(test: char -> bool, s: string)
    ensures Consuming(CharWhere(test))
    ensures Many(CharWhere(test), s) == Success(s[..Span(s, test)], s[Span(s, test)..])
    decreases |s|
  {
    var p := CharWhere(test);
    CharWhereSpec(test);
    CharWhereOn(test, s);
    if s == [] || !test(s[0]) {
      assert p(s).Failure?;
    } else {
      assert p(s) == Success(s[0], s[1..]);
      ManyCharWhere(test, s[1..]);
      var k := Span(s[1..], test);
      assert Many(p, s) == Success([s[0]] + s[1..][..k], s[1..][k..]);
      assert s[..1 + k] == [s[0]] + s[1..][..k];
      assert s[1 + k..] == s[1..][k..];
    }
  }

  /** oneOrMore of a one-character parser takes the longest non-empty passing prefix. */
  lemma OneOrMoreCharWhere(test: char -> bool, s: string)
    ensures Consuming(CharWhere(test))
    ensures OneOrMore(CharWhere(test))(s) ==
            if |s| > 0 && test(s[0]) then Success(s[..Span(s, test)], s[Span(s, test)..]) else Failure
  {
    ManyCharWhere(test, s);
    OneOrMoreOn(CharWhere(test), s);
    CharWhereOn(test, s);
  }

  /**
   * stringExcluding(excluded): the longest non-empty run of characters none
   * of which is excluded; fails when the input does not start with one.
   */
  function StringExcluding(excluded: string): Parser<seq<char>>
  {
    CharWhereSpec(c => c !in excluded);
    OneOrMore(CharWhere(c => c !in excluded))
  }

  /** The length of the longest prefix of s with no excluded character. */
  function SpanExcluding(s: string, excluded: string): (k: nat)
    ensures k <= |s|
    ensures forall i :: 0 <= i < k ==> s[i] !in excluded
    ensures k < |s| ==> s[k] in excluded
  {
    Span(s, c => c !in excluded)
  }

  /** The run without excluded characters is exactly k long when it stops at k. */
  lemma SpanExcludingIs(s: string, excluded: string, k: nat)
    requires k <= |s|
    requires forall i :: 0 <= i < k ==> s[i] !in excluded
    requires k < |s| ==> s[k] in excluded
    ensures SpanExcluding(s, excluded) == k
  {
    SpanIsMaximalPrefix(s, c => c !in excluded, k);
  }

  lemma StringExcludingOn(excluded: string, s: string)
    ensures StringExcluding(excluded)(s) ==
            if |s| > 0 && s[0] !in excluded
            then Success(s[..SpanExcluding(s, excluded)], s[SpanExcluding(s, excluded)..])
            else Failure
  {
    OneOrMoreCharWhere(c => c !in excluded, s);
  }

  lemma StringExcludingSpec(excluded: string)
    ensures Consuming(StringExcluding(excluded))
  {
    CharWhereSpec(c => c !in excluded);
    OneOrMoreSpec(CharWhere(c => c !in excluded));
  }

  /**
   * What Span cuts off: the input is the passing prefix followed by a rest
   * that does not start with a passing character.
   */
  lemma SpanSplits(s: string, test: char -> bool)
    ensures s[..Span(s, test)] + s[Span(s, test)..] == s
    ensures forall c :: c in s[..Span(s, test)] ==> test(c)
    ensures s[Span(s, test)..] == [] || !test(s[Span(s, test)..][0])
  {
    var k := Span(s, test);
    assert s[..k] + s[k..] == s;
    forall c | c in s[..k]
      ensures test(c)
    {
      var i :| 0 <= i < k && s[..k][i] == c;
      assert test(s[i]);
    }
  }

  /** Character.isDigit, restricted to the ASCII digits. */
  predicate IsDigit(c: char)
  {
    CharSets.IsNamed(CharSets.DecimalDigit, c)
  }

  /** digit(): one decimal digit. */
  function Digit(): Parser<char>
  {
    CharWhere(IsDigit)
  }

  lemma DigitOn(s: string)
    ensures Digit()(s) == if |s| > 0 && '0' <= s[0] <= '9' then Success(s[0], s[1..]) else Failure
  {
    CharWhereOn(IsDigit, s);
  }

  /** Integer.parseInt on a string of decimal digits, without the 32-bit bound. */
  function DecimalValue(ds: string): (n: int)
    ensures (forall i :: 0 <= i < |ds| ==> IsDigit(ds[i])) ==> n >= 0
  {
    if ds == [] then 0
    else DecimalValue(ds[..|ds| - 1]) * 10 + (ds[|ds| - 1] as int - '0' as int)
  }

  /**
   * number(): the longest run of digits, read as a decimal number; fails
   * when the input does not start with a digit.
   */
  function Number(): Parser<int>
  {
    CharWhereSpec(IsDigit);
    Map(OneOrMore(Digit()), DecimalValue)
  }

  lemma NumberOn(s: string)
    ensures Number()(s) == if |s| > 0 && IsDigit(s[0])
                           then Success(DecimalValue(s[..Span(s, IsDigit)]), s[Span(s, IsDigit)..])
                           else Failure
  {
    OneOrMoreCharWhere(IsDigit, s);
    MapOn(OneOrMore(Digit()), DecimalValue, s);
  }

  lemma NumberSpec()
    ensures forall s :: Number()(s).Success? <==> |s| > 0 && IsDigit(s[0])
    ensures forall s :: !Number()(s).Thrown?
    ensures Consuming(Number())
  {
    forall s ensures Number()(s) == if |s| > 0 && IsDigit(s[0])
                           then Success(DecimalValue(s[..Span(s, IsDigit)]), s[Span(s, IsDigit)..])
                           else Failure {
      NumberOn(s);
    }
  }

  /** lazy(supplier): the supplied parser, fetched when the input arrives. */
  function Lazy<A>(supplier: () -> Parser<A>): Parser<A>
  {
    s => supplier()(s)
  }

  lemma LazyOn<A>(supplier: () -> Parser<A>, s: string)
    ensures Lazy(supplier)(s) == supplier()(s)
  {
  }

  /** end(): succeeds only on the empty input, consuming nothing. */
  function End(): Parser<()>
  {
    s => if s == [] then Success((), s) else Failure
  }

  lemma EndOn(s: string)
    ensures End()(s) == if s == [] then Success((), s) else Failure
  {
  }

  lemma StrExamples()
    ensures Str("abcd")("abcdef") == Success((), "ef")
    ensures Str("abcd")("abc") == Failure
  {
    assert "abcd" <= "abcdef";
    assert "abcdef"[4..] == "ef";
  }

  lemma CharParserExamples()
    ensures CharParser()("abcd") == Success('a', "bcd")
    ensures CharParser()("") == Failure
  {
  }

  /** The longest passing prefix is the one that every shorter prefix extends to. */
  lemma {:induction false} SpanIsMaximalPrefix(s: string, test: char -> bool, k: nat)
    requires k <= |s|
    requires forall i :: 0 <= i < k ==> test(s[i])
    requires k < |s| ==> !test(s[k])
    ensures Span(s, test) == k
    decreases k
  {
    if k > 0 {
      SpanIsMaximalPrefix(s[1..], test, k - 1);
    }
  }

  /** number() on an input that starts with exactly k digits. */
  lemma NumberReadsDigits(s: string, k: nat)
    requires 0 < k <= |s|
    requires forall i :: 0 <= i < k ==> IsDigit(s[i])
    requires k < |s| ==> !IsDigit(s[k])
    ensures Number()(s) == Success(DecimalValue(s[..k]), s[k..])
  {
    SpanIsMaximalPrefix(s, IsDigit, k);
    NumberOn(s);
  }

  lemma NumberExample()
    ensures Number()("1234abcd") == Success(1234, "abcd")
  {
    var s := "1234abcd";
    assert s[..4] == "1234" && s[4..] == "abcd";
    assert "1234"[..3] == "123" && "123"[..2] == "12" && "12"[..1] == "1" && "1"[..0] == "";
    assert DecimalValue("1234") == 1234;
    NumberReadsDigits(s, 4);
  }

  lemma EndExamples()
    ensures End()("") == Success((), "")
    ensures End()("a") == Failure
  {
  }

  lemma ZeroOrThrowExamples()
    ensures ZeroOrThrow<(), ()>(Str("abc"), "Should not contain 'abc'")("abc") == Thrown("Should not contain 'abc'")
    ensures ZeroOrThrow<(), ()>(Str("abc"), "Should not contain 'abc'")("123") == Failure
  {
    assert "abc" <= "abc";
    assert !("abc" <= "123") by {
      assert "123"[0] != "abc"[0];
    }
  }
}
