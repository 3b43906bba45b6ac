// Parser.java in the root package: the older copy of the parser
// combinators. Its zeroOrMore, oneOrMore, filter, map, flatMap, string,
// charParser, digit, number and the zips of two to five parsers have the
// same bodies as their namesakes in the parser package, so they are the
// functions of modules Parsing, Parsers and Combinators. What the copy does
// differently is the zip of any number of parsers, which throws.
module LegacyParsing {
  import opened Common
  import opened Parsing
  import opened Parsers
  import opened Combinators

  /**
   * zip(parsers...) as written in the legacy copy: the call itself throws
   * UnsupportedOperationException, so no parser is ever built.
   */
  function ZipAllAsWritten<A>(ps: seq<Parser<A>>): (r: Result<Parser<seq<A>>>)
    ensures r.Err?
  {
    Err("UnsupportedOperationException")
  }

  /** The values a zip of mixed parsers collects into its List<Object>. */
  datatype Value = NoValue | IntValue(n: int)

  function Untyped(p: Parser<()>): Parser<Value>
  {
    Map(p, (_: ()) => NoValue)
  }

  function AsInt(p: Parser<int>): Parser<Value>
  {
    Map(p, (n: int) => IntValue(n))
  }

  /** One step of the sequence: the first parser's value, then the rest on what it left. */
  lemma SequenceStep<A>(ps: seq<Parser<A>>, s: string, v: A, t: string)
    requires ps != [] && ps[0](s) == Success(v, t)
    ensures Sequence(ps, s) == Prefixed([v], Sequence(ps[1..], t))
  {
  }

  /** zip of five parsers, each succeeding on what the previous one left. */
  lemma Zip5Steps<A, B, C, D, E>(a: Parser<A>, b: Parser<B>, c: Parser<C>, d: Parser<D>, e: Parser<E>,
                                 s0: string, va: A, s1: string, vb: B, s2: string, vc: C, s3: string,
                                 vd: D, s4: string, ve: E, s5: string)
    requires a(s0) == Success(va, s1) && b(s1) == Success(vb, s2) && c(s2) == Success(vc, s3)
    requires d(s3) == Success(vd, s4) && e(s4) == Success(ve, s5)
    ensures Zip5(a, b, c, d, e)(s0) == Success(Quintuple(va, vb, vc, vd, ve), s5)
  {
    Zip5On(a, b, c, d, e, s0);
  }

  /** zip of five parsers whose last part fails where the fourth stopped fails as a whole. */
  lemma Zip5FailsAtLast<A, B, C, D, E>(a: Parser<A>, b: Parser<B>, c: Parser<C>, d: Parser<D>, e: Parser<E>,
                                       s0: string, va: A, s1: string, vb: B, s2: string, vc: C, s3: string,
                                       vd: D, s4: string)
    requires a(s0) == Success(va, s1) && b(s1) == Success(vb, s2) && c(s2) == Success(vc, s3)
    requires d(s3) == Success(vd, s4) && e(s4) == Failure
    ensures Zip5(a, b, c, d, e)(s0) == Failure
  {
    Zip3On(a, b, c, s0);
    ZipOn(d, e, s3);
    ZipOn(Zip3(a, b, c), Zip(d, e), s0);
    MapOn(Zip(Zip3(a, b, c), Zip(d, e)),
          (r: Double<Triple<A, B, C>, Double<D, E>>) =>
            Quintuple(r.firstValue.firstValue, r.firstValue.secondValue, r.firstValue.thirdValue,
                      r.secondValue.firstValue, r.secondValue.secondValue), s0);
  }

  /** The varargs zip of six parsers, each succeeding on what the previous one left. */
  lemma Sequence6Steps<A>(ps: seq<Parser<A>>, s0: string, v0: A, s1: string, v1: A, s2: string, v2: A, s3: string,
                          v3: A, s4: string, v4: A, s5: string, last: Parsed<seq<A>>)
    requires |ps| == 6
    requires ps[0](s0) == Success(v0, s1) && ps[1](s1) == Success(v1, s2) && ps[2](s2) == Success(v2, s3)
    requires ps[3](s3) == Success(v3, s4) && ps[4](s4) == Success(v4, s5)
    requires last == Sequence(ps[5..], s5)
    ensures ZipAll(ps)(s0) == Prefixed([v0, v1, v2, v3, v4], last)
  {
    var p1, p2, p3, p4, p5 := ps[1..], ps[2..], ps[3..], ps[4..], ps[5..];
    assert p1[0] == ps[1] && p2[0] == ps[2] && p3[0] == ps[3] && p4[0] == ps[4];
    assert p1[1..] == p2 && p2[1..] == p3 && p3[1..] == p4 && p4[1..] == p5;
    SequenceStep(ps, s0, v0, s1);
    SequenceStep(p1, s1, v1, s2);
    SequenceStep(p2, s2, v2, s3);
    SequenceStep(p3, s3, v3, s4);
    SequenceStep(p4, s4, v4, s5);
    if last.Success? {
      assert [v0] + ([v1] + ([v2] + ([v3] + ([v4] + last.value)))) == [v0, v1, v2, v3, v4] + last.value;
    }
  }

  lemma NumberOnDigit(d: char, t: string)
    requires '0' <= d <= '9' && (t == [] || !IsDigit(t[0]))
    ensures Number()([d] + t) == Success((d as int) - ('0' as int), t)
  {
    var s := [d] + t;
    assert s[..1] == [d] && s[1..] == t;
    assert [d][..0] == [];
    NumberReadsDigits(s, 1);
  }

  /** The punctuation of the range is not a digit. */
  lemma PunctuationNotDigit(c: char)
    requires c == ',' || c == '}' || c == '.'
    ensures !IsDigit(c)
  {
  }

  /** A one-character literal on input that starts with it. */
  lemma CharPart(p: string, s: string)
    requires |p| == 1 && |s| >= 1 && s[0] == p[0]
    ensures Str(p)(s) == Success((), s[1..])
  {
    assert s == p + s[1..];
    StrOnPrefix(p, s[1..]);
  }

  /** number() on a single digit followed by punctuation or by nothing. */
  lemma DigitPart(s: string)
    requires |s| >= 1 && '0' <= s[0] <= '9'
    requires |s| == 1 || s[1] == ',' || s[1] == '}'
    ensures Number()(s) == Success((s[0] as int) - ('0' as int), s[1..])
  {
    if |s| > 1 {
      PunctuationNotDigit(s[1]);
    }
    assert s == [s[0]] + s[1..];
    NumberOnDigit(s[0], s[1..]);
  }

  /** "{1,3" at the start of s, read part by part. */
  lemma RangePrefixParts(s: string)
    requires |s| >= 4 && s[0] == '{' && s[1] == '1' && s[2] == ',' && s[3] == '3'
    requires |s| == 4 || s[4] == '}'
    ensures Str("{")(s) == Success((), s[1..])
    ensures Number()(s[1..]) == Success(1, s[2..])
    ensures Str(",")(s[2..]) == Success((), s[3..])
    ensures Number()(s[3..]) == Success(3, s[4..])
  {
    CharPart("{", s);
    assert s[1..][1..] == s[2..];
    DigitPart(s[1..]);
    CharPart(",", s[2..]);
    assert s[2..][1..] == s[3..] && s[3..][1..] == s[4..];
    DigitPart(s[3..]);
  }

  /** The closing brace: read when it is there, missing at the end. */
  lemma ClosingPart(t: string)
    requires t == [] || t[0] == '}'
    ensures Str("}")(t) == if t == [] then Failure else Success((), t[1..])
  {
    if t != [] {
      assert t == "}" + t[1..];
      StrOnPrefix("}", t[1..]);
    } else {
      StrOn("}", t);
    }
  }

  /** The five-part range zip of the legacy tests on s = "{1,3}" and on the unterminated u = "{1,3". */
  lemma RangeZipVector(a: Parser<()>, b: Parser<int>, c: Parser<()>, e: Parser<()>, s: string, u: string)
    requires a == Str("{") && b == Number() && c == Str(",") && e == Str("}")
    requires s == "{1,3}" && u == "{1,3"
    ensures Zip5(a, b, c, b, e)(s) == Success(Quintuple((), 1, (), 3, ()), "")
    ensures Zip5(a, b, c, b, e)(u) == Failure
  {
    RangePrefixParts(s);
    ClosingPart(s[4..]);
    assert s[4..][1..] == s[5..] == "";
    Zip5Steps(a, b, c, b, e, s, (), s[1..], 1, s[2..], (), s[3..], 3, s[4..], (), s[5..]);
    RangePrefixParts(u);
    ClosingPart(u[4..]);
    Zip5FailsAtLast(a, b, c, b, e, u, (), u[1..], 1, u[2..], (), u[3..], 3, u[4..]);
  }

  /** A one-character literal turned into a Value, on input that starts with it. */
  lemma UntypedCharPart(q: Parser<Value>, p: string, s: string)
    requires q == Untyped(Str(p))
    requires |p| == 1 && |s| >= 1 && s[0] == p[0]
    ensures q(s) == Success(NoValue, s[1..])
  {
    CharPart(p, s);
    MapOn(Str(p), (_: ()) => NoValue, s);
  }

  /** A single-digit number turned into a Value. */
  lemma AsIntDigitPart(q: Parser<Value>, s: string)
    requires q == AsInt(Number())
    requires |s| >= 1 && '0' <= s[0] <= '9'
    requires |s| == 1 || s[1] == ',' || s[1] == '}'
    ensures q(s) == Success(IntValue((s[0] as int) - ('0' as int)), s[1..])
  {
    DigitPart(s);
    MapOn(Number(), (n: int) => IntValue(n), s);
  }

  /** The six parsers of the legacy test, each turned into a Value. */
  ghost predicate SixParts(ps: seq<Parser<Value>>)
  {
    ps == [Untyped(Str("{")), AsInt(Number()), Untyped(Str(",")),
           AsInt(Number()), Untyped(Str("}")), Untyped(Str("."))]
  }

  /** The first five of the six parts on "{1,3}" at the start of s, each turned into a Value. */
  lemma MixedParts(ps: seq<Parser<Value>>, s: string)
    requires SixParts(ps)
    requires |s| >= 5 && s[0] == '{' && s[1] == '1' && s[2] == ',' && s[3] == '3' && s[4] == '}'
    ensures ps[0](s) == Success(NoValue, s[1..])
    ensures ps[1](s[1..]) == Success(IntValue(1), s[2..])
    ensures ps[2](s[2..]) == Success(NoValue, s[3..])
    ensures ps[3](s[3..]) == Success(IntValue(3), s[4..])
    ensures ps[4](s[4..]) == Success(NoValue, s[5..])
  {
    UntypedCharPart(ps[0], "{", s);
    assert s[1..][1..] == s[2..] && s[2..][1..] == s[3..] && s[3..][1..] == s[4..] && s[4..][1..] == s[5..];
    AsIntDigitPart(ps[1], s[1..]);
    UntypedCharPart(ps[2], ",", s[2..]);
    AsIntDigitPart(ps[3], s[3..]);
    UntypedCharPart(ps[4], "}", s[4..]);
  }

  /** The final '.' alone: read when t is ".", missing when t is empty. */
  lemma DotPart(dot: Parser<Value>, t: string)
    requires dot == Untyped(Str("."))
    requires t == "." || t == ""
    ensures Sequence([dot], t) == if t == "" then Failure else Success([NoValue], "")
  {
    if t == "" {
      StrOn(".", t);
      MapOn(Str("."), (_: ()) => NoValue, t);
    } else {
      assert t == "." + "";
      StrOnPrefix(".", "");
      MapOn(Str("."), (_: ()) => NoValue, t);
      assert [dot][1..] == [];
      SequenceStep([dot], t, NoValue, "");
      assert [NoValue] + [] == [NoValue];
    }
  }

  /** The zip of the six parts reads "{1,3}." whole. */
  lemma SixPartZipReads(ps: seq<Parser<Value>>, s: string)
    requires SixParts(ps)
    requires s == "{1,3}."
    ensures ZipAll(ps)(s) == Success([NoValue, IntValue(1), NoValue, IntValue(3), NoValue, NoValue], "")
  {
    MixedParts(ps, s);
    DotPart(ps[5], s[5..]);
    assert ps[5..] == [ps[5]];
    Sequence6Steps(ps, s, NoValue, s[1..], IntValue(1), s[2..], NoValue, s[3..], IntValue(3), s[4..],
                   NoValue, s[5..], Success([NoValue], ""));
    assert [NoValue, IntValue(1), NoValue, IntValue(3), NoValue] + [NoValue]
        == [NoValue, IntValue(1), NoValue, IntValue(3), NoValue, NoValue];
  }

  /** It fails on "{1,3}", which lacks the final '.'. */
  lemma SixPartZipRejects(ps: seq<Parser<Value>>, s: string)
    requires SixParts(ps)
    requires s == "{1,3}"
    ensures ZipAll(ps)(s) == Failure
  {
    MixedParts(ps, s);
    DotPart(ps[5], s[5..]);
    assert ps[5..] == [ps[5]];
    Sequence6Steps(ps, s, NoValue, s[1..], IntValue(1), s[2..], NoValue, s[3..], IntValue(3), s[4..],
                   NoValue, s[5..], Failure);
  }

  /**
   * The six-part zip of the legacy tests: as written it throws before
   * parsing anything, where the test expects it to read s = "{1,3}." and to
   * fail on u = "{1,3}", as the zip of the parser package does.
   */
  lemma SixPartZipVector(ps: seq<Parser<Value>>, s: string, u: string)
    requires SixParts(ps)
    requires s == "{1,3}." && u == "{1,3}"
    ensures ZipAllAsWritten(ps).Err?
    ensures ZipAll(ps)(s) == Success([NoValue, IntValue(1), NoValue, IntValue(3), NoValue, NoValue], "")
    ensures ZipAll(ps)(u) == Failure
  {
    SixPartZipReads(ps, s);
    SixPartZipRejects(ps, u);
  }
}
