// parser/ParserCombinators.java: sequencing, choice and optional parsers.
module Combinators {
  import opened Common
  import opened Parsing

  // The value records of the sequencing parsers.
  datatype Double<+A, +B> = Double(firstValue: A, secondValue: B)
  datatype Triple<+A, +B, +C> = Triple(firstValue: A, secondValue: B, thirdValue: C)
  datatype Quadruple<+A, +B, +C, +D> = Quadruple(firstValue: A, secondValue: B, thirdValue: C, fourthValue: D)
  datatype Quintuple<+A, +B, +C, +D, +E> =
    Quintuple(firstValue: A, secondValue: B, thirdValue: C, fourthValue: D, fifthValue: E)

  // As in module Parsing, each parser's behaviour on one input is the
  // lemma with the suffix On, and its promises for every input the lemma
  // with the suffix Spec.

  /** zip(first, second): first, then second on what first left; both values paired. */
  function Zip<A, B>(a: Parser<A>, b: Parser<B>): Parser<Double<A, B>>
  {
    FlatMap(a, (v: A) => Map(b, (w: B) => Double(v, w)))
  }

  lemma ZipOn<A, B>(a: Parser<A>, b: Parser<B>, s: string)
    ensures Zip(a, b)(s) == match a(s)
                            case Success(v, r) => (match b(r)
                                                   case Success(w, r2) => Success(Double(v, w), r2)
                                                   case Failure => Failure
                                                   case Thrown(m) => Thrown(m))
                            case Failure => Failure
                            case Thrown(m) => Thrown(m)
  {
    FlatMapOn(a, (v: A) => Map(b, (w: B) => Double(v, w)), s);
    if a(s).Success? {
      MapOn(b, (w: B) => Double(a(s).value, w), a(s).remaining);
    }
  }

  lemma ZipSpec<A, B>(a: Parser<A>, b: Parser<B>)
    ensures forall s :: Zip(a, b)(s).Success? <==> a(s).Success? && b(a(s).remaining).Success?
    ensures forall s :: Zip(a, b)(s).Success? ==>
                        Zip(a, b)(s) == Success(Double(a(s).value, b(a(s).remaining).value), b(a(s).remaining).remaining)
    ensures forall s :: a(s).Thrown? ==> Zip(a, b)(s) == Thrown(a(s).message)
    ensures forall s :: a(s).Success? && b(a(s).remaining).Thrown? ==> Zip(a, b)(s) == Thrown(b(a(s).remaining).message)
    ensures NonGrowing(a) && NonGrowing(b) ==> NonGrowing(Zip(a, b))
    ensures Consuming(a) && NonGrowing(b) ==> Consuming(Zip(a, b))
    ensures NonGrowing(a) && Consuming(b) ==> Consuming(Zip(a, b))
  {
    forall s ensures Zip(a, b)(s) == match a(s)
                            case Success(v, r) => (match b(r)
                                                   case Success(w, r2) => Success(Double(v, w), r2)
                                                   case Failure => Failure
                                                   case Thrown(m) => Thrown(m))
                            case Failure => Failure
                            case Thrown(m) => Thrown(m) {
      ZipOn(a, b, s);
    }
  }

  /** zip of three parsers, nested to the right as zip(first, zip(second, third)). */
  function Zip3<A, B, C>(a: Parser<A>, b: Parser<B>, c: Parser<C>): Parser<Triple<A, B, C>>
  {
    Map(Zip(a, Zip(b, c)),
        (r: Double<A, Double<B, C>>) => Triple(r.firstValue, r.secondValue.firstValue, r.secondValue.secondValue))
  }

  lemma Zip3On<A, B, C>(a: Parser<A>, b: Parser<B>, c: Parser<C>, s: string)
    ensures Zip3(a, b, c)(s).Success? <==>
            var ra := a(s);
            ra.Success? && var rb := b(ra.remaining);
            rb.Success? && c(rb.remaining).Success?
    ensures Zip3(a, b, c)(s).Success? ==>
            var ra := a(s);
            ra.Success? && var rb := b(ra.remaining);
            rb.Success? && var rc := c(rb.remaining);
            rc.Success? && Zip3(a, b, c)(s) == Success(Triple(ra.value, rb.value, rc.value), rc.remaining)
  {
    var f := (r: Double<A, Double<B, C>>) => Triple(r.firstValue, r.secondValue.firstValue, r.secondValue.secondValue);
    MapOn(Zip(a, Zip(b, c)), f, s);
    ZipOn(a, Zip(b, c), s);
    if a(s).Success? {
      ZipOn(b, c, a(s).remaining);
    }
  }

  /** zip of four parsers, as zip(zip(first, second), zip(third, forth)). */
  function Zip4<A, B, C, D>(a: Parser<A>, b: Parser<B>, c: Parser<C>, d: Parser<D>): Parser<Quadruple<A, B, C, D>>
  {
    Map(Zip(Zip(a, b), Zip(c, d)),
        (r: Double<Double<A, B>, Double<C, D>>) =>
          Quadruple(r.firstValue.firstValue, r.firstValue.secondValue, r.secondValue.firstValue, r.secondValue.secondValue))
  }

  lemma Zip4On<A, B, C, D>(a: Parser<A>, b: Parser<B>, c: Parser<C>, d: Parser<D>, s: string)
    ensures Zip4(a, b, c, d)(s).Success? <==>
            var ra := a(s);
            ra.Success? && var rb := b(ra.remaining);
            rb.Success? && var rc := c(rb.remaining);
            rc.Success? && d(rc.remaining).Success?
    ensures Zip4(a, b, c, d)(s).Success? ==>
            var ra := a(s);
            ra.Success? && var rb := b(ra.remaining);
            rb.Success? && var rc := c(rb.remaining);
            rc.Success? && var rd := d(rc.remaining);
            rd.Success? && Zip4(a, b, c, d)(s) == Success(Quadruple(ra.value, rb.value, rc.value, rd.value), rd.remaining)
  {
    var f := (r: Double<Double<A, B>, Double<C, D>>) =>
          Quadruple(r.firstValue.firstValue, r.firstValue.secondValue, r.secondValue.firstValue, r.secondValue.secondValue);
    MapOn(Zip(Zip(a, b), Zip(c, d)), f, s);
    ZipOn(Zip(a, b), Zip(c, d), s);
    ZipOn(a, b, s);
    if Zip(a, b)(s).Success? {
      ZipOn(c, d, Zip(a, b)(s).remaining);
    }
  }

  /** zip of five parsers, as zip(zip(first, second, third), zip(forth, fifth)). */
  function Zip5<A, B, C, D, E>(a: Parser<A>, b: Parser<B>, c: Parser<C>, d: Parser<D>, e: Parser<E>)
    : Parser<Quintuple<A, B, C, D, E>>
  {
    Map(Zip(Zip3(a, b, c), Zip(d, e)),
        (r: Double<Triple<A, B, C>, Double<D, E>>) =>
          Quintuple(r.firstValue.firstValue, r.firstValue.secondValue, r.firstValue.thirdValue,
                    r.secondValue.firstValue, r.secondValue.secondValue))
  }

  lemma Zip5On<A, B, C, D, E>(a: Parser<A>, b: Parser<B>, c: Parser<C>, d: Parser<D>, e: Parser<E>, s: string)
    ensures Zip5(a, b, c, d, e)(s).Success? <==>
            var ra := a(s);
            ra.Success? && var rb := b(ra.remaining);
            rb.Success? && var rc := c(rb.remaining);
            rc.Success? && var rd := d(rc.remaining);
            rd.Success? && e(rd.remaining).Success?
    ensures Zip5(a, b, c, d, e)(s).Success? ==>
            var ra := a(s);
            ra.Success? && var rb := b(ra.remaining);
            rb.Success? && var rc := c(rb.remaining);
            rc.Success? && var rd := d(rc.remaining);
            rd.Success? && var re := e(rd.remaining);
            re.Success? &&
            Zip5(a, b, c, d, e)(s) == Success(Quintuple(ra.value, rb.value, rc.value, rd.value, re.value), re.remaining)
  {
    var f := (r: Double<Triple<A, B, C>, Double<D, E>>) =>
          Quintuple(r.firstValue.firstValue, r.firstValue.secondValue, r.firstValue.thirdValue,
                    r.secondValue.firstValue, r.secondValue.secondValue);
    MapOn(Zip(Zip3(a, b, c), Zip(d, e)), f, s);
    ZipOn(Zip3(a, b, c), Zip(d, e), s);
    Zip3On(a, b, c, s);
    if Zip3(a, b, c)(s).Success? {
      ZipOn(d, e, Zip3(a, b, c)(s).remaining);
    }
  }

  /**
   * What the varargs zip computes: each parser in turn on what the previous
   * one left, stopping at the first failure; an exception propagates.
   */
  function Sequence<A>(ps: seq<Parser<A>>, s: string): (r: Parsed<seq<A>>)
    ensures r.Success? ==> |r.value| == |ps|
    ensures r.Success? && |ps| > 0 ==> ps[0](s).Success? && r.value[0] == ps[0](s).value
    decreases |ps|
  {
    if ps == [] then Success([], s)
    else match ps[0](s)
      case Failure => Failure
      case Thrown(m) => Thrown(m)
      case Success(v, rest) => Prefixed([v], Sequence(ps[1..], rest))
  }

  /**
   * Zipping ps then qs is zipping ps, then zipping qs on what ps left, with
   * the values of ps first; a failure or an exception of ps ends it there.
   */
  lemma {:induction false} SequenceAppend<A>(ps: seq<Parser<A>>, qs: seq<Parser<A>>, s: string)
    ensures Sequence(ps + qs, s) == match Sequence(ps, s)
                                    case Success(vs, t) => Prefixed(vs, Sequence(qs, t))
                                    case Failure => Failure
                                    case Thrown(m) => Thrown(m)
    decreases |ps|
  {
    if ps == [] {
      assert ps + qs == qs;
      match Sequence(qs, s)
      case Success(ws, r) => assert [] + ws == ws;
      case Failure =>
      case Thrown(m) =>
    } else {
      assert (ps + qs)[0] == ps[0] && (ps + qs)[1..] == ps[1..] + qs;
      match ps[0](s)
      case Failure =>
      case Thrown(m) =>
      case Success(v, rest) =>
        SequenceAppend(ps[1..], qs, rest);
        match Sequence(ps[1..], rest)
        case Failure =>
        case Thrown(m) =>
        case Success(vs, t) =>
          match Sequence(qs, t)
          case Failure =>
          case Thrown(m) =>
          case Success(ws, r) =>
            assert [v] + (vs + ws) == ([v] + vs) + ws;
    }
  }

  /**
   * Value k of a successful zip is parser k's value on what the first k
   * parsers left.
   */
  lemma {:induction false} SequenceValueAt<A>(ps: seq<Parser<A>>, s: string, k: nat)
    requires Sequence(ps, s).Success? && k < |ps|
    ensures Sequence(ps[..k], s).Success?
    ensures ps[k](Sequence(ps[..k], s).remaining).Success?
    ensures Sequence(ps, s).value[k] == ps[k](Sequence(ps[..k], s).remaining).value
  {
    assert ps == ps[..k] + ps[k..];
    SequenceAppend(ps[..k], ps[k..], s);
    var t := Sequence(ps[..k], s).remaining;
    assert Sequence(ps[..k], s).Success?;
    assert |Sequence(ps[..k], s).value| == k;
    assert Sequence(ps[k..], t).Success?;
    assert ps[k..][0] == ps[k];
  }

  /** zip(parsers...): the sequence of all the parsers, values in order. */
  function ZipAll<A>(ps: seq<Parser<A>>): Parser<seq<A>>
  {
    s => Sequence(ps, s)
  }

  lemma ZipAllOn<A>(ps: seq<Parser<A>>, s: string)
    ensures ZipAll(ps)(s) == Sequence(ps, s)
  {
  }

  /** The loop inside the varargs zip's parse function. */
  method RunZipAll<A>(ps: seq<Parser<A>>, input: string) returns (r: Parsed<seq<A>>)
    ensures r == ZipAll(ps)(input)
  {
    var result: seq<A> := [];
    var remaining := input;
    assert Sequence(ps, input).Success? ==> [] + Sequence(ps, input).value == Sequence(ps, input).value;
    for i := 0 to |ps|
      invariant Sequence(ps, input) == Prefixed(result, Sequence(ps[i..], remaining))
    {
      var parseResult := ps[i](remaining);
      assert ps[i..][1..] == ps[i + 1..];
      if parseResult.Failure? {
        return Failure;
      }
      if parseResult.Thrown? {
        return Thrown(parseResult.message);
      }
      var tail := Sequence(ps[i + 1..], parseResult.remaining);
      assert tail.Success? ==> result + ([parseResult.value] + tail.value) == (result + [parseResult.value]) + tail.value;
      result := result + [parseResult.value];
      remaining := parseResult.remaining;
    }
    assert ps[|ps|..] == [];
    assert result + [] == result;
    r := Success(result, remaining);
  }

  /** The varargs zip of two parsers agrees with the two-argument zip. */
  lemma ZipAllOfTwo<A>(a: Parser<A>, b: Parser<A>, s: string)
    ensures ZipAll([a, b])(s).Success? <==> Zip(a, b)(s).Success?
    ensures Zip(a, b)(s).Success? ==>
              ZipAll([a, b])(s) == Success([Zip(a, b)(s).value.firstValue, Zip(a, b)(s).value.secondValue],
                                           Zip(a, b)(s).remaining)
  {
    assert [a, b][1..] == [b];
    assert [b][1..] == [];
    if a(s).Success? {
      var rest := a(s).remaining;
      assert Sequence([a, b], s) == Prefixed([a(s).value], Sequence([b], rest));
      if b(rest).Success? {
        assert Sequence([b], rest) == Prefixed([b(rest).value], Sequence([], b(rest).remaining));
        assert [a(s).value] + ([b(rest).value] + []) == [a(s).value, b(rest).value];
      }
    }
  }

  /**
   * optional(parser): always succeeds unless the parser throws; Some value
   * with the parser's remaining input, or None with the input untouched.
   */
  function Optional<A>(p: Parser<A>): Parser<Option<A>>
  {
    s => match p(s)
         case Success(v, r) => Success(Some(v), r)
         case Failure => Success(None, s)
         case Thrown(m) => Thrown(m)
  }

  lemma OptionalOn<A>(p: Parser<A>, s: string)
    ensures Optional(p)(s) == match p(s)
                              case Success(v, r) => Success(Some(v), r)
                              case Failure => Success(None, s)
                              case Thrown(m) => Thrown(m)
  {
  }

  lemma OptionalSpec<A>(p: Parser<A>)
    ensures forall s :: !Optional(p)(s).Failure?
    ensures forall s :: p(s).Success? ==> Optional(p)(s) == Success(Some(p(s).value), p(s).remaining)
    ensures forall s :: p(s).Failure? ==> Optional(p)(s) == Success(None, s)
    ensures forall s :: p(s).Thrown? ==> Optional(p)(s) == Thrown(p(s).message)
    ensures NonGrowing(p) ==> NonGrowing(Optional(p))
  {
    forall s ensures Optional(p)(s) == match p(s)
                              case Success(v, r) => Success(Some(v), r)
                              case Failure => Success(None, s)
                              case Thrown(m) => Thrown(m) {
      OptionalOn(p, s);
    }
  }

  /** optionalb(parser): whether the parser succeeded, with the input it leaves. */
  function OptionalB<A>(p: Parser<A>): Parser<bool>
  {
    s => match p(s)
         case Success(_, r) => Success(true, r)
         case Failure => Success(false, s)
         case Thrown(m) => Thrown(m)
  }

  lemma OptionalBOn<A>(p: Parser<A>, s: string)
    ensures OptionalB(p)(s) == match p(s)
                               case Success(_, r) => Success(true, r)
                               case Failure => Success(false, s)
                               case Thrown(m) => Thrown(m)
  {
  }

  lemma OptionalBSpec<A>(p: Parser<A>)
    ensures forall s :: !OptionalB(p)(s).Failure?
    ensures forall s :: p(s).Success? ==> OptionalB(p)(s) == Success(true, p(s).remaining)
    ensures forall s :: p(s).Failure? ==> OptionalB(p)(s) == Success(false, s)
    ensures forall s :: p(s).Thrown? ==> OptionalB(p)(s) == Thrown(p(s).message)
    ensures NonGrowing(p) ==> NonGrowing(OptionalB(p))
  {
    forall s ensures OptionalB(p)(s) == match p(s)
                               case Success(_, r) => Success(true, r)
                               case Failure => Success(false, s)
                               case Thrown(m) => Thrown(m) {
      OptionalBOn(p, s);
    }
  }

  /** second(first, second): both in sequence, keeping the second value. */
  function Second<A, B>(a: Parser<A>, b: Parser<B>): Parser<B>
  {
    Map(Zip(a, b), (r: Double<A, B>) => r.secondValue)
  }

  lemma SecondOn<A, B>(a: Parser<A>, b: Parser<B>, s: string)
    ensures Second(a, b)(s) == match a(s)
                               case Success(_, r) => b(r)
                               case Failure => Failure
                               case Thrown(m) => Thrown(m)
  {
    MapOn(Zip(a, b), (r: Double<A, B>) => r.secondValue, s);
    ZipOn(a, b, s);
  }

  lemma SecondSpec<A, B>(a: Parser<A>, b: Parser<B>)
    ensures forall s :: Second(a, b)(s).Success? <==> a(s).Success? && b(a(s).remaining).Success?
    ensures forall s :: Second(a, b)(s).Success? ==> Second(a, b)(s) == b(a(s).remaining)
    ensures forall s :: a(s).Thrown? ==> Second(a, b)(s) == Thrown(a(s).message)
    ensures forall s :: a(s).Success? && b(a(s).remaining).Thrown? ==> Second(a, b)(s) == Thrown(b(a(s).remaining).message)
    ensures NonGrowing(a) && NonGrowing(b) ==> NonGrowing(Second(a, b))
    ensures Consuming(a) && NonGrowing(b) ==> Consuming(Second(a, b))
    ensures NonGrowing(a) && Consuming(b) ==> Consuming(Second(a, b))
  {
    forall s ensures Second(a, b)(s) == match a(s)
                               case Success(_, r) => b(r)
                               case Failure => Failure
                               case Thrown(m) => Thrown(m) {
      SecondOn(a, b, s);
    }
  }

  /** first(first, second): both in sequence, keeping the first value. */
  function First<A, B>(a: Parser<A>, b: Parser<B>): Parser<A>
  {
    Map(Zip(a, b), (r: Double<A, B>) => r.firstValue)
  }

  lemma FirstOn<A, B>(a: Parser<A>, b: Parser<B>, s: string)
    ensures First(a, b)(s) == match a(s)
                              case Success(v, r) => (match b(r)
                                                     case Success(_, r2) => Success(v, r2)
                                                     case Failure => Failure
                                                     case Thrown(m) => Thrown(m))
                              case Failure => Failure
                              case Thrown(m) => Thrown(m)
  {
    MapOn(Zip(a, b), (r: Double<A, B>) => r.firstValue, s);
    ZipOn(a, b, s);
  }

  lemma FirstSpec<A, B>(a: Parser<A>, b: Parser<B>)
    ensures forall s :: First(a, b)(s).Success? <==> a(s).Success? && b(a(s).remaining).Success?
    ensures forall s :: First(a, b)(s).Success? ==> First(a, b)(s) == Success(a(s).value, b(a(s).remaining).remaining)
    ensures forall s :: a(s).Thrown? ==> First(a, b)(s) == Thrown(a(s).message)
    ensures forall s :: a(s).Success? && b(a(s).remaining).Thrown? ==> First(a, b)(s) == Thrown(b(a(s).remaining).message)
    ensures NonGrowing(a) && NonGrowing(b) ==> NonGrowing(First(a, b))
    ensures Consuming(a) && NonGrowing(b) ==> Consuming(First(a, b))
    ensures NonGrowing(a) && Consuming(b) ==> Consuming(First(a, b))
  {
    forall s ensures First(a, b)(s) == match a(s)
                              case Success(v, r) => (match b(r)
                                                     case Success(_, r2) => Success(v, r2)
                                                     case Failure => Failure
                                                     case Thrown(m) => Thrown(m))
                              case Failure => Failure
                              case Thrown(m) => Thrown(m) {
      FirstOn(a, b, s);
    }
  }

  /**
   * What oneOf computes: the first alternative that does not fail;
   * Failure when every alternative fails.
   */
  function FirstSuccess<A>(ps: seq<Parser<A>>, s: string): (r: Parsed<A>)
    ensures r.Failure? || exists i :: 0 <= i < |ps| && r == ps[i](s)
    decreases |ps|
  {
    if ps == [] then Failure
    else if ps[0](s).Failure? then
      var r := FirstSuccess(ps[1..], s);
      assert r.Failure? || exists i :: 0 <= i < |ps[1..]| && r == ps[1..][i](s);
      assert !r.Failure? ==> exists i :: 1 <= i < |ps| && r == ps[i](s);
      r
    else ps[0](s)
  }

  /** oneOf(parsers...). */
  function OneOf<A>(ps: seq<Parser<A>>): Parser<A>
  {
    s => FirstSuccess(ps, s)
  }

  lemma OneOfSpec<A>(ps: seq<Parser<A>>)
    ensures forall s :: OneOf(ps)(s) == FirstSuccess(ps, s)
    ensures (forall i :: 0 <= i < |ps| ==> NonGrowing(ps[i])) ==> NonGrowing(OneOf(ps))
    ensures (forall i :: 0 <= i < |ps| ==> Consuming(ps[i])) ==> Consuming(OneOf(ps))
  {
  }

  lemma OneOfOn<A>(ps: seq<Parser<A>>, s: string)
    ensures OneOf(ps)(s) == if ps == [] then Failure
                            else if ps[0](s).Failure? then OneOf(ps[1..])(s)
                            else ps[0](s)
  {
  }

  lemma OneOf2On<A>(a: Parser<A>, b: Parser<A>, s: string)
    ensures OneOf([a, b])(s) == if a(s).Failure? then b(s) else a(s)
  {
    assert [a, b][1..] == [b] && [b][1..] == [];
    OneOfOn([a, b], s);
    OneOfOn([b], s);
    OneOfOn<A>([], s);
  }

  lemma OneOf4On<A>(a: Parser<A>, b: Parser<A>, c: Parser<A>, d: Parser<A>, s: string)
    ensures OneOf([a, b, c, d])(s) == if !a(s).Failure? then a(s)
                                      else if !b(s).Failure? then b(s)
                                      else if !c(s).Failure? then c(s)
                                      else d(s)
  {
    assert [a, b, c, d][1..] == [b, c, d] && [b, c, d][1..] == [c, d];
    assert [c, d][1..] == [d] && [d][1..] == [];
    OneOfOn([a, b, c, d], s);
    OneOfOn([b, c, d], s);
    OneOfOn([c, d], s);
    OneOfOn([d], s);
    OneOfOn<A>([], s);
  }

  lemma OneOf5On<A>(a: Parser<A>, b: Parser<A>, c: Parser<A>, d: Parser<A>, e: Parser<A>, s: string)
    ensures OneOf([a, b, c, d, e])(s) == if !a(s).Failure? then a(s)
                                         else if !b(s).Failure? then b(s)
                                         else if !c(s).Failure? then c(s)
                                         else if !d(s).Failure? then d(s)
                                         else e(s)
  {
    assert [a, b, c, d, e][1..] == [b, c, d, e] && [b, c, d, e][1..] == [c, d, e];
    assert [c, d, e][1..] == [d, e] && [d, e][1..] == [e] && [e][1..] == [];
    OneOfOn([a, b, c, d, e], s);
    OneOfOn([b, c, d, e], s);
    OneOfOn([c, d, e], s);
    OneOfOn([d, e], s);
    OneOfOn([e], s);
    OneOfOn<A>([], s);
  }

  /** The loop inside oneOf's parse function. */
  method RunOneOf<A>(ps: seq<Parser<A>>, input: string) returns (r: Parsed<A>)
    ensures r == OneOf(ps)(input)
  {
    for i := 0 to |ps|
      invariant FirstSuccess(ps, input) == FirstSuccess(ps[i..], input)
    {
      assert ps[i..][1..] == ps[i + 1..];
      var result := ps[i](input);
      if !result.Failure? {
        return result;
      }
    }
    r := Failure;
  }

  /**
   * oneOf yields alternative i exactly when every earlier alternative fails
   * and alternative i does not, and it fails exactly when they all fail.
   */
  lemma {:induction false} OneOfPicksFirst<A>(ps: seq<Parser<A>>, s: string, i: nat)
    requires i < |ps|
    requires forall j :: 0 <= j < i ==> ps[j](s).Failure?
    requires !ps[i](s).Failure?
    ensures OneOf(ps)(s) == ps[i](s)
    decreases i
  {
    if i > 0 {
      OneOfPicksFirst(ps[1..], s, i - 1);
    }
  }

  lemma {:induction false} OneOfFailsIffAllFail<A>(ps: seq<Parser<A>>, s: string)
    ensures OneOf(ps)(s).Failure? <==> forall j :: 0 <= j < |ps| ==> ps[j](s).Failure?
    decreases |ps|
  {
    if ps != [] {
      OneOfFailsIffAllFail(ps[1..], s);
      if ps[0](s).Failure? {
        assert forall j :: 1 <= j < |ps| ==> ps[j](s) == ps[1..][j - 1](s);
      }
    }
  }
}
