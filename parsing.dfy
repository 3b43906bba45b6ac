// parser/Parser.java: a parser is a function from the input to no result
// (Optional.empty), a value with the input left over, or a thrown
// ParseException (or any other exception raised while parsing).
module Parsing {
  import opened Common

  datatype Parsed<+A> = Failure | Success(value: A, remaining: string) | Thrown(message: string)

  type Parser<A> = string -> Parsed<A>

  /** Every success leaves at most the input it was given. */
  ghost predicate NonGrowing<A>(p: Parser<A>)
  {
    forall s :: p(s).Success? ==> |p(s).remaining| <= |s|
  }

  /** Every success consumes at least one character. */
  ghost predicate Consuming<A>(p: Parser<A>)
  {
    forall s :: p(s).Success? ==> |p(s).remaining| < |s|
  }

  // The parsers carry no contracts of their own. What each one does on a
  // single input is the lemma named after it with the suffix On; what it
  // promises for every input, and how it passes consumption on, is the
  // lemma with the suffix Spec.

  /** filter: a success whose value fails the test becomes a failure; nothing else changes. */
  function Filter<A>(p: Parser<A>, test: A -> bool): Parser<A>
  {
    s => match p(s)
         case Success(v, r) => if test(v) then Success(v, r) else Failure
         case Failure => Failure
         case Thrown(m) => Thrown(m)
  }

  lemma FilterOn<A>(p: Parser<A>, test: A -> bool, s: string)
    ensures Filter(p, test)(s) == if p(s).Success? && !test(p(s).value) then Failure else p(s)
  {
  }

  lemma FilterSpec<A>(p: Parser<A>, test: A -> bool)
    ensures forall s :: Filter(p, test)(s).Success? <==> p(s).Success? && test(p(s).value)
    ensures forall s :: Filter(p, test)(s).Success? ==> Filter(p, test)(s) == p(s)
    ensures forall s :: Filter(p, test)(s).Thrown? <==> p(s).Thrown?
    ensures forall s :: Filter(p, test)(s).Thrown? ==> Filter(p, test)(s) == p(s)
    ensures NonGrowing(p) ==> NonGrowing(Filter(p, test))
    ensures Consuming(p) ==> Consuming(Filter(p, test))
  {
    forall s ensures Filter(p, test)(s) == if p(s).Success? && !test(p(s).value) then Failure else p(s) {
      FilterOn(p, test, s);
    }
  }

  /**
   * map: the value of a success goes through the mapper. A mapper that
   * throws is a mapper into Result; its Err becomes the thrown exception.
   */
  function MapTry<A, B>(p: Parser<A>, mapper: A -> Result<B>): Parser<B>
  {
    s => match p(s)
         case Success(v, r) => (var m := mapper(v); if m.Ok? then Success(m.value, r) else Thrown(m.message))
         case Failure => Failure
         case Thrown(m) => Thrown(m)
  }

  lemma MapTryOn<A, B>(p: Parser<A>, f: A -> Result<B>, s: string)
    ensures MapTry(p, f)(s) == match p(s)
                               case Success(v, r) => (if f(v).Ok? then Success(f(v).value, r) else Thrown(f(v).message))
                               case Failure => Failure
                               case Thrown(m) => Thrown(m)
  {
  }

  lemma MapTrySpec<A, B>(p: Parser<A>, mapper: A -> Result<B>)
    ensures forall s :: MapTry(p, mapper)(s).Failure? <==> p(s).Failure?
    ensures forall s :: MapTry(p, mapper)(s).Success? <==> p(s).Success? && mapper(p(s).value).Ok?
    ensures forall s :: MapTry(p, mapper)(s).Success? ==>
      MapTry(p, mapper)(s) == Success(mapper(p(s).value).value, p(s).remaining)
    ensures forall s :: p(s).Success? && mapper(p(s).value).Err? ==>
      MapTry(p, mapper)(s) == Thrown(mapper(p(s).value).message)
    ensures forall s :: p(s).Thrown? ==> MapTry(p, mapper)(s) == Thrown(p(s).message)
    ensures NonGrowing(p) ==> NonGrowing(MapTry(p, mapper))
    ensures Consuming(p) ==> Consuming(MapTry(p, mapper))
  {
    forall s ensures MapTry(p, mapper)(s) == match p(s)
                               case Success(v, r) => (if mapper(v).Ok? then Success(mapper(v).value, r) else Thrown(mapper(v).message))
                               case Failure => Failure
                               case Thrown(m) => Thrown(m) {
      MapTryOn(p, mapper, s);
    }
  }

  /** map with a mapper that cannot throw: same outcome, same remaining input, mapped value. */
  function Map<A, B>(p: Parser<A>, mapper: A -> B): Parser<B>
  {
    MapTry(p, (v: A) => Ok(mapper(v)))
  }

  lemma MapOn<A, B>(p: Parser<A>, f: A -> B, s: string)
    ensures Map(p, f)(s) == match p(s)
                            case Success(v, r) => Success(f(v), r)
                            case Failure => Failure
                            case Thrown(m) => Thrown(m)
  {
  }

  lemma MapSpec<A, B>(p: Parser<A>, mapper: A -> B)
    ensures forall s :: Map(p, mapper)(s).Success? <==> p(s).Success?
    ensures forall s :: p(s).Success? ==> Map(p, mapper)(s) == Success(mapper(p(s).value), p(s).remaining)
    ensures forall s :: Map(p, mapper)(s).Failure? <==> p(s).Failure?
    ensures forall s :: p(s).Thrown? ==> Map(p, mapper)(s) == Thrown(p(s).message)
    ensures NonGrowing(p) ==> NonGrowing(Map(p, mapper))
    ensures Consuming(p) ==> Consuming(Map(p, mapper))
  {
    forall s ensures Map(p, mapper)(s) == match p(s)
                            case Success(v, r) => Success(mapper(v), r)
                            case Failure => Failure
                            case Thrown(m) => Thrown(m) {
      MapOn(p, mapper, s);
    }
  }

  /**
   * zeroOrThrow: map with a mapper that always throws. It never succeeds,
   * so the type of its value is free.
   */
  function ZeroOrThrow<A, B>(p: Parser<A>, message: string): Parser<B>
  {
    MapTry(p, (_: A) => Err(message))
  }

  lemma ZeroOrThrowOn<A, B>(p: Parser<A>, message: string, s: string)
    ensures ZeroOrThrow<A, B>(p, message)(s) == match p(s)
                                                case Success(_, _) => Thrown(message)
                                                case Failure => Failure
                                                case Thrown(m) => Thrown(m)
  {
  }

  lemma ZeroOrThrowSpec<A, B>(p: Parser<A>, message: string)
    ensures forall s :: p(s).Success? ==> ZeroOrThrow<A, B>(p, message)(s) == Thrown(message)
    ensures forall s :: ZeroOrThrow<A, B>(p, message)(s).Failure? <==> p(s).Failure?
    ensures forall s :: p(s).Thrown? ==> ZeroOrThrow<A, B>(p, message)(s) == Thrown(p(s).message)
    ensures Consuming(ZeroOrThrow<A, B>(p, message))
  {
    forall s ensures ZeroOrThrow<A, B>(p, message)(s) == match p(s)
                                                case Success(_, _) => Thrown(message)
                                                case Failure => Failure
                                                case Thrown(m) => Thrown(m) {
      ZeroOrThrowOn<A, B>(p, message, s);
    }
  }

  /** Every parser that flatMap may pick after a success of p is NonGrowing. */
  ghost predicate NextNonGrowing<A, B>(p: Parser<A>, next: A -> Parser<B>)
  {
    forall s :: p(s).Success? ==> NonGrowing(next(p(s).value))
  }

  ghost predicate NextConsuming<A, B>(p: Parser<A>, next: A -> Parser<B>)
  {
    forall s :: p(s).Success? ==> Consuming(next(p(s).value))
  }

  /** flatMap: the parser chosen by the first value runs on what the first parser left. */
  function FlatMap<A, B>(p: Parser<A>, next: A -> Parser<B>): Parser<B>
  {
    s => match p(s)
         case Success(v, r) => next(v)(r)
         case Failure => Failure
         case Thrown(m) => Thrown(m)
  }

  lemma FlatMapOn<A, B>(p: Parser<A>, next: A -> Parser<B>, s: string)
    ensures FlatMap(p, next)(s) == match p(s)
                                   case Success(v, r) => next(v)(r)
                                   case Failure => Failure
                                   case Thrown(m) => Thrown(m)
  {
  }

  lemma FlatMapSpec<A, B>(p: Parser<A>, next: A -> Parser<B>)
    ensures forall s :: p(s).Success? ==> FlatMap(p, next)(s) == next(p(s).value)(p(s).remaining)
    ensures forall s :: p(s).Failure? ==> FlatMap(p, next)(s) == Failure
    ensures forall s :: p(s).Thrown? ==> FlatMap(p, next)(s) == Thrown(p(s).message)
    ensures NonGrowing(p) && NextNonGrowing(p, next) ==> NonGrowing(FlatMap(p, next))
    ensures Consuming(p) && NextNonGrowing(p, next) ==> Consuming(FlatMap(p, next))
    ensures NonGrowing(p) && NextConsuming(p, next) ==> Consuming(FlatMap(p, next))
  {
    var q := FlatMap(p, next);
    forall s ensures q(s) == match p(s)
                             case Success(v, r) => next(v)(r)
                             case Failure => Failure
                             case Thrown(m) => Thrown(m) {
      FlatMapOn(p, next, s);
    }
    if NonGrowing(p) && NextNonGrowing(p, next) {
      forall s | q(s).Success? ensures |q(s).remaining| <= |s| {
        assert NonGrowing(next(p(s).value));
      }
    }
    if Consuming(p) && NextNonGrowing(p, next) {
      forall s | q(s).Success? ensures |q(s).remaining| < |s| {
        assert NonGrowing(next(p(s).value));
      }
    }
    if NonGrowing(p) && NextConsuming(p, next) {
      forall s | q(s).Success? ensures |q(s).remaining| < |s| {
        assert Consuming(next(p(s).value));
      }
    }
  }

  /** orThrow: a failure becomes a ParseException with the message; nothing else changes. */
  function OrThrow<A>(p: Parser<A>, message: string): Parser<A>
  {
    s => if p(s).Failure? then Thrown(message) else p(s)
  }

  lemma OrThrowOn<A>(p: Parser<A>, message: string, s: string)
    ensures OrThrow(p, message)(s) == if p(s).Failure? then Thrown(message) else p(s)
  {
  }

  lemma OrThrowSpec<A>(p: Parser<A>, message: string)
    ensures forall s :: p(s).Failure? ==> OrThrow(p, message)(s) == Thrown(message)
    ensures forall s :: !p(s).Failure? ==> OrThrow(p, message)(s) == p(s)
    ensures NonGrowing(p) ==> NonGrowing(OrThrow(p, message))
    ensures Consuming(p) ==> Consuming(OrThrow(p, message))
  {
    forall s ensures OrThrow(p, message)(s) == if p(s).Failure? then Thrown(message) else p(s) {
      OrThrowOn(p, message, s);
    }
  }

  /**
   * What zeroOrMore computes: the values of successive successes up to the
   * first failure; an exception from any attempt propagates. The loop in
   * zeroOrMore ends only because every success consumes input.
   */
  function Many<A>(p: Parser<A>, s: string): (r: Parsed<seq<A>>)
    requires Consuming(p)
    ensures !r.Failure?
    ensures r.Success? ==> |r.remaining| <= |s| && (|r.value| > 0 <==> |r.remaining| < |s|)
    ensures r.Success? ==> p(r.remaining).Failure?
    ensures r.Success? && r.value == [] ==> r.remaining == s
    decreases |s|
  {
    match p(s)
    case Failure => Success([], s)
    case Thrown(m) => Thrown(m)
    case Success(v, rest) =>
      var tail := Many(p, rest);
      if tail.Success? then Success([v] + tail.value, tail.remaining) else Thrown(tail.message)
  }

  /** Two parsers give the same on every input no longer than bound. */
  ghost predicate AgreeUpTo<A>(p: Parser<A>, q: Parser<A>, bound: nat)
  {
    forall x: string :: |x| <= bound ==> p(x) == q(x)
  }

  /**
   * zeroOrMore only looks at the input from s onwards: two parsers that
   * agree on every input no longer than a bound repeat alike within it.
   */
  lemma {:induction false} ManyAgree<A>(p: Parser<A>, q: Parser<A>, s: string, bound: nat)
    requires Consuming(p) && Consuming(q)
    requires |s| <= bound
    requires AgreeUpTo(p, q, bound)
    ensures Many(p, s) == Many(q, s)
    decreases |s|
  {
    if p(s).Success? {
      ManyAgree(p, q, p(s).remaining, bound);
    }
  }

  /** Prepending the values already collected to a later result. */
  function Prefixed<A>(vs: seq<A>, r: Parsed<seq<A>>): Parsed<seq<A>>
  {
    match r
    case Success(ws, rem) => Success(vs + ws, rem)
    case Failure => Failure
    case Thrown(m) => Thrown(m)
  }

  /** The loop inside zeroOrMore's parse function. */
  method RunZeroOrMore<A>(p: Parser<A>, input: string) returns (r: Parsed<seq<A>>)
    requires Consuming(p)
    ensures r == Many(p, input)
  {
    var matches: seq<A> := [];
    var remaining := input;
    assert Many(p, input).Success? ==> [] + Many(p, input).value == Many(p, input).value;
    while true
      invariant Many(p, input) == Prefixed(matches, Many(p, remaining))
      decreases |remaining|
    {
      var result := p(remaining);
      if result.Failure? {
        assert matches + [] == matches;
        break;
      }
      if result.Thrown? {
        return Thrown(result.message);
      }
      var tail := Many(p, result.remaining);
      assert tail.Success? ==> matches + ([result.value] + tail.value) == (matches + [result.value]) + tail.value;
      matches := matches + [result.value];
      remaining := result.remaining;
    }
    r := Success(matches, remaining);
  }

  /** zeroOrMore: never fails, and leaves the input after the last success. */
  function ZeroOrMore<A>(p: Parser<A>): Parser<seq<A>>
    requires Consuming(p)
  {
    s => Many(p, s)
  }

  lemma ZeroOrMoreOn<A>(p: Parser<A>, s: string)
    requires Consuming(p)
    ensures ZeroOrMore(p)(s) == Many(p, s)
  {
  }

  lemma ZeroOrMoreSpec<A>(p: Parser<A>)
    requires Consuming(p)
    ensures forall s :: !ZeroOrMore(p)(s).Failure?
    ensures NonGrowing(ZeroOrMore(p))
  {
    forall s ensures ZeroOrMore(p)(s) == Many(p, s) {
      ZeroOrMoreOn(p, s);
    }
  }

  /** oneOrMore: fails exactly when the first attempt fails; otherwise what zeroOrMore gives. */
  function OneOrMore<A>(p: Parser<A>): Parser<seq<A>>
    requires Consuming(p)
  {
    Filter(ZeroOrMore(p), (l: seq<A>) => |l| > 0)
  }

  lemma OneOrMoreOn<A>(p: Parser<A>, s: string)
    requires Consuming(p)
    ensures OneOrMore(p)(s) == if p(s).Failure? then Failure else Many(p, s)
  {
    FilterOn(ZeroOrMore(p), (l: seq<A>) => |l| > 0, s);
    ZeroOrMoreOn(p, s);
  }

  lemma OneOrMoreSpec<A>(p: Parser<A>)
    requires Consuming(p)
    ensures forall s :: OneOrMore(p)(s).Failure? <==> p(s).Failure?
    ensures forall s :: !OneOrMore(p)(s).Failure? ==> OneOrMore(p)(s) == Many(p, s)
    ensures Consuming(OneOrMore(p))
  {
    forall s ensures OneOrMore(p)(s) == if p(s).Failure? then Failure else Many(p, s) {
      OneOrMoreOn(p, s);
    }
  }
}
