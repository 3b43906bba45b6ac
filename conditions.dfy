// fsm/Condition.java, fsm/Epsilon.java and fsm/ConditionResult.java: the
// test a transition puts on the cursor, and how many characters it consumes.
module Conditions {
  import opened Common
  import opened Cursors
  import opened Ast
  import CharSets
  import Anchors

  /**
   * accepted(count) or rejected. The single-character conditions build
   * `new accepted()` without a count; they consume one character, so the
   * model gives them the count 1.
   */
  datatype ConditionResult = Accepted(count: int) | Rejected

  /** The five records that implement Condition, and Epsilon with an optional anchor test. */
  datatype Condition =
    | MatchCharacter(character: char, ignoreCase: bool)
    | MatchString(string: string, count: int, ignoreCase: bool)
    | MatchCharacterSet(charSet: CharSets.CharSet, ignoreCase: bool, isNegative: bool)
    | MatchAnyCharacter(includingNewLine: bool)
    | BackReferenceCondition(groupIndex: int)
    | Epsilon(test: Option<AnchorKind>)

  /** Character.toLowerCase and toUpperCase on ASCII letters; every other character maps to itself. */
  function ToLower(c: char): char
  {
    if 'A' <= c <= 'Z' then (c as int + 32) as char else c
  }

  function ToUpper(c: char): char
  {
    if 'a' <= c <= 'z' then (c as int - 32) as char else c
  }

  /** String.equalsIgnoreCase: the same length, and character by character the same letter. */
  predicate EqualsIgnoreCase(a: string, b: string)
  {
    |a| == |b| && forall i :: 0 <= i < |a| ==> ToLower(a[i]) == ToLower(b[i])
  }

  predicate CharacterMatches(x: char, ignoreCase: bool, input: char)
  {
    if ignoreCase then ToLower(input) == ToLower(x) else input == x
  }

  /**
   * MatchCharacterSet.matches as the Java code has it: the negation flag
   * only chooses between the case-folding test and the plain test, and
   * never negates.
   */
  predicate CharacterSetMatchesAsWritten(s: CharSets.CharSet, ignoreCase: bool, isNegative: bool, input: char)
  {
    if isNegative != ignoreCase then
      CharSets.Contains(s, ToLower(input)) || CharSets.Contains(s, ToUpper(input))
    else CharSets.Contains(s, input)
  }

  /** An inverted group [^a] accepts 'a' as written. */
  lemma CharacterSetAsWrittenAcceptsExcluded()
    ensures CharacterSetMatchesAsWritten(CharSets.FromChar('a'), false, true, 'a')
  {
  }

  /** MatchCharacterSet.matches with the flags used as their names say: case folding when ignoring case, then negation. */
  predicate CharacterSetMatches(s: CharSets.CharSet, ignoreCase: bool, isNegative: bool, input: char)
  {
    var inSet := if ignoreCase then CharSets.Contains(s, ToLower(input)) || CharSets.Contains(s, ToUpper(input))
                 else CharSets.Contains(s, input);
    inSet != isNegative
  }

  /** A negative set accepts exactly the characters that the same positive set rejects. */
  lemma NegativeSetComplements(s: CharSets.CharSet, ignoreCase: bool, input: char)
    ensures CharacterSetMatches(s, ignoreCase, true, input) <==> !CharacterSetMatches(s, ignoreCase, false, input)
    ensures !ignoreCase ==> (CharacterSetMatches(s, ignoreCase, false, input) <==> CharSets.Contains(s, input))
  {
  }

  /** The written and the corrected test agree on every positive set matched without case folding. */
  lemma CharacterSetAgreesWhenPositive(s: CharSets.CharSet, input: char)
    ensures CharacterSetMatchesAsWritten(s, false, false, input) == CharacterSetMatches(s, false, false, input)
    ensures CharacterSetMatchesAsWritten(s, true, false, input) == CharacterSetMatches(s, true, false, input)
  {
  }

  /** apply: whether the transition can be taken at this cursor, and how far it moves. */
  function Apply(cond: Condition, c: Cursor): (r: Result<ConditionResult>)
    requires Valid(c)
    ensures r.Err? <==> cond.BackReferenceCondition? || (cond.MatchString? && cond.count < 0)
    ensures r.Ok? && r.value.Accepted? ==> 0 <= r.value.count <= c.endIndex - c.index
    ensures cond.Epsilon? ==> r.Ok? && (r.value.Accepted? ==> r.value.count == 0)
  {
    match cond
    case MatchCharacter(x, ignoreCase) =>
      var ch := Character(c);
      Ok(if ch.Some? && CharacterMatches(x, ignoreCase, ch.value) then Accepted(1) else Rejected)
    case MatchString(s, count, ignoreCase) =>
      var sub :- Substring(c, count);
      Ok(if sub.Some? && (if ignoreCase then EqualsIgnoreCase(sub.value, s) else sub.value == s)
         then Accepted(count) else Rejected)
    case MatchCharacterSet(s, ignoreCase, isNegative) =>
      var ch := Character(c);
      Ok(if ch.Some? && CharacterSetMatches(s, ignoreCase, isNegative, ch.value) then Accepted(1) else Rejected)
    case MatchAnyCharacter(includingNewLine) =>
      var ch := Character(c);
      Ok(if ch.Some? && (includingNewLine || ch.value != '\n') then Accepted(1) else Rejected)
    case BackReferenceCondition(_) => Err("UnsupportedOperationException")
    case Epsilon(test) =>
      Ok(if test.None? || Anchors.Holds(test.value, c) then Accepted(0) else Rejected)
  }

  /** The one-character conditions reject at the end of the input. */
  lemma OneCharacterConditionsNeedInput(cond: Condition, c: Cursor)
    requires Valid(c) && c.index == |c.str|
    requires cond.MatchCharacter? || cond.MatchCharacterSet? || cond.MatchAnyCharacter?
    ensures Apply(cond, c) == Ok(Rejected)
  {
  }

  /**
   * MatchCharacter accepts one character exactly when a character is left
   * and it is its own, or, with case folding, the same letter in either
   * case; otherwise it rejects.
   */
  lemma MatchCharacterExact(x: char, ignoreCase: bool, c: Cursor)
    requires Valid(c)
    ensures Apply(MatchCharacter(x, ignoreCase), c) == Ok(Accepted(1)) <==>
              c.index < |c.str| &&
              (if ignoreCase then ToLower(c.str[c.index]) == ToLower(x) else c.str[c.index] == x)
    ensures Apply(MatchCharacter(x, ignoreCase), c) != Ok(Accepted(1)) ==>
              Apply(MatchCharacter(x, ignoreCase), c) == Ok(Rejected)
    ensures ignoreCase && c.index < |c.str| && c.str[c.index] in {x, ToLower(x), ToUpper(x)} ==>
              Apply(MatchCharacter(x, ignoreCase), c) == Ok(Accepted(1))
  {
  }

  /**
   * MatchCharacterSet accepts one character exactly when a character is
   * left and the set test, with its case folding and negation, passes;
   * otherwise it rejects.
   */
  lemma MatchCharacterSetExact(s: CharSets.CharSet, ignoreCase: bool, isNegative: bool, c: Cursor)
    requires Valid(c)
    ensures Apply(MatchCharacterSet(s, ignoreCase, isNegative), c) == Ok(Accepted(1)) <==>
              Character(c).Some? && CharacterSetMatches(s, ignoreCase, isNegative, Character(c).value)
    ensures Apply(MatchCharacterSet(s, ignoreCase, isNegative), c) != Ok(Accepted(1)) ==>
              Apply(MatchCharacterSet(s, ignoreCase, isNegative), c) == Ok(Rejected)
  {
  }

  /** With case folding an ASCII letter matches either case of itself. */
  lemma MatchCharacterIgnoringCase(c: Cursor)
    requires Valid(c) && c.index < |c.str|
    ensures c.str[c.index] == 'A' ==> Apply(MatchCharacter('a', true), c) == Ok(Accepted(1))
    ensures c.str[c.index] == 'a' ==> Apply(MatchCharacter('A', true), c) == Ok(Accepted(1))
  {
  }

  /** A string condition built by FSM.string accepts exactly when the input at the cursor starts with the string. */
  lemma MatchStringIffPrefix(s: string, c: Cursor)
    requires Valid(c)
    ensures Apply(MatchString(s, |s|, false), c) == Ok(Accepted(|s|)) <==> s <= c.str[c.index..]
  {
    if s <= c.str[c.index..] {
      assert c.str[c.index..c.index + |s|] == s;
    }
  }

  /**
   * With case folding it accepts exactly when as many characters are left
   * and they equal the string ignoring case; in particular whenever the
   * input starts with the string itself.
   */
  lemma MatchStringIgnoringCaseIff(s: string, c: Cursor)
    requires Valid(c)
    ensures Apply(MatchString(s, |s|, true), c) == Ok(Accepted(|s|)) <==>
              |s| <= |c.str| - c.index && EqualsIgnoreCase(c.str[c.index..c.index + |s|], s)
    ensures s <= c.str[c.index..] ==> Apply(MatchString(s, |s|, true), c) == Ok(Accepted(|s|))
  {
    if s <= c.str[c.index..] {
      assert c.str[c.index..c.index + |s|] == s;
    }
  }

  /** The dot rejects a newline unless it is told to include it. */
  lemma AnyCharacterNewline(includingNewLine: bool, c: Cursor)
    requires Valid(c) && c.index < |c.str|
    ensures Apply(MatchAnyCharacter(includingNewLine), c) == Ok(Accepted(1)) <==> includingNewLine || c.str[c.index] != '\n'
  {
  }

  /** An anchored epsilon transition is taken exactly when its anchor test holds, and consumes nothing. */
  lemma EpsilonFollowsAnchor(kind: AnchorKind, c: Cursor)
    requires Valid(c)
    ensures Apply(Epsilon(Some(kind)), c) == (if Anchors.Holds(kind, c) then Ok(Accepted(0)) else Ok(Rejected))
    ensures Apply(Epsilon(None), c) == Ok(Accepted(0))
  {
  }
}
