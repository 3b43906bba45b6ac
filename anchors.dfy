// The predicates behind the anchor fragments of fsm/FSM.java. Each anchor
// fragment is one epsilon transition guarded by one of these tests.
module Anchors {
  import opened Common
  import opened Cursors
  import opened Ast

  /**
   * previousMatchEnd as the Java code has it: the second test is
   * `isPresent()` where `&&` was meant, so the predicate accepts whenever
   * any previous match exists, and calls getAsInt() on an empty optional
   * (which throws) in the one case where it should compare.
   */
  function PreviousMatchEndAsWritten(c: Cursor): (r: Result<bool>)
  {
    if IsAtStart(c) || c.previousMatchIndex.Some? then Ok(true)
    else Err("NoSuchElementException")
  }

  /** As written the predicate never rejects: it either accepts or throws. */
  lemma PreviousMatchEndAsWrittenNeverRejects(c: Cursor)
    ensures PreviousMatchEndAsWritten(c) != Ok(false)
    ensures PreviousMatchEndAsWritten(c).Err? <==> !IsAtStart(c) && c.previousMatchIndex.None?
  {
  }

  /** A cursor one step past a previous match that ended at 0: accepted, although the match is not contiguous. */
  lemma PreviousMatchEndAsWrittenExample()
    ensures var c := Cursor("ab", 2, map[], 0, 1, Some(0));
      Valid(c) && PreviousMatchEndAsWritten(c) == Ok(true) && !PreviousMatchEnd(c)
  {
  }

  /** previousMatchEnd as its comment intends: at the start, or where the previous match ended. */
  predicate PreviousMatchEnd(c: Cursor)
  {
    IsAtStart(c) || c.previousMatchIndex == Some(c.index)
  }

  /** The corrected test never throws and agrees with the written one wherever the written one is right. */
  lemma PreviousMatchEndAgrees(c: Cursor)
    ensures c.previousMatchIndex == Some(c.index) || IsAtStart(c) ==> PreviousMatchEndAsWritten(c) == Ok(PreviousMatchEnd(c))
    ensures PreviousMatchEnd(c) <==> IsAtStart(c) || (c.previousMatchIndex.Some? && c.previousMatchIndex.value == c.index)
  {
  }

  /** The test each anchor fragment puts on its epsilon transition. */
  predicate Holds(kind: AnchorKind, c: Cursor)
    requires Valid(c)
  {
    match kind
    case StartOfString =>
      IsFromStart(c) || Character(c).None? || Character(c).value == '\n'
    case StartOfStringOnly => IsFromStart(c)
    case EndOfString => Character(c).None? || Character(c).value == '\n'
    case EndOfStringOnly =>
      Character(c).None? || (IsAtLastIndex(c) && Character(c).value == '\n')
    case EndOfStringOnlyNotNewLine => Character(c).None?
    case PreviousMatchEnd => PreviousMatchEnd(c)
    case WordBoundary => IsAtWordBoundary(c)
    case NonWordBoundary => !IsAtWordBoundary(c)
  }

  /** The end-of-input anchors, from the most to the least permissive: each one implies the one before it. */
  lemma EndAnchorsNested(c: Cursor)
    requires Valid(c)
    ensures Holds(EndOfStringOnlyNotNewLine, c) ==> Holds(EndOfStringOnly, c)
    ensures Holds(EndOfStringOnly, c) ==> Holds(EndOfString, c)
    ensures Holds(StartOfStringOnly, c) ==> Holds(StartOfString, c)
  {
  }

  /** At the end of the input every end anchor holds; strictly inside, without a newline, none does. */
  lemma EndAnchorsAtEnd(c: Cursor)
    requires Valid(c)
    ensures c.index == |c.str| ==> Holds(EndOfString, c) && Holds(EndOfStringOnly, c) && Holds(EndOfStringOnlyNotNewLine, c)
    ensures c.index < |c.str| && c.str[c.index] != '\n' ==>
      !Holds(EndOfString, c) && !Holds(EndOfStringOnly, c) && !Holds(EndOfStringOnlyNotNewLine, c)
  {
  }

  /** endOfStringOnly accepts a newline only when it is the last character of the input. */
  lemma EndOfStringOnlyNewline(c: Cursor)
    requires Valid(c) && c.index < |c.str| && c.str[c.index] == '\n'
    ensures Holds(EndOfStringOnly, c) <==> c.index == |c.str| - 1
    ensures Holds(EndOfString, c)
  {
  }

  /** The two word-boundary anchors are complements. */
  lemma WordBoundaryComplement(c: Cursor)
    requires Valid(c)
    ensures Holds(NonWordBoundary, c) <==> !Holds(WordBoundary, c)
  {
  }
}
