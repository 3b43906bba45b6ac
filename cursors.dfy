// fsm/Cursor.java: the input string and the position reached in it.
// Nothing in the core moves a cursor, so a cursor is a value here.
module Cursors {
  import opened Common
  import Ranges
  import CharSets

  datatype Cursor = Cursor(
    str: string,
    endIndex: int,
    groups: map<int, Ranges.Range>,
    startIndex: int,
    index: int,
    previousMatchIndex: Option<int>)

  /** endIndex is the length of the input and the position lies inside it. */
  predicate Valid(c: Cursor)
  {
    c.endIndex == |c.str| && 0 <= c.startIndex && 0 <= c.index <= c.endIndex
  }

  /** The constructor: a cursor at the very start of the input. */
  function NewCursor(s: string): (c: Cursor)
    ensures Valid(c) && c.str == s
    ensures IsAtStart(c) && IsFromStart(c) && c.index == 0
    ensures c.groups == map[] && c.previousMatchIndex == None
  {
    Cursor(s, |s|, map[], 0, 0, None)
  }

  /**
   * charAt: a position at or past the end gives no character; a negative
   * position passes the length test and then makes String.charAt throw.
   */
  function CharAt(c: Cursor, i: int): (r: Result<Option<char>>)
    requires Valid(c)
    ensures r.Err? <==> i < 0
    ensures r == Ok(None) <==> i >= c.endIndex
    ensures r.Ok? && r.value.Some? ==> 0 <= i < |c.str| && r.value.value == c.str[i]
  {
    if i < c.endIndex then
      if i < 0 then Err("StringIndexOutOfBoundsException") else Ok(Some(c.str[i]))
    else Ok(None)
  }

  /** The character under the cursor; the cursor's own index is never negative. */
  function Character(c: Cursor): (r: Option<char>)
    requires Valid(c)
    ensures CharAt(c, c.index) == Ok(r)
  {
    if c.index < c.endIndex then Some(c.str[c.index]) else None
  }

  /** charOffsetBy: the character at a distance from the cursor. */
  function CharOffsetBy(c: Cursor, offset: int): (r: Result<Option<char>>)
    requires Valid(c)
    ensures r.Err? <==> c.index + offset < 0
  {
    CharAt(c, c.index + offset)
  }

  /**
   * substring: the next `count` characters, none when fewer are left; a
   * negative count passes the length test and then makes String.substring throw.
   */
  function Substring(c: Cursor, count: int): (r: Result<Option<string>>)
    requires Valid(c)
    ensures r.Err? <==> count < 0
    ensures r == Ok(None) <==> count > c.endIndex - c.index
    ensures r.Ok? && r.value.Some? ==>
      c.index + count <= |c.str| && r.value.value == c.str[c.index..c.index + count]
  {
    if c.index + count <= c.endIndex then
      if count < 0 then Err("StringIndexOutOfBoundsException")
      else Ok(Some(c.str[c.index..c.index + count]))
    else Ok(None)
  }

  predicate IsAtStart(c: Cursor)
  {
    c.index == c.startIndex
  }

  predicate IsFromStart(c: Cursor)
  {
    c.startIndex == 0
  }

  predicate IsAtLastIndex(c: Cursor)
  {
    c.index == c.endIndex - 1
  }

  /** The cursor is at the last index exactly when there is a character under it and none after it. */
  lemma LastIndexIffLastCharacter(c: Cursor)
    requires Valid(c)
    ensures IsAtLastIndex(c) <==> Character(c).Some? && CharOffsetBy(c, 1) == Ok(None)
  {
  }

  predicate IsWord(ch: char)
  {
    CharSets.Contains(CharSets.WordSet, ch)
  }

  function OrElse(o: Option<char>, default: char): char
  {
    if o.Some? then o.value else default
  }

  /**
   * isAtWordBoundary as the Java code has it: the character before the
   * cursor is read through charOffsetBy(-1), which throws at index 0.
   */
  function IsAtWordBoundaryAsWritten(c: Cursor): (r: Result<bool>)
    requires Valid(c)
  {
    var chr := Character(c);
    if chr.None? then Ok(true)
    else
      var lhs, rhs := CharOffsetBy(c, -1), CharOffsetBy(c, 1);
      if lhs.Err? then Err(lhs.message)
      else
        // charOffsetBy(1) cannot throw: the index is never negative
        var l, r := OrElse(lhs.value, ' '), if rhs.Ok? then OrElse(rhs.value, ' ') else ' ';
        Ok(if IsWord(chr.value) then !IsWord(l) else IsWord(l) || !IsWord(r))
  }

  /** At index 0 of a non-empty input the Java code throws instead of answering. */
  lemma WordBoundaryAsWrittenThrowsAtStart(c: Cursor)
    requires Valid(c) && c.index == 0 && |c.str| > 0
    ensures IsAtWordBoundaryAsWritten(c).Err?
  {
  }

  /** The character before the cursor, a space when there is none (the evident intent of orElse(' ')). */
  function Before(c: Cursor): char
    requires Valid(c)
  {
    if 0 < c.index <= |c.str| then c.str[c.index - 1] else ' '
  }

  /** The character after the one under the cursor, a space when there is none. */
  function After(c: Cursor): char
    requires Valid(c)
  {
    if c.index + 1 < |c.str| then c.str[c.index + 1] else ' '
  }

  /** isAtWordBoundary with a missing neighbour read as a space, as its orElse(' ') intends. */
  function IsAtWordBoundary(c: Cursor): bool
    requires Valid(c)
  {
    var chr := Character(c);
    if chr.None? then true
    else if IsWord(chr.value) then !IsWord(Before(c))
    else IsWord(Before(c)) || !IsWord(After(c))
  }

  /** Away from index 0 the corrected test and the written one give the same answer. */
  lemma WordBoundaryAgreesAfterStart(c: Cursor)
    requires Valid(c) && (c.index > 0 || c.index == |c.str|)
    ensures IsAtWordBoundaryAsWritten(c) == Ok(IsAtWordBoundary(c))
  {
  }

  /** A word character that starts the input is at a word boundary, and so is the end of the input. */
  lemma WordBoundaryAtEdges(c: Cursor)
    requires Valid(c)
    ensures c.index == 0 && |c.str| > 0 && IsWord(c.str[0]) ==> IsAtWordBoundary(c)
    ensures c.index == |c.str| ==> IsAtWordBoundary(c)
  {
  }

  /** Inside the input, a word character is at a boundary exactly when the character before it is not a word character. */
  lemma WordBoundaryBeforeWord(c: Cursor)
    requires Valid(c) && 0 < c.index < |c.str| && IsWord(c.str[c.index])
    ensures IsAtWordBoundary(c) <==> !IsWord(c.str[c.index - 1])
  {
  }
}
