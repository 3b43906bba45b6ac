// The syntax tree built by the grammar (package ast).
module Ast {
  import opened Common
  import CharSets

  /** ast/Anchor.java. */
  datatype AnchorKind =
    | StartOfString
    | EndOfString
    | WordBoundary
    | NonWordBoundary
    | StartOfStringOnly
    | EndOfStringOnly
    | EndOfStringOnlyNotNewLine
    | PreviousMatchEnd

  /** ast/Quantifier.java: the kind of repetition and whether it is lazy. */
  datatype QuantifierType =
    | ZeroOrMoreType
    | OneOrMoreType
    | ZeroOrOneType
    | RangeType(lowerBound: int, upperBound: Option<int>)

  datatype Quantifier = Quantifier(qtype: QuantifierType, isLazy: bool)

  /** ast/CharacterGroup.java: the items between the brackets of a group. */
  datatype Item =
    | CharItem(character: char)
    | RangeItem(start: char, end: char)
    | SetItem(charSet: CharSets.CharSet)

  datatype CharacterGroup = CharacterGroup(isInverted: bool, items: seq<Item>)

  /** ast/Match.java. */
  datatype Match =
    | AnyCharacter
    | CharacterMatch(character: char)
    | StringMatch(string: string)
    | SetMatch(charSet: CharSets.CharSet)
    | GroupMatch(group: CharacterGroup)

  /** ast/Unit.java and the records that implement it. */
  datatype Unit =
    | Alternation(children: seq<Unit>)
    | AnchorUnit(anchor: AnchorKind)
    | BackReference(groupIndex: int)
    | CharacterGroupUnit(characterGroup: CharacterGroup)
    | Group(index: Option<int>, isCapturing: bool, children: seq<Unit>)
    | ImplicitGroup(children: seq<Unit>)
    | MatchUnit(m: Match)
    | QuantifiedExpression(expression: Unit, quantifier: Quantifier)

  /** ast/AST.java. */
  datatype AST = AST(isFromStartOfString: bool, root: Unit)
}
