// fsm/FSM.java: fragments of the automaton. A fragment is a start state and
// an end state of the arena; the builders add states and rewrite the
// transition lists of existing ones. Transition order is match priority.
module Fsm {
  import opened Common
  import opened Automaton
  import opened Conditions
  import CharSets
  import Ranges
  import opened Ast

  datatype FSM = FSM(start: nat, end: nat)

  /** Both states of the fragment belong to the graph. */
  predicate In(f: FSM, g: Graph)
  {
    f.start < |g| && f.end < |g|
  }

  /** The set one item of a character group contributes; a range includes both ends, as fromRange does. */
  function ItemSet(item: Item): CharSets.CharSet
  {
    match item
    case CharItem(c) => CharSets.FromChar(c)
    case RangeItem(lo, hi) => CharSets.FromRange(Ranges.Range(lo as int, hi as int))
    case SetItem(s) => s
  }

  /** Whether one item of a character group matches a character, stated without sets. */
  predicate ItemMatches(item: Item, c: char)
  {
    match item
    case CharItem(x) => c == x
    case RangeItem(lo, hi) => lo <= c <= hi
    case SetItem(s) => CharSets.Contains(s, c)
  }

  /**
   * FSMUtil.makeCharacterSet: a left fold of union over the items, seeded
   * with the empty set. The set holds c exactly when some item matches c.
   */
  function MakeCharacterSet(items: seq<Item>): (s: CharSets.CharSet)
    ensures forall c :: CharSets.Contains(s, c) <==> exists i :: 0 <= i < |items| && ItemMatches(items[i], c)
    decreases |items|
  {
    if items == [] then CharSets.Empty()
    else
      var init, last := items[..|items| - 1], items[|items| - 1];
      assert forall i :: 0 <= i < |init| ==> init[i] == items[i];
      assert forall c :: CharSets.Contains(ItemSet(last), c) <==> ItemMatches(last, c);
      CharSets.Union(MakeCharacterSet(init), ItemSet(last))
  }

  /** Filling the first of two new empty states. */
  lemma SetFirstOfTwo(g: Graph, ts: seq<Transition>)
    ensures (g + [[], []])[|g| := ts] == g + [ts, []]
  {
  }

  /** new FSM(): two new states without transitions. */
  method NewFsm(arena: StateArena) returns (f: FSM)
    requires arena.Valid()
    modifies arena
    ensures arena.Valid()
    ensures f == FSM(|old(arena.transitions)|, |old(arena.transitions)| + 1)
    ensures arena.transitions == old(arena.transitions) + [[], []]
  {
    var s := arena.NewState();
    var e := arena.NewState();
    f := FSM(s, e);
  }

  /** new FSM(condition): two new states, start moving to end under the condition. */
  method WithCondition(arena: StateArena, cond: Condition) returns (f: FSM)
    requires arena.Valid()
    modifies arena
    ensures arena.Valid()
    ensures f == FSM(|old(arena.transitions)|, |old(arena.transitions)| + 1)
    ensures arena.transitions == old(arena.transitions) + [[Transition(f.end, cond)], []]
  {
    ghost var before := arena.transitions;
    f := NewFsm(arena);
    arena.AddTransition(f.start, Transition(f.end, cond));
    assert [] + [Transition(f.end, cond)] == [Transition(f.end, cond)];
    SetFirstOfTwo(before, [Transition(f.end, cond)]);
  }

  /** FSM.empty: start moves to end by an unconditional epsilon. */
  method Empty(arena: StateArena) returns (f: FSM)
    requires arena.Valid()
    modifies arena
    ensures arena.Valid()
    ensures f == FSM(|old(arena.transitions)|, |old(arena.transitions)| + 1)
    ensures arena.transitions == old(arena.transitions) + [[EpsilonTo(f.end)], []]
  {
    ghost var before := arena.transitions;
    f := NewFsm(arena);
    arena.AddTransition(f.start, EpsilonTo(f.end));
    assert [] + [EpsilonTo(f.end)] == [EpsilonTo(f.end)];
    SetFirstOfTwo(before, [EpsilonTo(f.end)]);
  }

  method Character(arena: StateArena, c: char, ignoreCase: bool) returns (f: FSM)
    requires arena.Valid()
    modifies arena
    ensures arena.Valid()
    ensures f == FSM(|old(arena.transitions)|, |old(arena.transitions)| + 1)
    ensures arena.transitions == old(arena.transitions) + [[Transition(f.end, MatchCharacter(c, ignoreCase))], []]
  {
    f := WithCondition(arena, MatchCharacter(c, ignoreCase));
  }

  /** FSM.string: the Java code asserts that the string is not empty. */
  method StringFsm(arena: StateArena, s: string, ignoreCase: bool) returns (f: FSM)
    requires arena.Valid() && |s| > 0
    modifies arena
    ensures arena.Valid()
    ensures f == FSM(|old(arena.transitions)|, |old(arena.transitions)| + 1)
    ensures arena.transitions == old(arena.transitions) + [[Transition(f.end, MatchString(s, |s|, ignoreCase))], []]
  {
    f := WithCondition(arena, MatchString(s, |s|, ignoreCase));
  }

  /** FSM.characterGroup: an empty group throws; otherwise one transition tests the union of the items. */
  method CharacterGroupFsm(arena: StateArena, group: CharacterGroup, ignoreCase: bool) returns (r: Result<FSM>)
    requires arena.Valid()
    modifies arena
    ensures arena.Valid()
    ensures r.Err? <==> group.items == []
    ensures r.Err? ==> arena.transitions == old(arena.transitions)
    ensures r.Ok? ==> r.value == FSM(|old(arena.transitions)|, |old(arena.transitions)| + 1)
    ensures r.Ok? ==>
              arena.transitions == old(arena.transitions)
                + [[Transition(r.value.end, MatchCharacterSet(MakeCharacterSet(group.items), ignoreCase, group.isInverted))], []]
  {
    if group.items == [] {
      return Err("IllegalArgumentException: Group is empty");
    }
    var f := WithCondition(arena, MatchCharacterSet(MakeCharacterSet(group.items), ignoreCase, group.isInverted));
    r := Ok(f);
  }

  method AnyCharacter(arena: StateArena, includingNewLine: bool) returns (f: FSM)
    requires arena.Valid()
    modifies arena
    ensures arena.Valid()
    ensures f == FSM(|old(arena.transitions)|, |old(arena.transitions)| + 1)
    ensures arena.transitions == old(arena.transitions) + [[Transition(f.end, MatchAnyCharacter(includingNewLine))], []]
  {
    f := WithCondition(arena, MatchAnyCharacter(includingNewLine));
  }

  /**
   * FSM.anchor and the eight anchor builders (startOfString ...
   * nonWordBoundary): start moves to end by an epsilon guarded by the
   * anchor's test.
   */
  method Anchor(arena: StateArena, kind: AnchorKind) returns (f: FSM)
    requires arena.Valid()
    modifies arena
    ensures arena.Valid()
    ensures f == FSM(|old(arena.transitions)|, |old(arena.transitions)| + 1)
    ensures arena.transitions == old(arena.transitions) + [[EpsilonIf(f.end, kind)], []]
  {
    f := NewFsm(arena);
    arena.SetTransitions(f.start, [EpsilonIf(f.end, kind)]);
  }

  /** The quantifier's two states are distinct from each other and from the child's. */
  predicate Fresh(child: FSM, q: FSM)
  {
    q.start != q.end
    && q.start != child.start && q.start != child.end
    && q.end != child.start && q.end != child.end
  }

  /** Four distinct states: the child's two and the quantifier's two. */
  predicate Separate(child: FSM, q: FSM)
  {
    child.start != child.end && Fresh(child, q)
  }

  /**
   * The rewiring zeroOrMore performs: qs -> [cs]; cs gets qe appended;
   * ce -> [cs]; cs's list reversed when lazy.
   */
  function ZeroOrMoreWiring(g: Graph, child: FSM, q: FSM, isLazy: bool): (r: Graph)
    requires In(child, g) && In(q, g)
    ensures |r| == |g|
    ensures forall i :: 0 <= i < |g| && i != q.start && i != child.start && i != child.end ==> r[i] == g[i]
    ensures ValidGraph(g) ==> ValidGraph(r)
  {
    var g1 := g[q.start := [EpsilonTo(child.start)]];
    var g2 := g1[child.start := g1[child.start] + [EpsilonTo(q.end)]];
    var g3 := g2[child.end := [EpsilonTo(child.start)]];
    if isLazy then g3[child.start := Reverse(g3[child.start])] else g3
  }

  /** The rewiring oneOrMore performs: qs -> [cs]; ce -> [cs, qe], reversed when lazy. */
  function OneOrMoreWiring(g: Graph, child: FSM, q: FSM, isLazy: bool): (r: Graph)
    requires In(child, g) && In(q, g)
    ensures |r| == |g|
    ensures forall i :: 0 <= i < |g| && i != q.start && i != child.end ==> r[i] == g[i]
    ensures ValidGraph(g) ==> ValidGraph(r)
  {
    var g1 := g[q.start := [EpsilonTo(child.start)]];
    var g2 := g1[child.end := [EpsilonTo(child.start), EpsilonTo(q.end)]];
    if isLazy then g2[child.end := Reverse(g2[child.end])] else g2
  }

  /** The rewiring zeroOrOne performs: qs -> [cs, qe], reversed when lazy; ce -> [qe]. */
  function ZeroOrOneWiring(g: Graph, child: FSM, q: FSM, isLazy: bool): (r: Graph)
    requires In(child, g) && In(q, g)
    ensures |r| == |g|
    ensures forall i :: 0 <= i < |g| && i != q.start && i != child.end ==> r[i] == g[i]
    ensures ValidGraph(g) ==> ValidGraph(r)
  {
    var g1 := g[q.start := [EpsilonTo(child.start), EpsilonTo(q.end)]];
    var g2 := g1[child.end := [EpsilonTo(q.end)]];
    if isLazy then g2[q.start := Reverse(g2[q.start])] else g2
  }

  lemma ReverseAppendOne<T>(s: seq<T>, x: T)
    ensures Reverse(s + [x]) == [x] + Reverse(s)
  {
    var a, b := Reverse(s + [x]), [x] + Reverse(s);
    assert |a| == |b|;
    forall k | 0 <= k < |a| ensures a[k] == b[k] {
      if k > 0 {
        assert (s + [x])[|s| - k] == s[|s| - k];
      }
    }
  }

  /**
   * zeroOrMore on separate fragments: the quantifier's start enters the
   * child, the child's end loops back to its start, and the exit to the
   * quantifier's end is the child's start's last choice when greedy, its
   * first when lazy, ahead of the child's own transitions in reverse order.
   */
  lemma ZeroOrMoreShape(g: Graph, child: FSM, q: FSM, isLazy: bool)
    requires In(child, g) && In(q, g) && Separate(child, q)
    ensures var r := ZeroOrMoreWiring(g, child, q, isLazy);
      && r[q.start] == [EpsilonTo(child.start)]
      && r[child.end] == [EpsilonTo(child.start)]
      && r[q.end] == g[q.end]
      && r[child.start] == (if isLazy then [EpsilonTo(q.end)] + Reverse(g[child.start])
                            else g[child.start] + [EpsilonTo(q.end)])
  {
    ReverseAppendOne(g[child.start], EpsilonTo(q.end));
  }

  /** oneOrMore on separate fragments: the loop back comes first when greedy, the exit first when lazy. */
  lemma OneOrMoreShape(g: Graph, child: FSM, q: FSM, isLazy: bool)
    requires In(child, g) && In(q, g) && Separate(child, q)
    ensures var r := OneOrMoreWiring(g, child, q, isLazy);
      && r[q.start] == [EpsilonTo(child.start)]
      && r[child.start] == g[child.start]
      && r[q.end] == g[q.end]
      && r[child.end] == (if isLazy then [EpsilonTo(q.end), EpsilonTo(child.start)]
                          else [EpsilonTo(child.start), EpsilonTo(q.end)])
  {
  }

  /** zeroOrOne on separate fragments: entering the child comes first when greedy, skipping it first when lazy. */
  lemma ZeroOrOneShape(g: Graph, child: FSM, q: FSM, isLazy: bool)
    requires In(child, g) && In(q, g) && Separate(child, q)
    ensures var r := ZeroOrOneWiring(g, child, q, isLazy);
      && r[child.end] == [EpsilonTo(q.end)]
      && r[child.start] == g[child.start]
      && r[q.end] == g[q.end]
      && r[q.start] == (if isLazy then [EpsilonTo(q.end), EpsilonTo(child.start)]
                        else [EpsilonTo(child.start), EpsilonTo(q.end)])
  {
  }

  /** A lazy quantifier has the same transitions as the greedy one, only on one list in the opposite order. */
  lemma LazyIsReorderedGreedy(g: Graph, child: FSM, q: FSM)
    requires In(child, g) && In(q, g) && Separate(child, q)
    ensures ZeroOrMoreWiring(g, child, q, true)[child.start] == Reverse(ZeroOrMoreWiring(g, child, q, false)[child.start])
    ensures OneOrMoreWiring(g, child, q, true)[child.end] == Reverse(OneOrMoreWiring(g, child, q, false)[child.end])
    ensures ZeroOrOneWiring(g, child, q, true)[q.start] == Reverse(ZeroOrOneWiring(g, child, q, false)[q.start])
    ensures forall i :: 0 <= i < |g| && i != child.start ==>
      ZeroOrMoreWiring(g, child, q, true)[i] == ZeroOrMoreWiring(g, child, q, false)[i]
  {
  }

  /** FSM.zeroOrMore: a new quantifier fragment around the child. */
  method ZeroOrMore(arena: StateArena, child: FSM, isLazy: bool) returns (q: FSM)
    requires arena.Valid() && In(child, arena.transitions)
    modifies arena
    ensures arena.Valid()
    ensures q == FSM(|old(arena.transitions)|, |old(arena.transitions)| + 1) && Fresh(child, q)
    ensures arena.transitions == ZeroOrMoreWiring(old(arena.transitions) + [[], []], child, q, isLazy)
    ensures arena.transitions[q.end] == []
  {
    q := NewFsm(arena);
    arena.SetTransitions(q.start, [EpsilonTo(child.start)]);
    arena.AddTransition(child.start, EpsilonTo(q.end));
    arena.SetTransitions(child.end, [EpsilonTo(child.start)]);
    if isLazy {
      arena.ReverseTransition(child.start);
    }
  }

  /** FSM.oneOrMore. */
  method OneOrMore(arena: StateArena, child: FSM, isLazy: bool) returns (q: FSM)
    requires arena.Valid() && In(child, arena.transitions)
    modifies arena
    ensures arena.Valid()
    ensures q == FSM(|old(arena.transitions)|, |old(arena.transitions)| + 1) && Fresh(child, q)
    ensures arena.transitions == OneOrMoreWiring(old(arena.transitions) + [[], []], child, q, isLazy)
    ensures arena.transitions[q.end] == []
  {
    q := NewFsm(arena);
    arena.SetTransitions(q.start, [EpsilonTo(child.start)]);
    arena.SetTransitions(child.end, [EpsilonTo(child.start), EpsilonTo(q.end)]);
    if isLazy {
      arena.ReverseTransition(child.end);
    }
  }

  /** FSM.zeroOrOne. */
  method ZeroOrOne(arena: StateArena, child: FSM, isLazy: bool) returns (q: FSM)
    requires arena.Valid() && In(child, arena.transitions)
    modifies arena
    ensures arena.Valid()
    ensures q == FSM(|old(arena.transitions)|, |old(arena.transitions)| + 1) && Fresh(child, q)
    ensures arena.transitions == ZeroOrOneWiring(old(arena.transitions) + [[], []], child, q, isLazy)
    ensures arena.transitions[q.end] == []
  {
    q := NewFsm(arena);
    arena.SetTransitions(q.start, [EpsilonTo(child.start), EpsilonTo(q.end)]);
    arena.SetTransitions(child.end, [EpsilonTo(q.end)]);
    if isLazy {
      arena.ReverseTransition(q.start);
    }
  }
}
