// compiler/Compiler.java: from the syntax tree to the compiled automaton.
// The compiler walks the tree, builds fragments in the state arena, records
// capture groups and back references as it goes, and finally numbers the
// states of the whole fragment and copies their transitions into a table.
module Compiling {
  import opened Common
  import opened Automaton
  import opened Conditions
  import opened Ast
  import Fsm

  /** The two Regex.Options the compiler reads. */
  datatype Options = Options(caseInsensitive: bool, dotMatchesLineSeparators: bool)

  /** IRCaptureGroup: a group index with the start and end states of its fragment. */
  datatype IRCaptureGroup = IRCaptureGroup(index: int, start: nat, end: nat)

  /**
   * CompiledTransition. The target is the number indices.get gives, which is
   * null (here None) for a state that is not one of the numbered states.
   */
  datatype CompiledTransition = CompiledTransition(end: Option<nat>, condition: Condition)

  datatype CompiledCaptureGroup = CompiledCaptureGroup(index: int, start: Option<nat>, end: Option<nat>)

  /** CompiledRegex; the state machine is its table of transition rows, row i for state number i. */
  datatype CompiledRegex = CompiledRegex(
    transitions: seq<seq<CompiledTransition>>,
    captureGroups: seq<CompiledCaptureGroup>,
    isRegular: bool,
    isFromStartOfString: bool)

  /**
   * The fragment operations the compiler calls that FSM.java does not define:
   * concatenate, group, backreference and allStates. Each is a function of
   * the arena's graph before the call, giving the graph after it and the new
   * fragment (allStates gives the states of a fragment, in order).
   */
  datatype Builders = Builders(
    concatenate: (Graph, seq<Fsm.FSM>) -> (Graph, Fsm.FSM),
    group: (Graph, Fsm.FSM) -> (Graph, Fsm.FSM),
    backreference: (Graph, int) -> (Graph, Fsm.FSM),
    allStates: (Graph, Fsm.FSM) -> seq<nat>)

  /** A builder's result: a valid graph at least as large as before, holding the new fragment. */
  ghost predicate Extends(g: Graph, r: (Graph, Fsm.FSM))
  {
    |g| <= |r.0| && ValidGraph(r.0) && Fsm.In(r.1, r.0)
  }

  /** All fragments lie in the graph. */
  predicate AllIn(fs: seq<Fsm.FSM>, g: Graph)
  {
    forall i :: 0 <= i < |fs| ==> Fsm.In(fs[i], g)
  }

  /** No state is listed twice; Collectors.toMap throws on a repeated key. */
  predicate DistinctStates(states: seq<nat>)
  {
    forall i, j :: 0 <= i < j < |states| ==> states[i] != states[j]
  }

  /** Every listed state belongs to the graph. */
  predicate StatesIn(states: seq<nat>, g: Graph)
  {
    forall i :: 0 <= i < |states| ==> states[i] < |g|
  }

  /** What the compiler relies on from the fragment operations. */
  ghost predicate WellBehaved(b: Builders)
  {
    && (forall g, fs {:trigger b.concatenate(g, fs)} :: ValidGraph(g) && AllIn(fs, g) ==> Extends(g, b.concatenate(g, fs)))
    && (forall g, f {:trigger b.group(g, f)} :: ValidGraph(g) && Fsm.In(f, g) ==> Extends(g, b.group(g, f)))
    && (forall g, n {:trigger b.backreference(g, n)} :: ValidGraph(g) ==> Extends(g, b.backreference(g, n)))
    && (forall g, f {:trigger b.allStates(g, f)} :: ValidGraph(g) && Fsm.In(f, g) ==>
          DistinctStates(b.allStates(g, f)) && StatesIn(b.allStates(g, f), g))
  }

  /** Whether _compile returns a fragment for the unit rather than throwing. */
  predicate Compiles(u: Unit)
  {
    match u
    case ImplicitGroup(cs) => forall i :: 0 <= i < |cs| ==> Compiles(cs[i])
    case Group(index, isCapturing, cs) => (forall i :: 0 <= i < |cs| ==> Compiles(cs[i])) && (isCapturing ==> index.Some?)
    case BackReference(_) => true
    case MatchUnit(m) => m.CharacterMatch?
    case _ => false
  }

  /** The group indices of the back references of a tree, left to right. */
  function BackReferencesIn(u: Unit): seq<int>
    decreases u, 1
  {
    match u
    case BackReference(n) => [n]
    case Alternation(cs) => BackReferencesInAll(cs)
    case ImplicitGroup(cs) => BackReferencesInAll(cs)
    case Group(_, _, cs) => BackReferencesInAll(cs)
    case QuantifiedExpression(e, _) => BackReferencesIn(e)
    case _ => []
  }

  function BackReferencesInAll(cs: seq<Unit>): seq<int>
    decreases cs, 0
  {
    if cs == [] then [] else BackReferencesInAll(cs[..|cs| - 1]) + BackReferencesIn(cs[|cs| - 1])
  }

  /** Whether a back reference occurs anywhere in the tree. */
  predicate HasBackReference(u: Unit)
  {
    match u
    case BackReference(_) => true
    case Alternation(cs) => exists i :: 0 <= i < |cs| && HasBackReference(cs[i])
    case ImplicitGroup(cs) => exists i :: 0 <= i < |cs| && HasBackReference(cs[i])
    case Group(_, _, cs) => exists i :: 0 <= i < |cs| && HasBackReference(cs[i])
    case QuantifiedExpression(e, _) => HasBackReference(e)
    case _ => false
  }

  /** The indices of the capturing groups of a tree, each after the groups nested in it. */
  function CaptureIndicesIn(u: Unit): seq<int>
    decreases u, 1
  {
    match u
    case Alternation(cs) => CaptureIndicesInAll(cs)
    case ImplicitGroup(cs) => CaptureIndicesInAll(cs)
    case Group(index, isCapturing, cs) =>
      CaptureIndicesInAll(cs) + (if isCapturing && index.Some? then [index.value] else [])
    case QuantifiedExpression(e, _) => CaptureIndicesIn(e)
    case _ => []
  }

  function CaptureIndicesInAll(cs: seq<Unit>): seq<int>
    decreases cs, 0
  {
    if cs == [] then [] else CaptureIndicesInAll(cs[..|cs| - 1]) + CaptureIndicesIn(cs[|cs| - 1])
  }

  /** The indices of recorded capture groups, in order. */
  function Indices(cgs: seq<IRCaptureGroup>): seq<int>
  {
    if cgs == [] then [] else Indices(cgs[..|cgs| - 1]) + [cgs[|cgs| - 1].index]
  }

  lemma IndicesAppend(cgs: seq<IRCaptureGroup>, g: IRCaptureGroup)
    ensures Indices(cgs + [g]) == Indices(cgs) + [g.index]
  {
    assert (cgs + [g])[..|cgs|] == cgs;
  }

  /**
   * The back references recorded are exactly the back references of the
   * tree: none recorded iff the tree has none.
   */
  lemma {:induction false} NoBackReferenceIff(u: Unit)
    ensures BackReferencesIn(u) == [] <==> !HasBackReference(u)
    decreases u, 1
  {
    match u
    case Alternation(cs) => NoBackReferenceIffAll(cs);
    case ImplicitGroup(cs) => NoBackReferenceIffAll(cs);
    case Group(_, _, cs) => NoBackReferenceIffAll(cs);
    case QuantifiedExpression(e, _) => NoBackReferenceIff(e);
    case _ =>
  }

  lemma {:induction false} NoBackReferenceIffAll(cs: seq<Unit>)
    ensures BackReferencesInAll(cs) == [] <==> forall i :: 0 <= i < |cs| ==> !HasBackReference(cs[i])
    decreases cs, 0
  {
    if cs != [] {
      var init := cs[..|cs| - 1];
      NoBackReferenceIffAll(init);
      NoBackReferenceIff(cs[|cs| - 1]);
      assert forall i :: 0 <= i < |init| ==> init[i] == cs[i];
    }
  }

  /** The number indices gives a state: its position in the list, None when it is not listed. */
  function IndexOf(states: seq<nat>, x: nat): (r: Option<nat>)
    ensures r.Some? ==> r.value < |states| && states[r.value] == x
    ensures r.None? <==> x !in states
  {
    if states == [] then None
    else if states[0] == x then Some(0)
    else
      match IndexOf(states[1..], x)
      case None => None
      case Some(j) => Some(j + 1)
  }

  /** With no repeated state, the number of the i-th state is i. */
  lemma {:induction false} IndexOfDistinct(states: seq<nat>, i: nat)
    requires DistinctStates(states) && i < |states|
    ensures IndexOf(states, states[i]) == Some(i)
  {
    if i > 0 {
      var rest := states[1..];
      assert states[0] != states[i];
      assert rest[i - 1] == states[i];
      forall a, b | 0 <= a < b < |rest| ensures rest[a] != rest[b] {
        assert rest[a] == states[a + 1] && rest[b] == states[b + 1];
      }
      IndexOfDistinct(rest, i - 1);
    }
  }

  /** Every transition of a listed state leads to a listed state. */
  predicate StatesClosed(g: Graph, states: seq<nat>)
    requires StatesIn(states, g)
  {
    forall i, k :: 0 <= i < |states| && 0 <= k < |g[states[i]]| ==> g[states[i]][k].end in states
  }

  /** A compiled transition read back against the numbering, when its target is numbered. */
  function Resolve(states: seq<nat>, t: CompiledTransition): Option<Transition>
  {
    if t.end.Some? && t.end.value < |states| then Some(Transition(states[t.end.value], t.condition)) else None
  }

  /** The row of one state, each target replaced by its number. */
  function CompileRow(g: Graph, states: seq<nat>, id: nat): (row: seq<CompiledTransition>)
    requires id < |g|
    ensures |row| == |g[id]|
    ensures forall k :: 0 <= k < |row| ==> row[k].condition == g[id][k].condition
  {
    seq(|g[id]|, k requires 0 <= k < |g[id]| => CompiledTransition(IndexOf(states, g[id][k].end), g[id][k].condition))
  }

  /**
   * The transition table preprocess builds, with the target of each
   * transition numbered (the corrected form: see CompileTableAsWritten).
   * Row i belongs to the i-th state and keeps its transitions' order.
   */
  function CompileTable(g: Graph, states: seq<nat>): (table: seq<seq<CompiledTransition>>)
    requires StatesIn(states, g)
    ensures |table| == |states|
    ensures forall i :: 0 <= i < |table| ==> |table[i]| == |g[states[i]]|
    ensures forall i, k :: 0 <= i < |table| && 0 <= k < |table[i]| ==> table[i][k].condition == g[states[i]][k].condition
  {
    seq(|states|, i requires 0 <= i < |states| => CompileRow(g, states, states[i]))
  }

  /**
   * When the listed states are closed under transitions, reading the table
   * back against the numbering gives each state's own transitions, in order.
   */
  lemma CompileTableRoundTrip(g: Graph, states: seq<nat>)
    requires StatesIn(states, g) && StatesClosed(g, states)
    ensures forall i, k :: 0 <= i < |states| && 0 <= k < |g[states[i]]| ==>
              Resolve(states, CompileTable(g, states)[i][k]) == Some(g[states[i]][k])
  {
    var table := CompileTable(g, states);
    forall i, k | 0 <= i < |states| && 0 <= k < |g[states[i]]|
      ensures Resolve(states, table[i][k]) == Some(g[states[i]][k])
    {
      assert table[i] == CompileRow(g, states, states[i]);
      var t := g[states[i]][k];
      assert t.end in states;
      assert table[i][k] == CompiledTransition(IndexOf(states, t.end), t.condition);
    }
  }

  /** Preprocess as written: every compiled transition targets the number of the state it leaves. */
  function CompileTableAsWritten(g: Graph, states: seq<nat>): (table: seq<seq<CompiledTransition>>)
    requires StatesIn(states, g)
    ensures |table| == |states|
    ensures forall i :: 0 <= i < |table| ==> |table[i]| == |g[states[i]]|
  {
    seq(|states|, i requires 0 <= i < |states| =>
      seq(|g[states[i]]|, k requires 0 <= k < |g[states[i]]| =>
        CompiledTransition(IndexOf(states, states[i]), g[states[i]][k].condition)))
  }

  /** As written, every transition of the table is a loop back to its own state. */
  lemma AsWrittenTableLoops(g: Graph, states: seq<nat>)
    requires StatesIn(states, g) && DistinctStates(states)
    ensures forall i, k :: 0 <= i < |states| && 0 <= k < |g[states[i]]| ==>
              CompileTableAsWritten(g, states)[i][k].end == Some(i)
  {
    forall i | 0 <= i < |states| ensures IndexOf(states, states[i]) == Some(i) {
      IndexOfDistinct(states, i);
    }
  }

  /** As written, a transition to any other state is read back as a loop: its target is lost. */
  lemma AsWrittenTableLosesTarget(g: Graph, states: seq<nat>, i: nat, k: nat)
    requires StatesIn(states, g) && DistinctStates(states)
    requires i < |states| && k < |g[states[i]]| && g[states[i]][k].end != states[i]
    ensures Resolve(states, CompileTableAsWritten(g, states)[i][k]) != Some(g[states[i]][k])
  {
    AsWrittenTableLoops(g, states);
  }

  /** The smallest such input: state 0 moves to state 1, and the fragment lists both. */
  lemma AsWrittenTableExample(g: Graph, states: seq<nat>)
    requires g == [[EpsilonTo(1)], []] && states == [0, 1]
    ensures StatesIn(states, g) && DistinctStates(states) && StatesClosed(g, states)
    ensures Resolve(states, CompileTableAsWritten(g, states)[0][0]) == Some(Transition(0, Epsilon(None)))
    ensures Resolve(states, CompileTable(g, states)[0][0]) == Some(Transition(1, Epsilon(None)))
  {
    assert g[0][0] == Transition(1, Epsilon(None));
    assert StatesClosed(g, states) by {
      forall i, k | 0 <= i < |states| && 0 <= k < |g[states[i]]| ensures g[states[i]][k].end in states {
        assert i == 0 && k == 0;
      }
    }
    AsWrittenTableLoops(g, states);
    CompileTableRoundTrip(g, states);
  }

  /**
   * The capture groups of the compiled regex: the same groups in the same
   * order, each state replaced by its number, which names that very state.
   */
  function CompileCaptureGroups(cgs: seq<IRCaptureGroup>, states: seq<nat>): (r: seq<CompiledCaptureGroup>)
    ensures |r| == |cgs|
    ensures forall i :: 0 <= i < |r| ==> r[i].index == cgs[i].index
    ensures forall i :: 0 <= i < |r| ==> (r[i].start.Some? <==> cgs[i].start in states)
    ensures forall i :: 0 <= i < |r| && r[i].start.Some? ==> r[i].start.value < |states| && states[r[i].start.value] == cgs[i].start
    ensures forall i :: 0 <= i < |r| ==> (r[i].end.Some? <==> cgs[i].end in states)
    ensures forall i :: 0 <= i < |r| && r[i].end.Some? ==> r[i].end.value < |states| && states[r[i].end.value] == cgs[i].end
  {
    seq(|cgs|, i requires 0 <= i < |cgs| =>
      CompiledCaptureGroup(cgs[i].index, IndexOf(states, cgs[i].start), IndexOf(states, cgs[i].end)))
  }

  /**
   * The case-folding flag compile(Match) computes, as written: folding is on
   * exactly when CASE_INSENSITIVE is NOT among the options.
   */
  function IgnoreCaseAsWritten(o: Options): bool
  {
    !o.caseInsensitive
  }

  /** Folding is on exactly when CASE_INSENSITIVE is among the options (the corrected flag). */
  function IgnoreCase(o: Options): bool
  {
    o.caseInsensitive
  }

  /**
   * Without any option, the character condition compiled as written for 'a'
   * accepts "A"; with the corrected flag it rejects it, and with
   * CASE_INSENSITIVE it accepts it.
   */
  lemma CaseFlagInverted()
    ensures var c := Cursors.NewCursor("A");
            && Apply(MatchCharacter('a', IgnoreCaseAsWritten(Options(false, false))), c) == Ok(Accepted(1))
            && Apply(MatchCharacter('a', IgnoreCase(Options(false, false))), c) == Ok(Rejected)
            && Apply(MatchCharacter('a', IgnoreCase(Options(true, false))), c) == Ok(Accepted(1))
  {
    var c := Cursors.NewCursor("A");
    assert c.str[c.index] == 'A';
    MatchCharacterIgnoringCase(c);
    MatchCharacterExact('a', false, c);
  }

  class Compiler {
    const ast: AST
    const options: Options
    const builders: Builders
    const arena: StateArena
    var captureGroups: seq<IRCaptureGroup>
    var backReferences: seq<int>
    var containsLazyQuantifiers: bool

    ghost predicate Valid()
      reads this, arena
    {
      arena.Valid() && WellBehaved(builders)
    }

    constructor (ast: AST, options: Options, builders: Builders, arena: StateArena)
      requires arena.Valid() && WellBehaved(builders)
      ensures Valid()
      ensures this.ast == ast && this.options == options && this.builders == builders && this.arena == arena
      ensures captureGroups == [] && backReferences == [] && !containsLazyQuantifiers
    {
      this.ast := ast;
      this.options := options;
      this.builders := builders;
      this.arena := arena;
      captureGroups := [];
      backReferences := [];
      containsLazyQuantifiers := false;
    }

    /**
     * compile(): the tree's fragment, then preprocess. (optimize and
     * validateBackreferences do nothing.) On a fresh compiler the result is
     * regular exactly when the tree holds no back reference. The ghost
     * results name the tree's fragment and the arena it was built in, of
     * which the compiled table and capture groups are made.
     */
    method Compile() returns (r: Result<CompiledRegex>, ghost f: Fsm.FSM, ghost g: Graph)
      requires Valid()
      modifies this, arena
      ensures Valid()
      ensures r.Ok? <==> Compiles(ast.root)
      ensures r.Ok? ==> backReferences == old(backReferences) + BackReferencesIn(ast.root)
      ensures r.Ok? ==> Indices(captureGroups) == Indices(old(captureGroups)) + CaptureIndicesIn(ast.root)
      ensures r.Ok? ==> (r.value.isRegular <==> !containsLazyQuantifiers && backReferences == [])
      ensures r.Ok? && old(backReferences) == [] && !old(containsLazyQuantifiers) ==>
                (r.value.isRegular <==> !HasBackReference(ast.root))
      ensures r.Ok? ==> r.value.isFromStartOfString == ast.isFromStartOfString
      ensures r.Ok? ==> Fsm.In(f, g) && |old(arena.transitions)| <= |g|
      ensures r.Ok? ==> StatesIn(builders.allStates(g, f), g)
                        && r.value.transitions == CompileTable(g, builders.allStates(g, f))
      ensures r.Ok? ==> r.value.captureGroups == CompileCaptureGroups(captureGroups, builders.allStates(g, f))
      ensures r.Ok? ==> |r.value.captureGroups| == |captureGroups|
      ensures r.Ok? ==> forall i :: 0 <= i < |captureGroups| ==> r.value.captureGroups[i].index == captureGroups[i].index
    {
      var u := CompileUnit(ast.root);
      if u.Err? {
        return Err(u.message), Fsm.FSM(0, 0), [];
      }
      var fragment := u.value;
      f, g := fragment, arena.transitions;
      var compiled := Preprocess(fragment);
      NoBackReferenceIff(ast.root);
      r := Ok(compiled);
    }

    /**
     * preprocess: numbers the fragment's states, builds the table and the
     * compiled capture groups, then clears every numbered state.
     */
    method Preprocess(f: Fsm.FSM) returns (r: CompiledRegex)
      requires Valid() && Fsm.In(f, arena.transitions)
      modifies arena
      ensures Valid()
      ensures var g := old(arena.transitions);
              var states := builders.allStates(g, f);
              && StatesIn(states, g)
              && r.transitions == CompileTable(g, states)
              && r.captureGroups == CompileCaptureGroups(captureGroups, states)
              && (r.isRegular <==> !containsLazyQuantifiers && backReferences == [])
              && r.isFromStartOfString == ast.isFromStartOfString
              && |arena.transitions| == |g|
              && forall j :: 0 <= j < |g| ==> arena.transitions[j] == (if j in states then [] else g[j])
    {
      var g := arena.transitions;
      var states := builders.allStates(g, f);
      var table := CompileTable(g, states);
      var groups := CompileCaptureGroups(captureGroups, states);
      for i := 0 to |states|
        invariant arena.Valid() && |arena.transitions| == |g|
        invariant forall j :: 0 <= j < |g| ==> arena.transitions[j] == (if j in states[..i] then [] else g[j])
      {
        assert states[..i + 1] == states[..i] + [states[i]];
        arena.ClearTransition(states[i]);
      }
      assert states[..|states|] == states;
      r := CompiledRegex(table, groups, !containsLazyQuantifiers && backReferences == [], ast.isFromStartOfString);
    }

    /**
     * _compile: the fragment of one unit, or the exception it throws. Back
     * references are recorded left to right, capture groups after the
     * groups nested in them.
     */
    method CompileUnit(u: Unit) returns (r: Result<Fsm.FSM>)
      requires Valid()
      modifies this, arena
      ensures Valid()
      ensures r.Ok? <==> Compiles(u)
      ensures |old(arena.transitions)| <= |arena.transitions|
      ensures r.Ok? ==> Fsm.In(r.value, arena.transitions)
      ensures r.Ok? ==> backReferences == old(backReferences) + BackReferencesIn(u)
      ensures r.Ok? ==> old(captureGroups) <= captureGroups
      ensures r.Ok? ==> Indices(captureGroups) == Indices(old(captureGroups)) + CaptureIndicesIn(u)
      ensures r.Ok? && u.Group? && u.isCapturing ==>
                |captureGroups| > 0 && u.index == Some(captureGroups[|captureGroups| - 1].index)
                && captureGroups[|captureGroups| - 1].start == r.value.start
                && captureGroups[|captureGroups| - 1].end == r.value.end
      ensures containsLazyQuantifiers == old(containsLazyQuantifiers)
      decreases u, 1
    {
      match u
      case ImplicitGroup(cs) =>
        r := CompileConcatenation(cs);
      case Group(index, isCapturing, cs) =>
        r := CompileGroup(u);
      case BackReference(n) =>
        backReferences := backReferences + [n];
        var made := builders.backreference(arena.transitions, n);
        arena.transitions := made.0;
        r := Ok(made.1);
      case MatchUnit(m) =>
        r := CompileMatch(m);
      case CharacterGroupUnit(_) =>
        r := Err("RuntimeException: Unsupported unit CharacterGroup");
      case Alternation(_) =>
        r := Err("UnsupportedOperationException");
      case AnchorUnit(_) =>
        r := Err("UnsupportedOperationException");
      case QuantifiedExpression(_, _) =>
        r := Err("UnsupportedOperationException");
    }

    /** The children compiled in order and concatenated into one fragment. */
    method CompileConcatenation(cs: seq<Unit>) returns (r: Result<Fsm.FSM>)
      requires Valid()
      modifies this, arena
      ensures Valid()
      ensures r.Ok? <==> forall i :: 0 <= i < |cs| ==> Compiles(cs[i])
      ensures |old(arena.transitions)| <= |arena.transitions|
      ensures r.Ok? ==> Fsm.In(r.value, arena.transitions)
      ensures r.Ok? ==> backReferences == old(backReferences) + BackReferencesInAll(cs)
      ensures r.Ok? ==> old(captureGroups) <= captureGroups
      ensures r.Ok? ==> Indices(captureGroups) == Indices(old(captureGroups)) + CaptureIndicesInAll(cs)
      ensures containsLazyQuantifiers == old(containsLazyQuantifiers)
      decreases cs, 1
    {
      var fs :- CompileAll(cs);
      var joined := builders.concatenate(arena.transitions, fs);
      arena.transitions := joined.0;
      r := Ok(joined.1);
    }

    /**
     * _compile of an explicit group: the concatenated children wrapped in a
     * group fragment, which a capturing group records under its index.
     */
    method CompileGroup(u: Unit) returns (r: Result<Fsm.FSM>)
      requires Valid() && u.Group?
      modifies this, arena
      ensures Valid()
      ensures r.Ok? <==> Compiles(u)
      ensures |old(arena.transitions)| <= |arena.transitions|
      ensures r.Ok? ==> Fsm.In(r.value, arena.transitions)
      ensures r.Ok? ==> backReferences == old(backReferences) + BackReferencesIn(u)
      ensures r.Ok? ==> old(captureGroups) <= captureGroups
      ensures r.Ok? ==> Indices(captureGroups) == Indices(old(captureGroups)) + CaptureIndicesIn(u)
      ensures r.Ok? && u.isCapturing ==>
                |captureGroups| > 0 && u.index == Some(captureGroups[|captureGroups| - 1].index)
                && captureGroups[|captureGroups| - 1].start == r.value.start
                && captureGroups[|captureGroups| - 1].end == r.value.end
      ensures containsLazyQuantifiers == old(containsLazyQuantifiers)
      decreases u, 0
    {
      var joined :- CompileConcatenation(u.children);
      var grouped := builders.group(arena.transitions, joined);
      arena.transitions := grouped.0;
      if u.isCapturing {
        if u.index.None? {
          return Err("NoSuchElementException");
        }
        IndicesAppend(captureGroups, IRCaptureGroup(u.index.value, grouped.1.start, grouped.1.end));
        captureGroups := captureGroups + [IRCaptureGroup(u.index.value, grouped.1.start, grouped.1.end)];
      }
      r := Ok(grouped.1);
    }

    /** The children compiled in order; the first child that throws ends the walk. */
    method CompileAll(cs: seq<Unit>) returns (r: Result<seq<Fsm.FSM>>)
      requires Valid()
      modifies this, arena
      ensures Valid()
      ensures r.Ok? <==> forall i :: 0 <= i < |cs| ==> Compiles(cs[i])
      ensures |old(arena.transitions)| <= |arena.transitions|
      ensures r.Ok? ==> |r.value| == |cs| && AllIn(r.value, arena.transitions)
      ensures r.Ok? ==> backReferences == old(backReferences) + BackReferencesInAll(cs)
      ensures r.Ok? ==> old(captureGroups) <= captureGroups
      ensures r.Ok? ==> Indices(captureGroups) == Indices(old(captureGroups)) + CaptureIndicesInAll(cs)
      ensures containsLazyQuantifiers == old(containsLazyQuantifiers)
      decreases cs, 0
    {
      var fs: seq<Fsm.FSM> := [];
      var i := 0;
      while i < |cs|
        invariant 0 <= i <= |cs|
        invariant Valid()
        invariant |old(arena.transitions)| <= |arena.transitions|
        invariant |fs| == i && AllIn(fs, arena.transitions)
        invariant forall j :: 0 <= j < i ==> Compiles(cs[j])
        invariant backReferences == old(backReferences) + BackReferencesInAll(cs[..i])
        invariant old(captureGroups) <= captureGroups
        invariant Indices(captureGroups) == Indices(old(captureGroups)) + CaptureIndicesInAll(cs[..i])
        invariant containsLazyQuantifiers == old(containsLazyQuantifiers)
      {
        var f := CompileUnit(cs[i]);
        if f.Err? {
          return Err(f.message);
        }
        assert cs[..i + 1][..i] == cs[..i];
        fs := fs + [f.value];
        i := i + 1;
      }
      assert cs[..|cs|] == cs;
      r := Ok(fs);
    }

    /** compile(Match): only a single character compiles, with the corrected case flag. */
    method CompileMatch(m: Match) returns (r: Result<Fsm.FSM>)
      requires Valid()
      modifies arena
      ensures Valid()
      ensures r.Ok? <==> m.CharacterMatch?
      ensures r.Err? ==> arena.transitions == old(arena.transitions)
      ensures r.Ok? ==> r.value == Fsm.FSM(|old(arena.transitions)|, |old(arena.transitions)| + 1)
      ensures r.Ok? ==>
                arena.transitions == old(arena.transitions)
                  + [[Transition(r.value.end, MatchCharacter(m.character, IgnoreCase(options)))], []]
    {
      match m
      case CharacterMatch(c) =>
        var f := Fsm.Character(arena, c, IgnoreCase(options));
        r := Ok(f);
      case _ =>
        r := Err("UnsupportedOperationException");
    }
  }
}
