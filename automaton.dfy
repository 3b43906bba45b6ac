// fsm/Transition.java and fsm/State.java. Every State object is an entry
// of one arena, and a state's identity is its position there; the list at
// that position is the state's ordered, mutable transition list.
module Automaton {
  import opened Conditions
  import opened Common
  import Ast

  /** Transition(end, condition): the target state and the test guarding the move. */
  datatype Transition = Transition(end: nat, condition: Condition)

  /** Transition.epsilon(end): an unconditional move that consumes nothing. */
  function EpsilonTo(end: nat): Transition
  {
    Transition(end, Epsilon(None))
  }

  /** Transition.epsilon(end, predicate): a move that consumes nothing when the anchor test holds. */
  function EpsilonIf(end: nat, test: Ast.AnchorKind): Transition
  {
    Transition(end, Epsilon(Some(test)))
  }

  /** The transition lists of all states, indexed by state. */
  type Graph = seq<seq<Transition>>

  /** Every transition leads to a state of the same graph. */
  ghost predicate ValidGraph(g: Graph)
  {
    forall i, k :: 0 <= i < |g| && 0 <= k < |g[i]| ==> g[i][k].end < |g|
  }

  /** Collections.reverse. */
  function Reverse<T>(s: seq<T>): (r: seq<T>)
    ensures |r| == |s|
    ensures forall k :: 0 <= k < |s| ==> r[k] == s[|s| - 1 - k]
  {
    if s == [] then [] else Reverse(s[1..]) + [s[0]]
  }

  /** Reversing twice restores the original order. */
  lemma ReverseInvolution<T>(s: seq<T>)
    ensures Reverse(Reverse(s)) == s
  {
    assert forall k :: 0 <= k < |s| ==> Reverse(Reverse(s))[k] == s[k];
  }

  /** x is the target of some transition of ts. */
  predicate Targets(ts: seq<Transition>, x: nat)
  {
    exists k :: 0 <= k < |ts| && ts[k].end == x
  }

  /** x is the state of some entry of a queue or trace of (state, level) pairs. */
  predicate Listed(q: seq<(nat, nat)>, x: nat)
  {
    exists i :: 0 <= i < |q| && q[i].0 == x
  }

  lemma ListedAppend(a: seq<(nat, nat)>, b: seq<(nat, nat)>, x: nat)
    ensures Listed(a + b, x) <==> Listed(a, x) || Listed(b, x)
  {
    if Listed(a + b, x) {
      var i :| 0 <= i < |a + b| && (a + b)[i].0 == x;
      if i >= |a| {
        assert b[i - |a|].0 == x;
      }
    }
    if Listed(a, x) {
      var i :| 0 <= i < |a| && a[i].0 == x;
      assert (a + b)[i].0 == x;
    }
    if Listed(b, x) {
      var i :| 0 <= i < |b| && b[i].0 == x;
      assert (a + b)[|a| + i].0 == x;
    }
  }

  lemma ListedTail(q: seq<(nat, nat)>, x: nat)
    requires q != []
    ensures Listed(q, x) <==> x == q[0].0 || Listed(q[1..], x)
  {
    if Listed(q, x) && x != q[0].0 {
      var i :| 0 <= i < |q| && q[i].0 == x;
      assert q[1..][i - 1].0 == x;
    }
    if Listed(q[1..], x) {
      var i :| 0 <= i < |q[1..]| && q[1..][i].0 == x;
      assert q[i + 1].0 == x;
    }
  }

  /** The states 0 .. n-1. */
  function Below(n: nat): (r: set<nat>)
    ensures forall i: nat :: i in r <==> i < n
  {
    if n == 0 then {} else Below(n - 1) + {n - 1}
  }

  /** There is a path of exactly n transitions from root to x. */
  ghost predicate ReachesIn(g: Graph, root: nat, x: nat, n: nat)
    decreases n
  {
    if n == 0 then x == root
    else exists p: nat :: p < |g| && ReachesIn(g, root, p, n - 1) && Targets(g[p], x)
  }

  /** No transition leaves the set s. */
  ghost predicate Closed(g: Graph, s: set<nat>)
  {
    forall v, k :: v in s && v < |g| && 0 <= k < |g[v]| ==> g[v][k].end in s
  }

  /** A set that holds root and that no transition leaves holds every state reachable from root. */
  lemma {:induction false} ClosedHoldsReachable(g: Graph, s: set<nat>, root: nat, x: nat, n: nat)
    requires Closed(g, s) && root in s && ReachesIn(g, root, x, n)
    ensures x in s
    decreases n
  {
    if n > 0 {
      var p: nat :| p < |g| && ReachesIn(g, root, p, n - 1) && Targets(g[p], x);
      ClosedHoldsReachable(g, s, root, p, n - 1);
      var k :| 0 <= k < |g[p]| && g[p][k].end == x;
    }
  }

  /**
   * The stream in State.visit that maps the current state's transitions to
   * their targets, drops the visited ones and offers the rest at the next level.
   */
  function Offers(ts: seq<Transition>, visited: set<nat>, level: nat): seq<(nat, nat)>
  {
    if ts == [] then []
    else if ts[0].end in visited then Offers(ts[1..], visited, level)
    else [(ts[0].end, level)] + Offers(ts[1..], visited, level)
  }

  /** Every offer is an unvisited target at the given level, and every unvisited target is offered. */
  lemma {:induction false} OffersSpec(ts: seq<Transition>, visited: set<nat>, level: nat)
    ensures forall j :: 0 <= j < |Offers(ts, visited, level)| ==>
      var o := Offers(ts, visited, level)[j];
      o.1 == level && o.0 !in visited && Targets(ts, o.0)
    ensures forall k :: 0 <= k < |ts| && ts[k].end !in visited ==> Listed(Offers(ts, visited, level), ts[k].end)
  {
    if ts != [] {
      var rest := Offers(ts[1..], visited, level);
      OffersSpec(ts[1..], visited, level);
      forall x | Targets(ts[1..], x) ensures Targets(ts, x) {
        var k :| 0 <= k < |ts[1..]| && ts[1..][k].end == x;
        assert ts[k + 1].end == x;
      }
      forall k | 0 < k < |ts| ensures ts[k] == ts[1..][k - 1] { }
      if ts[0].end !in visited {
        var h := [(ts[0].end, level)];
        assert Offers(ts, visited, level) == h + rest;
        forall x ensures Listed(h + rest, x) <==> Listed(h, x) || Listed(rest, x) {
          ListedAppend(h, rest, x);
        }
        assert Listed(h, ts[0].end) by { assert h[0].0 == ts[0].end; }
        assert Targets(ts, ts[0].end) by { assert ts[0].end == ts[0].end; }
      }
    }
  }

  /** No transition leaves the visited states except towards a queued one. */
  ghost predicate ClosedUpTo(g: Graph, visited: set<nat>, queue: seq<(nat, nat)>)
  {
    forall v, k :: v in visited && v < |g| && 0 <= k < |g[v]| ==>
      g[v][k].end in visited || Listed(queue, g[v][k].end)
  }

  /** Dropping an already visited head from the queue keeps ClosedUpTo. */
  lemma SkipKeepsClosed(g: Graph, visited: set<nat>, queue: seq<(nat, nat)>)
    requires queue != [] && queue[0].0 in visited && ClosedUpTo(g, visited, queue)
    ensures ClosedUpTo(g, visited, queue[1..])
  {
    forall x ensures Listed(queue, x) <==> x == queue[0].0 || Listed(queue[1..], x) {
      ListedTail(queue, x);
    }
  }

  /** Visiting the head and offering its unvisited targets keeps ClosedUpTo. */
  lemma VisitKeepsClosed(g: Graph, visited: set<nat>, queue: seq<(nat, nat)>, level: nat)
    requires queue != [] && queue[0].0 < |g| && ClosedUpTo(g, visited, queue)
    ensures ClosedUpTo(g, visited + {queue[0].0},
                       queue[1..] + Offers(g[queue[0].0], visited + {queue[0].0}, level))
  {
    var curr := queue[0].0;
    var visited', rest := visited + {curr}, queue[1..];
    var offers := Offers(g[curr], visited', level);
    OffersSpec(g[curr], visited', level);
    forall x ensures Listed(queue, x) <==> x == curr || Listed(rest, x) {
      ListedTail(queue, x);
    }
    forall x ensures Listed(rest + offers, x) <==> Listed(rest, x) || Listed(offers, x) {
      ListedAppend(rest, offers, x);
    }
  }

  /** Every entry lies in g and is reached from root in exactly its level. */
  ghost predicate AllReached(g: Graph, root: nat, q: seq<(nat, nat)>)
  {
    forall i :: 0 <= i < |q| ==> q[i].0 < |g| && ReachesIn(g, root, q[i].0, q[i].1)
  }

  lemma AllReachedAppend(g: Graph, root: nat, a: seq<(nat, nat)>, b: seq<(nat, nat)>)
    requires AllReached(g, root, a) && AllReached(g, root, b)
    ensures AllReached(g, root, a + b)
  {
    forall i | 0 <= i < |a + b| ensures (a + b)[i].0 < |g| && ReachesIn(g, root, (a + b)[i].0, (a + b)[i].1) {
      if i >= |a| {
        assert (a + b)[i] == b[i - |a|];
      }
    }
  }

  /** Every offer of a state reached in `next - 1` steps is reached in `next` steps. */
  lemma OffersReached(g: Graph, root: nat, curr: nat, visited: set<nat>, next: nat)
    requires curr < |g| && ValidGraph(g) && next > 0 && ReachesIn(g, root, curr, next - 1)
    ensures AllReached(g, root, Offers(g[curr], visited, next))
  {
    var offers := Offers(g[curr], visited, next);
    OffersSpec(g[curr], visited, next);
    forall j | 0 <= j < |offers|
      ensures offers[j].0 < |g| && ReachesIn(g, root, offers[j].0, offers[j].1)
    {
      var k :| 0 <= k < |g[curr]| && g[curr][k].end == offers[j].0;
    }
  }

  /** No state occurs twice. */
  predicate Distinct(q: seq<(nat, nat)>)
  {
    forall i, j :: 0 <= i < j < |q| ==> q[i].0 != q[j].0
  }

  /** Appending a new entry for an unlisted state keeps the trace free of repeats, and lists that state. */
  lemma AppendUnlisted(t: seq<(nat, nat)>, e: (nat, nat))
    requires Distinct(t) && !Listed(t, e.0)
    ensures Distinct(t + [e])
    ensures forall x :: Listed(t + [e], x) <==> Listed(t, x) || x == e.0
  {
    forall x ensures Listed(t + [e], x) <==> Listed(t, x) || x == e.0 {
      ListedAppend(t, [e], x);
      assert Listed([e], x) <==> x == e.0 by {
        assert [e][0].0 == e.0;
      }
    }
    forall i, j | 0 <= i < j < |t + [e]| ensures (t + [e])[i].0 != (t + [e])[j].0 {
      if j == |t| {
        assert (t + [e])[i] == t[i];
      }
    }
  }

  /**
   * What holds at every turn of the walk: the visited states are exactly
   * the traced ones, none twice, the trace starts at root, every traced or
   * queued entry is reached in its level, and every transition out of a
   * visited state leads to a visited or a queued state.
   */
  ghost predicate Walking(g: Graph, root: nat, visited: set<nat>, trace: seq<(nat, nat)>, queue: seq<(nat, nat)>)
  {
    && (forall x :: x in visited <==> Listed(trace, x))
    && Distinct(trace)
    && AllReached(g, root, trace) && AllReached(g, root, queue)
    && (trace == [] ==> queue == [(root, 0)])
    && (trace != [] ==> trace[0] == (root, 0))
    && ClosedUpTo(g, visited, queue)
  }

  /** Dropping a head that was already visited keeps the walk's invariant. */
  lemma WalkSkips(g: Graph, root: nat, visited: set<nat>, trace: seq<(nat, nat)>, queue: seq<(nat, nat)>)
    requires Walking(g, root, visited, trace, queue)
    requires queue != [] && queue[0].0 in visited
    ensures Walking(g, root, visited, trace, queue[1..])
  {
    assert Listed(trace, queue[0].0);
    SkipKeepsClosed(g, visited, queue);
    forall i | 0 <= i < |queue[1..]|
      ensures queue[1..][i].0 < |g| && ReachesIn(g, root, queue[1..][i].0, queue[1..][i].1)
    {
      assert queue[1..][i] == queue[i + 1];
    }
  }

  /**
   * Visiting an unvisited head, tracing it and queueing its unvisited
   * targets one level further keeps the walk's invariant.
   */
  lemma WalkVisits(g: Graph, root: nat, visited: set<nat>, trace: seq<(nat, nat)>, queue: seq<(nat, nat)>)
    requires ValidGraph(g) && Walking(g, root, visited, trace, queue)
    requires queue != [] && queue[0].0 !in visited
    ensures queue[0].0 < |g|
    ensures Walking(g, root, visited + {queue[0].0}, trace + [queue[0]],
                    queue[1..] + Offers(g[queue[0].0], visited + {queue[0].0}, queue[0].1 + 1))
  {
    var curr, level := queue[0].0, queue[0].1;
    assert curr < |g| && ReachesIn(g, root, curr, level);
    VisitKeepsClosed(g, visited, queue, level + 1);
    OffersReached(g, root, curr, visited + {curr}, level + 1);
    assert !Listed(trace, curr);
    AppendUnlisted(trace, queue[0]);
    assert AllReached(g, root, [queue[0]]);
    AllReachedAppend(g, root, trace, [queue[0]]);
    assert AllReached(g, root, queue[1..]) by {
      forall i | 0 <= i < |queue[1..]|
        ensures queue[1..][i].0 < |g| && ReachesIn(g, root, queue[1..][i].0, queue[1..][i].1)
      {
        assert queue[1..][i] == queue[i + 1];
      }
    }
    AllReachedAppend(g, root, queue[1..], Offers(g[curr], visited + {curr}, level + 1));
    if trace == [] {
      assert (trace + [queue[0]])[0] == (root, 0);
    } else {
      assert (trace + [queue[0]])[0] == trace[0];
    }
  }

  /**
   * When the queue has run dry, the visited states are closed under the
   * transitions, so a trace that lists them and starts at root lists every
   * state reachable from root.
   */
  lemma TraceCoversReachable(g: Graph, root: nat, visited: set<nat>, trace: seq<(nat, nat)>)
    requires forall x :: x in visited <==> Listed(trace, x)
    requires trace != [] && trace[0] == (root, 0)
    requires ClosedUpTo(g, visited, [])
    ensures forall x: nat, n: nat :: ReachesIn(g, root, x, n) ==> Listed(trace, x)
  {
    forall x: nat, n: nat | ReachesIn(g, root, x, n)
      ensures Listed(trace, x)
    {
      assert Closed(g, visited);
      assert root in visited by {
        assert trace[0].0 == root;
      }
      ClosedHoldsReachable(g, visited, root, x, n);
    }
  }

  class StateArena {
    var transitions: Graph

    ghost predicate Valid()
      reads this
    {
      ValidGraph(transitions)
    }

    constructor ()
      ensures Valid() && transitions == []
    {
      transitions := [];
    }

    /** new State(): a state with an empty transition list. */
    method NewState() returns (id: nat)
      requires Valid()
      modifies this
      ensures Valid()
      ensures id == |old(transitions)| && transitions == old(transitions) + [[]]
    {
      id := |transitions|;
      transitions := transitions + [[]];
    }

    /** addTransition: the new transition goes last, the earlier ones keep their order. */
    method AddTransition(id: nat, t: Transition)
      requires Valid() && id < |transitions| && t.end < |transitions|
      modifies this
      ensures Valid()
      ensures transitions == old(transitions)[id := old(transitions)[id] + [t]]
    {
      transitions := transitions[id := transitions[id] + [t]];
    }

    /** reverseTransition: the list of that one state, reversed in place. */
    method ReverseTransition(id: nat)
      requires Valid() && id < |transitions|
      modifies this
      ensures Valid()
      ensures transitions == old(transitions)[id := Reverse(old(transitions)[id])]
    {
      transitions := transitions[id := Reverse(transitions[id])];
    }

    /** setTransitions: the list becomes exactly ts, whatever was there before. */
    method SetTransitions(id: nat, ts: seq<Transition>)
      requires Valid() && id < |transitions|
      requires forall k :: 0 <= k < |ts| ==> ts[k].end < |transitions|
      modifies this
      ensures Valid()
      ensures transitions == old(transitions)[id := ts]
    {
      transitions := transitions[id := ts];
    }

    /** transition(): a copy; a sequence is a value, so later changes to the state do not reach it. */
    function Transitions(id: nat): (r: seq<Transition>)
      reads this
      requires id < |transitions|
      ensures |r| == |transitions[id]| && forall k :: 0 <= k < |r| ==> r[k] == transitions[id][k]
      ensures Valid() ==> forall k :: 0 <= k < |r| ==> r[k].end < |transitions|
    {
      transitions[id]
    }

    /** clearTransition. */
    method ClearTransition(id: nat)
      requires Valid() && id < |transitions|
      modifies this
      ensures Valid()
      ensures transitions == old(transitions)[id := []]
    {
      transitions := transitions[id := []];
    }

    /**
     * visit: breadth-first traversal from root. The closure's calls are
     * returned as the trace of (state, level) pairs it receives, in order.
     */
    method Visit(root: nat) returns (trace: seq<(nat, nat)>)
      requires Valid() && root < |transitions|
      ensures |trace| > 0 && trace[0] == (root, 0)
      ensures forall i, j :: 0 <= i < j < |trace| ==> trace[i].0 != trace[j].0
      ensures forall i :: 0 <= i < |trace| ==>
        trace[i].0 < |transitions| && ReachesIn(transitions, root, trace[i].0, trace[i].1)
      ensures forall x: nat, n: nat :: ReachesIn(transitions, root, x, n) ==> Listed(trace, x)
    {
      var g := transitions;
      var queue: seq<(nat, nat)> := [(root, 0)];
      var visited: set<nat> := {};
      ghost var all := Below(|g|);
      trace := [];
      while queue != []
        invariant visited <= all
        invariant Walking(g, root, visited, trace, queue)
        decreases all - visited, |queue|
      {
        var curr, level := queue[0].0, queue[0].1;
        if curr in visited {
          WalkSkips(g, root, visited, trace, queue);
          queue := queue[1..];
          continue;
        }
        WalkVisits(g, root, visited, trace, queue);
        visited := visited + {curr};
        trace := trace + [(curr, level)];
        queue := queue[1..] + Offers(g[curr], visited, level + 1);
      }
      TraceCoversReachable(g, root, visited, trace);
    }
  }
}
