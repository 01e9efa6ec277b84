/**
 * The languages the combinators of AFN.java accept, stated with Accepts of
 * module Closure on the graphs the combinators build (UnionGraph, Absorb,
 * ClosureGraph): unir accepts the words either operand accepts,
 * concatenar the words of the receiver followed by words of the operand,
 * cerraduraKleene the sequences of words of the operand, cerraduraPositiva
 * one or more of them, and cerraduraOpcional the operand's words and the
 * empty word.
 */
module Languages {
  import opened Markers
  import opened Transitions
  import opened States
  import opened Closure
  import opened Nfa

  // Reading words, in any graph

  /** Reading a word from an epsilon-closed set ends in an epsilon-closed set. */
  lemma {:induction false} RunClosed(g: seq<Estado>, S: set<StateRef>, w: seq<int>)
    requires GraphValid(g) && S <= Indices(g) && EpsClosed(g, S)
    ensures EpsClosed(g, Run(g, S, w))
    decreases |w|
  {
    if w != [] {
      RunClosed(g, Goto(g, S, w[0]), w[1..]);
    }
  }

  /** Reading u + v is reading u and then v. */
  lemma {:induction false} RunAppend(g: seq<Estado>, S: set<StateRef>, u: seq<int>, v: seq<int>)
    requires GraphValid(g) && S <= Indices(g)
    ensures Run(g, S, u + v) == Run(g, Run(g, S, u), v)
    decreases |u|
  {
    if u == [] {
      assert u + v == v;
    } else {
      assert (u + v)[0] == u[0] && (u + v)[1..] == u[1..] + v;
      RunAppend(g, Goto(g, S, u[0]), u[1..], v);
    }
  }

  /** Reading w is reading its first i symbols and then the rest. */
  lemma RunCut(g: seq<Estado>, S: set<StateRef>, w: seq<int>, i: nat)
    requires GraphValid(g) && S <= Indices(g) && i <= |w|
    ensures Run(g, S, w) == Run(g, Run(g, S, w[..i]), w[i..])
  {
    RunAppend(g, S, w[..i], w[i..]);
    CutJoin(w, i);
  }

  /** Reading one more symbol is one more goto. */
  lemma RunSnoc(g: seq<Estado>, S: set<StateRef>, w: seq<int>, c: int)
    requires GraphValid(g) && S <= Indices(g)
    ensures Run(g, S, w + [c]) == Goto(g, Run(g, S, w), c)
  {
    RunAppend(g, S, w, [c]);
    assert [c][1..] == [];
  }

  /** Reading from the union of two sets reaches the union of what each reaches. */
  lemma {:induction false} RunUnion(g: seq<Estado>, X: set<StateRef>, Y: set<StateRef>, w: seq<int>)
    requires GraphValid(g) && X <= Indices(g) && Y <= Indices(g)
    ensures Run(g, X + Y, w) == Run(g, X, w) + Run(g, Y, w)
    decreases |w|
  {
    if w != [] {
      var c := w[0];
      MoveUnion(g, X, Y, c);
      EpsClosureUnion(g, Move(g, X, c), Move(g, Y, c));
      RunUnion(g, Goto(g, X, c), Goto(g, Y, c), w[1..]);
    }
  }

  /** Moving from a union is moving from each part. */
  lemma MoveUnion(g: seq<Estado>, X: set<StateRef>, Y: set<StateRef>, c: int)
    requires GraphValid(g)
    ensures Move(g, X + Y, c) == Move(g, X, c) + Move(g, Y, c)
  {
  }

  /** The closure of one state is that state and the closure of its epsilon successors. */
  lemma ClosureOfOne(g: seq<Estado>, e: StateRef)
    requires GraphValid(g) && e < |g|
    ensures EpsSuccOf(g, e) <= Indices(g)
    ensures EpsClosure(g, {e}) == {e} + EpsClosure(g, EpsSuccOf(g, e))
  {
    var succ := EpsSuccOf(g, e);
    forall y | y in succ
      ensures y < |g|
    {
      var t :| t in g[e].edges && t.IsEpsilon() && t.dest == y;
    }
    var D := {e} + EpsClosure(g, succ);
    EpsClosureLeast(g, {e}, D);
    EpsClosureLeast(g, succ, EpsClosure(g, {e}));
  }

  /** The successors of a state whose edges are those of another state plus E. */
  lemma EdgesSplit(g: seq<Estado>, x: StateRef, nodes: seq<Estado>, y: StateRef, E: set<Transition>, c: int)
    requires x < |g| && y < |nodes| && g[x].edges == nodes[y].edges + E
    ensures EpsSuccOf(g, x) == EpsSuccOf(nodes, y) + (set t | t in E && t.IsEpsilon() :: t.dest)
    ensures MoveOf(g, x, c) == MoveOf(nodes, y, c) + (set t | t in E && t.Acepta(c) :: t.dest)
  {
  }

  /** A state whose edges are two epsilon edges, as the new start of unir has. */
  lemma TwoEpsSucc(g: seq<Estado>, x: StateRef, a: StateRef, b: StateRef)
    requires x < |g| && g[x].edges == {Eps(a), Eps(b)}
    ensures EpsSuccOf(g, x) == {a, b}
  {
    assert Eps(a) in g[x].edges && Eps(b) in g[x].edges;
  }

  // Parts of a graph that no edge leaves

  /** O is a set of states that no edge leaves: an operand's own states. */
  ghost predicate Fragment(nodes: seq<Estado>, O: set<StateRef>) {
    && O <= Indices(nodes)
    && forall x, t :: 0 <= x < |nodes| && x in O && t in nodes[x].edges ==> t.dest in O
  }

  /** Reading a word never leaves a fragment. */
  lemma {:induction false} RunInFragment(nodes: seq<Estado>, O: set<StateRef>, S: set<StateRef>, w: seq<int>)
    requires GraphValid(nodes) && Fragment(nodes, O) && S <= O
    ensures Run(nodes, S, w) <= O
    decreases |w|
  {
    if w != [] {
      var c := w[0];
      assert EpsClosed(nodes, O) by {
        forall x | x in O && x < |nodes|
          ensures EpsSuccOf(nodes, x) <= O
        {
          forall y | y in EpsSuccOf(nodes, x)
            ensures y in O
          {
            var t :| t in nodes[x].edges && t.IsEpsilon() && t.dest == y;
          }
        }
      }
      assert Move(nodes, S, c) <= O by {
        forall y | y in Move(nodes, S, c)
          ensures y in O
        {
          var x, t :| x in S && x < |nodes| && t in nodes[x].edges && t.Acepta(c) && t.dest == y;
        }
      }
      EpsClosureLeast(nodes, Move(nodes, S, c), O);
      RunInFragment(nodes, O, Goto(nodes, S, c), w[1..]);
    }
  }

  // A new final state reached from the old accepting states (unir, cerraduraOpcional)

  /**
   * g extends nodes with new states: each state of A gains an epsilon edge to
   * the new state f, f has no edges, and the other new states have only
   * epsilon edges.
   */
  ghost predicate SinkShape(nodes: seq<Estado>, g: seq<Estado>, A: set<StateRef>, f: StateRef) {
    && GraphValid(nodes) && GraphValid(g)
    && |nodes| <= f < |g| && Within(A, |nodes|)
    && (forall i :: 0 <= i < |nodes| ==> g[i].edges == nodes[i].edges + (if i in A then {Eps(f)} else {}))
    && g[f].edges == {}
    && (forall i, t :: |nodes| <= i < |g| && t in g[i].edges ==> t.IsEpsilon())
  }

  /** X, and f when X holds a state of A. */
  ghost function WithSink(X: set<StateRef>, A: set<StateRef>, f: StateRef): set<StateRef> {
    X + (if X * A != {} then {f} else {})
  }

  /** The old states keep their successors, and those of A gain f. */
  lemma SinkSucc(nodes: seq<Estado>, g: seq<Estado>, A: set<StateRef>, f: StateRef, x: StateRef, c: int)
    requires SinkShape(nodes, g, A, f) && x < |nodes|
    ensures EpsSuccOf(g, x) == EpsSuccOf(nodes, x) + (if x in A then {f} else {})
    ensures MoveOf(g, x, c) == MoveOf(nodes, x, c)
  {
    var E: set<Transition> := if x in A then {Eps(f)} else {};
    EdgesSplit(g, x, nodes, x, E, c);
    assert (set t | t in E && t.IsEpsilon() :: t.dest) == (if x in A then {f} else {}) by {
      if x in A {
        assert Eps(f) in E;
      }
    }
  }

  /** In g, the closure of old states is their closure in nodes, plus f when it reaches A. */
  lemma SinkClosure(nodes: seq<Estado>, g: seq<Estado>, A: set<StateRef>, f: StateRef, X: set<StateRef>)
    requires SinkShape(nodes, g, A, f) && X <= Indices(nodes)
    ensures EpsClosure(g, X) == WithSink(EpsClosure(nodes, X), A, f)
  {
    var C := EpsClosure(nodes, X);
    var D := WithSink(C, A, f);
    forall x | x in D && x < |g|
      ensures EpsSuccOf(g, x) <= D
    {
      if x < |nodes| {
        SinkSucc(nodes, g, A, f, x, 0);
      } else {
        assert x == f;
      }
    }
    EpsClosureLeast(g, X, D);
    ClosureGrows(nodes, g, X);
    if C * A != {} {
      var a :| a in C * A;
      SinkSucc(nodes, g, A, f, a, 0);
    }
  }

  /** Move in g from old states and new states is move in nodes from the old ones. */
  lemma SinkMove(nodes: seq<Estado>, g: seq<Estado>, A: set<StateRef>, f: StateRef, Y: set<StateRef>, c: int)
    requires SinkShape(nodes, g, A, f) && Y <= Indices(g)
    ensures Move(g, Y, c) == Move(nodes, Y * Indices(nodes), c)
  {
    forall y | y in Move(g, Y, c)
      ensures y in Move(nodes, Y * Indices(nodes), c)
    {
      var x, t :| x in Y && x < |g| && t in g[x].edges && t.Acepta(c) && t.dest == y;
      assert x < |nodes|;
      SinkSucc(nodes, g, A, f, x, c);
      assert y in MoveOf(nodes, x, c);
    }
    forall y | y in Move(nodes, Y * Indices(nodes), c)
      ensures y in Move(g, Y, c)
    {
      var x, t :| x in Y * Indices(nodes) && x < |nodes| && t in nodes[x].edges && t.Acepta(c) && t.dest == y;
      assert t in g[x].edges;
    }
  }

  /** Reading a word in g from old states, with f when they reach A, follows nodes. */
  lemma {:induction false} SinkRun(nodes: seq<Estado>, g: seq<Estado>, A: set<StateRef>, f: StateRef,
                                   X: set<StateRef>, w: seq<int>)
    requires SinkShape(nodes, g, A, f) && X <= Indices(nodes)
    ensures Run(g, WithSink(X, A, f), w) == WithSink(Run(nodes, X, w), A, f)
    decreases |w|
  {
    if w != [] {
      var c := w[0];
      assert WithSink(X, A, f) * Indices(nodes) == X;
      SinkMove(nodes, g, A, f, WithSink(X, A, f), c);
      SinkClosure(nodes, g, A, f, Move(nodes, X, c));
      SinkRun(nodes, g, A, f, Goto(nodes, X, c), w[1..]);
    }
  }

  /** Accepting is meeting the accepting states after reading the word. */
  lemma AcceptsMeets(g: seq<Estado>, start: StateRef, A: set<StateRef>, w: seq<int>)
    requires GraphValid(g) && start < |g|
    ensures Accepts(g, start, A, w) <==> Run(g, EpsClosure(g, {start}), w) * A != {}
  {
    var R := Run(g, EpsClosure(g, {start}), w);
    if R * A != {} {
      var q :| q in R * A;
    }
    forall q | q in R && q in A
      ensures R * A != {}
    {
      assert q in R * A;
    }
  }

  /** The closure of a new state e whose epsilon successors are D. */
  lemma SinkEntryClosure(nodes: seq<Estado>, g: seq<Estado>, A: set<StateRef>, f: StateRef,
                         e: StateRef, D: set<StateRef>)
    requires SinkShape(nodes, g, A, f) && |nodes| <= e < |g| && e != f
    requires EpsSuccOf(g, e) == D && D <= Indices(nodes) + {f}
    ensures EpsClosure(g, {e}) == {e} + WithSink(EpsClosure(nodes, D * Indices(nodes)), A, f) + (D - Indices(nodes))
  {
    var X, F := D * Indices(nodes), D - Indices(nodes);
    assert D == X + F;
    ClosureOfOne(g, e);
    EpsClosureUnion(g, X, F);
    assert EpsClosed(g, F) by {
      if f in F {
        assert EpsSuccOf(g, f) == {};
      }
    }
    ClosedIsOwnClosure(g, F);
    SinkClosure(nodes, g, A, f, X);
  }

  /**
   * From a new state e whose epsilon successors are D, g accepts w at f
   * exactly when w is empty and f is in D, or nodes reaches A on w from the
   * closure of the old states of D.
   */
  lemma SinkEntry(nodes: seq<Estado>, g: seq<Estado>, A: set<StateRef>, f: StateRef,
                  e: StateRef, D: set<StateRef>, w: seq<int>)
    requires SinkShape(nodes, g, A, f) && |nodes| <= e < |g| && e != f
    requires EpsSuccOf(g, e) == D && D <= Indices(nodes) + {f}
    ensures Accepts(g, e, {f}, w) <==>
      (w == [] && f in D) || Run(nodes, EpsClosure(nodes, D * Indices(nodes)), w) * A != {}
  {
    SinkEntryClosure(nodes, g, A, f, e, D);
    SinkAccepts(nodes, g, A, f, e, EpsClosure(nodes, D * Indices(nodes)), D - Indices(nodes), w);
    AcceptsMeets(g, e, {f}, w);
  }

  /**
   * From a new start e whose closure is e, the closure C of old states (with
   * f when C reaches A) and possibly f itself, g reaches f on w exactly when
   * w is empty and f was there from the start, or nodes reaches A from C on w.
   */
  lemma SinkAccepts(nodes: seq<Estado>, g: seq<Estado>, A: set<StateRef>, f: StateRef,
                    e: StateRef, C: set<StateRef>, F: set<StateRef>, w: seq<int>)
    requires SinkShape(nodes, g, A, f) && C <= Indices(nodes) && F <= {f}
    requires |nodes| <= e < |g| && e != f
    ensures f in Run(g, {e} + WithSink(C, A, f) + F, w) <==> (w == [] && f in F) || Run(nodes, C, w) * A != {}
  {
    var Y := {e} + WithSink(C, A, f) + F;
    if w != [] {
      var c := w[0];
      assert Y * Indices(nodes) == C;
      SinkMove(nodes, g, A, f, Y, c);
      SinkClosure(nodes, g, A, f, Move(nodes, C, c));
      SinkRun(nodes, g, A, f, Goto(nodes, C, c), w[1..]);
      assert Run(nodes, C, w) == Run(nodes, Goto(nodes, C, c), w[1..]);
    }
  }

  /** UnionGraph has the sink shape, with the new final state as f. */
  lemma UnionSinkShape(nodes: seq<Estado>, k: int, A: set<StateRef>, s1: StateRef, s2: StateRef)
    requires GraphValid(nodes) && s1 < |nodes| && s2 < |nodes| && Within(A, |nodes|)
    requires GraphValid(UnionGraph(nodes, k, A, s1, s2))
    ensures SinkShape(nodes, UnionGraph(nodes, k, A, s1, s2), A, |nodes| + 1)
    ensures EpsSuccOf(UnionGraph(nodes, k, A, s1, s2), |nodes|) == {s1, s2}
  {
    var g, nf := UnionGraph(nodes, k, A, s1, s2), |nodes| + 1;
    forall i | 0 <= i < |nodes|
      ensures g[i].edges == nodes[i].edges + (if i in A then {Eps(nf)} else {})
    {
      assert g[i] == Absorb(nodes, A, {Eps(nf)})[i];
    }
    TwoEpsSucc(g, |nodes|, s1, s2);
  }

  /** A state of A lies in R1 or R2 exactly when one lies in their union. */
  lemma MeetsUnion(R1: set<StateRef>, R2: set<StateRef>, A: set<StateRef>)
    ensures (R1 + R2) * A != {} <==> exists q :: q in A && (q in R1 || q in R2)
  {
    if (R1 + R2) * A != {} {
      var q :| q in (R1 + R2) * A;
      assert q in A && (q in R1 || q in R2);
    }
    forall q | q in A && (q in R1 || q in R2)
      ensures (R1 + R2) * A != {}
    {
      assert q in (R1 + R2) * A;
    }
  }

  /** A graph with the sink shape whose new start leads to s1 and s2 accepts what either reaches. */
  lemma SinkUnion(nodes: seq<Estado>, g: seq<Estado>, A: set<StateRef>, s1: StateRef, s2: StateRef, w: seq<int>)
    requires SinkShape(nodes, g, A, |nodes| + 1) && |g| == |nodes| + 2
    requires s1 < |nodes| && s2 < |nodes| && EpsSuccOf(g, |nodes|) == {s1, s2}
    ensures Accepts(g, |nodes|, {|nodes| + 1}, w) <==>
      (Run(nodes, EpsClosure(nodes, {s1}), w) + Run(nodes, EpsClosure(nodes, {s2}), w)) * A != {}
  {
    SinkEntry(nodes, g, A, |nodes| + 1, |nodes|, {s1, s2}, w);
    var C1, C2 := EpsClosure(nodes, {s1}), EpsClosure(nodes, {s2});
    var X := {s1, s2} * Indices(nodes);
    assert X == {s1} + {s2};
    EpsClosureUnion(nodes, {s1}, {s2});
    RunUnion(nodes, C1, C2, w);
  }

  /**
   * unir: the union automaton accepts w exactly when reading w from the
   * closure of either old start reaches an old accepting state.
   */
  lemma UnionLanguage(nodes: seq<Estado>, k: int, A: set<StateRef>, s1: StateRef, s2: StateRef, w: seq<int>)
    requires GraphValid(nodes) && s1 < |nodes| && s2 < |nodes| && Within(A, |nodes|)
    requires GraphValid(UnionGraph(nodes, k, A, s1, s2))
    ensures Accepts(UnionGraph(nodes, k, A, s1, s2), |nodes|, {|nodes| + 1}, w) <==>
      exists q :: q in A && (q in Run(nodes, EpsClosure(nodes, {s1}), w) || q in Run(nodes, EpsClosure(nodes, {s2}), w))
  {
    UnionSinkShape(nodes, k, A, s1, s2);
    SinkUnion(nodes, UnionGraph(nodes, k, A, s1, s2), A, s1, s2, w);
    MeetsUnion(Run(nodes, EpsClosure(nodes, {s1}), w), Run(nodes, EpsClosure(nodes, {s2}), w), A);
  }

  /**
   * unir on two operands with their own states, O1 and O2, that no edge
   * leaves: the union accepts exactly the words one of the operands accepts.
   */
  lemma UnionOfLanguages(nodes: seq<Estado>, k: int, A1: set<StateRef>, A2: set<StateRef>,
                         s1: StateRef, s2: StateRef, O1: set<StateRef>, O2: set<StateRef>, w: seq<int>)
    requires GraphValid(nodes) && Fragment(nodes, O1) && Fragment(nodes, O2) && O1 !! O2
    requires s1 in O1 && A1 <= O1 && s2 in O2 && A2 <= O2
    requires GraphValid(UnionGraph(nodes, k, A1 + A2, s1, s2))
    ensures Accepts(UnionGraph(nodes, k, A1 + A2, s1, s2), |nodes|, {|nodes| + 1}, w) <==>
      Accepts(nodes, s1, A1, w) || Accepts(nodes, s2, A2, w)
  {
    UnionLanguage(nodes, k, A1 + A2, s1, s2, w);
    StaysIn(nodes, O1, s1, w);
    StaysIn(nodes, O2, s2, w);
  }

  /** Reading a word from a state of a fragment stays in the fragment. */
  lemma StaysIn(nodes: seq<Estado>, O: set<StateRef>, s: StateRef, w: seq<int>)
    requires GraphValid(nodes) && Fragment(nodes, O) && s in O
    ensures Run(nodes, EpsClosure(nodes, {s}), w) <= O
  {
    FragmentClosed(nodes, O);
    EpsClosureLeast(nodes, {s}, O);
    RunInFragment(nodes, O, EpsClosure(nodes, {s}), w);
  }

  /** A fragment is epsilon-closed. */
  lemma FragmentClosed(nodes: seq<Estado>, O: set<StateRef>)
    requires Fragment(nodes, O)
    ensures EpsClosed(nodes, O)
  {
    forall x | x in O && x < |nodes|
      ensures EpsSuccOf(nodes, x) <= O
    {
      forall y | y in EpsSuccOf(nodes, x)
        ensures y in O
      {
        var t :| t in nodes[x].edges && t.IsEpsilon() && t.dest == y;
      }
    }
  }

  /** cerraduraOpcional: the graph without loop-back has the sink shape, with e2 as f. */
  lemma OptionalSinkShape(nodes: seq<Estado>, k: int, A: set<StateRef>, s: StateRef)
    requires GraphValid(nodes) && s < |nodes| && Within(A, |nodes|)
    requires GraphValid(ClosureGraph(nodes, k, A, s, false, true))
    ensures SinkShape(nodes, ClosureGraph(nodes, k, A, s, false, true), A, |nodes| + 1)
    ensures EpsSuccOf(ClosureGraph(nodes, k, A, s, false, true), |nodes|) == {s, |nodes| + 1}
  {
    var g, e2 := ClosureGraph(nodes, k, A, s, false, true), |nodes| + 1;
    var E: set<Transition> := {} + {Eps(e2)};
    assert E == {Eps(e2)};
    forall i | 0 <= i < |nodes|
      ensures g[i].edges == nodes[i].edges + (if i in A then {Eps(e2)} else {})
    {
      assert g[i] == Absorb(nodes, A, E)[i];
    }
    assert g[|nodes|].edges == {Eps(s), Eps(e2)};
    TwoEpsSucc(g, |nodes|, s, e2);
  }

  /** cerraduraOpcional accepts the empty word and exactly the words the operand accepts. */
  lemma OptionalLanguage(nodes: seq<Estado>, k: int, A: set<StateRef>, s: StateRef, w: seq<int>)
    requires GraphValid(nodes) && s < |nodes| && Within(A, |nodes|)
    requires GraphValid(ClosureGraph(nodes, k, A, s, false, true))
    ensures Accepts(ClosureGraph(nodes, k, A, s, false, true), |nodes|, {|nodes| + 1}, w) <==>
      w == [] || Accepts(nodes, s, A, w)
  {
    var g := ClosureGraph(nodes, k, A, s, false, true);
    OptionalSinkShape(nodes, k, A, s);
    SinkEntry(nodes, g, A, |nodes| + 1, |nodes|, {s, |nodes| + 1}, w);
    assert {s, |nodes| + 1} * Indices(nodes) == {s};
    AcceptsMeets(nodes, s, A, w);
  }

  // A loop back to the operand's start (cerraduraKleene, cerraduraPositiva)

  /** w is a sequence of words the operand accepts: the language of cerraduraKleene. */
  ghost predicate InStar(nodes: seq<Estado>, s: StateRef, A: set<StateRef>, w: seq<int>)
    requires GraphValid(nodes) && s < |nodes|
    decreases |w|
  {
    w == [] || exists i :: 0 <= i < |w| && InStar(nodes, s, A, w[..i]) && Accepts(nodes, s, A, w[i..])
  }

  /** w is one or more words the operand accepts: the language of cerraduraPositiva. */
  ghost predicate InPlus(nodes: seq<Estado>, s: StateRef, A: set<StateRef>, w: seq<int>)
    requires GraphValid(nodes) && s < |nodes|
  {
    exists i :: 0 <= i <= |w| && InStar(nodes, s, A, w[..i]) && Accepts(nodes, s, A, w[i..])
  }

  /** One or more words, or none, is any number of words. */
  lemma StarIsPlusOrEmpty(nodes: seq<Estado>, s: StateRef, A: set<StateRef>, w: seq<int>)
    requires GraphValid(nodes) && s < |nodes|
    ensures InStar(nodes, s, A, w) <==> w == [] || InPlus(nodes, s, A, w)
  {
    if InPlus(nodes, s, A, w) {
      var i :| 0 <= i <= |w| && InStar(nodes, s, A, w[..i]) && Accepts(nodes, s, A, w[i..]);
      if i == |w| {
        assert w[..i] == w;
      }
    }
  }

  /**
   * g is nodes with two new states e1 = |nodes| and f = |nodes| + 1: every
   * state of A gains epsilon edges to s and to f, e1 leads to s (and to f
   * when bypass), and f has no edges.
   */
  ghost predicate LoopShape(nodes: seq<Estado>, g: seq<Estado>, A: set<StateRef>, s: StateRef, bypass: bool) {
    && GraphValid(nodes) && GraphValid(g)
    && |g| == |nodes| + 2 && s < |nodes| && Within(A, |nodes|)
    && (forall i :: 0 <= i < |nodes| ==>
          g[i].edges == nodes[i].edges + (if i in A then {Eps(s), Eps(|nodes| + 1)} else {}))
    && g[|nodes|].edges == {Eps(s)} + (if bypass then {Eps(|nodes| + 1)} else {})
    && g[|nodes| + 1].edges == {}
  }

  /** The old states keep their successors; those of A gain s and f. */
  lemma LoopSucc(nodes: seq<Estado>, g: seq<Estado>, A: set<StateRef>, s: StateRef, bypass: bool,
                 x: StateRef, c: int)
    requires LoopShape(nodes, g, A, s, bypass) && x < |nodes|
    ensures EpsSuccOf(g, x) == EpsSuccOf(nodes, x) + (if x in A then {s, |nodes| + 1} else {})
    ensures MoveOf(g, x, c) == MoveOf(nodes, x, c)
  {
    var f := |nodes| + 1;
    var E: set<Transition> := if x in A then {Eps(s), Eps(f)} else {};
    EdgesSplit(g, x, nodes, x, E, c);
    assert (set t | t in E && t.IsEpsilon() :: t.dest) == (if x in A then {s, f} else {}) by {
      if x in A {
        assert Eps(s) in E && Eps(f) in E;
      }
    }
  }

  /** The new start leads to s, and to f when bypass; it reads nothing. */
  lemma LoopStartSucc(nodes: seq<Estado>, g: seq<Estado>, A: set<StateRef>, s: StateRef, bypass: bool, c: int)
    requires LoopShape(nodes, g, A, s, bypass)
    ensures EpsSuccOf(g, |nodes|) == {s} + (if bypass then {|nodes| + 1} else {})
    ensures MoveOf(g, |nodes|, c) == {}
  {
    assert Eps(s) in g[|nodes|].edges;
    if bypass {
      assert Eps(|nodes| + 1) in g[|nodes|].edges;
    }
  }

  /** The loop graph only adds edges and states to nodes. */
  lemma LoopGrows(nodes: seq<Estado>, g: seq<Estado>, A: set<StateRef>, s: StateRef, bypass: bool)
    requires LoopShape(nodes, g, A, s, bypass)
    ensures EdgesGrow(nodes, g)
  {
  }

  /** x is reached by reading the rest of w from the operand's start, after a prefix in the star. */
  ghost predicate AfterStar(nodes: seq<Estado>, s: StateRef, A: set<StateRef>, w: seq<int>, x: StateRef)
    requires GraphValid(nodes) && s < |nodes|
  {
    exists i :: 0 <= i <= |w| && InStar(nodes, s, A, w[..i]) && x in Run(nodes, EpsClosure(nodes, {s}), w[i..])
  }

  /** Reaching a state of A after a prefix in the star puts w in the star and in the plus. */
  lemma StarOfPiece(nodes: seq<Estado>, s: StateRef, A: set<StateRef>, w: seq<int>, x: StateRef)
    requires GraphValid(nodes) && s < |nodes| && x in A && AfterStar(nodes, s, A, w, x)
    ensures InStar(nodes, s, A, w) && InPlus(nodes, s, A, w)
  {
    var i :| 0 <= i <= |w| && InStar(nodes, s, A, w[..i]) && x in Run(nodes, EpsClosure(nodes, {s}), w[i..]);
    assert Accepts(nodes, s, A, w[i..]);
    if i == |w| {
      assert w[..i] == w;
    }
  }

  /** After a word of the star, the operand's start closure is reached again. */
  lemma StartAfterStar(nodes: seq<Estado>, s: StateRef, A: set<StateRef>, w: seq<int>, x: StateRef)
    requires GraphValid(nodes) && s < |nodes| && InStar(nodes, s, A, w) && x in EpsClosure(nodes, {s})
    ensures AfterStar(nodes, s, A, w, x)
  {
    assert w[..|w|] == w && w[|w|..] == [];
  }

  /** The old states the loop graph may be in after reading w. */
  ghost function Mid(nodes: seq<Estado>, s: StateRef, A: set<StateRef>, w: seq<int>): set<StateRef>
    requires GraphValid(nodes) && s < |nodes|
  {
    set x | x in Indices(nodes) && AfterStar(nodes, s, A, w, x)
  }

  /** All the states the loop graph may be in after reading w. */
  ghost function LoopBound(nodes: seq<Estado>, s: StateRef, A: set<StateRef>, bypass: bool, w: seq<int>): set<StateRef>
    requires GraphValid(nodes) && s < |nodes|
  {
    var M := Mid(nodes, s, A, w);
    M + (if M * A != {} then {|nodes| + 1} else {})
      + (if w == [] then {|nodes|} + (if bypass then {|nodes| + 1} else {}) else {})
  }

  /** An epsilon successor, in nodes, of a state of Mid is in Mid. */
  lemma MidSucc(nodes: seq<Estado>, s: StateRef, A: set<StateRef>, w: seq<int>, x: StateRef, y: StateRef)
    requires GraphValid(nodes) && s < |nodes| && x in Mid(nodes, s, A, w) && y in EpsSuccOf(nodes, x)
    ensures y in Mid(nodes, s, A, w)
  {
    var K := EpsClosure(nodes, {s});
    var i :| 0 <= i <= |w| && InStar(nodes, s, A, w[..i]) && x in Run(nodes, K, w[i..]);
    RunClosed(nodes, K, w[i..]);
    assert y in Run(nodes, K, w[i..]);
  }

  /** LoopBound is closed under the epsilon edges of the loop graph. */
  lemma LoopBoundClosed(nodes: seq<Estado>, g: seq<Estado>, A: set<StateRef>, s: StateRef, bypass: bool, w: seq<int>)
    requires LoopShape(nodes, g, A, s, bypass)
    ensures LoopBound(nodes, s, A, bypass, w) <= Indices(g)
    ensures EpsClosed(g, LoopBound(nodes, s, A, bypass, w))
  {
    var M, G := Mid(nodes, s, A, w), LoopBound(nodes, s, A, bypass, w);
    forall x | x in G && x < |g|
      ensures EpsSuccOf(g, x) <= G
    {
      if x < |nodes| {
        assert x in M;
        LoopSucc(nodes, g, A, s, bypass, x, 0);
        MidClosed(nodes, s, A, w, x);
      } else if x == |nodes| {
        assert w == [];
        LoopStartSucc(nodes, g, A, s, bypass, 0);
        StartAfterStar(nodes, s, A, w, s);
      } else {
        assert EpsSuccOf(g, x) == {};
      }
    }
  }

  /** Mid is closed under the epsilon edges of nodes, and holds s once it holds a state of A. */
  lemma MidClosed(nodes: seq<Estado>, s: StateRef, A: set<StateRef>, w: seq<int>, x: StateRef)
    requires GraphValid(nodes) && s < |nodes| && x in Mid(nodes, s, A, w)
    ensures EpsSuccOf(nodes, x) <= Mid(nodes, s, A, w)
    ensures x in A ==> s in Mid(nodes, s, A, w)
  {
    forall y | y in EpsSuccOf(nodes, x)
      ensures y in Mid(nodes, s, A, w)
    {
      MidSucc(nodes, s, A, w, x, y);
    }
    if x in A {
      StarOfPiece(nodes, s, A, w, x);
      StartAfterStar(nodes, s, A, w, s);
    }
  }

  /** The prefixes and suffixes of w + [c] at a cut inside w. */
  lemma SnocSlices(w: seq<int>, c: int, i: nat)
    requires i <= |w|
    ensures (w + [c])[..i] == w[..i] && (w + [c])[i..] == w[i..] + [c]
  {
  }

  /** A state that a state of Mid after w moves to on c is in Mid after w + [c]. */
  lemma MidMove(nodes: seq<Estado>, s: StateRef, A: set<StateRef>, w: seq<int>, c: int)
    requires GraphValid(nodes) && s < |nodes|
    ensures Move(nodes, Mid(nodes, s, A, w), c) <= Mid(nodes, s, A, w + [c])
  {
    var K := EpsClosure(nodes, {s});
    forall y | y in Move(nodes, Mid(nodes, s, A, w), c)
      ensures y in Mid(nodes, s, A, w + [c])
    {
      var x, t :| x in Mid(nodes, s, A, w) && x < |nodes| && t in nodes[x].edges && t.Acepta(c) && t.dest == y;
      var i :| 0 <= i <= |w| && InStar(nodes, s, A, w[..i]) && x in Run(nodes, K, w[i..]);
      var R := Run(nodes, K, w[i..]);
      assert y in Move(nodes, R, c);
      RunSnoc(nodes, K, w[i..], c);
      SnocSlices(w, c, i);
      assert InStar(nodes, s, A, (w + [c])[..i]) && y in Run(nodes, K, (w + [c])[i..]);
    }
  }

  /** Reading a symbol in the loop graph only follows edges of nodes. */
  lemma LoopMove(nodes: seq<Estado>, g: seq<Estado>, A: set<StateRef>, s: StateRef, bypass: bool,
                 Y: set<StateRef>, c: int)
    requires LoopShape(nodes, g, A, s, bypass) && Y <= Indices(g)
    ensures Move(g, Y, c) == Move(nodes, Y * Indices(nodes), c)
  {
    forall y | y in Move(g, Y, c)
      ensures y in Move(nodes, Y * Indices(nodes), c)
    {
      var x, t :| x in Y && x < |g| && t in g[x].edges && t.Acepta(c) && t.dest == y;
      assert y in MoveOf(g, x, c);
      if x == |nodes| {
        LoopStartSucc(nodes, g, A, s, bypass, c);
      }
      assert x < |nodes|;
      LoopSucc(nodes, g, A, s, bypass, x, c);
      assert y in MoveOf(nodes, x, c);
    }
    forall y | y in Move(nodes, Y * Indices(nodes), c)
      ensures y in Move(g, Y, c)
    {
      var x, t :| x in Y * Indices(nodes) && x < |nodes| && t in nodes[x].edges && t.Acepta(c) && t.dest == y;
      assert t in g[x].edges;
    }
  }

  /** Reading c from LoopBound after w lands in Mid after w + [c]. */
  lemma LoopBoundMove(nodes: seq<Estado>, g: seq<Estado>, A: set<StateRef>, s: StateRef, bypass: bool,
                      w: seq<int>, c: int)
    requires LoopShape(nodes, g, A, s, bypass)
    ensures Move(g, LoopBound(nodes, s, A, bypass, w), c) <= Mid(nodes, s, A, w + [c])
  {
    var G := LoopBound(nodes, s, A, bypass, w);
    LoopBoundClosed(nodes, g, A, s, bypass, w);
    LoopMove(nodes, g, A, s, bypass, G, c);
    assert G * Indices(nodes) == Mid(nodes, s, A, w);
    MidMove(nodes, s, A, w, c);
  }

  /** A non-empty word is its front followed by its last symbol. */
  lemma LastCut(w: seq<int>)
    requires w != []
    ensures w == w[..|w| - 1] + [w[|w| - 1]]
  {
  }

  /** Everything the loop graph reaches on w is in LoopBound. */
  lemma {:induction false} LoopUpper(nodes: seq<Estado>, g: seq<Estado>, A: set<StateRef>, s: StateRef, bypass: bool,
                                     w: seq<int>)
    requires LoopShape(nodes, g, A, s, bypass)
    ensures Run(g, EpsClosure(g, {|nodes|}), w) <= LoopBound(nodes, s, A, bypass, w)
    decreases |w|
  {
    LoopBoundClosed(nodes, g, A, s, bypass, w);
    var G := LoopBound(nodes, s, A, bypass, w);
    if w == [] {
      EpsClosureLeast(g, {|nodes|}, G);
    } else {
      var u, c := w[..|w| - 1], w[|w| - 1];
      LastCut(w);
      LoopUpper(nodes, g, A, s, bypass, u);
      var R := Run(g, EpsClosure(g, {|nodes|}), u);
      RunSnoc(g, EpsClosure(g, {|nodes|}), u, c);
      LoopBoundClosed(nodes, g, A, s, bypass, u);
      assert Move(g, R, c) <= Move(g, LoopBound(nodes, s, A, bypass, u), c);
      LoopBoundMove(nodes, g, A, s, bypass, u, c);
      EpsClosureLeast(g, Move(g, R, c), G);
    }
  }

  /** The loop graph's start closure holds the operand's start closure. */
  lemma LoopStart(nodes: seq<Estado>, g: seq<Estado>, A: set<StateRef>, s: StateRef, bypass: bool)
    requires LoopShape(nodes, g, A, s, bypass)
    ensures EpsClosure(nodes, {s}) <= EpsClosure(g, {|nodes|})
  {
    LoopGrows(nodes, g, A, s, bypass);
    ClosureGrows(nodes, g, {s});
    EpsEdgeReach(g, |nodes|, s);
  }

  /** Cutting a word and joining the pieces gives the word back. */
  lemma CutJoin(w: seq<int>, i: nat)
    requires i <= |w|
    ensures w[..i] + w[i..] == w
  {
  }

  /**
   * Once the loop graph is back at the operand's start closure after
   * w[..i], a suffix w[i..] the operand accepts brings it back there, and to
   * f, after w.
   */
  lemma AfterPiece(nodes: seq<Estado>, g: seq<Estado>, A: set<StateRef>, s: StateRef, bypass: bool,
                   w: seq<int>, i: nat)
    requires LoopShape(nodes, g, A, s, bypass) && i <= |w|
    requires EpsClosure(nodes, {s}) <= Run(g, EpsClosure(g, {|nodes|}), w[..i]) && Accepts(nodes, s, A, w[i..])
    ensures EpsClosure(nodes, {s}) <= Run(g, EpsClosure(g, {|nodes|}), w)
    ensures |nodes| + 1 in Run(g, EpsClosure(g, {|nodes|}), w)
  {
    var K, S := EpsClosure(nodes, {s}), EpsClosure(g, {|nodes|});
    var R := Run(g, S, w);
    LoopGrows(nodes, g, A, s, bypass);
    RunGrows(nodes, g, K, Run(g, S, w[..i]), w[i..]);
    RunCut(g, S, w, i);
    var a :| a in Run(nodes, K, w[i..]) && a in A;
    assert a in R;
    RunClosed(g, S, w);
    LoopSucc(nodes, g, A, s, bypass, a, 0);
    assert EpsSuccOf(g, a) <= R;
    EpsClosureLeast(g, {s}, R);
    ClosureGrows(nodes, g, {s});
  }

  /** After a word of the star the loop graph is back at the operand's start closure. */
  lemma {:induction false} StarReach(nodes: seq<Estado>, g: seq<Estado>, A: set<StateRef>, s: StateRef, bypass: bool,
                                     w: seq<int>)
    requires LoopShape(nodes, g, A, s, bypass) && InStar(nodes, s, A, w)
    ensures EpsClosure(nodes, {s}) <= Run(g, EpsClosure(g, {|nodes|}), w)
    decreases |w|
  {
    if w == [] {
      LoopStart(nodes, g, A, s, bypass);
    } else {
      var i :| 0 <= i < |w| && InStar(nodes, s, A, w[..i]) && Accepts(nodes, s, A, w[i..]);
      StarReach(nodes, g, A, s, bypass, w[..i]);
      AfterPiece(nodes, g, A, s, bypass, w, i);
    }
  }

  /** When the loop graph reaches f on w, w is in the plus, or empty with the bypass. */
  lemma LoopOnlyPlus(nodes: seq<Estado>, g: seq<Estado>, A: set<StateRef>, s: StateRef, bypass: bool, w: seq<int>)
    requires LoopShape(nodes, g, A, s, bypass) && |nodes| + 1 in Run(g, EpsClosure(g, {|nodes|}), w)
    ensures InPlus(nodes, s, A, w) || (bypass && w == [])
  {
    LoopUpper(nodes, g, A, s, bypass, w);
    var M := Mid(nodes, s, A, w);
    assert M <= Indices(nodes);
    if M * A != {} {
      var x :| x in M * A;
      StarOfPiece(nodes, s, A, w, x);
    }
  }

  /** On a word of the plus, or the empty word with the bypass, the loop graph reaches f. */
  lemma LoopAllPlus(nodes: seq<Estado>, g: seq<Estado>, A: set<StateRef>, s: StateRef, bypass: bool, w: seq<int>)
    requires LoopShape(nodes, g, A, s, bypass) && (InPlus(nodes, s, A, w) || (bypass && w == []))
    ensures |nodes| + 1 in Run(g, EpsClosure(g, {|nodes|}), w)
  {
    if InPlus(nodes, s, A, w) {
      var i :| 0 <= i <= |w| && InStar(nodes, s, A, w[..i]) && Accepts(nodes, s, A, w[i..]);
      StarReach(nodes, g, A, s, bypass, w[..i]);
      AfterPiece(nodes, g, A, s, bypass, w, i);
    } else {
      LoopStartSucc(nodes, g, A, s, bypass, 0);
      assert EpsClosed(g, EpsClosure(g, {|nodes|}));
    }
  }

  /**
   * The loop graph accepts w at f exactly when w is one or more words the
   * operand accepts, or w is empty and e1 bypasses to f.
   */
  lemma LoopLanguage(nodes: seq<Estado>, g: seq<Estado>, A: set<StateRef>, s: StateRef, bypass: bool, w: seq<int>)
    requires LoopShape(nodes, g, A, s, bypass)
    ensures Accepts(g, |nodes|, {|nodes| + 1}, w) <==> InPlus(nodes, s, A, w) || (bypass && w == [])
  {
    AcceptsMeets(g, |nodes|, {|nodes| + 1}, w);
    if |nodes| + 1 in Run(g, EpsClosure(g, {|nodes|}), w) {
      LoopOnlyPlus(nodes, g, A, s, bypass, w);
    }
    if InPlus(nodes, s, A, w) || (bypass && w == []) {
      LoopAllPlus(nodes, g, A, s, bypass, w);
    }
  }

  /** The graph cerraduraKleene and cerraduraPositiva leave has the loop shape. */
  lemma ClosureLoopShape(nodes: seq<Estado>, k: int, A: set<StateRef>, s: StateRef, bypass: bool)
    requires GraphValid(nodes) && s < |nodes| && Within(A, |nodes|)
    requires GraphValid(ClosureGraph(nodes, k, A, s, true, bypass))
    ensures LoopShape(nodes, ClosureGraph(nodes, k, A, s, true, bypass), A, s, bypass)
  {
    var g, e2 := ClosureGraph(nodes, k, A, s, true, bypass), |nodes| + 1;
    var E: set<Transition> := {Eps(s)} + {Eps(e2)};
    assert E == {Eps(s), Eps(e2)};
    forall i | 0 <= i < |nodes|
      ensures g[i].edges == nodes[i].edges + (if i in A then {Eps(s), Eps(e2)} else {})
    {
      assert g[i] == Absorb(nodes, A, E)[i];
    }
  }

  /** cerraduraKleene accepts exactly the sequences of words the operand accepts. */
  lemma StarLanguage(nodes: seq<Estado>, k: int, A: set<StateRef>, s: StateRef, w: seq<int>)
    requires GraphValid(nodes) && s < |nodes| && Within(A, |nodes|)
    requires GraphValid(ClosureGraph(nodes, k, A, s, true, true))
    ensures Accepts(ClosureGraph(nodes, k, A, s, true, true), |nodes|, {|nodes| + 1}, w) <==> InStar(nodes, s, A, w)
  {
    ClosureLoopShape(nodes, k, A, s, true);
    LoopLanguage(nodes, ClosureGraph(nodes, k, A, s, true, true), A, s, true, w);
    StarIsPlusOrEmpty(nodes, s, A, w);
  }

  /** cerraduraPositiva accepts exactly the sequences of one or more words the operand accepts. */
  lemma PlusLanguage(nodes: seq<Estado>, k: int, A: set<StateRef>, s: StateRef, w: seq<int>)
    requires GraphValid(nodes) && s < |nodes| && Within(A, |nodes|)
    requires GraphValid(ClosureGraph(nodes, k, A, s, true, false))
    ensures Accepts(ClosureGraph(nodes, k, A, s, true, false), |nodes|, {|nodes| + 1}, w) <==> InPlus(nodes, s, A, w)
  {
    ClosureLoopShape(nodes, k, A, s, false);
    LoopLanguage(nodes, ClosureGraph(nodes, k, A, s, true, false), A, s, false, w);
  }

  // The accepting states of the first operand take over the second's start (concatenar)

  /**
   * g is nodes where every state of A1 gained the edges of s2. The
   * operands' states are the fragments O1 and O2, which share nothing, and
   * the second operand's start is not one of its accepting states, as in
   * every automaton the combinators build.
   */
  ghost predicate CatShape(nodes: seq<Estado>, g: seq<Estado>, O1: set<StateRef>, s1: StateRef, A1: set<StateRef>,
                           O2: set<StateRef>, s2: StateRef, A2: set<StateRef>) {
    && GraphValid(nodes) && GraphValid(g) && |g| == |nodes|
    && Fragment(nodes, O1) && Fragment(nodes, O2) && O1 !! O2
    && s1 in O1 && A1 <= O1 && s2 in O2 && A2 <= O2 && s2 !in A2
    && (forall i :: 0 <= i < |nodes| ==> g[i].edges == nodes[i].edges + (if i in A1 then nodes[s2].edges else {}))
  }

  /** The states of A1 gain the successors of s2; the others keep theirs. */
  lemma CatSucc(nodes: seq<Estado>, g: seq<Estado>, O1: set<StateRef>, s1: StateRef, A1: set<StateRef>,
                O2: set<StateRef>, s2: StateRef, A2: set<StateRef>, x: StateRef, c: int)
    requires CatShape(nodes, g, O1, s1, A1, O2, s2, A2) && x < |nodes|
    ensures EpsSuccOf(g, x) == EpsSuccOf(nodes, x) + (if x in A1 then EpsSuccOf(nodes, s2) else {})
    ensures MoveOf(g, x, c) == MoveOf(nodes, x, c) + (if x in A1 then MoveOf(nodes, s2, c) else {})
  {
    EdgesSplit(g, x, nodes, x, if x in A1 then nodes[s2].edges else {}, c);
  }

  /** Reading c in g from Y is reading it in nodes, and from s2 when Y holds a state of A1. */
  lemma CatMove(nodes: seq<Estado>, g: seq<Estado>, O1: set<StateRef>, s1: StateRef, A1: set<StateRef>,
                O2: set<StateRef>, s2: StateRef, A2: set<StateRef>, Y: set<StateRef>, c: int)
    requires CatShape(nodes, g, O1, s1, A1, O2, s2, A2)
    ensures Move(g, Y, c) == Move(nodes, Y, c) + (if Y * A1 != {} then MoveOf(nodes, s2, c) else {})
  {
    forall y | y in Move(g, Y, c)
      ensures y in Move(nodes, Y, c) + (if Y * A1 != {} then MoveOf(nodes, s2, c) else {})
    {
      var x, t :| x in Y && x < |g| && t in g[x].edges && t.Acepta(c) && t.dest == y;
      CatSucc(nodes, g, O1, s1, A1, O2, s2, A2, x, c);
      assert y in MoveOf(g, x, c);
      if x !in A1 {
        assert y in MoveOf(nodes, x, c);
      } else {
        assert x in Y * A1;
      }
    }
    forall y | y in Move(nodes, Y, c)
      ensures y in Move(g, Y, c)
    {
      var x, t :| x in Y && x < |nodes| && t in nodes[x].edges && t.Acepta(c) && t.dest == y;
      assert t in g[x].edges;
    }
    if Y * A1 != {} {
      var a :| a in Y * A1;
      forall y | y in MoveOf(nodes, s2, c)
        ensures y in Move(g, Y, c)
      {
        var t :| t in nodes[s2].edges && t.Acepta(c) && t.dest == y;
        assert t in g[a].edges;
      }
    }
  }

  /** x is reached from the second start on the rest of w, after a prefix the first operand accepts. */
  ghost predicate AfterFirst(nodes: seq<Estado>, s1: StateRef, A1: set<StateRef>, s2: StateRef, w: seq<int>, x: StateRef)
    requires GraphValid(nodes) && s1 < |nodes| && s2 < |nodes|
  {
    exists i :: 0 <= i <= |w| && Accepts(nodes, s1, A1, w[..i]) && x in Run(nodes, EpsClosure(nodes, {s2}), w[i..])
  }

  /** The states of the second operand g may be in after reading w. */
  ghost function Second(nodes: seq<Estado>, s1: StateRef, A1: set<StateRef>, O2: set<StateRef>, s2: StateRef,
                        w: seq<int>): set<StateRef>
    requires GraphValid(nodes) && s1 < |nodes| && s2 < |nodes|
  {
    set x | x in O2 && AfterFirst(nodes, s1, A1, s2, w, x)
  }

  /** All the states g may be in after reading w. */
  ghost function CatBound(nodes: seq<Estado>, s1: StateRef, A1: set<StateRef>, O2: set<StateRef>, s2: StateRef,
                          w: seq<int>): set<StateRef>
    requires GraphValid(nodes) && s1 < |nodes| && s2 < |nodes|
  {
    Run(nodes, EpsClosure(nodes, {s1}), w) + Second(nodes, s1, A1, O2, s2, w)
  }

  /** A word the first operand accepts puts the second's start closure in Second. */
  lemma SecondStarts(nodes: seq<Estado>, s1: StateRef, A1: set<StateRef>, O2: set<StateRef>, s2: StateRef,
                     w: seq<int>, y: StateRef)
    requires GraphValid(nodes) && s1 < |nodes| && s2 < |nodes| && Fragment(nodes, O2) && s2 in O2
    requires Accepts(nodes, s1, A1, w) && y in EpsClosure(nodes, {s2})
    ensures y in Second(nodes, s1, A1, O2, s2, w)
  {
    FragmentClosed(nodes, O2);
    EpsClosureLeast(nodes, {s2}, O2);
    assert w[..|w|] == w && w[|w|..] == [];
  }

  /** An epsilon successor, in nodes, of a state of Second is in Second. */
  lemma SecondSucc(nodes: seq<Estado>, s1: StateRef, A1: set<StateRef>, O2: set<StateRef>, s2: StateRef,
                   w: seq<int>, x: StateRef, y: StateRef)
    requires GraphValid(nodes) && s1 < |nodes| && s2 < |nodes| && Fragment(nodes, O2)
    requires x in Second(nodes, s1, A1, O2, s2, w) && y in EpsSuccOf(nodes, x)
    ensures y in Second(nodes, s1, A1, O2, s2, w)
  {
    var K := EpsClosure(nodes, {s2});
    var i :| 0 <= i <= |w| && Accepts(nodes, s1, A1, w[..i]) && x in Run(nodes, K, w[i..]);
    RunClosed(nodes, K, w[i..]);
    assert y in Run(nodes, K, w[i..]);
    var t :| t in nodes[x].edges && t.IsEpsilon() && t.dest == y;
  }

  /** What a state of Second after w moves to on c is in Second after w + [c]. */
  lemma SecondMoveOf(nodes: seq<Estado>, s1: StateRef, A1: set<StateRef>, O2: set<StateRef>, s2: StateRef,
                     w: seq<int>, c: int, x: StateRef)
    requires GraphValid(nodes) && s1 < |nodes| && s2 < |nodes| && Fragment(nodes, O2)
    requires x in Second(nodes, s1, A1, O2, s2, w)
    ensures MoveOf(nodes, x, c) <= Second(nodes, s1, A1, O2, s2, w + [c])
  {
    var K := EpsClosure(nodes, {s2});
    var i :| 0 <= i <= |w| && Accepts(nodes, s1, A1, w[..i]) && x in Run(nodes, K, w[i..]);
    var R := Run(nodes, K, w[i..]);
    RunSnoc(nodes, K, w[i..], c);
    SnocSlices(w, c, i);
    assert Move(nodes, R, c) <= Run(nodes, K, (w + [c])[i..]);
    forall y | y in MoveOf(nodes, x, c)
      ensures y in Second(nodes, s1, A1, O2, s2, w + [c])
    {
      var t :| t in nodes[x].edges && t.Acepta(c) && t.dest == y;
      assert y in O2;
      assert y in Move(nodes, R, c);
      assert AfterFirst(nodes, s1, A1, s2, w + [c], y);
    }
  }

  /** Reading c from Second after w lands in Second after w + [c]. */
  lemma SecondMove(nodes: seq<Estado>, s1: StateRef, A1: set<StateRef>, O2: set<StateRef>, s2: StateRef,
                   w: seq<int>, c: int)
    requires GraphValid(nodes) && s1 < |nodes| && s2 < |nodes| && Fragment(nodes, O2)
    ensures Move(nodes, Second(nodes, s1, A1, O2, s2, w), c) <= Second(nodes, s1, A1, O2, s2, w + [c])
  {
    forall y | y in Move(nodes, Second(nodes, s1, A1, O2, s2, w), c)
      ensures y in Second(nodes, s1, A1, O2, s2, w + [c])
    {
      var x, t :| x in Second(nodes, s1, A1, O2, s2, w) && x < |nodes| && t in nodes[x].edges && t.Acepta(c) && t.dest == y;
      SecondMoveOf(nodes, s1, A1, O2, s2, w, c, x);
      assert y in MoveOf(nodes, x, c);
    }
  }

  /** After a word the first operand accepts, reading c from s2 lands in Second. */
  lemma SecondEnters(nodes: seq<Estado>, s1: StateRef, A1: set<StateRef>, O2: set<StateRef>, s2: StateRef,
                     w: seq<int>, c: int)
    requires GraphValid(nodes) && s1 < |nodes| && s2 < |nodes| && Fragment(nodes, O2) && s2 in O2
    requires Accepts(nodes, s1, A1, w)
    ensures MoveOf(nodes, s2, c) <= Second(nodes, s1, A1, O2, s2, w + [c])
  {
    var K := EpsClosure(nodes, {s2});
    forall y | y in MoveOf(nodes, s2, c)
      ensures y in Second(nodes, s1, A1, O2, s2, w + [c])
    {
      var t :| t in nodes[s2].edges && t.Acepta(c) && t.dest == y;
      assert y in Move(nodes, K, c);
      assert Run(nodes, K, [c]) == Goto(nodes, K, c);
      SnocSlices(w, c, |w|);
      assert w[..|w|] == w && w[|w|..] == [];
      assert Accepts(nodes, s1, A1, (w + [c])[..|w|]) && y in Run(nodes, K, (w + [c])[|w|..]);
    }
  }

  /** CatBound is closed under the epsilon edges of g. */
  lemma CatBoundClosed(nodes: seq<Estado>, g: seq<Estado>, O1: set<StateRef>, s1: StateRef, A1: set<StateRef>,
                       O2: set<StateRef>, s2: StateRef, A2: set<StateRef>, w: seq<int>)
    requires CatShape(nodes, g, O1, s1, A1, O2, s2, A2)
    ensures CatBound(nodes, s1, A1, O2, s2, w) <= Indices(g)
    ensures EpsClosed(g, CatBound(nodes, s1, A1, O2, s2, w))
  {
    var C1 := EpsClosure(nodes, {s1});
    var F, S := Run(nodes, C1, w), Second(nodes, s1, A1, O2, s2, w);
    forall x | x in F + S && x < |g|
      ensures EpsSuccOf(g, x) <= F + S
    {
      CatSucc(nodes, g, O1, s1, A1, O2, s2, A2, x, 0);
      if x in F {
        RunClosed(nodes, C1, w);
        if x in A1 {
          assert Accepts(nodes, s1, A1, w);
          forall y | y in EpsSuccOf(nodes, s2)
            ensures y in S
          {
            ClosureOfOne(nodes, s2);
            SecondStarts(nodes, s1, A1, O2, s2, w, y);
          }
        }
      } else {
        StaysIn(nodes, O1, s1, w);
        assert x !in A1;
        forall y | y in EpsSuccOf(nodes, x)
          ensures y in S
        {
          SecondSucc(nodes, s1, A1, O2, s2, w, x, y);
        }
      }
    }
  }

  /** Reading c from CatBound after w lands in CatBound after w + [c]. */
  lemma CatBoundMove(nodes: seq<Estado>, g: seq<Estado>, O1: set<StateRef>, s1: StateRef, A1: set<StateRef>,
                     O2: set<StateRef>, s2: StateRef, A2: set<StateRef>, w: seq<int>, c: int)
    requires CatShape(nodes, g, O1, s1, A1, O2, s2, A2)
    ensures Move(g, CatBound(nodes, s1, A1, O2, s2, w), c) <= CatBound(nodes, s1, A1, O2, s2, w + [c])
  {
    var C1 := EpsClosure(nodes, {s1});
    var F, S := Run(nodes, C1, w), Second(nodes, s1, A1, O2, s2, w);
    CatMove(nodes, g, O1, s1, A1, O2, s2, A2, F + S, c);
    MoveUnion(nodes, F, S, c);
    RunSnoc(nodes, C1, w, c);
    SecondMove(nodes, s1, A1, O2, s2, w, c);
    if (F + S) * A1 != {} {
      StaysIn(nodes, O1, s1, w);
      var a :| a in (F + S) * A1;
      assert a in F;
      assert Accepts(nodes, s1, A1, w);
      SecondEnters(nodes, s1, A1, O2, s2, w, c);
    }
  }

  /** Everything g reaches from s1 on w is in CatBound. */
  lemma {:induction false} CatUpper(nodes: seq<Estado>, g: seq<Estado>, O1: set<StateRef>, s1: StateRef, A1: set<StateRef>,
                                    O2: set<StateRef>, s2: StateRef, A2: set<StateRef>, w: seq<int>)
    requires CatShape(nodes, g, O1, s1, A1, O2, s2, A2)
    ensures Run(g, EpsClosure(g, {s1}), w) <= CatBound(nodes, s1, A1, O2, s2, w)
    decreases |w|
  {
    CatBoundClosed(nodes, g, O1, s1, A1, O2, s2, A2, w);
    var G := CatBound(nodes, s1, A1, O2, s2, w);
    if w == [] {
      EpsClosureLeast(g, {s1}, G);
    } else {
      var u, c := w[..|w| - 1], w[|w| - 1];
      LastCut(w);
      CatUpper(nodes, g, O1, s1, A1, O2, s2, A2, u);
      var R := Run(g, EpsClosure(g, {s1}), u);
      RunSnoc(g, EpsClosure(g, {s1}), u, c);
      CatBoundClosed(nodes, g, O1, s1, A1, O2, s2, A2, u);
      assert Move(g, R, c) <= Move(g, CatBound(nodes, s1, A1, O2, s2, u), c);
      CatBoundMove(nodes, g, O1, s1, A1, O2, s2, A2, u, c);
      EpsClosureLeast(g, Move(g, R, c), G);
    }
  }

  /** What g accepts splits into a word of the first operand and one of the second. */
  lemma CatOnlySplits(nodes: seq<Estado>, g: seq<Estado>, O1: set<StateRef>, s1: StateRef, A1: set<StateRef>,
                      O2: set<StateRef>, s2: StateRef, A2: set<StateRef>, w: seq<int>)
    requires CatShape(nodes, g, O1, s1, A1, O2, s2, A2) && Accepts(g, s1, A2, w)
    ensures exists i :: 0 <= i <= |w| && Accepts(nodes, s1, A1, w[..i]) && Accepts(nodes, s2, A2, w[i..])
  {
    var q :| q in Run(g, EpsClosure(g, {s1}), w) && q in A2;
    CatUpper(nodes, g, O1, s1, A1, O2, s2, A2, w);
    StaysIn(nodes, O1, s1, w);
    assert q in Second(nodes, s1, A1, O2, s2, w);
    var i :| 0 <= i <= |w| && Accepts(nodes, s1, A1, w[..i]) && q in Run(nodes, EpsClosure(nodes, {s2}), w[i..]);
    assert Accepts(nodes, s2, A2, w[i..]);
  }

  /**
   * From a set T of g that holds a state of A1 and is epsilon-closed, g
   * reaches on v everything nodes reaches from the second start on v, except
   * perhaps the start itself.
   */
  lemma CatShadow(nodes: seq<Estado>, g: seq<Estado>, O1: set<StateRef>, s1: StateRef, A1: set<StateRef>,
                  O2: set<StateRef>, s2: StateRef, A2: set<StateRef>, T: set<StateRef>, v: seq<int>)
    requires CatShape(nodes, g, O1, s1, A1, O2, s2, A2)
    requires T <= Indices(g) && EpsClosed(g, T) && T * A1 != {}
    ensures Run(nodes, EpsClosure(nodes, {s2}), v) - {s2} <= Run(g, T, v)
  {
    var K2 := EpsClosure(nodes, {s2});
    var a :| a in T * A1;
    CatSucc(nodes, g, O1, s1, A1, O2, s2, A2, a, 0);
    ClosureOfOne(nodes, s2);
    var E := EpsSuccOf(nodes, s2);
    assert E <= T;
    assert EdgesGrow(nodes, g);
    ClosureGrows(nodes, g, E);
    EpsClosureLeast(g, E, T);
    if v != [] {
      var c := v[0];
      CatMove(nodes, g, O1, s1, A1, O2, s2, A2, T, c);
      MoveApartFrom(nodes, K2, s2, T, c);
      ClosureGrows(nodes, g, Move(nodes, K2, c));
      EpsClosureMonotone(g, Move(nodes, K2, c), Move(g, T, c));
      RunGrows(nodes, g, Goto(nodes, K2, c), Goto(g, T, c), v[1..]);
    }
  }

  /** Reading c from K moves from K without x, or from x. */
  lemma MoveApartFrom(nodes: seq<Estado>, K: set<StateRef>, x: StateRef, T: set<StateRef>, c: int)
    requires GraphValid(nodes) && x < |nodes| && K - {x} <= T
    ensures Move(nodes, K, c) <= Move(nodes, T, c) + MoveOf(nodes, x, c)
  {
    forall y | y in Move(nodes, K, c)
      ensures y in Move(nodes, T, c) + MoveOf(nodes, x, c)
    {
      var z, t :| z in K && z < |nodes| && t in nodes[z].edges && t.Acepta(c) && t.dest == y;
      if z != x {
        assert z in T;
      }
    }
  }

  /** A word of the first operand followed by one of the second is accepted by g. */
  lemma CatAllSplits(nodes: seq<Estado>, g: seq<Estado>, O1: set<StateRef>, s1: StateRef, A1: set<StateRef>,
                     O2: set<StateRef>, s2: StateRef, A2: set<StateRef>, w: seq<int>, i: nat)
    requires CatShape(nodes, g, O1, s1, A1, O2, s2, A2)
    requires i <= |w| && Accepts(nodes, s1, A1, w[..i]) && Accepts(nodes, s2, A2, w[i..])
    ensures Accepts(g, s1, A2, w)
  {
    var S := EpsClosure(g, {s1});
    var T := Run(g, S, w[..i]);
    assert EdgesGrow(nodes, g);
    ClosureGrows(nodes, g, {s1});
    RunGrows(nodes, g, EpsClosure(nodes, {s1}), S, w[..i]);
    var a :| a in Run(nodes, EpsClosure(nodes, {s1}), w[..i]) && a in A1;
    assert a in T * A1;
    RunClosed(g, S, w[..i]);
    CatShadow(nodes, g, O1, s1, A1, O2, s2, A2, T, w[i..]);
    var q :| q in Run(nodes, EpsClosure(nodes, {s2}), w[i..]) && q in A2;
    RunCut(g, S, w, i);
  }

  /**
   * On operands whose states O1 and O2 no edge leaves, g accepts w exactly
   * when w is a word of the first operand followed by a word of the second.
   */
  lemma CatLanguage(nodes: seq<Estado>, g: seq<Estado>, O1: set<StateRef>, s1: StateRef, A1: set<StateRef>,
                    O2: set<StateRef>, s2: StateRef, A2: set<StateRef>, w: seq<int>)
    requires CatShape(nodes, g, O1, s1, A1, O2, s2, A2)
    ensures Accepts(g, s1, A2, w) <==>
      exists i :: 0 <= i <= |w| && Accepts(nodes, s1, A1, w[..i]) && Accepts(nodes, s2, A2, w[i..])
  {
    if Accepts(g, s1, A2, w) {
      CatOnlySplits(nodes, g, O1, s1, A1, O2, s2, A2, w);
    }
    forall i | 0 <= i <= |w| && Accepts(nodes, s1, A1, w[..i]) && Accepts(nodes, s2, A2, w[i..])
      ensures Accepts(g, s1, A2, w)
    {
      CatAllSplits(nodes, g, O1, s1, A1, O2, s2, A2, w, i);
    }
  }

  /**
   * concatenar: the graph it leaves accepts, from the first start, exactly
   * a word of the first operand followed by a word of the second.
   */
  lemma ConcatLanguage(nodes: seq<Estado>, O1: set<StateRef>, s1: StateRef, A1: set<StateRef>,
                       O2: set<StateRef>, s2: StateRef, A2: set<StateRef>, w: seq<int>)
    requires GraphValid(nodes) && Fragment(nodes, O1) && Fragment(nodes, O2) && O1 !! O2
    requires s1 in O1 && A1 <= O1 && s2 in O2 && A2 <= O2 && s2 !in A2
    requires GraphValid(Absorb(nodes, A1, nodes[s2].edges))
    ensures Accepts(Absorb(nodes, A1, nodes[s2].edges), s1, A2, w) <==>
      exists i :: 0 <= i <= |w| && Accepts(nodes, s1, A1, w[..i]) && Accepts(nodes, s2, A2, w[i..])
  {
    var g := Absorb(nodes, A1, nodes[s2].edges);
    assert CatShape(nodes, g, O1, s1, A1, O2, s2, A2);
    CatLanguage(nodes, g, O1, s1, A1, O2, s2, A2, w);
  }
}
