/**
 * What the graphs built by AFN.java's constructions mean, stated with the
 * closure, move and run functions of module Closure: the basic automaton
 * accepts exactly its symbols, the combinators wire the operands together as
 * Thompson's construction intends, and a clone has the same edges as its
 * original under the state map.
 */
module Thompson {
  import opened Wrappers
  import opened Markers
  import opened Transitions
  import opened States
  import opened Closure
  import opened Nfa

  /**
   * The automaton crearBasico builds, start -[lo,hi]-> final with no other
   * edges on those two states, accepts exactly the one-symbol words in the range.
   */
  lemma BasicLanguage(nodes: seq<Estado>, e1: StateRef, e2: StateRef, lo: Byte, hi: Byte, w: seq<int>)
    requires GraphValid(nodes) && e1 < |nodes| && e2 < |nodes| && e1 != e2
    requires lo <= hi && lo != EPSILON && hi != EPSILON
    requires nodes[e1].edges == {Transition(lo, hi, e2)} && nodes[e2].edges == {}
    ensures Accepts(nodes, e1, {e2}, w) <==> |w| == 1 && lo <= w[0] <= hi
  {
    assert EpsSuccOf(nodes, e1) == {};
    ClosedIsOwnClosure(nodes, {e1});
    ClosedIsOwnClosure(nodes, {e2});
    ClosedIsOwnClosure(nodes, {});
    if w == [] {
      assert Run(nodes, {e1}, w) == {e1};
    } else {
      var c := w[0];
      if lo <= c <= hi {
        assert Move(nodes, {e1}, c) == {e2} by {
          assert Transition(lo, hi, e2).Acepta(c);
        }
        assert Goto(nodes, {e1}, c) == {e2};
        assert Run(nodes, {e1}, w) == Run(nodes, {e2}, w[1..]);
        if |w| == 1 {
          assert w[1..] == [];
          assert e2 in Run(nodes, EpsClosure(nodes, {e1}), w);
        } else {
          assert Move(nodes, {e2}, w[1]) == {};
          assert Goto(nodes, {e2}, w[1]) == {};
          RunFromEmpty(nodes, w[2..]);
          assert Run(nodes, {e2}, w[1..]) == Run(nodes, {}, w[1..][1..]);
          assert w[1..][1..] == w[2..];
        }
      } else {
        assert Move(nodes, {e1}, c) == {};
        RunFromEmpty(nodes, w[1..]);
      }
    }
  }

  /** Absorbing edges and appending states only ever adds edges. */
  lemma AbsorbGrows(nodes: seq<Estado>, acc: set<StateRef>, E: set<Transition>, extra: seq<Estado>)
    ensures EdgesGrow(nodes, Absorb(nodes, acc, E) + extra)
  {
  }

  /** Reachability in a graph where x has epsilon edges to both y and z. */
  lemma ForkReach(o: seq<Estado>, g: seq<Estado>, x: StateRef, y: StateRef, z: StateRef)
    requires GraphValid(o) && GraphValid(g) && EdgesGrow(o, g) && y < |o| && z < |o| && x < |g|
    requires Eps(y) in g[x].edges && Eps(z) in g[x].edges
    ensures EpsClosure(o, {y}) + EpsClosure(o, {z}) <= EpsClosure(g, {x})
  {
    ClosureGrows(o, g, {y});
    ClosureGrows(o, g, {z});
    EpsEdgeReach(g, x, y);
    EpsEdgeReach(g, x, z);
  }

  /** Every state of acc reaches f when each has an epsilon edge to f. */
  lemma AllReach(g: seq<Estado>, acc: set<StateRef>, f: StateRef)
    requires GraphValid(g) && forall a :: a in acc ==> a < |g| && Eps(f) in g[a].edges
    ensures forall a :: a in acc ==> f in EpsClosure(g, {a})
  {
    forall a | a in acc ensures f in EpsClosure(g, {a}) {
      EpsEdgeReach(g, a, f);
    }
  }

  /**
   * unir: from the new start both old starts (and all they reached) are
   * reachable on epsilon edges; every old accepting state reaches the new
   * final state nf and no longer accepts; nf accepts, has no edges and has
   * token -1.
   */
  lemma UnionWiring(nodes: seq<Estado>, k: int, acc: set<StateRef>, s1: StateRef, s2: StateRef)
    requires GraphValid(nodes) && s1 < |nodes| && s2 < |nodes| && Within(acc, |nodes|)
    requires GraphValid(UnionGraph(nodes, k, acc, s1, s2))
    ensures var g, ni, nf := UnionGraph(nodes, k, acc, s1, s2), |nodes|, |nodes| + 1;
      && EpsClosure(nodes, {s1}) + EpsClosure(nodes, {s2}) <= EpsClosure(g, {ni})
      && (forall a :: a in acc ==> nf in EpsClosure(g, {a}) && !g[a].accepting)
      && g[nf].accepting && g[nf].token == -1 && g[nf].edges == {}
  {
    var g, ni, nf := UnionGraph(nodes, k, acc, s1, s2), |nodes|, |nodes| + 1;
    AbsorbGrows(nodes, acc, {Eps(nf)}, g[|nodes|..]);
    assert g == Absorb(nodes, acc, {Eps(nf)}) + g[|nodes|..];
    ForkReach(nodes, g, ni, s1, s2);
    AllReach(g, acc, nf);
  }

  /**
   * The closures: from the new start the old start is reachable; with bypass
   * (star, optional) the new final state e2 is reachable too, so the empty
   * word is accepted; every old accepting state reaches e2, and with
   * loop-back (star, plus) it reaches the old start again; e2 accepts, has no
   * edges and has token -1.
   */
  lemma ClosureWiring(nodes: seq<Estado>, k: int, acc: set<StateRef>, s: StateRef, loopBack: bool, bypass: bool)
    requires GraphValid(nodes) && s < |nodes| && Within(acc, |nodes|)
    requires GraphValid(ClosureGraph(nodes, k, acc, s, loopBack, bypass))
    ensures var g, e1, e2 := ClosureGraph(nodes, k, acc, s, loopBack, bypass), |nodes|, |nodes| + 1;
      && EpsClosure(nodes, {s}) <= EpsClosure(g, {e1})
      && (bypass ==> e2 in EpsClosure(g, {e1}) && Accepts(g, e1, {e2}, []))
      && (forall a :: a in acc ==> e2 in EpsClosure(g, {a}) && !g[a].accepting)
      && (loopBack ==> forall a :: a in acc ==> EpsClosure(g, {s}) <= EpsClosure(g, {a}))
      && g[e2].accepting && g[e2].token == -1 && g[e2].edges == {}
  {
    var g, e1, e2 := ClosureGraph(nodes, k, acc, s, loopBack, bypass), |nodes|, |nodes| + 1;
    var E := (if loopBack then {Eps(s)} else {}) + {Eps(e2)};
    AbsorbGrows(nodes, acc, E, [Estado(k, false, -1, {Eps(s)} + (if bypass then {Eps(e2)} else {})), Estado(k + 1, true, -1, {})]);
    ClosureGraphShape(nodes, k, acc, s, loopBack, bypass);
    ClosureReach(nodes, g, acc, s, loopBack, bypass);
  }

  /** The reachability facts of ClosureWiring, for any graph of that shape. */
  lemma ClosureReach(nodes: seq<Estado>, g: seq<Estado>, acc: set<StateRef>, s: StateRef, loopBack: bool, bypass: bool)
    requires GraphValid(nodes) && GraphValid(g) && EdgesGrow(nodes, g) && s < |nodes| && |g| == |nodes| + 2
    requires Within(acc, |nodes|)
    requires forall a :: a in acc ==> !g[a].accepting && Eps(|nodes| + 1) in g[a].edges && (loopBack ==> Eps(s) in g[a].edges)
    requires Eps(s) in g[|nodes|].edges && (bypass ==> Eps(|nodes| + 1) in g[|nodes|].edges)
    ensures var e1, e2 := |nodes|, |nodes| + 1;
      && EpsClosure(nodes, {s}) <= EpsClosure(g, {e1})
      && (bypass ==> e2 in EpsClosure(g, {e1}) && Accepts(g, e1, {e2}, []))
      && (forall a :: a in acc ==> e2 in EpsClosure(g, {a}) && !g[a].accepting)
      && (loopBack ==> forall a :: a in acc ==> EpsClosure(g, {s}) <= EpsClosure(g, {a}))
  {
    var e1, e2 := |nodes|, |nodes| + 1;
    ForkReach(nodes, g, e1, s, s);
    if bypass {
      EmptyWord(g, e1, e2);
    }
    AllReach(g, acc, e2);
    if loopBack {
      AllLoopBack(g, acc, s);
    }
  }

  /** The states of the closure graph: the absorbing old accepting states and the two new ones. */
  lemma ClosureGraphShape(nodes: seq<Estado>, k: int, acc: set<StateRef>, s: StateRef, loopBack: bool, bypass: bool)
    requires Within(acc, |nodes|)
    ensures var g, e1, e2 := ClosureGraph(nodes, k, acc, s, loopBack, bypass), |nodes|, |nodes| + 1;
      && (forall a :: a in acc ==> !g[a].accepting && Eps(e2) in g[a].edges && (loopBack ==> Eps(s) in g[a].edges))
      && Eps(s) in g[e1].edges && (bypass ==> Eps(e2) in g[e1].edges)
      && g[e2] == Estado(k + 1, true, -1, {})
  {
    var e2 := |nodes| + 1;
    var E := (if loopBack then {Eps(s)} else {}) + {Eps(e2)};
    var A := Absorb(nodes, acc, E);
    var g := ClosureGraph(nodes, k, acc, s, loopBack, bypass);
    forall a | a in acc
      ensures !g[a].accepting && Eps(e2) in g[a].edges && (loopBack ==> Eps(s) in g[a].edges)
    {
      assert g[a] == A[a];
    }
  }

  /** An epsilon edge from the start to an accepting state makes the empty word accepted. */
  lemma EmptyWord(g: seq<Estado>, e1: StateRef, e2: StateRef)
    requires GraphValid(g) && e1 < |g| && Eps(e2) in g[e1].edges
    ensures e2 in EpsClosure(g, {e1}) && Accepts(g, e1, {e2}, [])
  {
    EpsEdgeReach(g, e1, e2);
    assert e2 in Run(g, EpsClosure(g, {e1}), []);
  }

  /** Every state of acc reaches all that s reaches when each has an epsilon edge to s. */
  lemma AllLoopBack(g: seq<Estado>, acc: set<StateRef>, s: StateRef)
    requires GraphValid(g) && s < |g| && forall a :: a in acc ==> a < |g| && Eps(s) in g[a].edges
    ensures forall a :: a in acc ==> EpsClosure(g, {s}) <= EpsClosure(g, {a})
  {
    forall a | a in acc ensures EpsClosure(g, {s}) <= EpsClosure(g, {a}) {
      EpsEdgeReach(g, a, s);
    }
  }

  /**
   * concatenar: every old accepting state of the receiver now leaves exactly
   * as the operand's start does (on epsilon edges and on every symbol), in
   * addition to its own edges, and no longer accepts.
   */
  lemma ConcatWiring(nodes: seq<Estado>, acc: set<StateRef>, s2: StateRef, c: int)
    requires GraphValid(nodes) && s2 < |nodes| && Within(acc, |nodes|)
    ensures var g := Absorb(nodes, acc, nodes[s2].edges);
      forall a :: a in acc ==>
        && EpsSuccOf(nodes, s2) <= EpsSuccOf(g, a)
        && MoveOf(nodes, s2, c) <= MoveOf(g, a, c)
        && EpsSuccOf(nodes, a) <= EpsSuccOf(g, a)
        && MoveOf(nodes, a, c) <= MoveOf(g, a, c)
        && !g[a].accepting
  {
  }

  /**
   * clonar: between cloned states, the clone has an epsilon edge, or an edge
   * accepting c, exactly when the original has one between the originals.
   */
  lemma CloneEdges(orig: seq<Estado>, nodes: seq<Estado>, m: map<StateRef, StateRef>, x: StateRef, y: StateRef, c: int)
    requires Injective(m) && x in m && y in m && x < |orig|
    requires m[x] < |nodes| && nodes[m[x]] == CloneOf(orig[x], m)
    ensures y in EpsSuccOf(orig, x) <==> m[y] in EpsSuccOf(nodes, m[x])
    ensures y in MoveOf(orig, x, c) <==> m[y] in MoveOf(nodes, m[x], c)
  {
    if m[y] in EpsSuccOf(nodes, m[x]) {
      var t :| t in nodes[m[x]].edges && t.IsEpsilon() && t.dest == m[y];
      var u :| u in orig[x].edges && u.dest in m && t == u.(dest := m[u.dest]);
      assert u.dest == y;
    }
    if y in EpsSuccOf(orig, x) {
      var u :| u in orig[x].edges && u.IsEpsilon() && u.dest == y;
      assert u.(dest := m[y]) in nodes[m[x]].edges;
    }
    if m[y] in MoveOf(nodes, m[x], c) {
      var t :| t in nodes[m[x]].edges && t.Acepta(c) && t.dest == m[y];
      var u :| u in orig[x].edges && u.dest in m && t == u.(dest := m[u.dest]);
      assert u.dest == y;
    }
    if y in MoveOf(orig, x, c) {
      var u :| u in orig[x].edges && u.Acepta(c) && u.dest == y;
      assert u.(dest := m[y]) in nodes[m[x]].edges;
    }
  }
}
