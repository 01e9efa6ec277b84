/**
 * The set operations of AFN.java: epsilon-closure, move and goto (ira), each
 * for one state and for a set of states. They only read the graph, so they
 * take the arena's states as a value. Each method is proved equal to a
 * specification function (EpsClosure, Move, Goto), and the properties the
 * construction relies on are proved about those functions.
 */
module Closure {
  import opened Wrappers
  import opened Markers
  import opened Transitions
  import opened States

  /** Destinations of the epsilon edges leaving x. */
  function EpsSuccOf(nodes: seq<Estado>, x: StateRef): set<StateRef>
    requires x < |nodes|
  {
    set t | t in nodes[x].edges && t.IsEpsilon() :: t.dest
  }

  /** Destinations of the epsilon edges leaving any state of S. */
  function EpsSucc(nodes: seq<Estado>, S: set<StateRef>): set<StateRef>
  {
    set x, t | x in S && x < |nodes| && t in nodes[x].edges && t.IsEpsilon() :: t.dest
  }

  /** C is closed under epsilon edges. */
  ghost predicate EpsClosed(nodes: seq<Estado>, C: set<StateRef>) {
    forall x :: x in C && x < |nodes| ==> EpsSuccOf(nodes, x) <= C
  }

  lemma SubsetCard<T>(A: set<T>, B: set<T>)
    requires A <= B
    ensures |A| <= |B|
  {
    assert B == A + (B - A);
  }

  lemma ProperSubsetCard<T>(A: set<T>, B: set<T>)
    requires A < B
    ensures |A| < |B|
  {
    assert !(B <= A);
    var x :| x in B && x !in A;
    assert A <= B - {x};
    SubsetCard(A, B - {x});
  }

  /** Growing a subset of U shrinks what is left of U. */
  lemma RemainderShrinks<T>(U: set<T>, A: set<T>, B: set<T>)
    requires A < B <= U
    ensures |U - B| < |U - A|
  {
    ProperSubsetCard(U - B, U - A);
  }

  lemma EpsSuccCovers(nodes: seq<Estado>, S: set<StateRef>, x: StateRef)
    requires x in S && x < |nodes|
    ensures EpsSuccOf(nodes, x) <= EpsSucc(nodes, S)
  {
    forall y | y in EpsSuccOf(nodes, x) ensures y in EpsSucc(nodes, S) {
      var t :| t in nodes[x].edges && t.IsEpsilon() && t.dest == y;
    }
  }

  /**
   * The epsilon-closure of S: S together with every state reachable from it
   * along epsilon edges, computed as a fixpoint. It contains S and is closed.
   */
  function EpsClosure(nodes: seq<Estado>, S: set<StateRef>): (r: set<StateRef>)
    requires GraphValid(nodes) && S <= Indices(nodes)
    ensures S <= r <= Indices(nodes)
    ensures EpsClosed(nodes, r)
    decreases |Indices(nodes) - S|
  {
    var next := S + EpsSucc(nodes, S);
    if next <= S then
      assert EpsClosed(nodes, S) by {
        forall x | x in S && x < |nodes| ensures EpsSuccOf(nodes, x) <= S {
          EpsSuccCovers(nodes, S, x);
        }
      }
      S
    else
      RemainderShrinks(Indices(nodes), S, next);
      EpsClosure(nodes, next)
  }

  /** The closure is the least closed superset: it lies inside every closed set containing S. */
  lemma {:induction false} EpsClosureLeast(nodes: seq<Estado>, S: set<StateRef>, D: set<StateRef>)
    requires GraphValid(nodes) && S <= Indices(nodes)
    requires S <= D && EpsClosed(nodes, D)
    ensures EpsClosure(nodes, S) <= D
    decreases |Indices(nodes) - S|
  {
    var next := S + EpsSucc(nodes, S);
    if !(next <= S) {
      forall y | y in EpsSucc(nodes, S) ensures y in D {
        var x, t :| x in S && x < |nodes| && t in nodes[x].edges && t.IsEpsilon() && t.dest == y;
        assert y in EpsSuccOf(nodes, x);
      }
      RemainderShrinks(Indices(nodes), S, next);
      EpsClosureLeast(nodes, next, D);
    }
  }

  /** Closure is monotone. */
  lemma EpsClosureMonotone(nodes: seq<Estado>, S: set<StateRef>, T: set<StateRef>)
    requires GraphValid(nodes) && S <= T <= Indices(nodes)
    ensures EpsClosure(nodes, S) <= EpsClosure(nodes, T)
  {
    EpsClosureLeast(nodes, S, EpsClosure(nodes, T));
  }

  /** Closing twice is closing once. */
  lemma EpsClosureIdempotent(nodes: seq<Estado>, S: set<StateRef>)
    requires GraphValid(nodes) && S <= Indices(nodes)
    ensures EpsClosure(nodes, EpsClosure(nodes, S)) == EpsClosure(nodes, S)
  {
    var C := EpsClosure(nodes, S);
    EpsClosureLeast(nodes, C, C);
  }

  /** A closed set is its own closure. */
  lemma ClosedIsOwnClosure(nodes: seq<Estado>, C: set<StateRef>)
    requires GraphValid(nodes) && C <= Indices(nodes) && EpsClosed(nodes, C)
    ensures EpsClosure(nodes, C) == C
  {
    EpsClosureLeast(nodes, C, C);
  }

  /** The closure of a union is the union of the closures. */
  lemma EpsClosureUnion(nodes: seq<Estado>, S: set<StateRef>, T: set<StateRef>)
    requires GraphValid(nodes) && S <= Indices(nodes) && T <= Indices(nodes)
    ensures EpsClosure(nodes, S + T) == EpsClosure(nodes, S) + EpsClosure(nodes, T)
  {
    var U := EpsClosure(nodes, S) + EpsClosure(nodes, T);
    EpsClosureLeast(nodes, S + T, U);
    EpsClosureMonotone(nodes, S, S + T);
    EpsClosureMonotone(nodes, T, S + T);
  }

  /** Destinations of the edges leaving x that accept c (mover for one state). */
  function MoveOf(nodes: seq<Estado>, x: StateRef, c: int): set<StateRef>
    requires x < |nodes|
  {
    set t | t in nodes[x].edges && t.Acepta(c) :: t.dest
  }

  /** mover over a set: destinations of edges accepting c that leave a state of S. */
  function Move(nodes: seq<Estado>, S: set<StateRef>, c: int): (r: set<StateRef>)
    requires GraphValid(nodes)
    ensures r <= Indices(nodes)
  {
    set x, t | x in S && x < |nodes| && t in nodes[x].edges && t.Acepta(c) :: t.dest
  }

  /** ira: the epsilon-closure of the move. */
  function Goto(nodes: seq<Estado>, S: set<StateRef>, c: int): set<StateRef>
    requires GraphValid(nodes)
  {
    EpsClosure(nodes, Move(nodes, S, c))
  }

  /** Move never follows an epsilon edge: every state it reaches is the target of a range edge containing c. */
  lemma MoveNeverFollowsEpsilon(nodes: seq<Estado>, S: set<StateRef>, c: int, y: StateRef)
    requires GraphValid(nodes) && y in Move(nodes, S, c)
    ensures exists x, t :: x in S && x < |nodes| && t in nodes[x].edges && !t.IsEpsilon() && t.lo <= c <= t.hi && t.dest == y
  {
  }

  lemma MoveAdd(nodes: seq<Estado>, S: set<StateRef>, x: StateRef, c: int)
    requires GraphValid(nodes) && x < |nodes|
    ensures Move(nodes, S + {x}, c) == Move(nodes, S, c) + MoveOf(nodes, x, c)
  {
    forall y | y in MoveOf(nodes, x, c) ensures y in Move(nodes, S + {x}, c) {
      var t :| t in nodes[x].edges && t.Acepta(c) && t.dest == y;
    }
  }

  lemma EpsClosedAdd(nodes: seq<Estado>, C: set<StateRef>, D: set<StateRef>)
    requires EpsClosed(nodes, C) && EpsClosed(nodes, D)
    ensures EpsClosed(nodes, C + D)
  {
  }

  /** The inner loop of cerraduraEpsilon: marks and pushes the unseen epsilon successors of x. */
  method PushEpsSucc(nodes: seq<Estado>, x: StateRef, c0: set<StateRef>, p0: seq<StateRef>)
    returns (c: set<StateRef>, p: seq<StateRef>)
    requires GraphValid(nodes) && x < |nodes|
    ensures c == c0 + EpsSuccOf(nodes, x)
    ensures forall y :: y in p <==> y in p0 || (y in c && y !in c0)
    ensures c == c0 ==> p == p0
  {
    c, p := c0, p0;
    var ts := nodes[x].edges;
    while ts != {}
      invariant ts <= nodes[x].edges
      invariant c == c0 + set t | t in nodes[x].edges - ts && t.IsEpsilon() :: t.dest
      invariant forall y :: y in p <==> y in p0 || (y in c && y !in c0)
      invariant c == c0 ==> p == p0
      decreases ts
    {
      var t :| t in ts;
      ts := ts - {t};
      if t.IsEpsilon() && t.dest !in c {
        c := c + {t.dest};
        p := p + [t.dest];
      }
    }
  }

  /** cerraduraEpsilon(Estado): a stack-driven search; null gives the empty set. */
  method CerraduraEpsilon(nodes: seq<Estado>, e: Option<StateRef>) returns (c: set<StateRef>)
    requires GraphValid(nodes) && (e.Some? ==> e.value < |nodes|)
    ensures e.None? ==> c == {}
    ensures e.Some? ==> c == EpsClosure(nodes, {e.value})
  {
    c := {};
    if e.None? {
      return;
    }
    ghost var all := Indices(nodes);
    ghost var target := EpsClosure(nodes, {e.value});
    var p := [e.value];
    c := {e.value};
    while p != []
      invariant c <= target
      invariant e.value in c
      invariant forall y :: y in p ==> y in c
      invariant forall x :: x in c && x !in p ==> EpsSuccOf(nodes, x) <= c
      decreases |all - c|, |p|
    {
      c, p := SearchStep(nodes, e.value, target, c, p);
    }
    EpsClosureLeast(nodes, {e.value}, c);
  }

  /**
   * One turn of the search of cerraduraEpsilon: pop the top state and push
   * its epsilon-successors not yet found. What was found stays inside the
   * closure, and every found state off the stack has its successors found.
   */
  method SearchStep(nodes: seq<Estado>, v: StateRef, ghost target: set<StateRef>, c: set<StateRef>, p: seq<StateRef>)
    returns (c': set<StateRef>, p': seq<StateRef>)
    requires GraphValid(nodes) && v < |nodes| && target == EpsClosure(nodes, {v}) && p != []
    requires c <= target && v in c
    requires forall y :: y in p ==> y in c
    requires forall x :: x in c && x !in p ==> EpsSuccOf(nodes, x) <= c
    ensures c' <= target && v in c'
    ensures forall y :: y in p' ==> y in c'
    ensures forall x :: x in c' && x !in p' ==> EpsSuccOf(nodes, x) <= c'
    ensures c' == c ==> |p'| < |p|
    ensures c' != c ==> |Indices(nodes) - c'| < |Indices(nodes) - c|
  {
    var x := p[|p| - 1];
    assert x in p;
    var p0 := p[..|p| - 1];
    assert forall y :: y in p <==> y in p0 || y == x;
    c', p' := PushEpsSucc(nodes, x, c, p0);
    assert x in target && EpsClosed(nodes, target);
    if c' != c {
      RemainderShrinks(Indices(nodes), c, c');
    }
  }

  /** cerraduraEpsilon(Set): the union of the closures of the members. */
  method CerraduraEpsilonSet(nodes: seq<Estado>, S: set<StateRef>) returns (r: set<StateRef>)
    requires GraphValid(nodes) && S <= Indices(nodes)
    ensures r == EpsClosure(nodes, S)
  {
    r := {};
    var rest := S;
    while rest != {}
      invariant rest <= S
      invariant S - rest <= r <= EpsClosure(nodes, S)
      invariant EpsClosed(nodes, r)
      decreases rest
    {
      var e :| e in rest;
      rest := rest - {e};
      var ce := CerraduraEpsilon(nodes, Some(e));
      EpsClosureMonotone(nodes, {e}, S);
      EpsClosedAdd(nodes, r, ce);
      r := r + ce;
    }
    EpsClosureLeast(nodes, S, r);
  }

  /** mover(Estado, char): destinations of the edges that accept c; null gives the empty set. */
  method MoverEstado(nodes: seq<Estado>, e: Option<StateRef>, c: int) returns (r: set<StateRef>)
    requires GraphValid(nodes) && (e.Some? ==> e.value < |nodes|)
    ensures e.None? ==> r == {}
    ensures e.Some? ==> r == Move(nodes, {e.value}, c)
  {
    r := {};
    if e.None? {
      return;
    }
    var ts := nodes[e.value].edges;
    while ts != {}
      invariant ts <= nodes[e.value].edges
      invariant r == set t | t in nodes[e.value].edges - ts && t.Acepta(c) :: t.dest
      decreases ts
    {
      var t :| t in ts;
      ts := ts - {t};
      if t.Acepta(c) {
        r := r + {t.dest};
      }
    }
    MoveAdd(nodes, {}, e.value, c);
  }

  /** mover(Set, char): the union of the moves of the members. */
  method Mover(nodes: seq<Estado>, S: set<StateRef>, c: int) returns (r: set<StateRef>)
    requires GraphValid(nodes) && S <= Indices(nodes)
    ensures r == Move(nodes, S, c)
  {
    r := {};
    var rest := S;
    while rest != {}
      invariant rest <= S
      invariant r == Move(nodes, S - rest, c)
      decreases rest
    {
      var e :| e in rest;
      MoveAdd(nodes, S - rest, e, c);
      MoveAdd(nodes, {}, e, c);
      assert S - rest + {e} == S - (rest - {e});
      var me := MoverEstado(nodes, Some(e), c);
      rest := rest - {e};
      r := r + me;
    }
  }

  /** ira(Estado, char): the closure of the move from one state. */
  method IraEstado(nodes: seq<Estado>, e: Option<StateRef>, c: int) returns (r: set<StateRef>)
    requires GraphValid(nodes) && (e.Some? ==> e.value < |nodes|)
    ensures e.None? ==> r == {}
    ensures e.Some? ==> r == Goto(nodes, {e.value}, c)
  {
    var m := MoverEstado(nodes, e, c);
    r := CerraduraEpsilonSet(nodes, m);
  }

  /** ira(Set, char): the closure of the move from a set of states. */
  method Ira(nodes: seq<Estado>, S: set<StateRef>, c: int) returns (r: set<StateRef>)
    requires GraphValid(nodes) && S <= Indices(nodes)
    ensures r == Goto(nodes, S, c)
  {
    var m := Mover(nodes, S, c);
    r := CerraduraEpsilonSet(nodes, m);
  }
  /** The states reached from S by reading w: goto on each symbol in turn. */
  function Run(nodes: seq<Estado>, S: set<StateRef>, w: seq<int>): (r: set<StateRef>)
    requires GraphValid(nodes) && S <= Indices(nodes)
    ensures r <= Indices(nodes)
    decreases |w|
  {
    if w == [] then S else Run(nodes, Goto(nodes, S, w[0]), w[1..])
  }

  /** The NFA with this start and these accepting states accepts w. */
  ghost predicate Accepts(nodes: seq<Estado>, start: StateRef, acc: set<StateRef>, w: seq<int>)
    requires GraphValid(nodes) && start < |nodes|
  {
    exists q :: q in Run(nodes, EpsClosure(nodes, {start}), w) && q in acc
  }

  /** Nothing is reached from no state. */
  lemma {:induction false} RunFromEmpty(nodes: seq<Estado>, w: seq<int>)
    requires GraphValid(nodes)
    ensures Run(nodes, {}, w) == {}
    decreases |w|
  {
    if w != [] {
      assert Move(nodes, {}, w[0]) == {};
      ClosedIsOwnClosure(nodes, {});
      RunFromEmpty(nodes, w[1..]);
    }
  }

  /** An epsilon edge x -> y puts y, and everything y reaches, into the closure of x. */
  lemma EpsEdgeReach(nodes: seq<Estado>, x: StateRef, y: StateRef)
    requires GraphValid(nodes) && x < |nodes| && Transition(EPSILON, EPSILON, y) in nodes[x].edges
    ensures y in EpsClosure(nodes, {x})
    ensures EpsClosure(nodes, {y}) <= EpsClosure(nodes, {x})
  {
    var C := EpsClosure(nodes, {x});
    assert y in EpsSuccOf(nodes, x);
    EpsClosureLeast(nodes, {y}, C);
  }

  /** Reachability is transitive: the closure of a reached state lies inside the closure. */
  lemma ReachTransitive(nodes: seq<Estado>, x: StateRef, y: StateRef)
    requires GraphValid(nodes) && x < |nodes| && y in EpsClosure(nodes, {x})
    ensures EpsClosure(nodes, {y}) <= EpsClosure(nodes, {x})
  {
    EpsClosureLeast(nodes, {y}, EpsClosure(nodes, {x}));
  }

  /** Every state of the first graph keeps its edges in the second, which may have more states. */
  ghost predicate EdgesGrow(o: seq<Estado>, n: seq<Estado>) {
    |o| <= |n| && forall i :: 0 <= i < |o| ==> o[i].edges <= n[i].edges
  }

  /** Adding edges or states never shrinks a closure. */
  lemma ClosureGrows(o: seq<Estado>, n: seq<Estado>, S: set<StateRef>)
    requires GraphValid(o) && GraphValid(n) && EdgesGrow(o, n) && S <= Indices(o)
    ensures EpsClosure(o, S) <= EpsClosure(n, S)
  {
    var C := EpsClosure(n, S);
    forall x | x in C && x < |o| ensures EpsSuccOf(o, x) <= C {
      assert EpsSuccOf(o, x) <= EpsSuccOf(n, x);
    }
    EpsClosureLeast(o, S, C);
  }

  /** Reading a word from more states in a graph with more edges reaches at least as many states. */
  lemma {:induction false} RunGrows(o: seq<Estado>, n: seq<Estado>, S: set<StateRef>, T: set<StateRef>, w: seq<int>)
    requires GraphValid(o) && GraphValid(n) && EdgesGrow(o, n)
    requires S <= Indices(o) && T <= Indices(n) && S <= T
    ensures Run(o, S, w) <= Run(n, T, w)
    decreases |w|
  {
    if w != [] {
      var c := w[0];
      assert Move(o, S, c) <= Move(n, T, c) by {
        forall y | y in Move(o, S, c) ensures y in Move(n, T, c) {
          var x, t :| x in S && x < |o| && t in o[x].edges && t.Acepta(c) && t.dest == y;
          assert t in n[x].edges;
        }
      }
      ClosureGrows(o, n, Move(o, S, c));
      EpsClosureMonotone(n, Move(o, S, c), Move(n, T, c));
      RunGrows(o, n, Goto(o, S, c), Goto(n, T, c), w[1..]);
    }
  }
}
