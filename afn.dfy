/**
 * The Thompson-style NFA builder (AFN.java). An AFN object owns a set of
 * state references, an optional start, an alphabet and a set of accepting
 * states; the states themselves live in the shared Arena, so the builder's
 * operations change both the receiver and the arena, as the Java operations
 * change both the AFN and the Estado objects it reaches.
 *
 * subAFNs holds clones that are only ever rendered by toString; only their
 * operator, alphabet and own sub-automata matter there, so they are kept as
 * immutable Snapshot values.
 */
module Nfa {
  import opened Wrappers
  import opened Markers
  import opened Transitions
  import opened States

  /** The rendering-relevant part of an AFN: operator, alphabet, sub-automata. */
  datatype Snapshot = Snapshot(op: string, alphabet: set<Byte>, subs: seq<Snapshot>)

  /** Whether a combinator changed the receiver or returned it untouched. */
  datatype Outcome = Applied | Ignored

  /** RuntimeException("Clon: EdoInicial no asignado."): the start is not among the states. */
  datatype NfaError = StartNotMapped

  /** An epsilon edge to d, as new Transition(d) builds it. */
  function Eps(d: StateRef): (t: Transition)
    ensures t.IsEpsilon() && t.dest == d && Transitions.Valid(t)
  {
    Transition(EPSILON, EPSILON, d)
  }

  predicate Within(S: set<StateRef>, n: nat) {
    forall s :: s in S ==> s < n
  }

  ghost predicate EdgesWithin(E: set<Transition>, n: nat) {
    forall t :: t in E ==> t.dest < n && Transitions.Valid(t)
  }

  /**
   * The graph after every state of S gained the edges E and lost its
   * accepting flag: what the loops over edosAcept in unir, concatenar and the
   * closures do.
   */
  function Absorb(nodes: seq<Estado>, S: set<StateRef>, E: set<Transition>): (r: seq<Estado>)
    ensures |r| == |nodes|
    ensures forall i :: 0 <= i < |nodes| && i !in S ==> r[i] == nodes[i]
    ensures forall i :: 0 <= i < |nodes| && i in S ==>
      r[i] == nodes[i].(edges := nodes[i].edges + E, accepting := false)
  {
    seq(|nodes|, i requires 0 <= i < |nodes| =>
      if i in S then nodes[i].(edges := nodes[i].edges + E, accepting := false) else nodes[i])
  }

  /** Absorbing into S1 and then into S2 is absorbing into both at once. */
  lemma AbsorbTwice(nodes: seq<Estado>, S1: set<StateRef>, S2: set<StateRef>, E: set<Transition>)
    ensures Absorb(Absorb(nodes, S1, E), S2, E) == Absorb(nodes, S1 + S2, E)
  {
  }

  /** States appended after the absorbed ones are left alone. */
  lemma AbsorbAppend(nodes: seq<Estado>, extra: seq<Estado>, S: set<StateRef>, E: set<Transition>)
    requires Within(S, |nodes|)
    ensures Absorb(nodes + extra, S, E) == Absorb(nodes, S, E) + extra
  {
  }

  /** Absorb keeps a valid graph valid when the added edges are valid and in bounds. */
  lemma AbsorbValid(nodes: seq<Estado>, S: set<StateRef>, E: set<Transition>)
    requires GraphValid(nodes) && EdgesWithin(E, |nodes|)
    ensures GraphValid(Absorb(nodes, S, E))
  {
  }

  /** The inner loop of concatenar over the edges to copy: each is rebuilt and added to s. */
  method AddEdges(arena: Arena, s: StateRef, E: set<Transition>)
    requires arena.Valid() && s < |arena.nodes| && EdgesWithin(E, |arena.nodes|)
    modifies arena
    ensures arena.nodes == old(arena.nodes)[s := old(arena.nodes)[s].(edges := old(arena.nodes)[s].edges + E)]
    ensures arena.counter == old(arena.counter) && arena.Valid()
  {
    ghost var n0 := arena.nodes;
    var ts := E;
    assert n0[s].edges + (E - ts) == n0[s].edges;
    assert n0[s := n0[s].(edges := n0[s].edges + (E - ts))] == n0;
    while ts != {}
      invariant ts <= E
      invariant arena.nodes == n0[s := n0[s].(edges := n0[s].edges + (E - ts))]
      invariant arena.counter == old(arena.counter) && arena.Valid()
      decreases ts
    {
      var t :| t in ts;
      var copy := CopyTo(t, t.dest);
      arena.AgregarTransicion(s, Some(copy.value));
      assert n0[s].edges + (E - ts) + {t} == n0[s].edges + (E - (ts - {t}));
      ts := ts - {t};
    }
    assert E - ts == E;
  }

  /** A loop over a set of accepting states: each gains the edges E and stops accepting. */
  method AbsorbInto(arena: Arena, S: set<StateRef>, E: set<Transition>)
    requires arena.Valid() && Within(S, |arena.nodes|) && EdgesWithin(E, |arena.nodes|)
    modifies arena
    ensures arena.nodes == Absorb(old(arena.nodes), S, E)
    ensures arena.counter == old(arena.counter) && arena.Valid()
  {
    var rest := S;
    while rest != {}
      invariant rest <= S
      invariant arena.nodes == Absorb(old(arena.nodes), S - rest, E)
      invariant arena.counter == old(arena.counter) && arena.Valid()
      decreases rest
    {
      var s :| s in rest;
      AddEdges(arena, s, E);
      arena.SetAceptacion(s, false);
      rest := rest - {s};
      assert arena.nodes == Absorb(old(arena.nodes), S - rest, E);
    }
  }

  /** The graph a closure leaves: see CerraduraKleene, CerraduraPositiva, CerraduraOpcional. */
  function ClosureGraph(nodes: seq<Estado>, counter: int, acc: set<StateRef>, start: StateRef,
                        loopBack: bool, bypass: bool): (r: seq<Estado>)
    ensures |r| == |nodes| + 2
  {
    var e2 := |nodes| + 1;
    Absorb(nodes, acc, (if loopBack then {Eps(start)} else {}) + {Eps(e2)})
      + [Estado(counter, false, -1, {Eps(start)} + (if bypass then {Eps(e2)} else {})),
         Estado(counter + 1, true, -1, {})]
  }

  /** Replacing one of two states appended to a graph. */
  lemma UpdateAppended(n0: seq<Estado>, a: Estado, b: Estado, i: nat, x: Estado)
    requires i == |n0| || i == |n0| + 1
    ensures i == |n0| ==> (n0 + [a, b])[i := x] == n0 + [x, b]
    ensures i == |n0| + 1 ==> (n0 + [a, b])[i := x] == n0 + [a, x]
  {
  }

  /** Two new states, the second made accepting: how unir and the closures begin. */
  method NewStartAndFinal(arena: Arena) returns (ni: StateRef, nf: StateRef)
    requires arena.Valid()
    modifies arena
    ensures ni == |old(arena.nodes)| && nf == ni + 1
    ensures arena.counter == old(arena.counter) + 2
    ensures arena.nodes == old(arena.nodes) + [Estado(old(arena.counter), false, -1, {}), Estado(old(arena.counter) + 1, true, -1, {})]
    ensures arena.Valid()
  {
    ghost var n0, k := arena.nodes, arena.counter;
    ni := arena.NewEstado();
    nf := arena.NewEstado();
    assert arena.nodes == n0 + [Estado(k, false, -1, {}), Estado(k + 1, false, -1, {})];
    arena.SetAceptacion(nf, true);
    UpdateAppended(n0, Estado(k, false, -1, {}), Estado(k + 1, false, -1, {}), nf, Estado(k + 1, true, -1, {}));
  }

  /** The graph unir leaves: see AFN.Unir. */
  function UnionGraph(nodes: seq<Estado>, counter: int, acc: set<StateRef>, s1: StateRef, s2: StateRef): (r: seq<Estado>)
    ensures |r| == |nodes| + 2
  {
    var nf := |nodes| + 1;
    Absorb(nodes, acc, {Eps(nf)})
      + [Estado(counter, false, -1, {Eps(s1), Eps(s2)}), Estado(counter + 1, true, -1, {})]
  }

  /** The state-graph part of unir, in the order the Java statements run. */
  method BuildUnion(arena: Arena, s1: StateRef, s2: StateRef, acc1: set<StateRef>, acc2: set<StateRef>)
    returns (ni: StateRef, nf: StateRef)
    requires arena.Valid() && s1 < |arena.nodes| && s2 < |arena.nodes|
    requires Within(acc1, |arena.nodes|) && Within(acc2, |arena.nodes|)
    modifies arena
    ensures ni == |old(arena.nodes)| && nf == ni + 1
    ensures arena.counter == old(arena.counter) + 2
    ensures arena.nodes == UnionGraph(old(arena.nodes), old(arena.counter), acc1 + acc2, s1, s2)
    ensures arena.Valid()
  {
    ghost var n0, k := arena.nodes, arena.counter;
    ni, nf := NewStartAndFinal(arena);
    WireUnionStart(arena, n0, k, s1, s2);
    ghost var last := Estado(k + 1, true, -1, {});
    ghost var n1 := arena.nodes;
    AbsorbInto(arena, acc1, {NewEpsilon(Some(nf)).value});
    AbsorbInto(arena, acc2, {NewEpsilon(Some(nf)).value});
    AbsorbTwice(n1, acc1, acc2, {Eps(nf)});
    AbsorbAppend(n0, [Estado(k, false, -1, {Eps(s1), Eps(s2)}), last], acc1 + acc2, {Eps(nf)});
  }

  /** unir's new start: epsilon edges to both old starts. */
  method WireUnionStart(arena: Arena, ghost n0: seq<Estado>, ghost k: int, s1: StateRef, s2: StateRef)
    requires arena.Valid() && s1 < |n0| && s2 < |n0|
    requires arena.nodes == n0 + [Estado(k, false, -1, {}), Estado(k + 1, true, -1, {})]
    modifies arena
    ensures arena.Valid() && arena.counter == old(arena.counter)
    ensures arena.nodes == n0 + [Estado(k, false, -1, {Eps(s1), Eps(s2)}), Estado(k + 1, true, -1, {})]
  {
    var ni := |arena.nodes| - 2;
    var t1 := NewEpsilon(Some(s1)).value;
    arena.AgregarTransicion(ni, Some(t1));
    assert {} + {t1} == {Eps(s1)};
    UpdateAppended(n0, Estado(k, false, -1, {}), Estado(k + 1, true, -1, {}), ni, Estado(k, false, -1, {Eps(s1)}));
    var t2 := NewEpsilon(Some(s2)).value;
    arena.AgregarTransicion(ni, Some(t2));
    assert {Eps(s1)} + {t2} == {Eps(s1), Eps(s2)};
    UpdateAppended(n0, Estado(k, false, -1, {Eps(s1)}), Estado(k + 1, true, -1, {}), ni, Estado(k, false, -1, {Eps(s1), Eps(s2)}));
  }

  /**
   * The graph of a union that keeps the operands' tokens: only a new start
   * with epsilon edges to both old starts; every old accepting state keeps
   * its flag, its token and its edges.
   */
  function TokenUnionGraph(nodes: seq<Estado>, counter: int, s1: StateRef, s2: StateRef): (r: seq<Estado>)
    ensures |r| == |nodes| + 1 && r[..|nodes|] == nodes
  {
    nodes + [Estado(counter, false, -1, {Eps(s1), Eps(s2)})]
  }

  /** The state-graph part of a union that keeps tokens. */
  method BuildTokenUnion(arena: Arena, s1: StateRef, s2: StateRef) returns (ni: StateRef)
    requires arena.Valid() && s1 < |arena.nodes| && s2 < |arena.nodes|
    modifies arena
    ensures ni == |old(arena.nodes)|
    ensures arena.counter == old(arena.counter) + 1
    ensures arena.nodes == TokenUnionGraph(old(arena.nodes), old(arena.counter), s1, s2)
    ensures arena.Valid()
  {
    ghost var n0, k := arena.nodes, arena.counter;
    ni := arena.NewEstado();
    arena.AgregarTransicion(ni, Some(Eps(s1)));
    assert {} + {Eps(s1)} == {Eps(s1)};
    arena.AgregarTransicion(ni, Some(Eps(s2)));
    assert {Eps(s1)} + {Eps(s2)} == {Eps(s1), Eps(s2)};
    assert arena.nodes == n0 + [Estado(k, false, -1, {Eps(s1), Eps(s2)})];
  }

  /** The state-graph part of the closures, in the order the Java statements run. */
  method BuildClosure(arena: Arena, s: StateRef, acc: set<StateRef>, loopBack: bool, bypass: bool)
    returns (e1: StateRef, e2: StateRef)
    requires arena.Valid() && s < |arena.nodes| && Within(acc, |arena.nodes|)
    modifies arena
    ensures e1 == |old(arena.nodes)| && e2 == e1 + 1
    ensures arena.counter == old(arena.counter) + 2
    ensures arena.nodes == ClosureGraph(old(arena.nodes), old(arena.counter), acc, s, loopBack, bypass)
    ensures arena.Valid()
  {
    ghost var n0, k := arena.nodes, arena.counter;
    e1, e2 := NewStartAndFinal(arena);
    ghost var first := Estado(k, false, -1, {});
    ghost var last := Estado(k + 1, true, -1, {});
    var E := (if loopBack then {NewEpsilon(Some(s)).value} else {}) + {NewEpsilon(Some(e2)).value};
    assert E == (if loopBack then {Eps(s)} else {}) + {Eps(e2)};
    AbsorbInto(arena, acc, E);
    AbsorbAppend(n0, [first, last], acc, E);
    ghost var a := Absorb(n0, acc, E);
    assert arena.nodes == a + [first, last];
    WireClosureStart(arena, a, k, s, e2, bypass);
  }

  /** The closures' new start: an epsilon edge to the old start, then (optional, star) one to the new final state. */
  method WireClosureStart(arena: Arena, ghost a: seq<Estado>, ghost k: int, s: StateRef, e2: StateRef, bypass: bool)
    requires arena.Valid() && s < |a| && e2 == |a| + 1
    requires arena.nodes == a + [Estado(k, false, -1, {}), Estado(k + 1, true, -1, {})]
    modifies arena
    ensures arena.Valid() && arena.counter == old(arena.counter)
    ensures arena.nodes == a + [Estado(k, false, -1, {Eps(s)} + (if bypass then {Eps(e2)} else {})), Estado(k + 1, true, -1, {})]
  {
    var e1 := |arena.nodes| - 2;
    ghost var first, last := Estado(k, false, -1, {}), Estado(k + 1, true, -1, {});
    var t1 := NewEpsilon(Some(s)).value;
    arena.AgregarTransicion(e1, Some(t1));
    assert {} + {t1} == {Eps(s)};
    UpdateAppended(a, first, last, e1, Estado(k, false, -1, {Eps(s)}));
    if bypass {
      var t2 := NewEpsilon(Some(e2)).value;
      arena.AgregarTransicion(e1, Some(t2));
      assert {Eps(s)} + {t2} == {Eps(s)} + {Eps(e2)};
      UpdateAppended(a, Estado(k, false, -1, {Eps(s)}), last, e1, Estado(k, false, -1, {Eps(s)} + {Eps(e2)}));
    } else {
      assert {Eps(s)} == {Eps(s)} + {};
    }
  }

  /** The edges of E whose destination was cloned, redirected to the clone. */
  function Remap(E: set<Transition>, m: map<StateRef, StateRef>): set<Transition>
  {
    set t | t in E && t.dest in m :: t.(dest := m[t.dest])
  }

  /** The state clonar builds for e: id -1, same flag and token, remapped edges. */
  function CloneOf(e: Estado, m: map<StateRef, StateRef>): Estado
  {
    Estado(-1, e.accepting, e.token, Remap(e.edges, m))
  }

  /** The clones of the states of A that were cloned. */
  function Image(A: set<StateRef>, m: map<StateRef, StateRef>): set<StateRef>
  {
    set x | x in A && x in m :: m[x]
  }

  lemma ImageExtend(A: set<StateRef>, m: map<StateRef, StateRef>, k: StateRef, v: StateRef)
    requires k !in m
    ensures Image(A, m[k := v]) == Image(A, m) + (if k in A then {v} else {})
  {
    var mk := m[k := v];
    forall y | y in Image(A, mk) ensures y in Image(A, m) + (if k in A then {v} else {}) {
      var x :| x in A && x in mk && mk[x] == y;
      if x != k { assert y in Image(A, m); }
    }
    forall y | y in Image(A, m) ensures y in Image(A, mk) {
      var x :| x in A && x in m && m[x] == y;
      assert mk[x] == y;
    }
  }

  ghost predicate Injective(m: map<StateRef, StateRef>) {
    forall x, y :: x in m && y in m && x != y ==> m[x] != m[y]
  }

  /** One iteration of clonar's first loop: new Estado(CREACION_INTERNA) with the original's flag and token. */
  method NewClone(arena: Arena, original: Estado) returns (nuevo: StateRef)
    requires arena.Valid()
    modifies arena
    ensures nuevo == |old(arena.nodes)|
    ensures arena.nodes == old(arena.nodes) + [Estado(-1, original.accepting, original.token, {})]
    ensures arena.Valid() && arena.counter == old(arena.counter)
  {
    nuevo := arena.NewEstadoFlag(CREACION_INTERNA);
    arena.SetAceptacion(nuevo, original.accepting);
    arena.SetToken(nuevo, original.token);
  }

  /** Every state in m has its clone in nodes, past the original states, with the original's flag and token and no edges. */
  ghost predicate ClonesAllocated(nodes: seq<Estado>, n0: seq<Estado>, m: map<StateRef, StateRef>) {
    forall x :: x in m ==> x < |n0| <= m[x] < |nodes| && nodes[m[x]] == Estado(-1, n0[x].accepting, n0[x].token, {})
  }

  lemma ClonesAllocatedStep(before: seq<Estado>, n0: seq<Estado>, m: map<StateRef, StateRef>, viejo: StateRef, original: Estado)
    requires ClonesAllocated(before, n0, m) && viejo < |n0| <= |before| && original == n0[viejo]
    ensures ClonesAllocated(before + [Estado(-1, original.accepting, original.token, {})], n0, m[viejo := |before|])
  {
    var after := before + [Estado(-1, original.accepting, original.token, {})];
    forall x | x in m[viejo := |before|]
      ensures x < |n0| <= m[viejo := |before|][x] < |after|
      ensures after[m[viejo := |before|][x]] == Estado(-1, n0[x].accepting, n0[x].token, {})
    {
      if x != viejo {
        assert after[m[x]] == before[m[x]];
      }
    }
  }

  /** The bookkeeping of one iteration of clonar's first loop. */
  method RecordClone(m: map<StateRef, StateRef>, news: set<StateRef>, newStart: Option<StateRef>, newAcc: set<StateRef>,
                     viejo: StateRef, nuevo: StateRef, start: Option<StateRef>, acc: set<StateRef>)
    returns (m': map<StateRef, StateRef>, news': set<StateRef>, newStart': Option<StateRef>, newAcc': set<StateRef>)
    requires viejo !in m && news == m.Values && newAcc == Image(acc, m)
    requires Injective(m) && forall x :: x in m ==> m[x] < nuevo
    requires newStart == if start.Some? && start.value in m then Some(m[start.value]) else None
    ensures m' == m[viejo := nuevo] && news' == m'.Values && newAcc' == Image(acc, m') && Injective(m')
    ensures newStart' == if start.Some? && start.value in m' then Some(m'[start.value]) else None
  {
    ImageExtend(acc, m, viejo, nuevo);
    m' := m[viejo := nuevo];
    news' := news + {nuevo};
    forall y | y in m'.Values ensures y in news' {
      var x :| x in m' && m'[x] == y;
      if x != viejo { assert m[x] == y; }
    }
    forall y | y in news' ensures y in m'.Values {
      if y != nuevo {
        var x :| x in m && m[x] == y;
        assert m'[x] == y;
      } else {
        assert m'[viejo] == y;
      }
    }
    newStart' := newStart;
    if start == Some(viejo) {
      newStart' := Some(nuevo);
    }
    newAcc' := newAcc;
    if viejo in acc {
      newAcc' := newAcc + {nuevo};
    }
  }

  /** What clonar's first loop has built once the states in done were cloned. */
  ghost predicate CloneLoopInv(nodes: seq<Estado>, n0: seq<Estado>, done: set<StateRef>, m: map<StateRef, StateRef>,
                               news: set<StateRef>, newStart: Option<StateRef>, newAcc: set<StateRef>,
                               start: Option<StateRef>, acc: set<StateRef>)
  {
    && m.Keys == done && Injective(m)
    && |nodes| == |n0| + |done| && n0 <= nodes
    && ClonesAllocated(nodes, n0, m)
    && news == m.Values
    && newStart == (if start.Some? && start.value in m then Some(m[start.value]) else None)
    && newAcc == Image(acc, m)
  }

  /** Before clonar's first loop nothing is cloned. */
  lemma CloneLoopStart(n0: seq<Estado>, start: Option<StateRef>, acc: set<StateRef>)
    ensures CloneLoopInv(n0, n0, {}, map[], {}, None, {}, start, acc)
  {
    var m: map<StateRef, StateRef> := map[];
    assert m.Values == {} && Image(acc, m) == {};
  }

  /** One iteration of clonar's first loop, on any state not yet cloned. */
  method CloneNext(arena: Arena, ghost n0: seq<Estado>, S: set<StateRef>, rest: set<StateRef>, m: map<StateRef, StateRef>,
                   news: set<StateRef>, newStart: Option<StateRef>, newAcc: set<StateRef>,
                   start: Option<StateRef>, acc: set<StateRef>)
    returns (rest': set<StateRef>, m': map<StateRef, StateRef>, news': set<StateRef>, newStart': Option<StateRef>, newAcc': set<StateRef>)
    requires arena.Valid() && rest != {} && rest <= S && Within(S, |n0|)
    requires CloneLoopInv(arena.nodes, n0, S - rest, m, news, newStart, newAcc, start, acc)
    modifies arena
    ensures arena.Valid() && arena.counter == old(arena.counter)
    ensures rest' < rest
    ensures CloneLoopInv(arena.nodes, n0, S - rest', m', news', newStart', newAcc', start, acc)
  {
    var viejo :| viejo in rest;
    ghost var done := S - rest;
    m', news', newStart', newAcc' := CloneOne(arena, n0, done, m, news, newStart, newAcc, viejo, start, acc);
    rest' := rest - {viejo};
    DoneGrows(S, rest, viejo);
    CloneLoopSame(arena.nodes, n0, done + {viejo}, S - rest', m', news', newStart', newAcc', start, acc);
  }

  /** Taking viejo out of rest puts it among the states done. */
  lemma DoneGrows(S: set<StateRef>, rest: set<StateRef>, viejo: StateRef)
    requires viejo in rest && rest <= S
    ensures (S - rest) + {viejo} == S - (rest - {viejo})
    ensures rest - {viejo} < rest
  {
  }

  lemma CloneLoopSame(nodes: seq<Estado>, n0: seq<Estado>, d1: set<StateRef>, d2: set<StateRef>, m: map<StateRef, StateRef>,
                      news: set<StateRef>, newStart: Option<StateRef>, newAcc: set<StateRef>,
                      start: Option<StateRef>, acc: set<StateRef>)
    requires CloneLoopInv(nodes, n0, d1, m, news, newStart, newAcc, start, acc) && d1 == d2
    ensures CloneLoopInv(nodes, n0, d2, m, news, newStart, newAcc, start, acc)
  {
  }

  /** One iteration of clonar's first loop. */
  method CloneOne(arena: Arena, ghost n0: seq<Estado>, ghost done: set<StateRef>, m: map<StateRef, StateRef>,
                  news: set<StateRef>, newStart: Option<StateRef>, newAcc: set<StateRef>,
                  viejo: StateRef, start: Option<StateRef>, acc: set<StateRef>)
    returns (m': map<StateRef, StateRef>, news': set<StateRef>, newStart': Option<StateRef>, newAcc': set<StateRef>)
    requires arena.Valid() && viejo < |n0| && viejo !in done
    requires CloneLoopInv(arena.nodes, n0, done, m, news, newStart, newAcc, start, acc)
    modifies arena
    ensures arena.Valid() && arena.counter == old(arena.counter)
    ensures CloneLoopInv(arena.nodes, n0, done + {viejo}, m', news', newStart', newAcc', start, acc)
  {
    var original := arena.nodes[viejo];
    assert original == arena.nodes[..|n0|][viejo] == n0[viejo];
    ghost var before := arena.nodes;
    var nuevo := NewClone(arena, original);
    m', news', newStart', newAcc' := RecordClone(m, news, newStart, newAcc, viejo, nuevo, start, acc);
    CloneLoopStep(before, arena.nodes, n0, done, m, news, newStart, newAcc, viejo, start, acc, m', news', newStart', newAcc');
  }

  /** The invariant of clonar's first loop survives one more clone. */
  lemma CloneLoopStep(before: seq<Estado>, after: seq<Estado>, n0: seq<Estado>, done: set<StateRef>,
                      m: map<StateRef, StateRef>, news: set<StateRef>, newStart: Option<StateRef>, newAcc: set<StateRef>,
                      viejo: StateRef, start: Option<StateRef>, acc: set<StateRef>,
                      m': map<StateRef, StateRef>, news': set<StateRef>, newStart': Option<StateRef>, newAcc': set<StateRef>)
    requires CloneLoopInv(before, n0, done, m, news, newStart, newAcc, start, acc)
    requires viejo < |n0| && viejo !in done
    requires after == before + [Estado(-1, n0[viejo].accepting, n0[viejo].token, {})]
    requires m' == m[viejo := |before|] && news' == m'.Values && newAcc' == Image(acc, m') && Injective(m')
    requires newStart' == if start.Some? && start.value in m' then Some(m'[start.value]) else None
    ensures CloneLoopInv(after, n0, done + {viejo}, m', news', newStart', newAcc', start, acc)
  {
    ClonesAllocatedStep(before, n0, m, viejo, n0[viejo]);
    assert |done + {viejo}| == |done| + 1;
  }

  /**
   * The first loop of clonar: one new internal state per state of S, with the
   * same flag and token and no edges yet; mapaEstados, the new state set, the
   * new start and the new accepting set are filled along the way.
   */
  method AllocateClones(arena: Arena, S: set<StateRef>, start: Option<StateRef>, acc: set<StateRef>)
    returns (m: map<StateRef, StateRef>, news: set<StateRef>, newStart: Option<StateRef>, newAcc: set<StateRef>)
    requires arena.Valid() && Within(S, |arena.nodes|)
    modifies arena
    ensures arena.Valid() && arena.counter == old(arena.counter)
    ensures CloneLoopInv(arena.nodes, old(arena.nodes), S, m, news, newStart, newAcc, start, acc)
  {
    ghost var n0 := arena.nodes;
    m, news, newStart, newAcc := map[], {}, None, {};
    var rest := S;
    CloneLoopStart(n0, start, acc);
    assert S - rest == {};
    while rest != {}
      invariant rest <= S
      invariant arena.Valid() && arena.counter == old(arena.counter)
      invariant CloneLoopInv(arena.nodes, n0, S - rest, m, news, newStart, newAcc, start, acc)
      decreases rest
    {
      rest, m, news, newStart, newAcc := CloneNext(arena, n0, S, rest, m, news, newStart, newAcc, start, acc);
    }
    assert S - rest == S;
  }

  /** The inner loop of clonar's second pass: the cloned edges of one state are added to its clone. */
  method CopyEdgesInto(arena: Arena, src: set<Transition>, m: map<StateRef, StateRef>, target: StateRef)
    requires arena.Valid() && target < |arena.nodes|
    requires forall t :: t in src ==> Transitions.Valid(t)
    requires forall x :: x in m ==> m[x] < |arena.nodes|
    modifies arena
    ensures arena.nodes == old(arena.nodes)[target := old(arena.nodes)[target].(edges := old(arena.nodes)[target].edges + Remap(src, m))]
    ensures arena.Valid() && arena.counter == old(arena.counter)
  {
    ghost var n0 := arena.nodes;
    ghost var done: set<Transition> := {};
    var ts := src;
    assert n0[target].edges + Remap(done, m) == n0[target].edges;
    assert n0[target := n0[target].(edges := n0[target].edges + Remap(done, m))] == n0;
    while ts != {}
      invariant ts <= src && done == src - ts
      invariant arena.nodes == n0[target := n0[target].(edges := n0[target].edges + Remap(done, m))]
      invariant arena.Valid() && arena.counter == old(arena.counter)
      decreases ts
    {
      var viejaT :| viejaT in ts;
      ghost var before := n0[target].edges + Remap(done, m);
      ghost var after := n0[target].edges + Remap(done + {viejaT}, m);
      if viejaT.dest in m {
        var nuevaT := CopyTo(viejaT, m[viejaT.dest]);
        assert nuevaT.value == viejaT.(dest := m[viejaT.dest]);
        arena.AgregarTransicion(target, Some(nuevaT.value));
        assert after == before + {nuevaT.value};
      } else {
        assert after == before;
      }
      assert arena.nodes == n0[target := n0[target].(edges := after)];
      ts := ts - {viejaT};
      done := done + {viejaT};
    }
    assert done == src;
  }

  /**
   * Both loops of clonar: one clone per state of S, then every edge between
   * states of S copied between their clones; the images of the start and of
   * the accepting states under the clone map.
   */
  method CloneStates(arena: Arena, S: set<StateRef>, start: Option<StateRef>, acc: set<StateRef>)
    returns (m: map<StateRef, StateRef>, news: set<StateRef>, newStart: Option<StateRef>, newAcc: set<StateRef>)
    requires arena.Valid() && Within(S, |arena.nodes|)
    modifies arena
    ensures arena.Valid() && arena.counter == old(arena.counter)
    ensures |arena.nodes| == |old(arena.nodes)| + |S| && arena.nodes[..|old(arena.nodes)|] == old(arena.nodes)
    ensures m.Keys == S && Injective(m)
    ensures forall x :: x in S ==> |old(arena.nodes)| <= m[x] < |arena.nodes|
    ensures forall x :: x in S ==> arena.nodes[m[x]] == CloneOf(old(arena.nodes)[x], m)
    ensures news == m.Values && newAcc == Image(acc, m)
    ensures newStart == (if start.Some? && start.value in S then Some(m[start.value]) else None)
  {
    ghost var n0 := arena.nodes;
    m, news, newStart, newAcc := AllocateClones(arena, S, start, acc);
    ghost var n1 := arena.nodes;
    CopyAllEdges(arena, S, m, n0);
    forall x | x in S ensures arena.nodes[m[x]] == CloneOf(n0[x], m) {
      assert n1[m[x]] == Estado(-1, n0[x].accepting, n0[x].token, {});
    }
  }

  /** The second pass of clonar: every clone receives the remapped edges of its original. */
  method CopyAllEdges(arena: Arena, S: set<StateRef>, m: map<StateRef, StateRef>, ghost orig: seq<Estado>)
    requires arena.Valid() && GraphValid(orig) && m.Keys == S && Injective(m)
    requires |orig| <= |arena.nodes| && arena.nodes[..|orig|] == orig
    requires forall x :: x in S ==> x < |orig| <= m[x] < |arena.nodes|
    modifies arena
    ensures arena.Valid() && arena.counter == old(arena.counter)
    ensures |arena.nodes| == |old(arena.nodes)| && arena.nodes[..|orig|] == orig
    ensures forall x :: x in S ==>
      arena.nodes[m[x]] == old(arena.nodes)[m[x]].(edges := old(arena.nodes)[m[x]].edges + Remap(orig[x].edges, m))
  {
    ghost var n0 := arena.nodes;
    var rest := S;
    while rest != {}
      invariant rest <= S
      invariant arena.Valid() && arena.counter == old(arena.counter)
      invariant |arena.nodes| == |n0| && arena.nodes[..|orig|] == orig
      invariant forall x :: x in rest ==> arena.nodes[m[x]] == n0[m[x]]
      invariant forall x :: x in S - rest ==>
        arena.nodes[m[x]] == n0[m[x]].(edges := n0[m[x]].edges + Remap(orig[x].edges, m))
      decreases rest
    {
      var viejo :| viejo in rest;
      var nuevoOrigen := m[viejo];
      assert orig[viejo] == arena.nodes[..|orig|][viejo];
      CopyEdgesInto(arena, arena.nodes[viejo].edges, m, nuevoOrigen);
      rest := rest - {viejo};
    }
  }

  // ----- toString -----

  /** The smallest member of A that is at least k. */
  function LeastFrom(A: set<Byte>, k: nat): (r: Byte)
    requires k <= 255 && exists x :: x in A && k <= x
    ensures r in A && k <= r && forall x :: x in A && k <= x ==> r <= x
    decreases 256 - k
  {
    if k in A then k else LeastFrom(A, k + 1)
  }

  /** The largest member of A that is at most k. */
  function GreatestTo(A: set<Byte>, k: int): (r: Byte)
    requires 0 <= k <= 255 && exists x :: x in A && x <= k
    ensures r in A && r <= k && forall x :: x in A && x <= k ==> x <= r
    decreases k
  {
    if k in A then k else GreatestTo(A, k - 1)
  }

  function Min(A: set<Byte>): (r: Byte)
    requires A != {}
    ensures r in A && forall x :: x in A ==> r <= x
  {
    LeastFrom(A, 0)
  }

  function Max(A: set<Byte>): (r: Byte)
    requires A != {}
    ensures r in A && forall x :: x in A ==> x <= r
  {
    GreatestTo(A, 255)
  }

  /** String.valueOf(char) for a byte symbol. */
  function Symbol(c: Byte): string {
    [c as char]
  }

  /**
   * The text of an automaton without sub-automata: "[Vacío]" for an empty
   * alphabet, the symbol (or ε for EPSILON) for a one-symbol alphabet, and
   * otherwise the least and greatest non-EPSILON symbols as "min-max" (just
   * the symbol when they coincide).
   */
  function LeafText(alphabet: set<Byte>): string
  {
    if alphabet == {} then "[Vacío]"
    else if |alphabet| == 1 then
      var c := Min(alphabet);
      if c == EPSILON then "ε" else Symbol(c)
    else
      var symbols := alphabet - {EPSILON};
      if symbols == {} then (if EPSILON in alphabet then "ε" else "?")
      else
        var lo, hi := Min(symbols), Max(symbols);
        if lo == hi then Symbol(lo) else Symbol(lo) + "-" + Symbol(hi)
  }

  /** The operators written after the closing parenthesis. */
  predicate IsPostfix(op: string) {
    op == "*" || op == "+" || op == "?"
  }

  /** What goes between two rendered operands: nothing without an operator, " . " for concatenation. */
  function Separator(op: string): string {
    if op == "" then "" else " " + (if op == "&" then "." else op) + " "
  }

  function Join(parts: seq<string>, sep: string): string
  {
    if parts == [] then "" else if |parts| == 1 then parts[0] else parts[0] + sep + Join(parts[1..], sep)
  }

  /** toString: the operator tree in parentheses. */
  function Render(s: Snapshot): string
    decreases s
  {
    if s.subs == [] then
      if s.alphabet == {} then "[Vacío]"
      else if IsPostfix(s.op) then "(" + LeafText(s.alphabet) + ")" + s.op else LeafText(s.alphabet)
    else
      var parts := seq(|s.subs|, i requires 0 <= i < |s.subs| => Render(s.subs[i]));
      "(" + Join(parts, Separator(s.op)) + ")" + (if IsPostfix(s.op) then s.op else "")
  }

  /** An automaton without sub-automata and without symbols shows "[Vacío]", whatever its operator. */
  lemma RenderEmpty(op: string)
    ensures Render(Snapshot(op, {}, [])) == "[Vacío]"
  {
  }

  /** A basic automaton over one symbol shows that symbol, or ε. */
  lemma RenderSymbol(c: Byte)
    ensures Render(Snapshot("", {c}, [])) == if c == EPSILON then "ε" else [c as char]
  {
    assert |{c}| == 1;
  }

  /** A basic automaton over a range of at least two symbols shows "lo-hi". */
  lemma RenderRange(alphabet: set<Byte>, lo: Byte, hi: Byte)
    requires lo < hi && lo != EPSILON && hi != EPSILON
    requires forall x: Byte :: x in alphabet <==> lo <= x <= hi
    ensures Render(Snapshot("", alphabet, [])) == [lo as char] + "-" + [hi as char]
  {
    CardAtLeastTwo(alphabet, lo, hi);
    var symbols := alphabet - {EPSILON};
    assert lo in symbols && hi in symbols;
    assert Min(symbols) == lo && Max(symbols) == hi;
  }

  lemma CardAtLeastTwo(A: set<Byte>, x: Byte, y: Byte)
    requires x in A && y in A && x != y
    ensures |A| >= 2
  {
    assert {x, y} <= A;
    assert |{x, y}| == 2;
    assert A == {x, y} + (A - {x, y});
  }

  /** A binary combinator shows "(left op right)", with & shown as ".". */
  lemma RenderBinary(op: string, alphabet: set<Byte>, left: Snapshot, right: Snapshot)
    requires op == "|" || op == "&"
    ensures Render(Snapshot(op, alphabet, [left, right])) ==
      "(" + Render(left) + " " + (if op == "&" then "." else "|") + " " + Render(right) + ")"
  {
    BinaryOperator(op);
    RenderPair(op, alphabet, left, right);
  }

  /** A node with two operands and no postfix operator: both rendered, the separator between. */
  lemma RenderPair(op: string, alphabet: set<Byte>, left: Snapshot, right: Snapshot)
    requires !IsPostfix(op)
    ensures Render(Snapshot(op, alphabet, [left, right])) == "(" + (Render(left) + Separator(op) + Render(right)) + ")"
  {
    var s := Snapshot(op, alphabet, [left, right]);
    var parts := seq(|s.subs|, i requires 0 <= i < |s.subs| => Render(s.subs[i]));
    assert parts == [Render(left), Render(right)];
    JoinTwo(Render(left), Render(right), Separator(op));
  }

  /** A binary operator is not postfix and is shown between spaces, & as a dot. */
  lemma BinaryOperator(op: string)
    requires op == "|" || op == "&"
    ensures !IsPostfix(op) && Separator(op) == " " + (if op == "&" then "." else "|") + " "
  {
  }

  lemma JoinTwo(a: string, b: string, sep: string)
    ensures Join([a, b], sep) == a + sep + b
  {
    assert [a, b][1..] == [b];
  }


  /** A closure shows "(operand)" followed by its operator. */
  lemma RenderClosure(op: string, alphabet: set<Byte>, operand: Snapshot)
    requires IsPostfix(op)
    ensures Render(Snapshot(op, alphabet, [operand])) == "(" + Render(operand) + ")" + op
  {
    var s := Snapshot(op, alphabet, [operand]);
    var parts := seq(|s.subs|, i requires 0 <= i < |s.subs| => Render(s.subs[i]));
    assert parts == [Render(operand)];
  }

  class AFN {
    var estados: set<StateRef>
    var edoInicial: Option<StateRef>
    var alfabeto: set<Byte>
    var edosAcept: set<StateRef>
    /** The operator of the last combinator applied, "" for a basic automaton. */
    var operador: string
    /** Clones of the operands of the last combinator, kept for toString. */
    var subAFNs: seq<Snapshot>

    /** Every reference the automaton holds points into the arena, and the arena's graph is valid. */
    ghost predicate Valid(arena: Arena)
      reads this, arena
    {
      && arena.Valid()
      && Within(estados, |arena.nodes|)
      && Within(edosAcept, |arena.nodes|)
      && (edoInicial.Some? ==> edoInicial.value < |arena.nodes|)
    }

    /** What a clone of this automaton shows to toString. */
    function Snap(): Snapshot
      reads this
    {
      Snapshot(operador, alfabeto, subAFNs)
    }

    /** clonar throws when the start is set but is not one of the states (e.g. an absorbed operand of concatenar). */
    predicate CloneFails()
      reads this
    {
      edoInicial.Some? && edoInicial.value !in estados
    }

    /** AFN(): everything empty, no start. */
    constructor ()
      ensures estados == {} && edoInicial == None && alfabeto == {} && edosAcept == {}
      ensures operador == "" && subAFNs == []
    {
      estados := {};
      edoInicial := None;
      alfabeto := {};
      edosAcept := {};
      operador := "";
      subAFNs := [];
    }

    /** The first two lines of both crearBasico overloads: the receiver is emptied. */
    method Clear()
      modifies this
      ensures estados == {} && edoInicial == None && alfabeto == {} && edosAcept == {}
      ensures operador == "" && subAFNs == []
    {
      estados := {};
      alfabeto := {};
      edosAcept := {};
      edoInicial := None;
      subAFNs := [];
      operador := "";
    }

    /**
     * crearBasico(c, token): start -c-> final, final accepting with the token.
     * EPSILON as the symbol makes the Transition constructor throw after the
     * receiver was cleared and both states were allocated.
     */
    method CrearBasico(c: Byte, token: int, arena: Arena) returns (r: Result<(), TransitionError>)
      requires arena.Valid()
      modifies this, arena
      ensures Valid(arena)
      ensures arena.counter == old(arena.counter) + 2
      ensures |arena.nodes| == |old(arena.nodes)| + 2 && arena.nodes[..|old(arena.nodes)|] == old(arena.nodes)
      ensures operador == "" && subAFNs == []
      ensures r.Success? <==> c != EPSILON
      ensures c == EPSILON ==>
        && r == Failure(EpsilonSymbol)
        && estados == {} && edoInicial == None && edosAcept == {} && alfabeto == {}
        && arena.nodes[|old(arena.nodes)|..] ==
             [Estado(old(arena.counter), false, -1, {}), Estado(old(arena.counter) + 1, false, -1, {})]
      ensures c != EPSILON ==>
        var e1, e2 := |old(arena.nodes)|, |old(arena.nodes)| + 1;
        && estados == {e1, e2} && edoInicial == Some(e1) && edosAcept == {e2} && alfabeto == {c}
        && arena.nodes[e1..] ==
             [Estado(old(arena.counter), false, -1, {Transition(c, c, e2)}),
              Estado(old(arena.counter) + 1, true, token, {})]
    {
      Clear();
      ghost var n0, k := arena.nodes, arena.counter;
      var e1 := arena.NewEstado();
      var e2 := arena.NewEstado();
      assert arena.nodes == n0 + [Estado(k, false, -1, {}), Estado(k + 1, false, -1, {})];
      var t := NewSymbol(c, Some(e2));
      if t.Failure? {
        return Failure(t.error);
      }
      arena.AgregarTransicion(e1, Some(t.value));
      assert {} + {t.value} == {Transition(c, c, e2)};
      UpdateAppended(n0, Estado(k, false, -1, {}), Estado(k + 1, false, -1, {}), e1, Estado(k, false, -1, {Transition(c, c, e2)}));
      arena.SetAceptacion(e2, true);
      UpdateAppended(n0, Estado(k, false, -1, {Transition(c, c, e2)}), Estado(k + 1, false, -1, {}), e2, Estado(k + 1, true, -1, {}));
      arena.SetToken(e2, token);
      UpdateAppended(n0, Estado(k, false, -1, {Transition(c, c, e2)}), Estado(k + 1, true, -1, {}), e2, Estado(k + 1, true, token, {}));
      edoInicial := Some(e1);
      estados := {e1, e2};
      edosAcept := {e2};
      alfabeto := {c};
      r := Success(());
    }

    /**
     * crearBasico(c1, c2, token): start -[c1,c2]-> final. An inverted range or
     * EPSILON as a bound makes the Transition constructor throw after the
     * receiver was cleared and both states were allocated; so the alphabet
     * loop only ever runs with c1 <= c2 and the warning branch is never taken.
     */
    method CrearBasicoRango(c1: Byte, c2: Byte, token: int, arena: Arena) returns (r: Result<(), TransitionError>)
      requires arena.Valid()
      modifies this, arena
      ensures Valid(arena)
      ensures arena.counter == old(arena.counter) + 2
      ensures |arena.nodes| == |old(arena.nodes)| + 2 && arena.nodes[..|old(arena.nodes)|] == old(arena.nodes)
      ensures operador == "" && subAFNs == []
      ensures r.Success? <==> c1 <= c2 && c1 != EPSILON && c2 != EPSILON
      ensures c1 > c2 ==> r == Failure(InvalidRange)
      ensures c1 <= c2 && (c1 == EPSILON || c2 == EPSILON) ==> r == Failure(EpsilonSymbol)
      ensures r.Failure? ==>
        && estados == {} && edoInicial == None && edosAcept == {} && alfabeto == {}
        && arena.nodes[|old(arena.nodes)|..] ==
             [Estado(old(arena.counter), false, -1, {}), Estado(old(arena.counter) + 1, false, -1, {})]
      ensures r.Success? ==>
        var e1, e2 := |old(arena.nodes)|, |old(arena.nodes)| + 1;
        && estados == {e1, e2} && edoInicial == Some(e1) && edosAcept == {e2}
        && (forall x: Byte :: x in alfabeto <==> c1 <= x <= c2)
        && arena.nodes[e1..] ==
             [Estado(old(arena.counter), false, -1, {Transition(c1, c2, e2)}),
              Estado(old(arena.counter) + 1, true, token, {})]
    {
      Clear();
      ghost var n0, k := arena.nodes, arena.counter;
      var e1 := arena.NewEstado();
      var e2 := arena.NewEstado();
      assert arena.nodes == n0 + [Estado(k, false, -1, {}), Estado(k + 1, false, -1, {})];
      var t := NewRange(c1, c2, Some(e2));
      if t.Failure? {
        return Failure(t.error);
      }
      arena.AgregarTransicion(e1, Some(t.value));
      assert {} + {t.value} == {Transition(c1, c2, e2)};
      UpdateAppended(n0, Estado(k, false, -1, {}), Estado(k + 1, false, -1, {}), e1, Estado(k, false, -1, {Transition(c1, c2, e2)}));
      arena.SetAceptacion(e2, true);
      UpdateAppended(n0, Estado(k, false, -1, {Transition(c1, c2, e2)}), Estado(k + 1, false, -1, {}), e2, Estado(k + 1, true, -1, {}));
      arena.SetToken(e2, token);
      UpdateAppended(n0, Estado(k, false, -1, {Transition(c1, c2, e2)}), Estado(k + 1, true, -1, {}), e2, Estado(k + 1, true, token, {}));
      edoInicial := Some(e1);
      estados := {e1, e2};
      edosAcept := {e2};
      // c1 <= c2 holds here: the constructor above rejected the inverted range
      var alf: set<Byte> := {};
      var car: int := c1;
      while car <= c2
        invariant c1 <= car <= c2 + 1
        invariant forall x: Byte :: x in alf <==> c1 <= x < car
        decreases c2 - car
      {
        alf := alf + {car as Byte};
        car := car + 1;
      }
      alfabeto := alf;
      r := Success(());
    }

    /**
     * unir(f2): a new start ni with epsilon edges to both old starts, and a new
     * accepting state nf (token -1) that every old accepting state of either
     * operand reaches by an epsilon edge while losing its own flag. The
     * receiver takes f2's states and alphabet; f2 keeps its fields.
     */
    method Unir(f2: AFN?, arena: Arena) returns (r: Result<Outcome, NfaError>)
      requires Valid(arena) && (f2 != null ==> f2.Valid(arena))
      modifies this, arena
      ensures Valid(arena)
      ensures f2 == null || f2.edoInicial.None? || f2 == this || old(edoInicial).None? ==>
        r == Success(Ignored) && unchanged(this, arena)
      ensures f2 != null && f2.edoInicial.Some? && f2 != this && old(edoInicial).Some? ==>
        (r.Failure? <==> old(CloneFails()) || f2.CloneFails())
      ensures r.Failure? ==> r.error == StartNotMapped && unchanged(this, arena)
      ensures r == Success(Applied) ==>
        var ni, nf := |old(arena.nodes)|, |old(arena.nodes)| + 1;
        && f2 != null && f2 != this
        && arena.counter == old(arena.counter) + 2
        && arena.nodes == UnionGraph(old(arena.nodes), old(arena.counter), old(edosAcept) + f2.edosAcept,
                                     old(edoInicial).value, f2.edoInicial.value)
        && edoInicial == Some(ni) && edosAcept == {nf}
        && estados == old(estados) + {ni, nf} + f2.estados
        && alfabeto == old(alfabeto) + f2.alfabeto
        && operador == "|" && subAFNs == [old(Snap()), f2.Snap()]
    {
      if f2 == null || f2.edoInicial.None? {
        return Success(Ignored);
      }
      if f2 == this {
        return Success(Ignored);
      }
      if edoInicial.None? {
        return Success(Ignored);
      }
      if CloneFails() || f2.CloneFails() {
        return Failure(StartNotMapped);
      }
      var f1Clon, f2Clon := Snap(), f2.Snap();
      var ni, nf := BuildUnion(arena, edoInicial.value, f2.edoInicial.value, edosAcept, f2.edosAcept);
      estados := estados + {ni, nf} + f2.estados;
      edoInicial := Some(ni);
      edosAcept := {nf};
      alfabeto := alfabeto + f2.alfabeto;
      operador := "|";
      subAFNs := [f1Clon, f2Clon];
      r := Success(Applied);
    }

    /**
     * The union unir evidently means to build (see README, Findings): the
     * same guards, a new start ni with epsilon edges to both old starts, and
     * the accepting states of both operands kept as they are, flags and
     * tokens included, so that the tokens reach the DFA.
     */
    method UnirConservandoTokens(f2: AFN?, arena: Arena) returns (r: Result<Outcome, NfaError>)
      requires Valid(arena) && (f2 != null ==> f2.Valid(arena))
      modifies this, arena
      ensures Valid(arena)
      ensures f2 == null || f2.edoInicial.None? || f2 == this || old(edoInicial).None? ==>
        r == Success(Ignored) && unchanged(this, arena)
      ensures f2 != null && f2.edoInicial.Some? && f2 != this && old(edoInicial).Some? ==>
        (r.Failure? <==> old(CloneFails()) || f2.CloneFails())
      ensures r.Failure? ==> r.error == StartNotMapped && unchanged(this, arena)
      ensures r == Success(Applied) ==>
        && f2 != null && f2 != this
        && arena.counter == old(arena.counter) + 1
        && arena.nodes == TokenUnionGraph(old(arena.nodes), old(arena.counter), old(edoInicial).value, f2.edoInicial.value)
        && edoInicial == Some(|old(arena.nodes)|) && edosAcept == old(edosAcept) + f2.edosAcept
        && estados == old(estados) + {|old(arena.nodes)|} + f2.estados
        && alfabeto == old(alfabeto) + f2.alfabeto
        && operador == "|" && subAFNs == [old(Snap()), f2.Snap()]
    {
      if f2 == null || f2.edoInicial.None? {
        return Success(Ignored);
      }
      if f2 == this {
        return Success(Ignored);
      }
      if edoInicial.None? {
        return Success(Ignored);
      }
      if CloneFails() || f2.CloneFails() {
        return Failure(StartNotMapped);
      }
      var f1Clon, f2Clon := Snap(), f2.Snap();
      var ni := BuildTokenUnion(arena, edoInicial.value, f2.edoInicial.value);
      estados := estados + {ni} + f2.estados;
      edoInicial := Some(ni);
      edosAcept := edosAcept + f2.edosAcept;
      alfabeto := alfabeto + f2.alfabeto;
      operador := "|";
      subAFNs := [f1Clon, f2Clon];
      r := Success(Applied);
    }

    /**
     * concatenar(f2): every accepting state of the receiver gains a copy of
     * each edge leaving f2's start (same kind, range and destination) and
     * stops accepting; f2's start is removed from f2's own states; the
     * receiver takes f2's remaining states, its alphabet and its accepting
     * states, and keeps its start.
     *
     * The edges of f2's start are read once: the loop only ever adds to that
     * state copies equal to edges it already has, so the set does not change.
     */
    method Concatenar(f2: AFN?, arena: Arena) returns (r: Result<Outcome, NfaError>)
      requires Valid(arena) && (f2 != null ==> f2.Valid(arena))
      modifies this, f2, arena
      ensures Valid(arena) && (f2 != null ==> f2.Valid(arena))
      ensures f2 == null || old(f2.edoInicial).None? || f2 == this || old(edoInicial).None? ==>
        r == Success(Ignored) && unchanged(this, arena) && (f2 != null ==> unchanged(f2))
      ensures f2 != null && old(f2.edoInicial).Some? && f2 != this && old(edoInicial).Some? ==>
        (r.Failure? <==> old(CloneFails()) || old(f2.CloneFails()))
      ensures r.Failure? ==> r.error == StartNotMapped && unchanged(this, arena) && (f2 != null ==> unchanged(f2))
      ensures r == Success(Applied) ==>
        var s2 := old(f2.edoInicial).value;
        && f2 != null && f2 != this
        && arena.counter == old(arena.counter)
        && arena.nodes == Absorb(old(arena.nodes), old(edosAcept), old(arena.nodes)[s2].edges)
        && f2.estados == old(f2.estados) - {s2}
        && f2.edoInicial == old(f2.edoInicial) && f2.edosAcept == old(f2.edosAcept)
        && f2.alfabeto == old(f2.alfabeto) && f2.Snap() == old(f2.Snap())
        && edoInicial == old(edoInicial)
        && estados == old(estados) + (old(f2.estados) - {s2})
        && alfabeto == old(alfabeto) + old(f2.alfabeto)
        && edosAcept == old(f2.edosAcept)
        && operador == "&" && subAFNs == [old(Snap()), old(f2.Snap())]
    {
      if f2 == null || f2.edoInicial.None? {
        return Success(Ignored);
      }
      if f2 == this {
        return Success(Ignored);
      }
      if edoInicial.None? {
        return Success(Ignored);
      }
      if CloneFails() || f2.CloneFails() {
        return Failure(StartNotMapped);
      }
      var f1Clon, f2Clon := Snap(), f2.Snap();
      var s2 := f2.edoInicial.value;
      var transIniF2 := arena.nodes[s2].edges;
      AbsorbInto(arena, edosAcept, transIniF2);
      f2.estados := f2.estados - {s2};
      estados := estados + f2.estados;
      alfabeto := alfabeto + f2.alfabeto;
      edosAcept := f2.edosAcept;
      operador := "&";
      subAFNs := [f1Clon, f2Clon];
      r := Success(Applied);
    }

    /**
     * The common shape of the three closures: a new start e1 with an epsilon
     * edge to the old start (and to e2 when bypass), a new accepting state e2
     * with token -1, and every old accepting state gaining an epsilon edge to
     * e2 (and back to the old start when loopBack) while losing its flag.
     */
    method Close(op: string, loopBack: bool, bypass: bool, arena: Arena) returns (r: Result<Outcome, NfaError>)
      requires Valid(arena)
      modifies this, arena
      ensures Valid(arena)
      ensures old(edoInicial).None? ==> r == Success(Ignored) && unchanged(this, arena)
      ensures old(edoInicial).Some? ==> (r.Failure? <==> old(CloneFails()))
      ensures r.Failure? ==> r.error == StartNotMapped && unchanged(this, arena)
      ensures r == Success(Applied) ==>
        var e1, e2 := |old(arena.nodes)|, |old(arena.nodes)| + 1;
        && arena.counter == old(arena.counter) + 2
        && arena.nodes == ClosureGraph(old(arena.nodes), old(arena.counter), old(edosAcept), old(edoInicial).value, loopBack, bypass)
        && edoInicial == Some(e1) && edosAcept == {e2}
        && estados == old(estados) + {e1, e2}
        && alfabeto == old(alfabeto)
        && operador == op && subAFNs == [old(Snap())]
    {
      if edoInicial.None? {
        return Success(Ignored);
      }
      if CloneFails() {
        return Failure(StartNotMapped);
      }
      var thisClon := Snap();
      var e1, e2 := BuildClosure(arena, edoInicial.value, edosAcept, loopBack, bypass);
      edoInicial := Some(e1);
      edosAcept := {e2};
      estados := estados + {e1, e2};
      operador := op;
      subAFNs := [thisClon];
      r := Success(Applied);
    }

    /** cerraduraKleene: loop-back and bypass. */
    method CerraduraKleene(arena: Arena) returns (r: Result<Outcome, NfaError>)
      requires Valid(arena)
      modifies this, arena
      ensures Valid(arena)
      ensures old(edoInicial).None? ==> r == Success(Ignored) && unchanged(this, arena)
      ensures old(edoInicial).Some? ==> (r.Failure? <==> old(CloneFails()))
      ensures r.Failure? ==> unchanged(this, arena)
      ensures r == Success(Applied) ==>
        && arena.nodes == ClosureGraph(old(arena.nodes), old(arena.counter), old(edosAcept), old(edoInicial).value, true, true)
        && edoInicial == Some(|old(arena.nodes)|) && edosAcept == {|old(arena.nodes)| + 1}
        && estados == old(estados) + {|old(arena.nodes)|, |old(arena.nodes)| + 1}
        && alfabeto == old(alfabeto) && operador == "*" && subAFNs == [old(Snap())]
    {
      r := Close("*", true, true, arena);
    }

    /** cerraduraPositiva: loop-back, no bypass. */
    method CerraduraPositiva(arena: Arena) returns (r: Result<Outcome, NfaError>)
      requires Valid(arena)
      modifies this, arena
      ensures Valid(arena)
      ensures old(edoInicial).None? ==> r == Success(Ignored) && unchanged(this, arena)
      ensures old(edoInicial).Some? ==> (r.Failure? <==> old(CloneFails()))
      ensures r.Failure? ==> unchanged(this, arena)
      ensures r == Success(Applied) ==>
        && arena.nodes == ClosureGraph(old(arena.nodes), old(arena.counter), old(edosAcept), old(edoInicial).value, true, false)
        && edoInicial == Some(|old(arena.nodes)|) && edosAcept == {|old(arena.nodes)| + 1}
        && estados == old(estados) + {|old(arena.nodes)|, |old(arena.nodes)| + 1}
        && alfabeto == old(alfabeto) && operador == "+" && subAFNs == [old(Snap())]
    {
      r := Close("+", true, false, arena);
    }

    /** cerraduraOpcional: bypass, no loop-back. */
    method CerraduraOpcional(arena: Arena) returns (r: Result<Outcome, NfaError>)
      requires Valid(arena)
      modifies this, arena
      ensures Valid(arena)
      ensures old(edoInicial).None? ==> r == Success(Ignored) && unchanged(this, arena)
      ensures old(edoInicial).Some? ==> (r.Failure? <==> old(CloneFails()))
      ensures r.Failure? ==> unchanged(this, arena)
      ensures r == Success(Applied) ==>
        && arena.nodes == ClosureGraph(old(arena.nodes), old(arena.counter), old(edosAcept), old(edoInicial).value, false, true)
        && edoInicial == Some(|old(arena.nodes)|) && edosAcept == {|old(arena.nodes)| + 1}
        && estados == old(estados) + {|old(arena.nodes)|, |old(arena.nodes)| + 1}
        && alfabeto == old(alfabeto) && operador == "?" && subAFNs == [old(Snap())]
    {
      r := Close("?", false, true, arena);
    }
    /**
     * clonar: a deep copy whose states are new internal states (id -1), one
     * per state of the receiver, with the same flags and tokens; every edge
     * between two states of the receiver is copied between their clones with
     * its kind and range kept, and edges leaving the state set are dropped.
     * The start maps to the start and accepting states to accepting states;
     * alphabet, operator and sub-automata are kept. When the start is not one
     * of the states the copy has no start and RuntimeException is thrown,
     * after the copies were allocated.
     */
    method Clonar(arena: Arena) returns (r: Result<AFN, NfaError>, m: map<StateRef, StateRef>)
      requires Valid(arena)
      modifies arena
      ensures arena.Valid() && arena.counter == old(arena.counter)
      ensures |arena.nodes| == |old(arena.nodes)| + |estados| && arena.nodes[..|old(arena.nodes)|] == old(arena.nodes)
      ensures m.Keys == estados && Injective(m)
      ensures forall x :: x in estados ==> |old(arena.nodes)| <= m[x] < |arena.nodes|
      ensures forall x :: x in estados ==> arena.nodes[m[x]] == CloneOf(old(arena.nodes)[x], m)
      ensures r.Failure? <==> CloneFails()
      ensures r.Failure? ==> r.error == StartNotMapped
      ensures r.Success? ==>
        && fresh(r.value) && r.value.Valid(arena)
        && r.value.estados == m.Values
        && r.value.edoInicial == (if edoInicial.Some? then Some(m[edoInicial.value]) else None)
        && r.value.edosAcept == Image(edosAcept, m)
        && r.value.alfabeto == alfabeto && r.value.operador == operador && r.value.subAFNs == subAFNs
    {
      var copia := new AFN();
      copia.alfabeto := alfabeto;
      copia.operador := operador;
      var news, newStart, newAcc;
      m, news, newStart, newAcc := CloneStates(arena, estados, edoInicial, edosAcept);
      copia.estados := news;
      copia.edoInicial := newStart;
      copia.edosAcept := newAcc;
      if copia.edoInicial.None? && edoInicial.Some? {
        return Failure(StartNotMapped), m;
      }
      copia.subAFNs := subAFNs;
      r := Success(copia);
    }
  }
}
