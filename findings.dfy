/**
 * Two places where AFN.java does not do what the application around it
 * relies on, each stated twice: as the code is written, with the lemma
 * that shows the discrepancy, and as it is evidently meant, with the
 * property proved.
 *
 * 1. clonar builds every state with id -1, and Estado's equals and hashCode
 *    look only at the id, so the HashSet of a clone's states holds a single
 *    element however many states were cloned. The rest of this model keeps
 *    states apart by reference (an arena index), which is what clonar
 *    evidently means.
 *
 * 2. unir makes every old accepting state non-accepting and accepts only in
 *    a new state whose token is -1, so a DFA converted from a union announces
 *    no token at all, and the scanner never returns anything but ERROR and
 *    FIN on it. UnirConservandoTokens keeps the operands' accepting states
 *    and tokens, and every token an operand announces for a word survives.
 */
module Findings {
  import opened Transitions
  import opened Markers
  import opened States
  import opened Closure
  import opened Nfa
  import opened Thompson
  import opened DfaSpec
  import opened Lexer

  // ---- 1. Cloned states collapse under Java's equals ----

  /** The elements a Java HashSet<Estado> holding the states of S keeps apart: one per id. */
  function JavaElements(nodes: seq<Estado>, S: set<StateRef>): (r: set<int>)
    requires forall x :: x in S ==> x < |nodes|
    ensures |r| <= |S|
    ensures forall x :: x in S ==> nodes[x].id in r
  {
    var ids := set x | x in S :: nodes[x].id;
    ImageNoLarger(S, nodes, ids);
    ids
  }

  lemma {:induction false} ImageNoLarger(S: set<StateRef>, nodes: seq<Estado>, ids: set<int>)
    requires forall x :: x in S ==> x < |nodes|
    requires ids == set x | x in S :: nodes[x].id
    ensures |ids| <= |S|
    decreases |S|
  {
    if S != {} {
      var y :| y in S;
      var rest := S - {y};
      var restIds := set x | x in rest :: nodes[x].id;
      ImageNoLarger(rest, nodes, restIds);
      assert ids == restIds + {nodes[y].id};
    }
  }

  /**
   * As written: the clones clonar allocates all have id -1, so under
   * Java's equals the clone's set of states is the one element -1.
   */
  lemma ClonedStatesCollapse(orig: seq<Estado>, nodes: seq<Estado>, m: map<StateRef, StateRef>)
    requires m.Keys != {}
    requires forall x :: x in m ==> x < |orig| && m[x] < |nodes| && nodes[m[x]] == CloneOf(orig[x], m)
    ensures JavaElements(nodes, m.Values) == {-1}
  {
    var x :| x in m;
    assert m[x] in m.Values;
    forall v | v in m.Values ensures nodes[v].id == -1 {
      var y :| y in m && m[y] == v;
    }
  }

  /**
   * The input that shows it: the two states of the basic automaton for 'a'
   * with token 10 (0 -a-> 1, 1 accepting), cloned into states 2 and 3, are
   * two states of the clone but one element of Java's set.
   */
  lemma CloneOfBasicCollapses()
    ensures var orig := [Estado(0, false, -1, {Transition(97, 97, 1)}), Estado(1, true, 10, {})];
            var m := map[0 := 2, 1 := 3];
            var nodes := orig + [CloneOf(orig[0], m), CloneOf(orig[1], m)];
            |m.Values| == 2 && JavaElements(nodes, m.Values) == {-1}
  {
    var orig := [Estado(0, false, -1, {Transition(97, 97, 1)}), Estado(1, true, 10, {})];
    var m := map[0 := 2, 1 := 3];
    var nodes := orig + [CloneOf(orig[0], m), CloneOf(orig[1], m)];
    assert m[0] == 2 && m[1] == 3;
    forall v | v in m.Values ensures v == 2 || v == 3 {
      var y :| y in m && m[y] == v;
    }
    assert m.Values == {2, 3};
    ClonedStatesCollapse(orig, nodes, m);
  }

  /**
   * As meant: a clone has as many states as the original. Clonar's map is
   * injective with the original's states as keys and the clone's states as
   * values, so no two states merge.
   */
  lemma {:induction false} CloneKeepsEveryState(m: map<StateRef, StateRef>, S: set<StateRef>)
    requires Injective(m) && m.Keys == S
    ensures |m.Values| == |S|
    decreases |S|
  {
    if S != {} {
      var k :| k in S;
      var rest := m - {k};
      assert Injective(rest);
      CloneKeepsEveryState(rest, S - {k});
      forall v | v in m.Values ensures v in rest.Values + {m[k]} {
        var y :| y in m && m[y] == v;
        if y != k {
          assert y in rest;
        }
      }
      forall v | v in rest.Values ensures v in m.Values {
        var y :| y in rest && rest[y] == v;
        assert m[y] == v;
      }
      assert m.Values == rest.Values + {m[k]};
      assert m[k] !in rest.Values;
    }
  }

  // ---- 2. unir drops the operands' tokens ----

  /**
   * As written: after unir the accepting set is {nf} and nf has token -1,
   * so no set of states of the union announces a token, whatever word was read.
   */
  lemma UnionAnnouncesNoToken(nodes: seq<Estado>, k: int, acc: set<StateRef>, s1: StateRef, s2: StateRef,
                              S: set<StateRef>, t: int)
    requires IsWinner(UnionGraph(nodes, k, acc, s1, s2), S, {|nodes| + 1}, t)
    ensures t == -1
  {
    var g := UnionGraph(nodes, k, acc, s1, s2);
    assert g[|nodes| + 1].token == -1;
    assert Candidates(g, S, {|nodes| + 1}) == {};
  }

  /**
   * As written, end to end: the table AFNtoAFD builds from a union has -1
   * in every token cell, so yylex on it only ever returns FIN or ERROR,
   * although each operand carried its token.
   */
  lemma UnionTableScansNoToken(nodes: seq<Estado>, k: int, acc: set<StateRef>, s1: StateRef, s2: StateRef,
                               alf: set<Byte>, sets: seq<set<StateRef>>, rows: seq<seq<int>>, w: seq<int>, p: nat)
    requires GraphValid(UnionGraph(nodes, k, acc, s1, s2))
    requires SubsetConstruction(UnionGraph(nodes, k, acc, s1, s2), |nodes|, {|nodes| + 1}, alf, sets, rows)
    requires p <= |w|
    ensures forall i :: 0 <= i < |rows| ==> rows[i][TOKEN_COLUMN] == -1
    ensures Lex(rows, w, p).token == FIN || Lex(rows, w, p).token == ERROR
  {
    forall i | 0 <= i < |rows| ensures rows[i][TOKEN_COLUMN] == -1 {
      UnionAnnouncesNoToken(nodes, k, acc, s1, s2, sets[i], rows[i][TOKEN_COLUMN]);
    }
    if p < |w| {
      var L := LongestAccept(rows, w[p..], |w| - p);
      assert L == 0;
    }
  }

  /** The graph of the token-keeping union is a valid extension of the operands' graph. */
  lemma TokenUnionGrows(nodes: seq<Estado>, k: int, s1: StateRef, s2: StateRef)
    requires GraphValid(nodes) && s1 < |nodes| && s2 < |nodes|
    ensures GraphValid(TokenUnionGraph(nodes, k, s1, s2)) && EdgesGrow(nodes, TokenUnionGraph(nodes, k, s1, s2))
  {
    var g := TokenUnionGraph(nodes, k, s1, s2);
    forall i, t | 0 <= i < |g| && t in g[i].edges ensures t.dest < |g| && Transitions.Valid(t) {
      if i < |nodes| {
        assert g[i] == nodes[i];
      }
    }
  }

  /**
   * As meant: when an operand of the token-keeping union reaches, on w, an
   * accepting state a with a token, the union on w announces a token, and
   * one no greater than a's (the lowest token wins), as the DFA then does.
   */
  lemma TokenUnionKeepsTokens(nodes: seq<Estado>, k: int, s1: StateRef, s2: StateRef, acc: set<StateRef>,
                              w: seq<int>, a: StateRef, t: int)
    requires GraphValid(nodes) && s1 < |nodes| && s2 < |nodes|
    requires a in Run(nodes, EpsClosure(nodes, {s1}), w) || a in Run(nodes, EpsClosure(nodes, {s2}), w)
    requires a in acc && nodes[a].accepting && nodes[a].token != -1
    requires GraphValid(TokenUnionGraph(nodes, k, s1, s2))
    requires IsWinner(TokenUnionGraph(nodes, k, s1, s2),
                      Run(TokenUnionGraph(nodes, k, s1, s2), EpsClosure(TokenUnionGraph(nodes, k, s1, s2), {|nodes|}), w),
                      acc, t)
    ensures t != -1 && t <= nodes[a].token
  {
    var g, ni := TokenUnionGraph(nodes, k, s1, s2), |nodes|;
    TokenUnionGrows(nodes, k, s1, s2);
    assert Eps(s1) in g[ni].edges && Eps(s2) in g[ni].edges;
    ForkReach(nodes, g, ni, s1, s2);
    RunGrows(nodes, g, EpsClosure(nodes, {s1}), EpsClosure(g, {ni}), w);
    RunGrows(nodes, g, EpsClosure(nodes, {s2}), EpsClosure(g, {ni}), w);
    assert g[a] == nodes[a];
    assert a in Candidates(g, Run(g, EpsClosure(g, {ni}), w), acc);
  }
}
