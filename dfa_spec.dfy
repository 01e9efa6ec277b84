/**
 * What the subset construction of AFD.java promises, stated on plain values:
 * the token a set of NFA states announces (determinarTokenConPrecedencia),
 * the shape of a finished transition table, and how running the table
 * follows running the NFA.
 *
 * A table has one row per DFA state and 257 columns: columns 0..255 hold the
 * next state for that character (-1 for none) and column 256 the token the
 * state accepts (-1 for none).
 */
module DfaSpec {
  import opened Markers
  import opened Transitions
  import opened States
  import opened Closure

  const WIDTH: nat := 257
  const TOKEN_COLUMN: nat := 256

  /** The characters the construction iterates over: the alphabet without EPSILON. */
  function Symbols(alf: set<Byte>): (r: set<Byte>)
    ensures EPSILON !in r && forall c :: c in r <==> c in alf && c != EPSILON
  {
    alf - {EPSILON}
  }

  /** States of S that may announce a token: accepting, in edosAcept, with a token other than -1. */
  function Candidates(nodes: seq<Estado>, S: set<StateRef>, acc: set<StateRef>): (r: set<StateRef>)
    ensures forall q :: q in r <==> q in S && q < |nodes| && q in acc && nodes[q].accepting && nodes[q].token != -1
  {
    set q | q in S && q < |nodes| && q in acc && nodes[q].accepting && nodes[q].token != -1
  }

  /** t is the lowest token among the candidates, or -1 when there are none. */
  predicate IsWinner(nodes: seq<Estado>, S: set<StateRef>, acc: set<StateRef>, t: int) {
    var cands := Candidates(nodes, S, acc);
    && (t == -1 <==> cands == {})
    && (t != -1 ==> exists q :: q in cands && nodes[q].token == t)
    && (forall q :: q in cands ==> t <= nodes[q].token)
  }

  /** The winning token is unique, so the order in which the set is scanned does not matter. */
  lemma WinnerUnique(nodes: seq<Estado>, S: set<StateRef>, acc: set<StateRef>, t1: int, t2: int)
    requires IsWinner(nodes, S, acc, t1) && IsWinner(nodes, S, acc, t2)
    ensures t1 == t2
  {
    var cands := Candidates(nodes, S, acc);
    if t1 != -1 {
      var q1 :| q1 in cands && nodes[q1].token == t1;
      var q2 :| q2 in cands && nodes[q2].token == t2;
      assert t1 <= t2 && t2 <= t1;
    }
  }

  /**
   * The cell for set i and character c: -1 when goto is empty, otherwise the
   * index of the set goto reaches.
   */
  predicate CellOk(nodes: seq<Estado>, sets: seq<set<StateRef>>, i: nat, c: Byte, v: int)
    requires GraphValid(nodes) && i < |sets| && sets[i] <= Indices(nodes)
  {
    var U := Goto(nodes, sets[i], c);
    if U == {} then v == -1 else 0 <= v < |sets| && sets[v] == U
  }

  predicate Rectangular(rows: seq<seq<int>>) {
    forall i :: 0 <= i < |rows| ==> |rows[i]| == WIDTH
  }

  /** Some cell of a row before i, in the column of a symbol of the alphabet, holds i. */
  predicate EnteredEarlier(alf: set<Byte>, rows: seq<seq<int>>, i: nat)
    requires Rectangular(rows) && i < |rows|
  {
    exists j, c: Byte :: 0 <= j < i && c in Symbols(alf) && rows[j][c] == i
  }

  /**
   * rows is the table the subset construction builds for the NFA with this
   * start, these accepting states and this alphabet, sets[i] being the set of
   * NFA states that DFA state i stands for. Every DFA state but the first is
   * the target of a cell of an earlier row, so none is unreachable.
   */
  ghost predicate SubsetConstruction(nodes: seq<Estado>, start: StateRef, acc: set<StateRef>, alf: set<Byte>,
                                     sets: seq<set<StateRef>>, rows: seq<seq<int>>)
    requires GraphValid(nodes) && start < |nodes|
  {
    && |sets| == |rows| > 0
    && Rectangular(rows)
    && sets[0] == EpsClosure(nodes, {start})
    && (forall i :: 0 <= i < |sets| ==> sets[i] <= Indices(nodes) && sets[i] != {})
    && (forall i, j :: 0 <= i < j < |sets| ==> sets[i] != sets[j])
    && (forall i, c :: 0 <= i < |rows| && 0 <= c < TOKEN_COLUMN && c !in Symbols(alf) ==> rows[i][c] == -1)
    && (forall i, c: Byte :: 0 <= i < |rows| && c in Symbols(alf) ==> CellOk(nodes, sets, i, c, rows[i][c]))
    && (forall i :: 0 <= i < |rows| ==> IsWinner(nodes, sets[i], acc, rows[i][TOKEN_COLUMN]))
    && (forall i :: 0 < i < |rows| ==> EnteredEarlier(alf, rows, i))
  }

  /** The DFA state reached from q by reading w (-1 once it is stuck or w leaves the byte range). */
  function DfaRun(rows: seq<seq<int>>, q: int, w: seq<int>): (r: int)
    requires Rectangular(rows)
    ensures r == -1 || 0 <= r < |rows|
    decreases |w|
  {
    if q < 0 || q >= |rows| then -1
    else if w == [] then q
    else if !(0 <= w[0] < TOKEN_COLUMN) then -1
    else DfaRun(rows, rows[q][w[0]], w[1..])
  }

  predicate OverSymbols(w: seq<int>, alf: set<Byte>) {
    forall k :: 0 <= k < |w| ==> 0 <= w[k] < TOKEN_COLUMN && w[k] in Symbols(alf)
  }

  /**
   * Reading a word over the alphabet from DFA state i ends in the DFA state
   * standing for exactly the NFA states the word reaches from sets[i], and
   * the DFA is stuck exactly when the NFA has no state left.
   */
  lemma {:induction false} Simulation(nodes: seq<Estado>, start: StateRef, acc: set<StateRef>, alf: set<Byte>,
                                      sets: seq<set<StateRef>>, rows: seq<seq<int>>, i: nat, w: seq<int>)
    requires GraphValid(nodes) && start < |nodes|
    requires SubsetConstruction(nodes, start, acc, alf, sets, rows)
    requires i < |sets| && OverSymbols(w, alf)
    ensures DfaRun(rows, i, w) == -1 <==> Run(nodes, sets[i], w) == {}
    ensures DfaRun(rows, i, w) != -1 ==> sets[DfaRun(rows, i, w)] == Run(nodes, sets[i], w)
    decreases |w|
  {
    if w != [] {
      var c: Byte := w[0];
      assert c in Symbols(alf);
      assert CellOk(nodes, sets, i, c, rows[i][c]);
      var U := Goto(nodes, sets[i], c);
      assert Run(nodes, sets[i], w) == Run(nodes, U, w[1..]);
      assert OverSymbols(w[1..], alf) by {
        forall k | 0 <= k < |w[1..]|
          ensures 0 <= w[1..][k] < TOKEN_COLUMN && w[1..][k] in Symbols(alf)
        {
          assert w[1..][k] == w[k + 1];
        }
      }
      if U == {} {
        RunFromEmpty(nodes, w[1..]);
      } else {
        Simulation(nodes, start, acc, alf, sets, rows, rows[i][c], w[1..]);
      }
    }
  }

  /**
   * The table's verdict on a word over the alphabet: the DFA ends in a state
   * whose token column is t exactly when t is the winning token among the
   * NFA states the word reaches from the start (and -1 covers both "stuck"
   * and "not accepting").
   */
  lemma TokenOfWord(nodes: seq<Estado>, start: StateRef, acc: set<StateRef>, alf: set<Byte>,
                    sets: seq<set<StateRef>>, rows: seq<seq<int>>, w: seq<int>)
    requires GraphValid(nodes) && start < |nodes|
    requires SubsetConstruction(nodes, start, acc, alf, sets, rows)
    requires OverSymbols(w, alf)
    ensures var q := DfaRun(rows, 0, w);
            var R := Run(nodes, EpsClosure(nodes, {start}), w);
            (q == -1 ==> R == {} && Candidates(nodes, R, acc) == {})
            && (q != -1 ==> IsWinner(nodes, R, acc, rows[q][TOKEN_COLUMN]))
  {
    Simulation(nodes, start, acc, alf, sets, rows, 0, w);
  }

  /** Reading one more character after w continues from the state w ends in. */
  lemma {:induction false} DfaRunSnoc(rows: seq<seq<int>>, q: int, w: seq<int>, c: int)
    requires Rectangular(rows)
    ensures DfaRun(rows, q, w + [c]) == DfaRun(rows, DfaRun(rows, q, w), [c])
    decreases |w|
  {
    if 0 <= q < |rows| && w != [] && 0 <= w[0] < TOKEN_COLUMN {
      assert (w + [c])[1..] == w[1..] + [c];
      DfaRunSnoc(rows, rows[q][w[0]], w[1..], c);
    }
  }

  /** Every DFA state is reached from the start by some word over the alphabet. */
  lemma {:induction false} RowReached(nodes: seq<Estado>, start: StateRef, acc: set<StateRef>, alf: set<Byte>,
                                      sets: seq<set<StateRef>>, rows: seq<seq<int>>, i: nat)
    returns (w: seq<int>)
    requires GraphValid(nodes) && start < |nodes|
    requires SubsetConstruction(nodes, start, acc, alf, sets, rows)
    requires i < |rows|
    ensures OverSymbols(w, alf) && DfaRun(rows, 0, w) == i
    decreases i
  {
    if i == 0 {
      w := [];
    } else {
      assert EnteredEarlier(alf, rows, i);
      var j, c: Byte :| 0 <= j < i && c in Symbols(alf) && rows[j][c] == i;
      var v := RowReached(nodes, start, acc, alf, sets, rows, j);
      w := v + [c as int];
      DfaRunSnoc(rows, 0, v, c as int);
      assert DfaRun(rows, j, [c as int]) == DfaRun(rows, i, []);
    }
  }

  /**
   * The sets of NFA states the DFA states stand for are exactly the non-empty
   * sets reached from the start closure by words over the alphabet.
   */
  lemma SetsAreReachable(nodes: seq<Estado>, start: StateRef, acc: set<StateRef>, alf: set<Byte>,
                         sets: seq<set<StateRef>>, rows: seq<seq<int>>, U: set<StateRef>)
    requires GraphValid(nodes) && start < |nodes|
    requires SubsetConstruction(nodes, start, acc, alf, sets, rows)
    ensures (exists i :: 0 <= i < |sets| && sets[i] == U) <==>
      U != {} && exists w :: OverSymbols(w, alf) && Run(nodes, EpsClosure(nodes, {start}), w) == U
  {
    if i :| 0 <= i < |sets| && sets[i] == U {
      var w := RowReached(nodes, start, acc, alf, sets, rows, i);
      Simulation(nodes, start, acc, alf, sets, rows, 0, w);
    }
    if U != {} && exists w :: OverSymbols(w, alf) && Run(nodes, EpsClosure(nodes, {start}), w) == U {
      var w :| OverSymbols(w, alf) && Run(nodes, EpsClosure(nodes, {start}), w) == U;
      Simulation(nodes, start, acc, alf, sets, rows, 0, w);
      assert sets[DfaRun(rows, 0, w)] == U;
    }
  }

  /** The sets a table stands for, as a set. */
  ghost function SetsOfStates(sets: seq<set<StateRef>>): set<set<StateRef>> {
    set i | 0 <= i < |sets| :: sets[i]
  }

  /** A sequence of pairwise different sets has as many members as it has elements. */
  lemma {:induction false} DistinctCount(sets: seq<set<StateRef>>)
    requires forall i, j :: 0 <= i < j < |sets| ==> sets[i] != sets[j]
    ensures |SetsOfStates(sets)| == |sets|
    decreases |sets|
  {
    if sets != [] {
      var init := sets[..|sets| - 1];
      DistinctCount(init);
      assert SetsOfStates(sets) == SetsOfStates(init) + {sets[|sets| - 1]};
      assert sets[|sets| - 1] !in SetsOfStates(init);
    }
  }

  /**
   * Two tables built by the subset construction for the same NFA and
   * alphabet, whatever order the sets were found in, stand for the same sets
   * and so have the same number of states.
   */
  lemma SameStates(nodes: seq<Estado>, start: StateRef, acc: set<StateRef>, alf: set<Byte>,
                   sets1: seq<set<StateRef>>, rows1: seq<seq<int>>, sets2: seq<set<StateRef>>, rows2: seq<seq<int>>)
    requires GraphValid(nodes) && start < |nodes|
    requires SubsetConstruction(nodes, start, acc, alf, sets1, rows1)
    requires SubsetConstruction(nodes, start, acc, alf, sets2, rows2)
    ensures SetsOfStates(sets1) == SetsOfStates(sets2)
    ensures |rows1| == |rows2|
  {
    forall U
      ensures U in SetsOfStates(sets1) <==> U in SetsOfStates(sets2)
    {
      SetsAreReachable(nodes, start, acc, alf, sets1, rows1, U);
      SetsAreReachable(nodes, start, acc, alf, sets2, rows2, U);
    }
    DistinctCount(sets1);
    DistinctCount(sets2);
  }
}
