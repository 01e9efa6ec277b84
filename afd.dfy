/**
 * AFD.java: the deterministic automaton as a transition table, and its
 * construction from an AFN by the subset construction (AFNtoAFD).
 *
 * AFD extends AFN in Java only to reuse the epsilon-closure and goto helpers
 * and the alphabet field; here the AFD class has its own alphabet field and
 * the construction calls the Closure methods directly.
 */
module Dfa {
  import opened Wrappers
  import opened Markers
  import opened Transitions
  import opened States
  import opened Closure
  import opened ElemSets
  import opened Nfa
  import opened DfaSpec
  import opened Text
  import opened TableFile

  /** One pending table write: row origen, column simbolo, value destino. */
  datatype TransicionAFD = TransicionAFD(origen: int, simbolo: Byte, destino: int)

  /** The sets of NFA states the DFA states stand for, by DFA id. */
  function SetsOf(C: seq<ElemSj>): (r: seq<set<StateRef>>)
    ensures |r| == |C| && forall k :: 0 <= k < |C| ==> r[k] == C[k].S
  {
    seq(|C|, k requires 0 <= k < |C| => C[k].S)
  }

  ghost function Found(C: seq<ElemSj>): set<set<StateRef>> {
    set k | 0 <= k < |C| :: C[k].S
  }

  ghost function Subsets(U: set<StateRef>): set<set<StateRef>> {
    set X: set<StateRef> | X <= U
  }

  /**
   * determinarTokenConPrecedencia: scans the set in any order, keeping the
   * lowest token of an accepting state that is in edosAcept and has a token.
   */
  method DeterminarToken(nodes: seq<Estado>, S: set<StateRef>, acc: set<StateRef>) returns (t: int)
    ensures IsWinner(nodes, S, acc, t)
  {
    t := -1;
    var rest := S;
    ghost var seen: set<StateRef> := {};
    while rest != {}
      invariant rest + seen == S && rest !! seen
      invariant IsWinner(nodes, seen, acc, t)
      decreases rest
    {
      var q :| q in rest;
      if q < |nodes| && nodes[q].accepting && q in acc {
        var actual := nodes[q].token;
        if actual != -1 {
          if t == -1 || actual < t {
            t := actual;
          }
        }
      }
      assert Candidates(nodes, seen + {q}, acc) ==
        Candidates(nodes, seen, acc) + (if q in Candidates(nodes, S, acc) then {q} else {});
      rest := rest - {q};
      seen := seen + {q};
    }
    assert seen == S;
  }

  /** The entry of temp for row i and column c, if there is one. */
  predicate Covered(temp: seq<TransicionAFD>, i: int, c: Byte) {
    exists k :: 0 <= k < |temp| && temp[k].origen == i && temp[k].simbolo == c
  }

  /** A pending write agrees with goto on the set of its row. */
  ghost predicate EntryOk(nodes: seq<Estado>, C: seq<ElemSj>, e: TransicionAFD)
    requires GraphValid(nodes)
  {
    && 0 <= e.origen < |C|
    && C[e.origen].S <= Indices(nodes)
    && var U := Goto(nodes, C[e.origen].S, e.simbolo);
       if U == {} then e.destino == -1 else 0 <= e.destino < |C| && C[e.destino].S == U
  }

  /** What the worklist loop keeps about the DFA states found so far and their tokens. */
  ghost predicate Discovered(nodes: seq<Estado>, acc: set<StateRef>, C: seq<ElemSj>, tokens: map<int, int>) {
    && (forall k :: 0 <= k < |C| ==> C[k].id == k && C[k].S <= Indices(nodes) && C[k].S != {})
    && (forall i, j :: 0 <= i < j < |C| ==> C[i].S != C[j].S)
    && (forall k :: 0 <= k < |C| ==> k in tokens && IsWinner(nodes, C[k].S, acc, tokens[k]))
  }

  /** Every pending write comes from a row below done, uses a symbol of the alphabet and agrees with goto. */
  ghost predicate EntriesOk(nodes: seq<Estado>, alf: set<Byte>, C: seq<ElemSj>, temp: seq<TransicionAFD>, done: nat)
    requires GraphValid(nodes)
  {
    forall k :: 0 <= k < |temp| ==>
      temp[k].origen < done && temp[k].simbolo in Symbols(alf) && EntryOk(nodes, C, temp[k])
  }

  lemma EntriesGrow(nodes: seq<Estado>, alf: set<Byte>, C: seq<ElemSj>, C': seq<ElemSj>, temp: seq<TransicionAFD>, done: nat)
    requires GraphValid(nodes) && C <= C'
    requires EntriesOk(nodes, alf, C, temp, done)
    ensures EntriesOk(nodes, alf, C', temp, done)
  {
    forall k | 0 <= k < |temp|
      ensures EntryOk(nodes, C', temp[k])
    {
      assert EntryOk(nodes, C, temp[k]);
      assert C'[temp[k].origen] == C[temp[k].origen];
      if temp[k].destino != -1 && Goto(nodes, C[temp[k].origen].S, temp[k].simbolo) != {} {
        assert C'[temp[k].destino] == C[temp[k].destino];
      }
    }
  }

  /** Appending a correct write keeps the writes correct and covers its cell, besides those covered before. */
  lemma PushEntry(nodes: seq<Estado>, alf: set<Byte>, C: seq<ElemSj>, temp: seq<TransicionAFD>, done: nat, e: TransicionAFD)
    requires GraphValid(nodes) && EntriesOk(nodes, alf, C, temp, done)
    requires e.origen < done && e.simbolo in Symbols(alf) && EntryOk(nodes, C, e)
    ensures EntriesOk(nodes, alf, C, temp + [e], done)
    ensures Covered(temp + [e], e.origen, e.simbolo)
    ensures forall i, c :: Covered(temp, i, c) ==> Covered(temp + [e], i, c)
  {
    var t := temp + [e];
    assert t[|temp|] == e;
    forall i, c | Covered(temp, i, c)
      ensures Covered(t, i, c)
    {
      var k :| 0 <= k < |temp| && temp[k].origen == i && temp[k].simbolo == c;
      assert t[k] == temp[k];
    }
  }

  /** A new DFA state for a set not found before, numbered next, with its winning token. */
  lemma AddDiscovered(nodes: seq<Estado>, acc: set<StateRef>, C: seq<ElemSj>, tokens: map<int, int>,
                      U: set<StateRef>, tk: int)
    requires Discovered(nodes, acc, C, tokens)
    requires U != {} && U <= Indices(nodes) && IsWinner(nodes, U, acc, tk)
    requires forall k :: 0 <= k < |C| ==> C[k].S != U
    ensures Discovered(nodes, acc, C + [ElemSj(|C|, U)], tokens[|C| := tk])
  {
  }

  /** Buscar: the id of the element of C whose set is U, or -1. */
  method Buscar(C: seq<ElemSj>, U: set<StateRef>) returns (id: int)
    requires forall k :: 0 <= k < |C| ==> C[k].id == k
    ensures id == -1 <==> forall k :: 0 <= k < |C| ==> C[k].S != U
    ensures id != -1 ==> 0 <= id < |C| && C[id].S == U
  {
    id := -1;
    var k := 0;
    while k < |C|
      invariant 0 <= k <= |C|
      invariant forall j :: 0 <= j < k ==> C[j].S != U
    {
      if C[k].S == U {
        id := C[k].id;
        return;
      }
      k := k + 1;
    }
  }

  /** Every DFA state after the first was found as the target of a write from an earlier row. */
  ghost predicate Numbered(alf: set<Byte>, C: seq<ElemSj>, temp: seq<TransicionAFD>) {
    forall k :: 0 < k < |C| ==> WrittenEarlier(alf, temp, k)
  }

  /** Some write from a row before k, in the column of a symbol of the alphabet, puts k there. */
  predicate WrittenEarlier(alf: set<Byte>, temp: seq<TransicionAFD>, k: int) {
    exists m :: 0 <= m < |temp| && temp[m].origen < k && temp[m].simbolo in Symbols(alf) && temp[m].destino == k
  }

  /** Appending a write keeps every DFA state numbered; a write to a new last state numbers it too. */
  lemma NumberedPush(alf: set<Byte>, C: seq<ElemSj>, C': seq<ElemSj>, temp: seq<TransicionAFD>, e: TransicionAFD)
    requires Numbered(alf, C, temp)
    requires C' == C || (|C'| == |C| + 1 && e.origen < |C| && e.simbolo in Symbols(alf) && e.destino == |C|)
    ensures Numbered(alf, C', temp + [e])
  {
    var t := temp + [e];
    forall k | 0 < k < |C'|
      ensures WrittenEarlier(alf, t, k)
    {
      if k < |C| {
        assert WrittenEarlier(alf, temp, k);
        var m :| 0 <= m < |temp| && temp[m].origen < k && temp[m].simbolo in Symbols(alf) && temp[m].destino == k;
        assert t[m] == temp[m];
      } else {
        assert t[|temp|] == e;
      }
    }
  }

  /** The loop state after handling one symbol of the current DFA state. */
  ghost predicate ExpandInv(nodes: seq<Estado>, acc: set<StateRef>, alf: set<Byte>, act: ElemSj,
                            C0: seq<ElemSj>, temp0: seq<TransicionAFD>,
                            C: seq<ElemSj>, Q: seq<ElemSj>, temp: seq<TransicionAFD>, tokens: map<int, int>,
                            n: int, handled: set<Byte>)
    requires GraphValid(nodes)
  {
    && Discovered(nodes, acc, C, tokens)
    && n == |C|
    && C0 <= C && temp0 <= temp
    && 0 <= act.id < |C0| && C0[act.id] == act
    && Q == C[act.id + 1..]
    && EntriesOk(nodes, alf, C, temp, act.id + 1)
    && Numbered(alf, C, temp)
    && (forall c :: c in handled && c in Symbols(alf) ==> Covered(temp, act.id, c))
  }

  /** One iteration of the loop over the alphabet: the transition of act on c. */
  method ExpandSymbol(nodes: seq<Estado>, acc: set<StateRef>, alf: set<Byte>, act: ElemSj, c: Byte,
                      ghost C0: seq<ElemSj>, ghost temp0: seq<TransicionAFD>, ghost handled: set<Byte>,
                      C: seq<ElemSj>, Q: seq<ElemSj>, temp: seq<TransicionAFD>, tokens: map<int, int>, n: int)
    returns (C': seq<ElemSj>, Q': seq<ElemSj>, temp': seq<TransicionAFD>, tokens': map<int, int>, n': int)
    requires GraphValid(nodes) && c in alf
    requires ExpandInv(nodes, acc, alf, act, C0, temp0, C, Q, temp, tokens, n, handled)
    ensures ExpandInv(nodes, acc, alf, act, C0, temp0, C', Q', temp', tokens', n', handled + {c})
    ensures temp <= temp'
  {
    C', Q', temp', tokens', n' := C, Q, temp, tokens, n;
    if c == EPSILON {
      return;
    }
    assert act == C[act.id];
    var U := Ira(nodes, act.S, c);
    if U == {} {
      var e := TransicionAFD(act.id, c, -1);
      PushEntry(nodes, alf, C, temp, act.id + 1, e);
      NumberedPush(alf, C, C, temp, e);
      temp' := temp + [e];
      return;
    }
    var idDestino := Buscar(C, U);
    if idDestino == -1 {
      var nuevo := ElemSj(n, U);
      n' := n + 1;
      C' := C + [nuevo];
      Q' := Q + [nuevo];
      var tokenNuevo := DeterminarToken(nodes, U, acc);
      tokens' := tokens[nuevo.id := tokenNuevo];
      idDestino := nuevo.id;
      AddDiscovered(nodes, acc, C, tokens, U, tokenNuevo);
      EntriesGrow(nodes, alf, C, C', temp, act.id + 1);
      assert Q' == C'[act.id + 1..];
    }
    var e := TransicionAFD(act.id, c, idDestino);
    assert C'[act.id] == act;
    PushEntry(nodes, alf, C', temp, act.id + 1, e);
    NumberedPush(alf, C, C', temp, e);
    temp' := temp + [e];
  }

  /** The loop over the alphabet of one DFA state: every symbol but EPSILON gets its cell. */
  method ExpandState(nodes: seq<Estado>, acc: set<StateRef>, alf: set<Byte>, act: ElemSj,
                     C: seq<ElemSj>, Q: seq<ElemSj>, temp: seq<TransicionAFD>, tokens: map<int, int>, n: int)
    returns (C': seq<ElemSj>, Q': seq<ElemSj>, temp': seq<TransicionAFD>, tokens': map<int, int>, n': int)
    requires GraphValid(nodes)
    requires ExpandInv(nodes, acc, alf, act, C, temp, C, Q, temp, tokens, n, {})
    ensures ExpandInv(nodes, acc, alf, act, C, temp, C', Q', temp', tokens', n', alf)
  {
    C', Q', temp', tokens', n' := C, Q, temp, tokens, n;
    var rest := alf;
    while rest != {}
      invariant rest <= alf
      invariant ExpandInv(nodes, acc, alf, act, C, temp, C', Q', temp', tokens', n', alf - rest)
      decreases rest
    {
      var c :| c in rest;
      C', Q', temp', tokens', n' := ExpandSymbol(nodes, acc, alf, act, c, C, temp, alf - rest, C', Q', temp', tokens', n');
      assert (alf - rest) + {c} == alf - (rest - {c});
      rest := rest - {c};
    }
  }

  lemma CoveredPrefix(temp: seq<TransicionAFD>, temp': seq<TransicionAFD>)
    requires temp <= temp'
    ensures forall i, c :: Covered(temp, i, c) ==> Covered(temp', i, c)
  {
    forall i, c | Covered(temp, i, c)
      ensures Covered(temp', i, c)
    {
      var k :| 0 <= k < |temp| && temp[k].origen == i && temp[k].simbolo == c;
      assert temp'[k] == temp[k];
    }
  }

  /** The worklist loop state: Q holds the last DFA states found, the earlier ones have all their cells. */
  ghost predicate WorklistInv(nodes: seq<Estado>, start: StateRef, acc: set<StateRef>, alf: set<Byte>,
                              C: seq<ElemSj>, Q: seq<ElemSj>, temp: seq<TransicionAFD>, tokens: map<int, int>, n: int)
    requires GraphValid(nodes) && start < |nodes|
  {
    && Discovered(nodes, acc, C, tokens)
    && n == |C| >= 1
    && C[0].S == EpsClosure(nodes, {start})
    && |Q| <= |C| && Q == C[|C| - |Q|..]
    && EntriesOk(nodes, alf, C, temp, |C| - |Q|)
    && Numbered(alf, C, temp)
    && (forall i, c :: 0 <= i < |C| - |Q| && c in Symbols(alf) ==> Covered(temp, i, c))
  }

  /** The sets found only grow, and strictly when a DFA state was added; all of them are subsets of the arena. */
  lemma FoundGrows(nodes: seq<Estado>, acc: set<StateRef>, C: seq<ElemSj>, C': seq<ElemSj>, tokens: map<int, int>)
    requires C <= C' && Discovered(nodes, acc, C', tokens)
    ensures Found(C') <= Subsets(Indices(nodes))
    ensures |C'| == |C| ==> Found(C') == Found(C)
    ensures |C'| > |C| ==> Found(C) < Found(C')
  {
    if |C'| > |C| {
      assert C'[|C|].S in Found(C');
      assert C'[|C|].S !in Found(C) by {
        forall k | 0 <= k < |C|
          ensures C[k].S != C'[|C|].S
        {
          assert C[k] == C'[k];
        }
      }
      assert Found(C) <= Found(C') by {
        forall X | X in Found(C)
          ensures X in Found(C')
        {
          var k :| 0 <= k < |C| && C[k].S == X;
          assert C'[k] == C[k];
        }
      }
    } else {
      assert C' == C;
    }
  }

  /** The worklist loop: take the oldest pending DFA state and expand it, until none is pending. */
  method Worklist(nodes: seq<Estado>, start: StateRef, acc: set<StateRef>, alf: set<Byte>, s0: set<StateRef>)
    returns (C: seq<ElemSj>, temp: seq<TransicionAFD>, tokens: map<int, int>, n: int)
    requires GraphValid(nodes) && start < |nodes| && s0 == EpsClosure(nodes, {start})
    ensures WorklistInv(nodes, start, acc, alf, C, [], temp, tokens, n)
  {
    var sj0 := NewElemSj().(S := s0, id := 0);
    n := 1;
    C := [sj0];
    var Q := [sj0];
    var token0 := DeterminarToken(nodes, s0, acc);
    tokens := map[0 := token0];
    temp := [];
    while Q != []
      invariant WorklistInv(nodes, start, acc, alf, C, Q, temp, tokens, n)
      decreases Subsets(Indices(nodes)) - Found(C), |Q|
    {
      ghost var C0 := C;
      ghost var Q0 := Q;
      ghost var temp0 := temp;
      var act := Q[0];
      Q := Q[1..];
      assert act == C[|C| - |Q0|] && act.id == |C| - |Q0|;
      C, Q, temp, tokens, n := ExpandState(nodes, acc, alf, act, C, Q, temp, tokens, n);
      CoveredPrefix(temp0, temp);
      FoundGrows(nodes, acc, C0, C, tokens);
    }
  }

  /** The value the last pending write for cell (i, c) puts there, or -1 when there is none. */
  function LastWrite(temp: seq<TransicionAFD>, i: int, c: int): int {
    if temp == [] then -1
    else
      var e := temp[|temp| - 1];
      if e.origen == i && e.simbolo == c then e.destino else LastWrite(temp[..|temp| - 1], i, c)
  }

  /** When all writes to a cell agree on v, the cell ends as v if written and -1 otherwise. */
  lemma {:induction false} LastWriteAgrees(temp: seq<TransicionAFD>, i: int, c: Byte, v: int)
    requires forall k :: 0 <= k < |temp| && temp[k].origen == i && temp[k].simbolo == c ==> temp[k].destino == v
    ensures Covered(temp, i, c) ==> LastWrite(temp, i, c) == v
    ensures !Covered(temp, i, c) ==> LastWrite(temp, i, c) == -1
    decreases |temp|
  {
    if temp != [] {
      var init := temp[..|temp| - 1];
      assert forall k :: 0 <= k < |init| ==> init[k] == temp[k];
      LastWriteAgrees(init, i, c, v);
      if Covered(temp, i, c) && !(temp[|temp| - 1].origen == i && temp[|temp| - 1].simbolo == c) {
        var k :| 0 <= k < |temp| && temp[k].origen == i && temp[k].simbolo == c;
        assert k < |init|;
      }
      if !Covered(init, i, c) && temp[|temp| - 1].origen == i && temp[|temp| - 1].simbolo == c {
        assert Covered(temp, i, c);
      }
    }
  }

  /** A cell whose character is outside the alphabet is never written. */
  lemma CellOutside(temp: seq<TransicionAFD>, alf: set<Byte>, i: int, c: Byte)
    requires forall k :: 0 <= k < |temp| ==> temp[k].simbolo in Symbols(alf)
    requires c !in Symbols(alf)
    ensures LastWrite(temp, i, c) == -1
  {
    forall k | 0 <= k < |temp|
      ensures !(temp[k].origen == i && temp[k].simbolo == c)
    {
      assert temp[k].simbolo in Symbols(alf);
    }
    LastWriteAgrees(temp, i, c, -1);
  }

  /** A written cell holds what goto on its row's set says. */
  lemma CellInside(nodes: seq<Estado>, C: seq<ElemSj>, temp: seq<TransicionAFD>, i: nat, c: Byte)
    requires GraphValid(nodes)
    requires forall k :: 0 <= k < |C| ==> C[k].S <= Indices(nodes)
    requires forall i, j :: 0 <= i < j < |C| ==> C[i].S != C[j].S
    requires forall k :: 0 <= k < |temp| ==> EntryOk(nodes, C, temp[k])
    requires i < |C| && Covered(temp, i, c)
    ensures CellOk(nodes, SetsOf(C), i, c, LastWrite(temp, i, c))
  {
    var k :| 0 <= k < |temp| && temp[k].origen == i && temp[k].simbolo == c;
    var v := temp[k].destino;
    assert EntryOk(nodes, C, temp[k]);
    forall k' | 0 <= k' < |temp| && temp[k'].origen == i && temp[k'].simbolo == c
      ensures temp[k'].destino == v
    {
      assert EntryOk(nodes, C, temp[k']);
    }
    LastWriteAgrees(temp, i, c, v);
  }

  /** The finished worklist and a table filled from its writes and tokens make a subset construction. */
  lemma FinalTable(nodes: seq<Estado>, start: StateRef, acc: set<StateRef>, alf: set<Byte>,
                   C: seq<ElemSj>, temp: seq<TransicionAFD>, tokens: map<int, int>, rows: seq<seq<int>>)
    requires GraphValid(nodes) && start < |nodes|
    requires WorklistInv(nodes, start, acc, alf, C, [], temp, tokens, |C|)
    requires |rows| == |C| && Rectangular(rows)
    requires forall i, c :: 0 <= i < |rows| && 0 <= c < TOKEN_COLUMN ==> rows[i][c] == LastWrite(temp, i, c)
    requires forall i :: 0 <= i < |rows| ==> i in tokens && rows[i][TOKEN_COLUMN] == tokens[i]
    ensures SubsetConstruction(nodes, start, acc, alf, SetsOf(C), rows)
  {
    var sets := SetsOf(C);
    forall i, c | 0 <= i < |rows| && 0 <= c < TOKEN_COLUMN && c !in Symbols(alf)
      ensures rows[i][c] == -1
    {
      CellOutside(temp, alf, i, c);
    }
    forall i, c: Byte | 0 <= i < |rows| && c in Symbols(alf)
      ensures CellOk(nodes, sets, i, c, rows[i][c])
    {
      assert Covered(temp, i, c);
      CellInside(nodes, C, temp, i, c);
    }
    forall i | 0 < i < |rows|
      ensures EnteredEarlier(alf, rows, i)
    {
      var j, c := CellOfNumbered(nodes, alf, C, temp, i);
      assert rows[j][c] == i;
    }
  }

  /** The write that numbered DFA state i survives as a cell of an earlier row holding i. */
  lemma CellOfNumbered(nodes: seq<Estado>, alf: set<Byte>, C: seq<ElemSj>, temp: seq<TransicionAFD>, i: nat)
    returns (j: nat, c: Byte)
    requires GraphValid(nodes)
    requires forall k :: 0 <= k < |C| ==> C[k].S <= Indices(nodes)
    requires forall i, j :: 0 <= i < j < |C| ==> C[i].S != C[j].S
    requires forall k :: 0 <= k < |temp| ==> EntryOk(nodes, C, temp[k])
    requires 0 < i < |C| && WrittenEarlier(alf, temp, i)
    ensures j < i && c in Symbols(alf) && LastWrite(temp, j, c) == i
  {
    var m :| 0 <= m < |temp| && temp[m].origen < i && temp[m].simbolo in Symbols(alf) && temp[m].destino == i;
    assert EntryOk(nodes, C, temp[m]);
    j, c := temp[m].origen, temp[m].simbolo;
    var U := Goto(nodes, C[j].S, c);
    assert U != {} && C[i].S == U;
    forall k | 0 <= k < |temp| && temp[k].origen == j && temp[k].simbolo == c
      ensures temp[k].destino == i
    {
      assert EntryOk(nodes, C, temp[k]);
      assert C[temp[k].destino].S == C[i].S;
    }
    assert Covered(temp, j, c);
    LastWriteAgrees(temp, j, c, i);
  }

  /** Every cell of the table, row by row. */
  ghost function Rows(t: array2<int>): (rows: seq<seq<int>>)
    reads t
    ensures |rows| == t.Length0
    ensures forall i :: 0 <= i < t.Length0 ==> |rows[i]| == t.Length1
    ensures forall i, j :: 0 <= i < t.Length0 && 0 <= j < t.Length1 ==> rows[i][j] == t[i, j]
  {
    seq(t.Length0, i requires 0 <= i < t.Length0 reads t =>
      seq(t.Length1, j requires 0 <= j < t.Length1 reads t => t[i, j]))
  }

  /**
   * The table-building part of AFNtoAFD: a fresh n by 257 table of -1,
   * every pending write whose row is in range applied in order, then the
   * token column filled from the map (-1 for a missing entry).
   */
  method BuildTable(n: nat, temp: seq<TransicionAFD>, tokens: map<int, int>) returns (t: array2<int>)
    ensures fresh(t) && t.Length0 == n && t.Length1 == WIDTH
    ensures forall i, c :: 0 <= i < n && 0 <= c < TOKEN_COLUMN ==> t[i, c] == LastWrite(temp, i, c)
    ensures forall i :: 0 <= i < n ==> t[i, TOKEN_COLUMN] == if i in tokens then tokens[i] else -1
  {
    t := new int[n, WIDTH]((i, j) => -1);
    var k := 0;
    while k < |temp|
      invariant 0 <= k <= |temp|
      invariant forall i, c :: 0 <= i < n && 0 <= c < TOKEN_COLUMN ==> t[i, c] == LastWrite(temp[..k], i, c)
      invariant forall i :: 0 <= i < n ==> t[i, TOKEN_COLUMN] == -1
    {
      var e := temp[k];
      if 0 <= e.origen < n && 0 <= e.simbolo < TOKEN_COLUMN {
        t[e.origen, e.simbolo] := e.destino;
      }
      assert temp[..k + 1][..k] == temp[..k];
      k := k + 1;
    }
    assert temp[..k] == temp;
    var idEstado := 0;
    while idEstado < n
      invariant 0 <= idEstado <= n
      invariant forall i, c :: 0 <= i < n && 0 <= c < TOKEN_COLUMN ==> t[i, c] == LastWrite(temp, i, c)
      invariant forall i :: 0 <= i < idEstado ==> t[i, TOKEN_COLUMN] == if i in tokens then tokens[i] else -1
    {
      t[idEstado, TOKEN_COLUMN] := if idEstado in tokens then tokens[idEstado] else -1;
      idEstado := idEstado + 1;
    }
  }

  /** Row i of the table. */
  ghost function RowOf(t: array2<int>, i: nat): (row: seq<int>)
    requires i < t.Length0
    reads t
    ensures |row| == t.Length1 && forall k :: 0 <= k < t.Length1 ==> row[k] == t[i, k]
  {
    seq(t.Length1, k requires 0 <= k < t.Length1 reads t => t[i, k])
  }

  /** What the writer has put on the line after the first j cells of row. */
  ghost function Written(row: seq<int>, j: nat): string
    requires 1 <= j <= |row|
  {
    Text.Join(Strings(row[..j]), ';') + (if j < |row| then ";" else "")
  }

  /** The first cell starts the line. */
  lemma WrittenFirst(row: seq<int>)
    requires 1 <= |row|
    ensures Written(row, 1) == IntToString(row[0]) + (if 1 < |row| then ";" else "")
  {
    assert Strings(row[..1]) == [IntToString(row[0])];
  }

  /** Each further cell is appended after the separator already written. */
  lemma WrittenStep(row: seq<int>, j: nat)
    requires 1 <= j < |row|
    ensures Written(row, j + 1) == Written(row, j) + IntToString(row[j]) + (if j + 1 < |row| then ";" else "")
  {
    assert Strings(row[..j + 1]) == Strings(row[..j]) + [IntToString(row[j])];
    JoinSnoc(Strings(row[..j]), IntToString(row[j]), ';');
  }

  /** One line of the file: the 257 cells of row i, each followed by ';' except the last. */
  method WriteRow(t: array2<int>, i: nat) returns (line: string)
    requires i < t.Length0 && t.Length1 == WIDTH
    ensures line == RowLine(RowOf(t, i))
  {
    ghost var row := RowOf(t, i);
    line := "";
    var j := 0;
    while j < WIDTH
      invariant 0 <= j <= WIDTH
      invariant j == 0 ==> line == ""
      invariant 0 < j ==> line == Written(row, j)
    {
      if j == 0 {
        WrittenFirst(row);
      } else {
        WrittenStep(row, j);
      }
      line := line + IntToString(t[i, j]) + (if j != TOKEN_COLUMN then ";" else "");
      j := j + 1;
    }
    assert row[..WIDTH] == row;
  }

  /** The first |done| rows of t hold the rows of done. */
  ghost predicate Holds(t: array2<int>, done: seq<seq<int>>)
    reads t
  {
    && |done| <= t.Length0
    && (forall i :: 0 <= i < |done| ==> |done[i]| == t.Length1)
    && forall i, k :: 0 <= i < |done| && 0 <= k < t.Length1 ==> t[i, k] == done[i][k]
  }

  /** Nothing read yet. */
  lemma PrependNothing(r: Result<seq<seq<int>>, LoadError>)
    ensures Prepend([], r) == r
  {
    match r {
      case Success(more) => assert [] + more == more;
      case Failure(_) =>
    }
  }

  /** The next row of t gets values. */
  method StoreRow(t: array2<int>, i: nat, values: seq<int>, ghost done: seq<seq<int>>)
    requires Holds(t, done) && i == |done| < t.Length0 && t.Length1 == WIDTH && |values| == WIDTH
    modifies t
    ensures Holds(t, done + [values])
  {
    CopyRow(t, i, values);
  }

  method CopyRow(t: array2<int>, i: nat, values: seq<int>)
    requires i < t.Length0 && t.Length1 == WIDTH && |values| == WIDTH
    modifies t
    ensures forall k :: 0 <= k < WIDTH ==> t[i, k] == values[k]
    ensures forall r, k :: 0 <= r < t.Length0 && r != i && 0 <= k < WIDTH ==> t[r, k] == old(t[r, k])
  {
    var k := 0;
    while k < WIDTH
      invariant 0 <= k <= WIDTH
      invariant forall j :: 0 <= j < k ==> t[i, j] == values[j]
      invariant forall r, j :: 0 <= r < t.Length0 && r != i && 0 <= j < WIDTH ==> t[r, j] == old(t[r, j])
    {
      t[i, k] := values[k];
      k := k + 1;
    }
  }

  /** The rows parsed so far followed by what the rest of the file parses to. */
  function Prepend(done: seq<seq<int>>, r: Result<seq<seq<int>>, LoadError>): Result<seq<seq<int>>, LoadError> {
    match r
    case Failure(e) => Failure(e)
    case Success(more) => Success(done + more)
  }

  /** One more line read: its row moves from the rest of the file to the rows read. */
  lemma PrependStep(done: seq<seq<int>>, rest: seq<string>, row: nat, n: nat, v: seq<int>)
    requires row < n && rest != [] && ParseRow(rest[0], row) == Success(v)
    ensures Prepend(done + [v], ParseRows(rest[1..], row + 1, n)) == Prepend(done, ParseRows(rest, row, n))
  {
    match ParseRows(rest[1..], row + 1, n) {
      case Success(more) => assert done + [v] + more == done + ([v] + more);
      case Failure(_) =>
    }
  }

  /** How reading stops: a line that cannot be read, the lines running out, or all n rows read. */
  lemma PrependStop(done: seq<seq<int>>, rest: seq<string>, row: nat, n: nat)
    requires row <= n && (row == n || rest == [] || ParseRow(rest[0], row).Failure?)
    ensures row < n && rest != [] ==> Prepend(done, ParseRows(rest, row, n)) == Failure(ParseRow(rest[0], row).error)
    ensures row < n && rest == [] ==> Prepend(done, ParseRows(rest, row, n)) == Failure(MissingRows(row))
    ensures row == n ==> Prepend(done, ParseRows(rest, row, n)) == Success(done)
  {
    if row == n {
      assert done + [] == done;
    }
  }

  /** A table whose cells are those of the given rows has those rows. */
  lemma RowsAre(t: array2<int>, done: seq<seq<int>>)
    requires |done| == t.Length0 && forall i :: 0 <= i < |done| ==> |done[i]| == t.Length1
    requires forall i, k :: 0 <= i < t.Length0 && 0 <= k < t.Length1 ==> t[i, k] == done[i][k]
    ensures Rows(t) == done
  {
    var rows := Rows(t);
    forall i | 0 <= i < |done|
      ensures rows[i] == done[i]
    {
      assert |rows[i]| == |done[i]|;
    }
  }

  /** One line of the loop below: its row stored in t, or the reason it cannot be read. */
  method ReadRow(t: array2<int>, rest: seq<string>, idEdo: nat, n: nat, ghost done: seq<seq<int>>)
    returns (failed: Option<LoadError>, ghost done': seq<seq<int>>)
    requires idEdo < n && idEdo < |rest| && |done| == idEdo
    requires t.Length0 == n && t.Length1 == WIDTH && Holds(t, done)
    modifies t
    ensures failed.Some? ==> Prepend(done, ParseRows(rest[idEdo..], idEdo, n)) == Failure(failed.value)
    ensures failed.None? ==> |done'| == idEdo + 1 && Holds(t, done')
    ensures failed.None? ==>
      Prepend(done', ParseRows(rest[idEdo + 1..], idEdo + 1, n)) == Prepend(done, ParseRows(rest[idEdo..], idEdo, n))
  {
    var row := ParseRow(rest[idEdo], idEdo);
    if row.Failure? {
      PrependStop(done, rest[idEdo..], idEdo, n);
      return Some(row.error), done;
    }
    StoreRow(t, idEdo, row.value, done);
    assert rest[idEdo..][1..] == rest[idEdo + 1..];
    PrependStep(done, rest[idEdo..], idEdo, n, row.value);
    failed, done' := None, done + [row.value];
  }

  /**
   * The loop of leerAFDdeArchivo over the lines after the first: a fresh n
   * by 257 table with row idEdo read from line idEdo, stopping at the first
   * line that cannot be read or when the lines run out before n rows.
   */
  method ReadRows(rest: seq<string>, n: nat) returns (t: array2<int>, r: Result<(), LoadError>)
    requires n > 0
    ensures fresh(t) && t.Length0 == n && t.Length1 == WIDTH
    ensures ParseRows(rest, 0, n).Failure? ==> r == Failure(ParseRows(rest, 0, n).error)
    ensures ParseRows(rest, 0, n).Success? ==> r.Success? && Rows(t) == ParseRows(rest, 0, n).value
  {
    t := new int[n, WIDTH];
    var idEdo := 0;
    ghost var done: seq<seq<int>> := [];
    PrependNothing(ParseRows(rest, 0, n));
    while idEdo < n && idEdo < |rest|
      invariant 0 <= idEdo <= n && |done| == idEdo && idEdo <= |rest|
      invariant t.Length0 == n && t.Length1 == WIDTH && Holds(t, done)
      invariant Prepend(done, ParseRows(rest[idEdo..], idEdo, n)) == ParseRows(rest, 0, n)
    {
      var failed;
      failed, done := ReadRow(t, rest, idEdo, n, done);
      if failed.Some? {
        return t, Failure(failed.value);
      }
      idEdo := idEdo + 1;
    }
    PrependStop(done, rest[idEdo..], idEdo, n);
    if idEdo != n {
      return t, Failure(MissingRows(idEdo));
    }
    RowsAre(t, done);
    r := Success(());
  }

  class AFD {
    /** numEdos: the number of DFA states. */
    var numEdos: int
    /** tablaAFD: numEdos rows of 257 cells, or null before a table is set. */
    var tabla: array2?<int>
    /** The alphabet, never holding EPSILON once set through the constructors or setAlfabeto. */
    var alfabeto: set<Byte>

    /** AFD(): no states, no table, empty alphabet. */
    constructor ()
      ensures numEdos == 0 && tabla == null && alfabeto == {}
    {
      numEdos := 0;
      tabla := null;
      alfabeto := {};
    }

    /** AFD(n): n states and a fresh n by 257 table of -1. */
    constructor WithStates(n: nat)
      ensures numEdos == n && alfabeto == {}
      ensures tabla != null && fresh(tabla) && tabla.Length0 == n && tabla.Length1 == WIDTH
      ensures forall i, j :: 0 <= i < n && 0 <= j < WIDTH ==> tabla[i, j] == -1
    {
      numEdos := n;
      tabla := new int[n, WIDTH]((i, j) => -1);
      alfabeto := {};
    }

    /** AFD(n, alf): as AFD(n), with a copy of alf without EPSILON as alphabet. */
    constructor WithAlphabet(n: nat, alf: set<Byte>)
      ensures numEdos == n && alfabeto == Symbols(alf)
      ensures tabla != null && fresh(tabla) && tabla.Length0 == n && tabla.Length1 == WIDTH
      ensures forall i, j :: 0 <= i < n && 0 <= j < WIDTH ==> tabla[i, j] == -1
    {
      numEdos := n;
      tabla := new int[n, WIDTH]((i, j) => -1);
      alfabeto := Symbols(alf);
    }

    /** setAlfabeto: a copy without EPSILON; null gives the empty alphabet. */
    method SetAlfabeto(alf: Option<set<Byte>>)
      modifies this
      ensures alfabeto == if alf.None? then {} else Symbols(alf.value)
      ensures EPSILON !in alfabeto
      ensures numEdos == old(numEdos) && tabla == old(tabla)
    {
      alfabeto := if alf.None? then {} else Symbols(alf.value);
    }

    /**
     * AFNtoAFD: the subset construction. Without an AFN or without a start
     * state the result is the empty AFD. Otherwise the result has one state
     * per set of NFA states reached from the epsilon-closure of the start,
     * the alphabet of the AFN without EPSILON, and the table that
     * SubsetConstruction describes; sets lists the set of NFA states behind
     * each DFA state. The receiver is not used.
     */
    method AFNtoAFD(a: AFN?, arena: Arena) returns (d: AFD, ghost sets: seq<set<StateRef>>)
      requires a != null ==> a.Valid(arena)
      ensures fresh(d)
      ensures a == null || a.edoInicial.None? ==> d.numEdos == 0 && d.tabla == null && d.alfabeto == {}
      ensures a != null && a.edoInicial.Some? ==>
        && d.tabla != null && fresh(d.tabla)
        && d.numEdos == d.tabla.Length0 == |sets| && d.tabla.Length1 == WIDTH
        && d.alfabeto == Symbols(a.alfabeto)
        && SubsetConstruction(arena.nodes, a.edoInicial.value, a.edosAcept, a.alfabeto, sets, Rows(d.tabla))
    {
      if a == null || a.edoInicial.None? {
        d := new AFD();
        sets := [];
        return;
      }
      var nodes := arena.nodes;
      var start := a.edoInicial.value;
      var s0 := CerraduraEpsilon(nodes, a.edoInicial);
      var C, temp, tokens, n := Worklist(nodes, start, a.edosAcept, a.alfabeto, s0);
      d := new AFD();
      d.numEdos := n;
      d.SetAlfabeto(Some(a.alfabeto));
      var tablaFinal := BuildTable(n, temp, tokens);
      d.tabla := tablaFinal;
      sets := SetsOf(C);
      FinalTable(nodes, start, a.edosAcept, a.alfabeto, C, temp, tokens, Rows(tablaFinal));
    }

    /**
     * guardarAFDenArchivo: the lines written to the file, or the IOException.
     * On a bad row the Java writer leaves the lines before that row in the
     * file; the model returns only the failure.
     */
    method GuardarAFDenArchivo() returns (r: Result<seq<string>, SaveError>)
      ensures r == Serialize(numEdos, if tabla == null then None else Some(Rows(tabla)))
    {
      if tabla == null || numEdos <= 0 || tabla.Length0 != numEdos {
        return Failure(Inconsistent);
      }
      ghost var rows := Rows(tabla);
      var lines := [IntToString(numEdos)];
      var i := 0;
      while i < numEdos
        invariant 0 <= i <= numEdos
        invariant i > 0 ==> tabla.Length1 == WIDTH
        invariant |lines| == i + 1 && lines[0] == IntToString(numEdos)
        invariant forall k :: 0 <= k < i ==> lines[k + 1] == RowLine(rows[k])
      {
        if tabla.Length1 != WIDTH {
          assert |rows[0]| != CELLS;
          return Failure(InvalidRow(i));
        }
        var line := WriteRow(tabla, i);
        assert RowOf(tabla, i) == rows[i];
        lines := lines + [line];
        i := i + 1;
      }
      var body := SerializeRows(rows, 0);
      SerializeRowsOk(rows, 0);
      assert lines == [IntToString(numEdos)] + body.value by {
        forall k | 0 <= k < |lines|
          ensures lines[k] == ([IntToString(numEdos)] + body.value)[k]
        {
          if k > 0 {
            assert body.value[k - 1] == RowLine(rows[k - 1]);
          }
        }
      }
      r := Success(lines);
    }

    /**
     * leerAFDdeArchivo: reads the table from the file's lines. On success the
     * number of states and a fresh table hold what was read and the alphabet
     * is kept; on any error the AFD is emptied (no states, no table, empty
     * alphabet) and the error is returned.
     */
    method LeerAFDdeArchivo(lines: seq<string>) returns (r: Result<(), LoadError>)
      modifies this
      ensures Deserialize(lines).Failure? ==>
        r == Failure(Deserialize(lines).error) && numEdos == 0 && tabla == null && alfabeto == {}
      ensures Deserialize(lines).Success? ==>
        && r.Success? && numEdos == Deserialize(lines).value.0
        && tabla != null && fresh(tabla) && tabla.Length1 == WIDTH
        && Rows(tabla) == Deserialize(lines).value.1
        && alfabeto == old(alfabeto)
    {
      var e: LoadError := EmptyFile;
      if lines == [] {
        e := EmptyFile;
      } else {
        var parsed := ParseInt(Trim(lines[0]));
        if parsed.None? {
          e := BadNumber;
        } else if parsed.value < 0 {
          e := NegativeCount(parsed.value);
        } else if parsed.value == 0 {
          numEdos := 0;
          tabla := new int[0, WIDTH];
          assert Rows(tabla) == [];
          return Success(());
        } else {
          var n: nat := parsed.value;
          var t, read := ReadRows(lines[1..], n);
          if read.Failure? {
            e := read.error;
          } else {
            numEdos := n;
            tabla := t;
            return Success(());
          }
        }
      }
      numEdos := 0;
      tabla := null;
      alfabeto := {};
      r := Failure(e);
    }
  }
}
