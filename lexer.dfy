/**
 * AnalizLexico.java: the scanner that walks a DFA table over an input
 * string and returns one token per call, taking the longest lexeme the
 * table accepts (maximal munch), skipping lexemes whose token is OMITIR,
 * returning ERROR for a character that starts no lexeme and FIN at the end.
 *
 * The specification (LongestAccept, Lex) is stated on the table's rows and
 * the input's character codes; the class AnalizLexico keeps the Java fields
 * that survive between calls and is proved against it.
 */
module Lexer {
  import opened Wrappers
  import opened Markers
  import opened Transitions
  import opened States
  import opened Closure
  import opened DfaSpec
  import opened Dfa

  /** The character codes of s, as yylex reads them with (int) charAt. */
  function Codes(s: string): (w: seq<int>)
    ensures |w| == |s| && forall i :: 0 <= i < |s| ==> w[i] == s[i] as int
  {
    seq(|s|, i requires 0 <= i < |s| => s[i] as int)
  }

  /** DFA state q is one of the table's states and its token column is not -1. */
  predicate Accepting(rows: seq<seq<int>>, q: int)
    requires Rectangular(rows)
  {
    0 <= q < |rows| && rows[q][TOKEN_COLUMN] != -1
  }

  /** The table accepts the first k characters of w (k >= 1: the start state is never checked). */
  predicate AcceptsPrefix(rows: seq<seq<int>>, w: seq<int>, k: nat)
    requires Rectangular(rows) && k <= |w|
  {
    1 <= k && Accepting(rows, DfaRun(rows, 0, w[..k]))
  }

  /**
   * The length of the longest prefix of w of length at most k that the table
   * accepts, or 0 when there is none.
   */
  function LongestAccept(rows: seq<seq<int>>, w: seq<int>, k: nat): (L: nat)
    requires Rectangular(rows) && k <= |w|
    ensures L <= k
    ensures L > 0 ==> AcceptsPrefix(rows, w, L)
    ensures forall m :: L < m <= k ==> !AcceptsPrefix(rows, w, m)
    decreases k
  {
    if k == 0 then 0
    else if AcceptsPrefix(rows, w, k) then k
    else LongestAccept(rows, w, k - 1)
  }

  /** One more character: the run steps from where it was (and stays stuck once stuck). */
  lemma {:induction false} DfaRunSnoc(rows: seq<seq<int>>, q: int, w: seq<int>, c: int)
    requires Rectangular(rows)
    ensures DfaRun(rows, q, w + [c]) ==
      var p := DfaRun(rows, q, w);
      if p == -1 || !(0 <= c < TOKEN_COLUMN) then -1 else DfaRun(rows, rows[p][c], [])
    decreases |w|
  {
    if w == [] {
      assert ([] + [c])[1..] == [];
    } else if 0 <= q < |rows| && 0 <= w[0] < TOKEN_COLUMN {
      assert (w + [c])[1..] == w[1..] + [c];
      DfaRunSnoc(rows, rows[q][w[0]], w[1..], c);
    }
  }

  /** Once the run is stuck no longer prefix is accepted. */
  lemma {:induction false} StuckStays(rows: seq<seq<int>>, w: seq<int>, k: nat, m: nat)
    requires Rectangular(rows) && k <= m <= |w|
    requires DfaRun(rows, 0, w[..k]) == -1
    ensures DfaRun(rows, 0, w[..m]) == -1
    decreases m - k
  {
    if k < m {
      assert w[..k + 1] == w[..k] + [w[k]];
      DfaRunSnoc(rows, 0, w[..k], w[k]);
      StuckStays(rows, w, k + 1, m);
    }
  }

  /** When the run is stuck after k + 1 characters the longest accepted prefix is at most k long. */
  lemma LongestStops(rows: seq<seq<int>>, w: seq<int>, k: nat)
    requires Rectangular(rows) && k < |w|
    requires DfaRun(rows, 0, w[..k + 1]) == -1
    ensures LongestAccept(rows, w, |w|) == LongestAccept(rows, w, k)
  {
    forall m | k < m <= |w|
      ensures !AcceptsPrefix(rows, w, m)
    {
      StuckStays(rows, w, k + 1, m);
    }
    LongestUpTo(rows, w, k, |w|);
  }

  /** Without accepted prefixes beyond k, looking further finds the same longest one. */
  lemma {:induction false} LongestUpTo(rows: seq<seq<int>>, w: seq<int>, k: nat, n: nat)
    requires Rectangular(rows) && k <= n <= |w|
    requires forall m :: k < m <= n ==> !AcceptsPrefix(rows, w, m)
    ensures LongestAccept(rows, w, n) == LongestAccept(rows, w, k)
    decreases n
  {
    if k < n {
      LongestUpTo(rows, w, k, n - 1);
    }
  }

  /** The outcome of one yylex call: the token, the lexeme w[start..end], and the positions pushed on the stack. */
  datatype Step = Step(token: int, start: nat, end: nat, pushed: seq<nat>)

  /**
   * yylex from position p: FIN at the end of the input; ERROR with the one
   * character at p when no prefix from p is accepted; otherwise the longest
   * accepted lexeme with the token of the state it ends in, skipping it and
   * starting again after it when that token is OMITIR. Every attempt pushes
   * its starting position.
   */
  function Lex(rows: seq<seq<int>>, w: seq<int>, p: nat): (r: Step)
    requires Rectangular(rows) && p <= |w|
    ensures p <= r.start <= r.end <= |w| && r.pushed != [] && r.pushed[0] == p
    ensures forall i :: 0 <= i < |r.pushed| ==> p <= r.pushed[i] <= |w|
    ensures r.token != OMITIR
    ensures r.start == r.end ==> r.token == FIN && r.end == |w|
    decreases |w| - p
  {
    if p == |w| then Step(FIN, p, p, [p])
    else
      var L := LongestAccept(rows, w[p..], |w| - p);
      if L == 0 then Step(ERROR, p, p + 1, [p])
      else
        var t := rows[DfaRun(rows, 0, w[p..][..L])][TOKEN_COLUMN];
        if t == OMITIR then
          var r := Lex(rows, w, p + L);
          r.(pushed := [p] + r.pushed)
        else Step(t, p, p + L, [p])
  }

  /**
   * Maximal munch: a returned token other than FIN and ERROR comes with the
   * longest accepted lexeme at its start, and is the token of the DFA state
   * that lexeme leads to.
   */
  lemma LexIsMaximalMunch(rows: seq<seq<int>>, w: seq<int>, p: nat)
    requires Rectangular(rows) && p <= |w|
    ensures var r := Lex(rows, w, p);
            r.token != FIN && r.token != ERROR ==>
              var lexeme := w[r.start..r.end];
              && Accepting(rows, DfaRun(rows, 0, lexeme))
              && rows[DfaRun(rows, 0, lexeme)][TOKEN_COLUMN] == r.token
              && forall m :: |lexeme| < m <= |w| - r.start ==> !AcceptsPrefix(rows, w[r.start..], m)
    decreases |w| - p
  {
    if p < |w| {
      var L := LongestAccept(rows, w[p..], |w| - p);
      if L > 0 {
        assert w[p..][..L] == w[p..p + L];
        var t := rows[DfaRun(rows, 0, w[p..][..L])][TOKEN_COLUMN];
        if t == OMITIR {
          LexIsMaximalMunch(rows, w, p + L);
        } else {
          assert w[p..][..L] == w[p..p + L];
        }
      }
    }
  }

  /**
   * The scanner on a table built by the subset construction: a lexeme's
   * token is the winning token among the NFA states the lexeme reaches from
   * the start, with the lowest token winning.
   */
  lemma LexemeTokenFromNfa(nodes: seq<Estado>, start: StateRef, acc: set<StateRef>, alf: set<Byte>,
                           sets: seq<set<StateRef>>, rows: seq<seq<int>>, lexeme: seq<int>)
    requires GraphValid(nodes) && start < |nodes|
    requires SubsetConstruction(nodes, start, acc, alf, sets, rows)
    requires OverSymbols(lexeme, alf)
    requires Accepting(rows, DfaRun(rows, 0, lexeme))
    ensures IsWinner(nodes, Run(nodes, EpsClosure(nodes, {start}), lexeme), acc,
                     rows[DfaRun(rows, 0, lexeme)][TOKEN_COLUMN])
  {
    TokenOfWord(nodes, start, acc, alf, sets, rows, lexeme);
  }

  /** The last position pushed is the start of the attempt that produced the token. */
  lemma {:induction false} LastPushIsStart(rows: seq<seq<int>>, w: seq<int>, p: nat)
    requires Rectangular(rows) && p <= |w|
    ensures var r := Lex(rows, w, p); r.pushed[|r.pushed| - 1] == r.start
    decreases |w| - p
  {
    if p < |w| {
      var L := LongestAccept(rows, w[p..], |w| - p);
      if L > 0 && rows[DfaRun(rows, 0, w[p..][..L])][TOKEN_COLUMN] == OMITIR {
        LastPushIsStart(rows, w, p + L);
      }
    }
  }

  /**
   * Scanning again from the start of the returned lexeme (where undoToken
   * puts the scanner back) gives the same token and lexeme, in one attempt.
   */
  lemma {:induction false} LexAgainFromStart(rows: seq<seq<int>>, w: seq<int>, p: nat)
    requires Rectangular(rows) && p <= |w|
    ensures var r := Lex(rows, w, p); Lex(rows, w, r.start) == r.(pushed := [r.start])
    decreases |w| - p
  {
    if p < |w| {
      var L := LongestAccept(rows, w[p..], |w| - p);
      if L > 0 && rows[DfaRun(rows, 0, w[p..][..L])][TOKEN_COLUMN] == OMITIR {
        var r := Lex(rows, w, p + L);
        assert Lex(rows, w, p) == r.(pushed := [p] + r.pushed);
        LexAgainFromStart(rows, w, p + L);
      }
    }
  }

  /** A state in the table, or -1 for any other value the walk may hold. */
  function Normal(rows: seq<seq<int>>, q: int): (r: int)
    ensures r == -1 || 0 <= r < |rows|
  {
    if 0 <= q < |rows| then q else -1
  }

  /** Following an existing cell: the run moves to the cell's state, and the longest accepted prefix updates. */
  lemma WalkStep(rows: seq<seq<int>>, w: seq<int>, k: nat, q: int)
    requires Rectangular(rows) && k < |w|
    requires 0 <= q < |rows| && DfaRun(rows, 0, w[..k]) == q && 0 <= w[k] < TOKEN_COLUMN
    ensures DfaRun(rows, 0, w[..k + 1]) == Normal(rows, rows[q][w[k]])
    ensures LongestAccept(rows, w, k + 1) ==
      if Accepting(rows, Normal(rows, rows[q][w[k]])) then k + 1 else LongestAccept(rows, w, k)
  {
    assert w[..k + 1] == w[..k] + [w[k]];
    DfaRunSnoc(rows, 0, w[..k], w[k]);
  }

  /** The walk cannot go on from the k-th character: no accepted prefix is longer than k. */
  lemma WalkStops(rows: seq<seq<int>>, w: seq<int>, k: nat, q: int)
    requires Rectangular(rows) && k < |w|
    requires DfaRun(rows, 0, w[..k]) == Normal(rows, q)
    requires !(0 <= q < |rows|) || !(0 <= w[k] < TOKEN_COLUMN) || rows[q][w[k]] == -1
    ensures LongestAccept(rows, w, |w|) == LongestAccept(rows, w, k)
  {
    assert w[..k + 1] == w[..k] + [w[k]];
    DfaRunSnoc(rows, 0, w[..k], w[k]);
    LongestStops(rows, w, k);
  }

  /** What one attempt of yylex from p yields, given the outcome of the walk. */
  lemma LexAttempt(rows: seq<seq<int>>, w: seq<int>, p: nat, accepted: bool, tok: int, fin: int)
    requires Rectangular(rows) && p < |w|
    requires var v := w[p..];
             var L := LongestAccept(rows, v, |v|);
             && (accepted <==> L > 0)
             && (accepted ==> fin == p + L - 1 && tok == rows[DfaRun(rows, 0, v[..L])][TOKEN_COLUMN])
    ensures !accepted ==> Lex(rows, w, p) == Step(ERROR, p, p + 1, [p])
    ensures accepted ==> p <= fin < |w|
    ensures accepted && tok != OMITIR ==> Lex(rows, w, p) == Step(tok, p, fin + 1, [p])
    ensures accepted && tok == OMITIR ==> Lex(rows, w, p) == Resume(Lex(rows, w, fin + 1), [p])
  {
  }

  /** At the end of the input yylex returns FIN with an empty lexeme. */
  lemma LexAtEnd(rows: seq<seq<int>>, w: seq<int>, p: nat)
    requires Rectangular(rows) && p == |w|
    ensures Lex(rows, w, p) == Step(FIN, p, p, [p])
  {
  }

  /**
   * The walk of the table from ini (the inner loop of yylex): whether some
   * prefix was accepted, the token of the last accepting state met, and the
   * position of the last character of the longest accepted prefix.
   */
  method Munch(tabla: array2<int>, s: string, ini: nat) returns (accepted: bool, tok: int, fin: int)
    requires ini < |s| && tabla.Length1 == WIDTH
    ensures var rows := Rows(tabla);
            var w := Codes(s)[ini..];
            var L := LongestAccept(rows, w, |w|);
            && (accepted <==> L > 0)
            && (accepted ==> fin == ini + L - 1 && tok == rows[DfaRun(rows, 0, w[..L])][TOKEN_COLUMN])
  {
    ghost var rows := Rows(tabla);
    ghost var w := Codes(s)[ini..];
    var edoActual := 0;
    accepted, tok, fin := false, -1, -1;
    var i := ini;
    assert w[..0] == [];
    while i < |s|
      invariant ini <= i <= |s|
      invariant DfaRun(rows, 0, w[..i - ini]) == Normal(rows, edoActual)
      invariant LongestAccept(rows, w, i - ini) == if accepted then fin + 1 - ini else 0
      invariant accepted ==> ini <= fin < i && tok == rows[DfaRun(rows, 0, w[..fin + 1 - ini])][TOKEN_COLUMN]
    {
      var stop;
      stop, i, edoActual, accepted, tok, fin := MunchStep(tabla, s, ini, i, edoActual, accepted, tok, fin, rows, w);
      if stop {
        break;
      }
    }
  }

  /**
   * One turn of the inner loop of yylex at position i: either the walk
   * cannot go on (no state, a code outside the table, or a -1 cell), and no
   * longer prefix is accepted, or it moves one character on, recording the
   * position when the new state accepts.
   */
  method MunchStep(tabla: array2<int>, s: string, ini: nat, i: nat, q: int, accepted: bool, tok: int, fin: int,
                   ghost rows: seq<seq<int>>, ghost w: seq<int>)
    returns (stop: bool, i': nat, q': int, accepted': bool, tok': int, fin': int)
    requires ini <= i < |s| && tabla.Length1 == WIDTH
    requires rows == Rows(tabla) && w == Codes(s)[ini..]
    requires DfaRun(rows, 0, w[..i - ini]) == Normal(rows, q)
    requires LongestAccept(rows, w, i - ini) == if accepted then fin + 1 - ini else 0
    requires accepted ==> ini <= fin < i && tok == rows[DfaRun(rows, 0, w[..fin + 1 - ini])][TOKEN_COLUMN]
    ensures stop ==> i' == i && q' == q && accepted' == accepted && tok' == tok && fin' == fin
    ensures stop ==> LongestAccept(rows, w, |w|) == LongestAccept(rows, w, i - ini)
    ensures !stop ==> i' == i + 1 && DfaRun(rows, 0, w[..i' - ini]) == Normal(rows, q')
    ensures !stop ==> LongestAccept(rows, w, i' - ini) == if accepted' then fin' + 1 - ini else 0
    ensures !stop && accepted' ==> ini <= fin' < i' && tok' == rows[DfaRun(rows, 0, w[..fin' + 1 - ini])][TOKEN_COLUMN]
  {
    i', q', accepted', tok', fin' := i, q, accepted, tok, fin;
    var asciiValor := s[i] as int;
    assert w[i - ini] == asciiValor;
    if q < 0 || q >= tabla.Length0 || asciiValor < 0 || asciiValor >= TOKEN_COLUMN {
      WalkStops(rows, w, i - ini, q);
      return true, i', q', accepted', tok', fin';
    }
    var edoTransicion := tabla[q, asciiValor];
    if edoTransicion == -1 {
      WalkStops(rows, w, i - ini, q);
      return true, i', q', accepted', tok', fin';
    }
    WalkStep(rows, w, i - ini, q);
    assert rows[q][w[i - ini]] == edoTransicion;
    q' := edoTransicion;
    if 0 <= q' < tabla.Length0 && tabla[q', TOKEN_COLUMN] != -1 {
      assert Accepting(rows, Normal(rows, q')) && rows[q'][TOKEN_COLUMN] == tabla[q', TOKEN_COLUMN];
      accepted', tok', fin' := true, tabla[q', TOKEN_COLUMN], i;
    } else {
      assert !Accepting(rows, Normal(rows, q'));
    }
    i' := i + 1;
    stop := false;
  }

  /** The outcome of a scan that earlier attempts, starting at the positions P, led to. */
  function Resume(r: Step, P: seq<nat>): Step {
    r.(pushed := P + r.pushed)
  }

  /** Every saved position lies within an input of length n. */
  predicate Positions(ps: seq<int>, n: int) {
    forall i :: 0 <= i < |ps| ==> 0 <= ps[i] <= n
  }

  lemma PositionsAppend(ps: seq<int>, n: int, more: seq<nat>)
    requires Positions(ps, n) && forall i :: 0 <= i < |more| ==> more[i] <= n
    ensures Positions(ps + more, n)
  {
  }

  /**
   * One pass of the body of the loop of yylex from position ini: the end of
   * the input gives FIN, a walk that meets no accepting state gives ERROR
   * and the single character at ini, otherwise the longest accepted lexeme
   * and its token; done is false only when that token is OMITIR, and next
   * is where the following pass starts.
   */
  method Attempt(tabla: array2<int>, sigma: string, ini: nat) returns (done: bool, t: int, lexema: string, next: nat)
    requires ini <= |sigma| && tabla.Length1 == WIDTH
    ensures var r := Lex(Rows(tabla), Codes(sigma), ini);
            && (done ==> t == r.token && lexema == sigma[r.start..r.end] && next == r.end && r.pushed == [ini])
            && (!done ==> ini < next <= |sigma| && r == Resume(Lex(Rows(tabla), Codes(sigma), next), [ini]))
  {
    if ini >= |sigma| {
      assert Rectangular(Rows(tabla));
      LexAtEnd(Rows(tabla), Codes(sigma), ini);
      return true, FIN, "", ini;
    }
    done, t, lexema, next := AttemptWalk(tabla, sigma, ini);
  }

  /** An attempt that does not start at the end of the input: the walk, then its outcome. */
  method AttemptWalk(tabla: array2<int>, sigma: string, ini: nat) returns (done: bool, t: int, lexema: string, next: nat)
    requires ini < |sigma| && tabla.Length1 == WIDTH
    ensures var r := Lex(Rows(tabla), Codes(sigma), ini);
            && (done ==> t == r.token && lexema == sigma[r.start..r.end] && next == r.end && r.pushed == [ini])
            && (!done ==> ini < next <= |sigma| && r == Resume(Lex(Rows(tabla), Codes(sigma), next), [ini]))
  {
    ghost var rows, w := Rows(tabla), Codes(sigma);
    assert Rectangular(rows);
    var accepted, tok, fin := Munch(tabla, sigma, ini);
    LexAttempt(rows, w, ini, accepted, tok, fin);
    next := if accepted then fin + 1 else ini + 1;
    t := if accepted then tok else ERROR;
    done := !accepted || tok != OMITIR;
    lexema := sigma[ini..next];
  }

  /**
   * The loop of yylex on local copies of the fields it updates: from p0,
   * pass after pass, each pass's start pushed, until a pass ends with a
   * token other than OMITIR.
   */
  method ScanFrom(tabla: array2<int>, sigma: string, p0: nat) returns (t: int, lexema: string, indice: nat, pila: seq<nat>)
    requires p0 <= |sigma| && tabla.Length1 == WIDTH
    ensures var r := Lex(Rows(tabla), Codes(sigma), p0);
            t == r.token && lexema == sigma[r.start..r.end] && indice == r.end && pila == r.pushed
  {
    ghost var R := Lex(Rows(tabla), Codes(sigma), p0);
    indice := p0;
    pila := [];
    while true
      invariant p0 <= indice <= |sigma|
      invariant R == Resume(Lex(Rows(tabla), Codes(sigma), indice), pila)
      decreases |sigma| - indice
    {
      var done, next;
      done, t, lexema, next := Attempt(tabla, sigma, indice);
      ghost var rest := Lex(Rows(tabla), Codes(sigma), next);
      assert !done ==> pila + ([indice] + rest.pushed) == (pila + [indice]) + rest.pushed;
      pila := pila + [indice];
      if done {
        indice := next;
        return;
      }
      indice := next;
    }
  }

  /** Objects.requireNonNull and the IllegalArgumentException of setAFD. */
  datatype LexError = NullInput | NullAfd | NoTable

  class AnalizLexico {
    /** The last token found. */
    var token: int
    /** The last lexeme found. */
    var lexema: string
    /** The whole input. */
    var cadenaSigma: string
    /** The automaton whose table drives the scan. */
    var automataFD: AFD?
    /** The position of the next character to read. */
    var indiceCaracterActual: int
    /** The starting positions of the scans so far, for undoToken; the top is the last element. */
    var pila: seq<int>

    /** The position and every saved position lie within the input. */
    ghost predicate Valid()
      reads this
    {
      && 0 <= indiceCaracterActual <= |cadenaSigma|
      && Positions(pila, |cadenaSigma|)
    }

    /** AnalizLexico(): empty input, no automaton, initial scan state. */
    constructor ()
      ensures cadenaSigma == "" && automataFD == null
      ensures indiceCaracterActual == 0 && token == -1 && lexema == "" && pila == []
      ensures Valid()
    {
      cadenaSigma := "";
      automataFD := null;
      indiceCaracterActual := 0;
      token := -1;
      lexema := "";
      pila := [];
    }

    /** AnalizLexico(sigma, afd): the input and an automaton that has a table. */
    constructor WithInput(sigma: string, afd: AFD)
      requires afd.tabla != null
      ensures cadenaSigma == sigma && automataFD == afd
      ensures indiceCaracterActual == 0 && token == -1 && lexema == "" && pila == []
      ensures Valid()
    {
      cadenaSigma := sigma;
      automataFD := afd;
      indiceCaracterActual := 0;
      token := -1;
      lexema := "";
      pila := [];
    }

    /** resetState: back to the start of the input, no token, empty stack. */
    method ResetState()
      modifies this
      ensures indiceCaracterActual == 0 && token == -1 && lexema == "" && pila == []
      ensures cadenaSigma == old(cadenaSigma) && automataFD == old(automataFD)
      ensures Valid()
    {
      indiceCaracterActual := 0;
      token := -1;
      lexema := "";
      pila := [];
    }

    /** setSigma: a new input and a reset scan; null is refused and changes nothing. */
    method SetSigma(sigma: Option<string>) returns (r: Result<(), LexError>)
      modifies this
      ensures r.Failure? <==> sigma.None?
      ensures sigma.None? ==> r == Failure(NullInput) && unchanged(this)
      ensures sigma.Some? ==> cadenaSigma == sigma.value && automataFD == old(automataFD)
      ensures sigma.Some? ==> indiceCaracterActual == 0 && token == -1 && lexema == "" && pila == []
      ensures old(Valid()) ==> Valid()
    {
      if sigma.None? {
        return Failure(NullInput);
      }
      cadenaSigma := sigma.value;
      ResetState();
      r := Success(());
    }

    /**
     * setAFD: null is refused and changes nothing; an automaton without a
     * table is stored before it is refused; otherwise the scan is reset and
     * the input emptied.
     */
    method SetAFD(afd: AFD?) returns (r: Result<(), LexError>)
      modifies this
      ensures afd == null ==> r == Failure(NullAfd) && unchanged(this)
      ensures afd != null && afd.tabla == null ==>
        r == Failure(NoTable) && automataFD == afd
        && cadenaSigma == old(cadenaSigma) && indiceCaracterActual == old(indiceCaracterActual)
        && token == old(token) && lexema == old(lexema) && pila == old(pila)
      ensures afd != null && afd.tabla != null ==>
        r.Success? && automataFD == afd && cadenaSigma == ""
        && indiceCaracterActual == 0 && token == -1 && lexema == "" && pila == []
      ensures old(Valid()) ==> Valid()
    {
      if afd == null {
        return Failure(NullAfd);
      }
      automataFD := afd;
      if afd.tabla == null {
        return Failure(NoTable);
      }
      ResetState();
      cadenaSigma := "";
      r := Success(());
    }

    /** cadenaPorAnalizar: the input not read yet; what was read and it make up the input. */
    function CadenaPorAnalizar(): (r: string)
      reads this
      requires Valid()
      ensures |r| == |cadenaSigma| - indiceCaracterActual
      ensures cadenaSigma[..indiceCaracterActual] + r == cadenaSigma
    {
      if indiceCaracterActual >= |cadenaSigma| then "" else cadenaSigma[indiceCaracterActual..]
    }

    /** undoToken: back to the position saved by the last scan attempt, if any. */
    method UndoToken() returns (b: bool)
      modifies this
      requires Valid()
      ensures b <==> old(pila) != []
      ensures !b ==> unchanged(this)
      ensures b ==> indiceCaracterActual == old(pila)[|old(pila)| - 1] && pila == old(pila)[..|old(pila)| - 1]
      ensures b ==> token == -1 && lexema == ""
      ensures cadenaSigma == old(cadenaSigma) && automataFD == old(automataFD)
      ensures Valid()
    {
      if pila == [] {
        return false;
      }
      indiceCaracterActual := pila[|pila| - 1];
      pila := pila[..|pila| - 1];
      token := -1;
      lexema := "";
      b := true;
    }

    /**
     * yylex: without an automaton with a table, ERROR and nothing else
     * changes but the token and lexeme; otherwise the outcome Lex gives from
     * the current position, with every attempt's start pushed on the stack.
     */
    method Yylex() returns (t: int)
      modifies this
      requires Valid()
      requires automataFD != null && automataFD.tabla != null ==> automataFD.tabla.Length1 == WIDTH
      ensures Valid()
      ensures cadenaSigma == old(cadenaSigma) && automataFD == old(automataFD)
      ensures automataFD == null || automataFD.tabla == null ==>
        t == ERROR && token == ERROR && lexema == ""
        && indiceCaracterActual == old(indiceCaracterActual) && pila == old(pila)
      ensures automataFD != null && automataFD.tabla != null ==>
        var r := Lex(Rows(automataFD.tabla), Codes(cadenaSigma), old(indiceCaracterActual));
        && t == r.token && token == t
        && lexema == cadenaSigma[r.start..r.end]
        && indiceCaracterActual == r.end
        && pila == old(pila) + r.pushed
    {
      if automataFD == null || automataFD.tabla == null {
        lexema := "";
        token := ERROR;
        return ERROR;
      }
      var tabla := automataFD.tabla;
      var lexeme, idx, pushed;
      t, lexeme, idx, pushed := ScanFrom(tabla, cadenaSigma, indiceCaracterActual);
      PositionsAppend(pila, |cadenaSigma|, pushed);
      token := t;
      lexema := lexeme;
      indiceCaracterActual := idx;
      pila := pila + pushed;
    }
  }
}
