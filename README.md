# AFND_2 automaton engine in Dafny

This project models the automaton engine of AFND_2, a small Java tool for
building lexical analysers. It builds nondeterministic automata (AFN) with
Thompson's constructions, converts them to a dense deterministic table (AFD),
and saves and loads that table as text. A maximal-munch scanner
(AnalizLexico) then runs over an input string on that table. The model proves
properties of each stage.

- **Markers** (`markers.dfy`) are the reserved codes of SimbEsp: EPSILON = 5,
  FIN = 0, ERROR = 2000 and OMITIR = 2001.
- **Edges and states.** Edges (`transitions.dfy`) are datatype values, as Java
  compares them by value. States (`states.dfy`) live in an arena, `States.Arena`.
  - The arena is a class holding the sequence of `Estado` records and the
    global id counter.
  - A state reference is an index into that sequence, so sets of states
    compare states by reference.
  - The id Java's `equals` compares is kept as a separate field.
- **NFA class** (`afn.dfy`). `AFN` keeps the Java fields. Its combinators
  change them in place and are stated against graph functions such as
  `UnionGraph`, `ClosureGraph` and `Absorb`.
- **Set operations** (`closure.dfy`). The epsilon-closure, move and goto are
  methods with worklist loops. Each is proved equal to a specification
  function (`EpsClosure`, `Move`, `Goto`), and `Run` reads a word through them.
- **Construction properties** (`thompson.dfy`) state what the constructions
  mean: the language of a basic automaton, how the union and closures are
  wired, how concatenation copies edges, and which edges a clone has.
- **Languages** (`languages.dfy`) state what each combinator accepts, in terms
  of `Accepts` on the graph it leaves. The union accepts the words of either
  operand. The concatenation accepts a word of the first operand followed by
  one of the second. The Kleene, positive and optional closures accept the
  sequences of operand words, the non-empty ones, and the operand's words
  plus the empty word. Each proof bounds what the new graph reaches from
  above by an explicit set and from below by the operand's runs.
- **Subset records** (`elemsj.dfy`). `ElemSj` is the subset-construction
  record, with set equality, its hash and its `S<id>={...}` rendering.
- **Table specification** (`dfa_spec.dfy`) states what the subset construction
  must produce. `SubsetConstruction` is the shape of the table, with every
  state after the first entered from an earlier row. `IsWinner` is the token
  precedence. `Simulation` states that running the table follows running the
  NFA. `SetsAreReachable` and `SameStates` show that the table holds exactly
  the reachable non-empty sets, so its size does not depend on the order the
  sets were found in.
- **DFA class** (`afd.dfy`). `AFD` holds the table as an `array2<int>`.
  - `AFNtoAFD` is the worklist of the source, proved to establish
    `SubsetConstruction`.
  - Saving and loading work on a sequence of lines and are proved against the
    text format of `tablefile.dfy`.
  - `text.dfy` holds the integer formatting, `split` and `trim` behaviour that
    format relies on.
- **Per-state row** (`edoafd.dfy`). `EdoAFD` is one table row with
  bounds-checked access and equality by id.
- **Scanner** (`lexer.dfy`). The reference `Lex` defines the result of one
  `yylex` call on the table rows: maximal munch, ERROR, FIN, skipping OMITIR,
  and the positions pushed on the undo stack. The class `AnalizLexico` is
  proved against it.
- **Findings** (`findings.dfy`) covers two defects of `AFN.java`; see
  "## Findings".

## Model

| member | source | states |
|---|---|---|
| Markers.MarkersDistinct | AFND_2/src/Models/SimbEsp.java:4-7 | EPSILON is 5 and inside the byte alphabet, FIN is 0, ERROR is 2000, OMITIR is 2001, and the four are pairwise distinct |
| Markers.Reserved | AFND_2/src/Models/SimbEsp.java:4-7 | the set of the four markers has exactly four elements |
| Transitions.NewEpsilon | AFND_2/src/Models/Transition.java:11-21 | the epsilon constructor succeeds exactly for a non-null destination; the edge is epsilon, accepts no character and points to that destination |
| Transitions.NewSymbol | AFND_2/src/Models/Transition.java:11-27 | the one-symbol constructor rejects a null destination and the EPSILON symbol, otherwise builds the edge [c,c] |
| Transitions.NewRange | AFND_2/src/Models/Transition.java:11-33 | the range constructor rejects lo > hi first, then a null destination, then EPSILON as either bound; otherwise it builds an edge accepting exactly lo..hi |
| Transitions.SetEdoDestino | AFND_2/src/Models/Transition.java:37-39 | setting the destination rejects null and otherwise changes only the destination |
| Transitions.CopyTo | AFND_2/src/Models/AFN.java:118 | the copy concatenar and clonar make of a constructor-built edge is that edge with the new destination |
| Transitions.EqualityByFields | AFND_2/src/Models/Transition.java:55-61 | two edges are equal exactly when low bound, high bound and destination are equal |
| States.Arena.constructor | AFND_2/src/Models/Estado.java:12 | the arena starts with no states and counter 0 |
| States.Arena.NewEstado | AFND_2/src/Models/Estado.java:15-20 | Estado() appends a non-accepting state with token -1, no edges and the counter as id, and increments the counter; ids stay fresh |
| States.Arena.NewEstadoAceptacion | AFND_2/src/Models/Estado.java:21-24 | Estado(boolean) is Estado() with the given accepting flag |
| States.Arena.NewEstadoFlag | AFND_2/src/Models/Estado.java:25-31 | CREACION_INTERNA gives id -1 and leaves the counter alone; any other flag takes the next id |
| States.Arena.AgregarTransicion | AFND_2/src/Models/Estado.java:38-41 | a non-null edge is added to the state's set, null changes nothing; the graph stays valid |
| States.Arena.SetAceptacion | AFND_2/src/Models/Estado.java:34 | only the flag of that state changes |
| States.Arena.SetToken | AFND_2/src/Models/Estado.java:36 | only the token of that state changes |
| States.Arena.ReiniciarContadorIds | AFND_2/src/Models/Estado.java:52 | the counter goes back to 0 and the states are unchanged |
| States.InternalStatesCompareEqual | AFND_2/src/Models/Estado.java:45-51 | any two states created with CREACION_INTERNA are equal under equals, whatever their flags, tokens and edges |
| ElemSets.NewElemSj | AFND_2/src/Models/ElemSj.java:12-15 | a fresh ElemSj has id -1 and an empty set |
| ElemSets.SetS | AFND_2/src/Models/ElemSj.java:19-21 | setS fails exactly on null, otherwise replaces the set and keeps the id |
| ElemSets.Hash | AFND_2/src/Models/ElemSj.java:28-31 | Objects.hash(S) is a 32-bit value |
| ElemSets.HashOfCloneSets | AFND_2/src/Models/ElemSj.java:28-31 | when every state of a set has id -1, as clones do, the sum of their hashCodes is 30 times the number of states, so such sets hash by size alone |
| ElemSets.Insert | AFND_2/src/Models/ElemSj.java:37 | inserting into a sorted list keeps it sorted and adds exactly one occurrence |
| ElemSets.SortedIds | AFND_2/src/Models/ElemSj.java:34-37 | the ids of the set's states, sorted ascending, each id as often as states carry it |
| ElemSets.IdStrings | AFND_2/src/Models/ElemSj.java:38 | each id rendered as its decimal text |
| ElemSets.ToString | AFND_2/src/Models/ElemSj.java:33-41 | toString is "S", the id, "={", the ids of the members in ascending order (each as often as members carry it) joined by commas, and "}"; any such ascending listing gives the same text |
| ElemSets.ToStringOfNew | AFND_2/src/Models/ElemSj.java:33-41 | a fresh ElemSj renders as "S-1={}" (the constructor at ElemSj.java:12-15) |
| Closure.EpsClosure | AFND_2/src/Models/AFN.java:171-183 | the closure contains S, lies in the arena and is closed under epsilon edges |
| Closure.EpsClosureLeast | AFND_2/src/Models/AFN.java:171-183 | the closure lies inside every epsilon-closed superset of S, so it holds only epsilon-reachable states |
| Closure.EpsClosureMonotone | AFND_2/src/Models/AFN.java:171-187 | a larger set has a larger closure |
| Closure.EpsClosureIdempotent | AFND_2/src/Models/AFN.java:171-187 | closing twice is closing once |
| Closure.EpsClosureUnion | AFND_2/src/Models/AFN.java:184-187 | the closure of a union is the union of the closures, as the set overload computes it |
| Closure.CerraduraEpsilon | AFND_2/src/Models/AFN.java:171-183 | the stack-and-visited-set loop returns the empty set for null and otherwise exactly the closure of {e} |
| Closure.SearchStep | AFND_2/src/Models/AFN.java:175-181 | one pop of the search keeps what was found inside the closure of e, keeps every found state off the stack with all its epsilon-successors found, and either finds a new state or shrinks the stack |
| Closure.CerraduraEpsilonSet | AFND_2/src/Models/AFN.java:184-187 | the set overload returns exactly the closure of the set |
| Closure.MoveNeverFollowsEpsilon | AFND_2/src/Models/AFN.java:188-193 | every state move reaches is the target of a non-epsilon edge whose range holds c |
| Closure.MoverEstado | AFND_2/src/Models/AFN.java:188-193 | mover(e,c) returns the empty set for null and otherwise the destinations of e's edges accepting c |
| Closure.Mover | AFND_2/src/Models/AFN.java:194-197 | mover over a set is the union of the single-state moves |
| Closure.IraEstado | AFND_2/src/Models/AFN.java:198 | ira(e,c) is the closure of mover(e,c), and empty for null |
| Closure.Ira | AFND_2/src/Models/AFN.java:199 | ira over a set is the closure of the move of the set |
| Closure.RunFromEmpty | AFND_2/src/Models/AFN.java:188-199 | reading any word from no state reaches no state |
| Closure.EpsEdgeReach | AFND_2/src/Models/AFN.java:177-180 | an epsilon edge x to y puts y and all it reaches into the closure of x |
| Closure.ClosureGrows | AFND_2/src/Models/AFN.java:91-95 | adding edges or states never shrinks a closure |
| Closure.RunGrows | AFND_2/src/Models/AFN.java:188-199 | reading a word from more states in a graph with more edges reaches at least as many states |
| Nfa.AFN.constructor | AFND_2/src/Models/AFN.java:33-40 | a new AFN has no states, no start, empty alphabet and accepting set, empty operator and no sub-automata |
| Nfa.AFN.Clear | AFND_2/src/Models/AFN.java:45-46 | the receiver is emptied as at construction |
| Nfa.AFN.CrearBasico | AFND_2/src/Models/AFN.java:44-60 | two fresh states, start -c-> final, final the only accepting state with the token, alphabet {c}; EPSILON is rejected after the receiver was cleared and both states allocated |
| Nfa.AFN.CrearBasicoRango | AFND_2/src/Models/AFN.java:62-79 | with c1 <= c2 and neither bound EPSILON: one range edge and alphabet exactly c1..c2; an inverted range or an EPSILON bound fails after the receiver was cleared, so the warning branch is never reached |
| Nfa.AFN.Unir | AFND_2/src/Models/AFN.java:83-104 | a no-op for a null or start-less operand, the receiver itself, or a start-less receiver; it fails, changing nothing, exactly when a clone for the rendering fails; otherwise a new start with epsilon edges to both starts, every old accepting state of either side gets an epsilon edge to nf and loses its flag, the accepting set is {nf} with token -1, states and alphabet are unions |
| Nfa.AFN.Concatenar | AFND_2/src/Models/AFN.java:106-132 | every accepting state of the receiver gains the operand start's edges and stops accepting, the operand's start leaves the operand's states, the accepting set becomes the operand's, and the start is kept |
| Nfa.AFN.Close | AFND_2/src/Models/AFN.java:136-168 | the common part of the three closures: new start e1 and single accepting e2 with token -1, alphabet unchanged, no-op without a start |
| Nfa.AFN.CerraduraKleene | AFND_2/src/Models/AFN.java:136-146 | star: old accepting states loop back to the old start and reach e2; e1 reaches the old start and e2 |
| Nfa.AFN.CerraduraPositiva | AFND_2/src/Models/AFN.java:147-157 | plus: as star without the e1 -> e2 edge |
| Nfa.AFN.CerraduraOpcional | AFND_2/src/Models/AFN.java:158-168 | optional: as star without the loop back |
| Nfa.AFN.Clonar | AFND_2/src/Models/AFN.java:250-299 | one fresh state per state (id -1, same flag and token) under an injective map; edges remapped with their ranges; start mapped to start, accepting set to its image; alphabet, operator and sub-automata kept; fails exactly when the start is not among the states |
| Nfa.AFN.UnirConservandoTokens | AFND_2/src/Models/AFN.java:83-104 | the corrected union: same guards and new start, with the operands' accepting states, flags and tokens kept |
| Nfa.Absorb | AFND_2/src/Models/AFN.java:115-123 | the states of S gain the edges E and lose their flag; every other state is unchanged (also AFN.java:94-95 and AFN.java:140) |
| Nfa.AbsorbInto | AFND_2/src/Models/AFN.java:94-95 | the loop over the accepting states produces exactly Absorb |
| Nfa.BuildUnion | AFND_2/src/Models/AFN.java:91-95 | the statements of unir produce exactly UnionGraph and a valid graph |
| Nfa.BuildClosure | AFND_2/src/Models/AFN.java:139-141 | the statements of the closures produce exactly ClosureGraph and a valid graph |
| Nfa.AllocateClones | AFND_2/src/Models/AFN.java:261-270 | the first loop of clonar allocates one id -1 state per original, with the map, start and accepting set as stated for Clonar |
| Nfa.CloneStates | AFND_2/src/Models/AFN.java:261-288 | both loops of clonar: each state of the receiver gets exactly one new state, under an injective map, holding that state's flag, token and remapped edges, and nothing before the new states changes |
| Nfa.CopyAllEdges | AFND_2/src/Models/AFN.java:271-288 | the second loop gives each clone exactly the remapped edges of its original |
| Nfa.Min | AFND_2/src/Models/AFN.java:220 | the least symbol of a non-empty alphabet |
| Nfa.Max | AFND_2/src/Models/AFN.java:221 | the greatest symbol of a non-empty alphabet |
| Nfa.RenderEmpty | AFND_2/src/Models/AFN.java:213-214 | a leaf without symbols renders as "[Vacío]" whatever its operator, with no postfix wrapping |
| Nfa.RenderSymbol | AFND_2/src/Models/AFN.java:216-218 | a leaf with one symbol renders as that symbol, or as ε for EPSILON |
| Nfa.RenderRange | AFND_2/src/Models/AFN.java:219-224 | a leaf with several symbols renders as min-max |
| Nfa.RenderBinary | AFND_2/src/Models/AFN.java:233-246 | a union or concatenation renders as (x op y), with & shown as . |
| Nfa.RenderClosure | AFND_2/src/Models/AFN.java:233-246 | a closure renders as (x) followed by *, + or ? |
| Thompson.BasicLanguage | AFND_2/src/Models/AFN.java:44-79 | a basic automaton accepts exactly the one-symbol words in its range |
| Thompson.UnionWiring | AFND_2/src/Models/AFN.java:91-95 | from the new start both old starts are reachable; every old accepting state reaches nf and stops accepting; nf accepts with token -1 |
| Thompson.ClosureWiring | AFND_2/src/Models/AFN.java:136-168 | the old start is reachable from e1; with bypass e2 is too and the empty word is accepted; old accepting states reach e2 and, with loop-back, the old start |
| Thompson.ConcatWiring | AFND_2/src/Models/AFN.java:115-123 | each old accepting state leaves as the operand's start does (epsilon and every symbol) and stops accepting |
| Thompson.CloneEdges | AFND_2/src/Models/AFN.java:271-288 | between cloned states, an epsilon edge or an edge accepting c exists exactly when it exists between the originals |
| Languages.RunClosed | AFND_2/src/Models/AFN.java:177-199 | reading a word from an epsilon-closed set ends in an epsilon-closed set |
| Languages.RunAppend | AFND_2/src/Models/AFN.java:188-199 | reading u + v is reading u and then v from where u ended |
| Languages.RunUnion | AFND_2/src/Models/AFN.java:194-199 | reading a word from the union of two sets reaches the union of what each reaches |
| Languages.RunInFragment | AFND_2/src/Models/AFN.java:188-199 | reading a word from inside a set of states that no edge leaves stays inside it |
| Languages.SinkRun | AFND_2/src/Models/AFN.java:91-95 | after old accepting states gain an edge to a new final state, reading a word from old states reaches what it reached before, plus the final state exactly when an old accepting state is reached |
| Languages.UnionLanguage | AFND_2/src/Models/AFN.java:83-104 | the union accepts w exactly when reading w from the closure of either old start reaches an old accepting state |
| Languages.UnionOfLanguages | AFND_2/src/Models/AFN.java:83-104 | on operands with their own states, the union accepts exactly the words either operand accepts |
| Languages.OptionalLanguage | AFND_2/src/Models/AFN.java:158-168 | the optional closure accepts exactly the empty word and the operand's words |
| Languages.StarIsPlusOrEmpty | AFND_2/src/Models/AFN.java:136-157 | a sequence of the operand's words is the empty word or one or more of them |
| Languages.LoopUpper | AFND_2/src/Models/AFN.java:136-157 | everything the loop graph reaches on w is an old state reached after a star prefix, the new start on the empty word, or the final state |
| Languages.StarReach | AFND_2/src/Models/AFN.java:136-157 | after a sequence of the operand's words the loop graph is back at the operand's start closure |
| Languages.LoopLanguage | AFND_2/src/Models/AFN.java:136-157 | the loop graph accepts exactly one or more of the operand's words, plus the empty word when e1 bypasses to e2 |
| Languages.StarLanguage | AFND_2/src/Models/AFN.java:136-146 | the Kleene closure accepts exactly the sequences of the operand's words |
| Languages.PlusLanguage | AFND_2/src/Models/AFN.java:147-157 | the positive closure accepts exactly the sequences of one or more of the operand's words |
| Languages.CatUpper | AFND_2/src/Models/AFN.java:115-126 | everything the concatenation reaches on w is reached by the first operand on w, or by the second on a suffix after a prefix the first accepts |
| Languages.CatShadow | AFND_2/src/Models/AFN.java:115-123 | once a state that took over the second start's edges is reached, the second operand's run from its start is followed, except perhaps that start itself |
| Languages.CatLanguage | AFND_2/src/Models/AFN.java:115-126 | the concatenation accepts exactly a word of the first operand followed by a word of the second |
| Languages.ConcatLanguage | AFND_2/src/Models/AFN.java:106-132 | the graph concatenar leaves accepts, from the first start, exactly a word of the first operand followed by a word of the second |
| DfaSpec.Symbols | AFND_2/src/Models/AFD.java:25-26 | the alphabet without EPSILON |
| DfaSpec.Candidates | AFND_2/src/Models/AFD.java:235-239 | the states that may announce a token: in the set, accepting, in the accepting set, token not -1 |
| DfaSpec.WinnerUnique | AFND_2/src/Models/AFD.java:231-247 | the winning token is unique, so the HashSet iteration order does not matter |
| DfaSpec.DfaRun | AFND_2/src/Models/AFD.java:194-213 | running the table ends in -1 or a row index |
| DfaSpec.Simulation | AFND_2/src/Models/AFD.java:147-213 | reading a word over the alphabet from DFA state i ends where the NFA run from sets[i] ends, and -1 exactly when that run is empty |
| DfaSpec.DfaRunSnoc | AFND_2/src/Models/AFD.java:203-208 | reading one more character continues from the state the word ends in |
| DfaSpec.RowReached | AFND_2/src/Models/AFD.java:172-188 | every DFA state is reached from state 0 by some word over the alphabet (states are only created as goto targets) |
| DfaSpec.SetsAreReachable | AFND_2/src/Models/AFD.java:147-188 | a set of NFA states is a DFA state exactly when it is non-empty and reached from the start closure by a word over the alphabet |
| DfaSpec.SameStates | AFND_2/src/Models/AFD.java:147-188 | two subset constructions of the same NFA, in any HashSet order, stand for the same sets and have the same number of states |
| DfaSpec.TokenOfWord | AFND_2/src/Models/AFD.java:231-247 | the token cell reached by a word is the winning token of the NFA states the word reaches (the token column filled at AFD.java:210-212) |
| Dfa.DeterminarToken | AFND_2/src/Models/AFD.java:231-247 | the running-minimum loop returns the lowest token among the candidates, or -1 when there is none |
| Dfa.Buscar | AFND_2/src/Models/AFD.java:163-169 | the search returns the index of the state whose set equals U, or -1 exactly when there is none |
| Dfa.ExpandSymbol | AFND_2/src/Models/AFD.java:151-188 | one symbol from one state: empty goto adds nothing; a known set adds an entry to its index; a new set gets the next id, is queued and gets its token |
| Dfa.ExpandState | AFND_2/src/Models/AFD.java:149-190 | all symbols of the alphabet from one dequeued state keep the worklist invariant |
| Dfa.FoundGrows | AFND_2/src/Models/AFD.java:172-185 | discovering a state strictly grows the set of found subsets, which bounds the loop |
| Dfa.Worklist | AFND_2/src/Models/AFD.java:134-190 | the queue loop ends with distinct sets numbered from 0 with no gap, state 0 the closure of the start, every entry correct, every (state, symbol) pair covered, and every state after 0 the target of an entry from an earlier state |
| Dfa.NumberedPush | AFND_2/src/Models/AFD.java:172-188 | an entry that targets a newly numbered state, written from the state being expanded, keeps every state after 0 the target of an earlier entry |
| Dfa.CellOfNumbered | AFND_2/src/Models/AFD.java:203-208 | the entry that numbered state i is still what the cell of its earlier row holds once all entries are applied |
| Dfa.LastWriteAgrees | AFND_2/src/Models/AFD.java:200-208 | the cell left by the writes is the one every covering entry agrees on, or -1 |
| Dfa.CellOutside | AFND_2/src/Models/AFD.java:205 | cells for characters outside the alphabet, or for EPSILON, stay -1 |
| Dfa.CellInside | AFND_2/src/Models/AFD.java:200-208 | the cell for a symbol is the index of the goto set, or -1 when goto is empty (the goto index recorded at AFD.java:188) |
| Dfa.FinalTable | AFND_2/src/Models/AFD.java:134-213 | the finished table satisfies SubsetConstruction, including that every state after 0 is entered from an earlier row |
| Dfa.BuildTable | AFND_2/src/Models/AFD.java:194-213 | the n by 257 table is filled with -1, then the recorded transitions, then the token column |
| Dfa.AFD.constructor | AFND_2/src/Models/AFD.java:11-16 | no states, no table, empty alphabet |
| Dfa.AFD.WithStates | AFND_2/src/Models/AFD.java:17-22 | an n by 257 table of -1 |
| Dfa.AFD.WithAlphabet | AFND_2/src/Models/AFD.java:23-27 | as WithStates, with the alphabet minus EPSILON (for a natural n; see Left out) |
| Dfa.AFD.SetAlfabeto | AFND_2/src/Models/AFD.java:256-259 | the alphabet becomes a copy without EPSILON, or empty for null |
| Dfa.AFD.AFNtoAFD | AFND_2/src/Models/AFD.java:118-229 | a null or start-less NFA gives an empty AFD; otherwise the table satisfies SubsetConstruction for the NFA, so its states are exactly the non-empty sets reachable from the start closure, each entered from an earlier row, and the alphabet is the NFA's minus EPSILON |
| Dfa.AFD.GuardarAFDenArchivo | AFND_2/src/Models/AFD.java:29-46 | the lines written are exactly Serialize of the count and the table |
| Dfa.AFD.LeerAFDdeArchivo | AFND_2/src/Models/AFD.java:47-70 | on a parse failure the AFD is reset to 0 states, no table and empty alphabet; on success it holds exactly the parsed count and rows, and the alphabet is kept |
| Dfa.WriteRow | AFND_2/src/Models/AFD.java:37-40 | the line written for a row is its 257 cells joined by ; |
| Dfa.ReadRows | AFND_2/src/Models/AFD.java:54-64 | the row loop fills exactly the rows ParseRows gives, or fails with its error |
| Text.NatToString | AFND_2/src/Models/AFD.java:34 | decimal digits without a leading zero |
| Text.IntToString | AFND_2/src/Models/AFD.java:38 | a non-empty decimal numeral, '-' only in front of a negative number, never containing ; |
| Text.ParseInt | AFND_2/src/Models/AFD.java:60 | Integer.parseInt: optional sign and at least one digit; a value it returns fits in 32 bits (also AFD.java:51) |
| Text.DigitsOfNat | AFND_2/src/Models/AFD.java:60 | reading back the digits of n gives n (the digits written at AFD.java:38) |
| Text.ParseIntToString | AFND_2/src/Models/AFD.java:60 | parsing the text of any 32-bit integer gives it back (the text written at AFD.java:38) |
| Text.Trim | AFND_2/src/Models/AFD.java:51 | String.trim: the result is a slice of the line, everything before and after it is a character <= ' ', and it is empty or has no such character at either end |
| Text.TrimNoop | AFND_2/src/Models/AFD.java:51 | trimming a line without surrounding blanks changes nothing |
| Text.Fields | AFND_2/src/Models/AFD.java:57 | the pieces between separators: none contains the separator, and joining them with it gives the line back |
| Text.DropTrailingEmpty | AFND_2/src/Models/AFD.java:57 | String.split drops the trailing empty pieces and only those |
| Text.FieldsOfJoin | AFND_2/src/Models/AFD.java:57 | splitting a join at the separator gives the parts back (the join written at AFD.java:38) |
| Text.SplitJoin | AFND_2/src/Models/AFD.java:57 | split of a join gives the parts back when the last part is not empty (the join written at AFD.java:38) |
| TableFile.Serialize | AFND_2/src/Models/AFD.java:29-41 | fails with Inconsistent exactly for a null table, a count <= 0 or a row-count mismatch; a success means every row is 257 wide and gives count + 1 lines |
| TableFile.SerializeRows | AFND_2/src/Models/AFD.java:35-41 | one line per row, or the first row that is not 257 wide |
| TableFile.ParseRow | AFND_2/src/Models/AFD.java:57-61 | a row read from a line has 257 cells, each a 32-bit integer |
| TableFile.ParseFields | AFND_2/src/Models/AFD.java:59-61 | each field parsed as an integer, BadNumber on the first that is not |
| TableFile.Deserialize | AFND_2/src/Models/AFD.java:47-64 | a successful load gives as many rows as the count line says, each 257 cells wide |
| TableFile.ParseRowLine | AFND_2/src/Models/AFD.java:57-61 | a written row line reads back as the row (the line written at AFD.java:38) |
| TableFile.RoundTrip | AFND_2/src/Models/AFD.java:29-70 | a consistent table saves successfully and loading what was saved gives back the same count and rows |
| DfaStates.EdoAFD.constructor | AFND_2/src/Models/EdoAFD.java:25-31 | a fresh row of 257 cells of -1 and id -1 |
| DfaStates.EdoAFD.WithId | AFND_2/src/Models/EdoAFD.java:38-44 | a fresh row of 257 cells of -1 and the given id |
| DfaStates.EdoAFD.GetTransicion | AFND_2/src/Models/EdoAFD.java:71-77 | the stored destination for c below 256 and within the row, otherwise -1; never the token cell |
| DfaStates.EdoAFD.GetToken | AFND_2/src/Models/EdoAFD.java:83-88 | the token cell, or -1 for a row of at most 256 cells |
| DfaStates.EdoAFD.SetId | AFND_2/src/Models/EdoAFD.java:93-95 | only the id changes |
| DfaStates.EdoAFD.SetTrans | AFND_2/src/Models/EdoAFD.java:98-101 | the row becomes the given array itself |
| DfaStates.EdoAFD.SetTransicion | AFND_2/src/Models/EdoAFD.java:104-111 | only cell c changes, for c < 257 within the row, so 256 overwrites the token; out of range nothing changes |
| DfaStates.EdoAFD.SetToken | AFND_2/src/Models/EdoAFD.java:114-120 | only the token cell changes, and only when the row has one |
| DfaStates.EdoAFD.Equals | AFND_2/src/Models/EdoAFD.java:132-137 | equal exactly when the other is non-null with the same id, whatever the rows |
| DfaStates.EdoAFD.HashCode | AFND_2/src/Models/EdoAFD.java:140-142 | Objects.hash(id), which is 31 + id in 32-bit arithmetic |
| DfaStates.EqualsHashAgree | AFND_2/src/Models/EdoAFD.java:132-142 | equal states have equal hashes |
| Lexer.Codes | AFND_2/src/Models/AnalizLexico.java:123-124 | the character codes of the input |
| Lexer.LongestAccept | AFND_2/src/Models/AnalizLexico.java:121-153 | the length of the longest non-empty prefix the table accepts, or 0 when there is none |
| Lexer.Lex | AFND_2/src/Models/AnalizLexico.java:101-183 | one call from p: the lexeme lies in the input, the first pushed position is p, OMITIR is never returned, and an empty lexeme only comes with FIN at the end |
| Lexer.LexIsMaximalMunch | AFND_2/src/Models/AnalizLexico.java:136-175 | a token other than FIN and ERROR comes with an accepted lexeme, no longer prefix is accepted, and the token is the reached state's token cell |
| Lexer.LexemeTokenFromNfa | AFND_2/src/Models/AnalizLexico.java:141-143 | on a converted table, the token of a lexeme is the winning token of the NFA states the lexeme reaches |
| Lexer.LastPushIsStart | AFND_2/src/Models/AnalizLexico.java:103-113 | the last position pushed is the start of the returned lexeme |
| Lexer.LexAgainFromStart | AFND_2/src/Models/AnalizLexico.java:195-203 | scanning again from the lexeme's start, as after undoToken, returns the same token and lexeme with one push |
| Lexer.WalkStep | AFND_2/src/Models/AnalizLexico.java:133-147 | one step of the inner loop extends the run and the longest accepted prefix by one character |
| Lexer.WalkStops | AFND_2/src/Models/AnalizLexico.java:128-151 | once the walk stops (stuck state, character of 256 or more, end) no longer prefix is accepted |
| Lexer.Munch | AFND_2/src/Models/AnalizLexico.java:113-153 | the inner loop reports an accepting pass exactly when LongestAccept is positive, with the last position and the token of that prefix |
| Lexer.Attempt | AFND_2/src/Models/AnalizLexico.java:103-182 | one pass of the outer loop returns FIN, ERROR with one character, or a token, as Lex does, or continues after an OMITIR lexeme |
| Lexer.MunchStep | AFND_2/src/Models/AnalizLexico.java:122-150 | one turn of the inner loop either stops where no longer prefix can be accepted, changing nothing, or reads one more character, keeping the state reached and the longest accepted prefix so far with its token |
| Lexer.ScanFrom | AFND_2/src/Models/AnalizLexico.java:101-183 | the outer loop returns exactly Lex's token, lexeme, next position and pushed positions |
| Lexer.AnalizLexico.constructor | AFND_2/src/Models/AnalizLexico.java:39-44 | empty input, no AFD, index 0, token -1, empty lexeme and stack |
| Lexer.AnalizLexico.WithInput | AFND_2/src/Models/AnalizLexico.java:53-64 | the given input and AFD, with the state reset |
| Lexer.AnalizLexico.ResetState | AFND_2/src/Models/AnalizLexico.java:67-77 | index 0, token -1, empty lexeme, empty stack; input and AFD kept |
| Lexer.AnalizLexico.SetSigma | AFND_2/src/Models/AnalizLexico.java:209-212 | null is rejected with no change; otherwise the new input with the state reset |
| Lexer.AnalizLexico.SetAFD | AFND_2/src/Models/AnalizLexico.java:230-239 | null is rejected; an AFD without table is stored and then rejected; otherwise the state is reset and the input emptied |
| Lexer.AnalizLexico.CadenaPorAnalizar | AFND_2/src/Models/AnalizLexico.java:218-223 | the rest of the input after the index |
| Lexer.AnalizLexico.UndoToken | AFND_2/src/Models/AnalizLexico.java:195-203 | false on an empty stack with nothing changed; otherwise pops into the index, token -1, empty lexeme |
| Lexer.AnalizLexico.Yylex | AFND_2/src/Models/AnalizLexico.java:90-184 | without an AFD or table: ERROR with an empty lexeme; otherwise token, lexeme and index are Lex's, and the stack gains Lex's pushed positions |
| Findings.ClonedStatesCollapse | AFND_2/src/Models/AFN.java:263 | as written: all states of a clone are one element of Java's id-keyed set |
| Findings.CloneOfBasicCollapses | AFND_2/src/Models/AFN.java:263 | the clone of a two-state basic automaton has two states but one Java set element |
| Findings.CloneKeepsEveryState | AFND_2/src/Models/AFN.java:259-270 | as meant: the clone has as many states as the original |
| Findings.UnionAnnouncesNoToken | AFND_2/src/Models/AFN.java:91-98 | as written: after unir no set of states announces a token |
| Findings.UnionTableScansNoToken | AFND_2/src/Models/AFN.java:91-98 | as written: the table converted from a union has -1 in every token cell, and the scanner on it returns only FIN or ERROR |
| Findings.TokenUnionKeepsTokens | AFND_2/src/Models/AFN.java:83-104 | as meant: when an operand reaches an accepting state with a token on a word, the union announces a token no greater than it |

## Left out

- File I/O is not modelled. Saving returns the lines that would be written, and loading takes the lines of the file. Nothing is written when saving fails, even though the Java writer may already have written lines when it meets a bad row.
- Error messages on `System.err`, the debug table printing in `AFNtoAFD`, and the debug `toString` of `Transition`, `Estado` and `EdoAFD` are left out.
- Symbols are bytes (0–255).
  - Java's 16-bit `char` and the `char` loop of the range constructor, which would wrap at 65535, are not modelled.
  - The scanner input is a Dafny string: a character of 256 or more stops the walk, as in the source.
- `HashSet` iteration order is an arbitrary choice (`:|`) in the subset construction. The properties hold for every order. DFA state numbering follows the order chosen.
- Java `hashCode` values are modelled only where the source defines them (`ElemSj`, `EdoAFD`). Hash-table layout is not modelled.
- The clones `unir`, `concatenar` and the closures make for `toString` are `Snapshot` values. They allocate no states in the arena, whereas Java allocates clone states that are never used.
- `Dfa.AFD` does not inherit the NFA fields of `AFN` (`AFD extends AFN` in the source). Only the table, the count and the alphabet are used.
- Dfa.AFD.WithStates takes a natural number. A negative `n` throws NegativeArraySizeException in Java.
- Dfa.AFD.WithAlphabet takes a natural number, as WithStates does. A negative `n` throws NegativeArraySizeException in Java.
- Lexer.AnalizLexico.WithInput requires a table. Java throws NullPointerException or IllegalArgumentException for a null input, a null AFD or a missing table.
- Lexer.AnalizLexico.Yylex requires a table 257 columns wide. Only `setTablaAFD` can install another width, and Java would then index out of bounds.
- The scratch fields of `AnalizLexico` (`edoActual`, `edoTransicion`, `pasoPorEdoAcept`, `iniLexema`, `finLexema`, `caracterActual`) are locals. Each call writes them before reading them.
- `ElemSj.setId`/`setS` mutate a record that is never shared while mutated, so `ElemSj` is a value.
- ElemSets.Hash states only that the value fits in 32 bits. Its definition is the wrapped sum `31 + Σ(31 + id)`, and HashOfCloneSets evaluates that sum for clone sets.
- Text.ParseInt accepts only ASCII digits. `Integer.parseInt` also accepts other Unicode decimal digits.
- The getters and `setNumEdos`/`setTablaAFD` of `AFD` are plain field access and are not modelled.
- Nfa.AFN.Clonar keeps the cloned states apart by reference, as an arena index. Java's id-based equals merges them; see "## Findings".
- Languages.UnionOfLanguages and Languages.ConcatLanguage require that each operand's states form a set that no edge leaves, disjoint from the other's. Languages.ConcatLanguage also requires that the second operand's start is not accepting. Every automaton the combinators build has these properties, but the model does not carry them as an invariant of `AFN`. Languages.UnionLanguage states the union without the first requirement.
- Languages.StarLanguage, Languages.PlusLanguage and Languages.OptionalLanguage are stated on `ClosureGraph` and `Nfa.AFN` does not restate them on its fields. The closure methods are proved to leave exactly that graph.
- Controller.java is not part of this model. Its union fold before conversion is what makes the two findings visible in the application.

## Findings

| source | as written | input that shows it | evidently intended | confidence | as-written member | corrected member |
|---|---|---|---|---|---|---|
| AFND_2/src/Models/AFN.java:263 | `clonar` creates every state with id -1, and `Estado.equals`/`hashCode` compare only ids, so the clone's `HashSet` of states (and of edges, through their destinations) collapses to one element | the basic automaton for 'a' (two states) cloned: two states, one set element | a clone with as many distinct states as the original, as the application relies on when it clones every NFA before union and conversion | not executed | Findings.ClonedStatesCollapse | Findings.CloneKeepsEveryState |
| AFND_2/src/Models/AFN.java:91-98 | `unir` clears the accepting flag of every operand's accepting state and accepts only in a new state with token -1 | the union of the basic automata for 'a' (token 10) and 'b' (token 20): the converted table has -1 in every token cell, so scanning "a" gives ERROR, not 10 | the operands' tokens reach the DFA, so that the scanner returns each operand's token | not executed | Findings.UnionTableScansNoToken | Findings.TokenUnionKeepsTokens |
