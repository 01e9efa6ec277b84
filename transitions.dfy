/**
 * Edges of the NFA graph (Transition.java). An edge is either epsilon (both
 * bounds equal to EPSILON) or a closed range of bytes [lo, hi]; it points to a
 * destination state. A state is referred to by its index in the arena of
 * states (module States), so the destination is an index.
 *
 * Java compares transitions by value (bounds and destination) and keeps them
 * in hash sets, so an edge is a datatype value here. The three public
 * constructors become functions that return the exception they would throw.
 */
module Transitions {
  import opened Wrappers
  import opened Markers

  /** The index of a state in the arena of states. */
  type StateRef = nat

  datatype Transition = Transition(lo: Byte, hi: Byte, dest: StateRef) {

    /** esEpsilon: both bounds are the EPSILON marker. */
    predicate IsEpsilon() {
      lo == EPSILON && hi == EPSILON
    }

    /** acepta(c): an epsilon edge accepts nothing; a range edge accepts lo..hi. */
    predicate Acepta(c: int) {
      if IsEpsilon() then false else lo <= c <= hi
    }
  }

  /** The exceptions the constructors and the destination setter throw. */
  datatype TransitionError =
    | InvalidRange      // IllegalArgumentException: lower bound above upper bound
    | NullDestination   // NullPointerException from Objects.requireNonNull
    | EpsilonSymbol     // IllegalArgumentException: EPSILON used as a symbol

  /** The edges the constructors can produce. */
  predicate Valid(t: Transition) {
    t.IsEpsilon() || (t.lo <= t.hi && t.lo != EPSILON && t.hi != EPSILON)
  }

  /** Transition(Estado e): an epsilon edge; a null destination is rejected. */
  function NewEpsilon(e: Option<StateRef>): (r: Result<Transition, TransitionError>)
    ensures r.Success? <==> e.Some?
    ensures r.Success? ==> r.value.IsEpsilon() && r.value.dest == e.value && Valid(r.value)
    ensures r.Success? ==> forall c :: !r.value.Acepta(c)
    ensures e.None? ==> r == Failure(NullDestination)
  {
    match e
    case None => Failure(NullDestination)
    case Some(d) => Success(Transition(EPSILON, EPSILON, d))
  }

  /**
   * Transition(char c, Estado e): the private constructor runs first (null
   * check, no range check), then EPSILON is rejected as the symbol.
   */
  function NewSymbol(c: Byte, e: Option<StateRef>): (r: Result<Transition, TransitionError>)
    ensures r.Success? <==> e.Some? && c != EPSILON
    ensures e.None? ==> r == Failure(NullDestination)
    ensures e.Some? && c == EPSILON ==> r == Failure(EpsilonSymbol)
    ensures r.Success? ==> r.value.dest == e.value && Valid(r.value) && !r.value.IsEpsilon()
    ensures r.Success? ==> forall x :: r.value.Acepta(x) <==> x == c
  {
    if e.None? then Failure(NullDestination)
    else if c == EPSILON then Failure(EpsilonSymbol)
    else Success(Transition(c, c, e.value))
  }

  /**
   * Transition(char cInf, char cSup, Estado e): the range check comes first,
   * then the null check, then EPSILON is rejected as either bound.
   */
  function NewRange(lo: Byte, hi: Byte, e: Option<StateRef>): (r: Result<Transition, TransitionError>)
    ensures r.Success? <==> lo <= hi && e.Some? && lo != EPSILON && hi != EPSILON
    ensures lo > hi ==> r == Failure(InvalidRange)
    ensures lo <= hi && e.None? ==> r == Failure(NullDestination)
    ensures lo <= hi && e.Some? && (lo == EPSILON || hi == EPSILON) ==> r == Failure(EpsilonSymbol)
    ensures r.Success? ==> r.value.dest == e.value && Valid(r.value) && !r.value.IsEpsilon()
    ensures r.Success? ==> forall x :: r.value.Acepta(x) <==> lo <= x <= hi
  {
    if lo > hi then Failure(InvalidRange)
    else if e.None? then Failure(NullDestination)
    else if lo == EPSILON || hi == EPSILON then Failure(EpsilonSymbol)
    else Success(Transition(lo, hi, e.value))
  }

  /** setEdoDestino: replaces the destination; a null destination is rejected. */
  function SetEdoDestino(t: Transition, e: Option<StateRef>): (r: Result<Transition, TransitionError>)
    ensures r.Success? <==> e.Some?
    ensures r.Success? ==> r.value.lo == t.lo && r.value.hi == t.hi && r.value.dest == e.value
    ensures r.Success? ==> (Valid(r.value) <==> Valid(t))
  {
    match e
    case None => Failure(NullDestination)
    case Some(d) => Success(t.(dest := d))
  }

  /**
   * The copy that concatenar and clonar build of an edge: an epsilon edge is
   * rebuilt with the epsilon constructor, any other with the range
   * constructor. For an edge the constructors produced the copy equals the
   * original, so re-adding it to a set of edges is the same as adding t.
   */
  function CopyTo(t: Transition, d: StateRef): (r: Result<Transition, TransitionError>)
    ensures Valid(t) ==> r == Success(t.(dest := d))
  {
    if t.IsEpsilon() then NewEpsilon(Some(d)) else NewRange(t.lo, t.hi, Some(d))
  }

  /** equals: two edges are equal exactly when bounds and destination are. */
  lemma EqualityByFields(t1: Transition, t2: Transition)
    ensures t1 == t2 <==> t1.lo == t2.lo && t1.hi == t2.hi && t1.dest == t2.dest
  {
  }
}
