/**
 * States of the NFA graph (Estado.java) and the heap they live in.
 *
 * Java allocates Estado objects on the heap and numbers them with a static
 * counter. Here the heap of states is an arena: a sequence of Estado records
 * owned by one Arena object, together with the counter. A state is referred to
 * by its index in the arena, so two references are the same state exactly when
 * the indices are equal (reference identity). The id the counter hands out is
 * kept as a separate field; Java's equals compares only that id, which the
 * predicate SameEstado states.
 */
module States {
  import opened Wrappers
  import opened Markers
  import opened Transitions

  /** The flag value that asks the Estado(int) constructor for id -1. */
  const CREACION_INTERNA: int := -999

  /** One state: its id, its accepting flag, its token (-1 for none) and its outgoing edges. */
  datatype Estado = Estado(id: int, accepting: bool, token: int, edges: set<Transition>)

  /** Every edge is one the Transition constructors can build and points into the arena. */
  ghost predicate GraphValid(nodes: seq<Estado>) {
    forall i, t {:trigger t in nodes[i].edges} ::
      0 <= i < |nodes| && t in nodes[i].edges ==> t.dest < |nodes| && Transitions.Valid(t)
  }

  /** All state references of the arena. */
  function Indices(nodes: seq<Estado>): (r: set<StateRef>)
    ensures forall i :: i in r <==> 0 <= i < |nodes|
  {
    Below(|nodes|)
  }

  /** The naturals below n. */
  function Below(n: nat): (r: set<nat>)
    ensures forall i :: i in r <==> 0 <= i < n
  {
    if n == 0 then {} else Below(n - 1) + {n - 1}
  }

  /** Java's Estado.equals (and hashCode): only the ids are compared. */
  predicate SameEstado(nodes: seq<Estado>, i: StateRef, j: StateRef)
    requires i < |nodes| && j < |nodes|
  {
    nodes[i].id == nodes[j].id
  }

  /** Ids handed out by the counter are below the counter and never handed out twice. */
  ghost predicate FreshIds(nodes: seq<Estado>, counter: int) {
    && (forall i :: 0 <= i < |nodes| ==> nodes[i].id < counter)
    && (forall i, j :: 0 <= i < |nodes| && 0 <= j < |nodes| && i != j && nodes[i].id != -1 ==> nodes[i].id != nodes[j].id)
  }

  class Arena {
    /** The states allocated so far, indexed by reference. */
    var nodes: seq<Estado>
    /** contadorEstados: the next id the counter hands out. */
    var counter: nat

    ghost predicate Valid()
      reads this
    {
      GraphValid(nodes)
    }

    constructor ()
      ensures nodes == [] && counter == 0 && Valid()
    {
      nodes := [];
      counter := 0;
    }

    /** Estado(): the id is the counter, which then goes up by one; not accepting, token -1, no edges. */
    method NewEstado() returns (s: StateRef)
      modifies this
      ensures s == |old(nodes)|
      ensures nodes == old(nodes) + [Estado(old(counter), false, -1, {})]
      ensures counter == old(counter) + 1
      ensures old(Valid()) ==> Valid()
      ensures old(FreshIds(nodes, counter)) ==> FreshIds(nodes, counter)
    {
      s := |nodes|;
      nodes := nodes + [Estado(counter, false, -1, {})];
      counter := counter + 1;
    }

    /** Estado(boolean): as Estado(), then the accepting flag is set to the argument. */
    method NewEstadoAceptacion(acc: bool) returns (s: StateRef)
      modifies this
      ensures s == |old(nodes)|
      ensures nodes == old(nodes) + [Estado(old(counter), acc, -1, {})]
      ensures counter == old(counter) + 1
      ensures old(Valid()) ==> Valid()
      ensures old(FreshIds(nodes, counter)) ==> FreshIds(nodes, counter)
    {
      s := NewEstado();
      SetAceptacion(s, acc);
    }

    /**
     * Estado(int flag): CREACION_INTERNA gives id -1 and leaves the counter
     * alone; any other flag takes the next id.
     */
    method NewEstadoFlag(flag: int) returns (s: StateRef)
      modifies this
      ensures s == |old(nodes)|
      ensures nodes == old(nodes) + [Estado(if flag == CREACION_INTERNA then -1 else old(counter), false, -1, {})]
      ensures counter == if flag == CREACION_INTERNA then old(counter) else old(counter) + 1
      ensures old(Valid()) ==> Valid()
      ensures old(FreshIds(nodes, counter)) ==> FreshIds(nodes, counter)
    {
      s := |nodes|;
      if flag == CREACION_INTERNA {
        nodes := nodes + [Estado(-1, false, -1, {})];
      } else {
        nodes := nodes + [Estado(counter, false, -1, {})];
        counter := counter + 1;
      }
    }

    /** agregarTransicion: a transition is added to the state's set; null changes nothing. */
    method AgregarTransicion(s: StateRef, t: Option<Transition>)
      requires s < |nodes|
      modifies this
      ensures t.None? ==> nodes == old(nodes)
      ensures t.Some? ==> nodes == old(nodes)[s := old(nodes)[s].(edges := old(nodes)[s].edges + {t.value})]
      ensures counter == old(counter)
      ensures old(Valid()) && (t.Some? ==> t.value.dest < |nodes| && Transitions.Valid(t.value)) ==> Valid()
    {
      if t.Some? {
        nodes := nodes[s := nodes[s].(edges := nodes[s].edges + {t.value})];
      }
    }

    /** setAceptacion */
    method SetAceptacion(s: StateRef, acc: bool)
      requires s < |nodes|
      modifies this
      ensures nodes == old(nodes)[s := old(nodes)[s].(accepting := acc)]
      ensures counter == old(counter)
      ensures old(Valid()) ==> Valid()
    {
      nodes := nodes[s := nodes[s].(accepting := acc)];
    }

    /** setToken */
    method SetToken(s: StateRef, token: int)
      requires s < |nodes|
      modifies this
      ensures nodes == old(nodes)[s := old(nodes)[s].(token := token)]
      ensures counter == old(counter)
      ensures old(Valid()) ==> Valid()
    {
      nodes := nodes[s := nodes[s].(token := token)];
    }

    /** reiniciarContadorIds: the counter goes back to 0; the states keep their ids. */
    method ReiniciarContadorIds()
      modifies this
      ensures counter == 0 && nodes == old(nodes)
    {
      counter := 0;
    }
  }

  /**
   * Two states created with CREACION_INTERNA are equal under Java's equals,
   * however different their flags, tokens and edges.
   */
  lemma InternalStatesCompareEqual(nodes: seq<Estado>, i: StateRef, j: StateRef)
    requires i < |nodes| && j < |nodes| && nodes[i].id == -1 && nodes[j].id == -1
    ensures SameEstado(nodes, i, j)
  {
  }
}
