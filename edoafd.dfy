/**
 * EdoAFD.java: one DFA state kept as its own row of the table, 256
 * destination cells (one per byte) followed by the token cell, with
 * bounds-checked access, and equality and hash by id alone.
 */
module DfaStates {
  import opened Text
  import opened DfaSpec
  import opened ElemSets

  class EdoAFD {
    /** trans: the row; cells 0..255 are destinations or -1, cell 256 the token. */
    var trans: array<int>
    /** id: the state's identifier. */
    var id: int

    /** EdoAFD(): a fresh row of 257 cells of -1, id -1. */
    constructor ()
      ensures fresh(trans) && trans[..] == seq(WIDTH, _ => -1) && id == -1
    {
      trans := new int[WIDTH](_ => -1);
      id := -1;
    }

    /** EdoAFD(idEdo): as EdoAFD(), with the given id. */
    constructor WithId(idEdo: int)
      ensures fresh(trans) && trans[..] == seq(WIDTH, _ => -1) && id == idEdo
    {
      trans := new int[WIDTH](_ => -1);
      id := idEdo;
    }

    /**
     * getTransicion(c): the destination stored for c when c is a byte the row
     * has a cell for, -1 otherwise; the token cell is never returned.
     */
    function GetTransicion(c: char): (r: int)
      reads this, trans
      ensures r == -1 || exists k :: 0 <= k < TOKEN_COLUMN && k < trans.Length && r == trans[k]
      ensures c as int < TOKEN_COLUMN && c as int < trans.Length ==> r == trans[c as int]
      ensures !(c as int < TOKEN_COLUMN && c as int < trans.Length) ==> r == -1
    {
      var index := c as int;
      if index < TOKEN_COLUMN && index < trans.Length then trans[index] else -1
    }

    /** getToken(): the token cell, or -1 for a row too short to have one. */
    function GetToken(): (r: int)
      reads this, trans
      ensures trans.Length > TOKEN_COLUMN ==> r == trans[TOKEN_COLUMN]
      ensures trans.Length <= TOKEN_COLUMN ==> r == -1
    {
      if TOKEN_COLUMN < trans.Length then trans[TOKEN_COLUMN] else -1
    }

    /** setId(id). */
    method SetId(newId: int)
      modifies this
      ensures id == newId && trans == old(trans)
    {
      id := newId;
    }

    /** setTrans(t): the row becomes t itself (shared, not copied). */
    method SetTrans(t: array<int>)
      modifies this
      ensures trans == t && id == old(id)
    {
      trans := t;
    }

    /**
     * setTransicion(c, d): writes d into cell c when c < 257 and the row has
     * that cell, so c = 256 overwrites the token; otherwise nothing changes.
     * Stated through the getters: the cell for c reads d afterwards, every
     * other destination and (for c < 256) the token read as before.
     */
    method SetTransicion(c: char, d: int)
      modifies trans
      ensures c as int < WIDTH && c as int < trans.Length ==> trans[..] == old(trans[..])[c as int := d]
      ensures !(c as int < WIDTH && c as int < trans.Length) ==> trans[..] == old(trans[..])
      ensures c as int < TOKEN_COLUMN && c as int < trans.Length ==> GetTransicion(c) == d
      ensures c as int == TOKEN_COLUMN && c as int < trans.Length ==> GetToken() == d
      ensures forall e: char :: e != c ==> GetTransicion(e) == old(GetTransicion(e))
      ensures c as int != TOKEN_COLUMN ==> GetToken() == old(GetToken())
    {
      var index := c as int;
      if index < WIDTH && index < trans.Length {
        trans[index] := d;
      }
    }

    /** setToken(t): writes the token cell when the row has one; destinations unchanged. */
    method SetToken(t: int)
      modifies trans
      ensures trans.Length > TOKEN_COLUMN ==> trans[..] == old(trans[..])[TOKEN_COLUMN := t] && GetToken() == t
      ensures trans.Length <= TOKEN_COLUMN ==> trans[..] == old(trans[..])
      ensures forall e: char :: GetTransicion(e) == old(GetTransicion(e))
    {
      if TOKEN_COLUMN < trans.Length {
        trans[TOKEN_COLUMN] := t;
      }
    }

    /**
     * equals(o): the same object, or another EdoAFD with the same id; as the
     * same object has the same id, equality is exactly equality of ids,
     * whatever the rows hold.
     */
    function Equals(o: EdoAFD?): (r: bool)
      reads this, o
      ensures r <==> o != null && o.id == id
    {
      o == this || (o != null && id == o.id)
    }

    /** hashCode(): Objects.hash(id), that is 31 + id in 32-bit arithmetic. */
    function HashCode(): (r: int)
      reads this
      ensures IsInt32(r) && (r - (31 + id)) % 0x1_0000_0000 == 0
    {
      Wrap32(31 + id)
    }
  }

  /** Equal states hash alike: equals and hashCode agree, as the hash-set contract asks. */
  lemma EqualsHashAgree(a: EdoAFD, b: EdoAFD)
    requires a.Equals(b)
    ensures a.HashCode() == b.HashCode()
  {
  }
}
