/**
 * ElemSj.java: one state of the DFA under construction, a numbered set of
 * NFA states. Java compares two of them (equals, hashCode) by their sets
 * alone and prints them as S<id>={<sorted ids of the NFA states>}.
 */
module ElemSets {
  import opened Wrappers
  import opened Transitions
  import opened States
  import opened Text

  datatype ElemSj = ElemSj(id: int, S: set<StateRef>)

  /** Objects.requireNonNull in setS. */
  datatype ElemSjError = NullSet

  /** ElemSj(): id -1 and the empty set. */
  function NewElemSj(): (e: ElemSj)
    ensures e.id == -1 && e.S == {}
  {
    ElemSj(-1, {})
  }

  /** setS: replaces the set and keeps the id; a null set is refused. */
  function SetS(e: ElemSj, s: Option<set<StateRef>>): (r: Result<ElemSj, ElemSjError>)
    ensures r.Failure? <==> s.None?
    ensures r.Success? ==> r.value.S == s.value && r.value.id == e.id
  {
    match s
    case None => Failure(NullSet)
    case Some(set_) => Success(e.(S := set_))
  }

  /** equals: two elements are equal when their sets are, whatever their ids. */
  predicate SameSubset(a: ElemSj, b: ElemSj) {
    a.S == b.S
  }

  /** Java's int: the low 32 bits, read as a signed number. */
  function Wrap32(x: int): (r: int)
    ensures IsInt32(r) && (r - x) % 0x1_0000_0000 == 0
  {
    var m := x % 0x1_0000_0000;
    if m > INT_MAX then m - 0x1_0000_0000 else m
  }

  /** Sum of Estado.hashCode (31 + id) over the members of S below k. */
  function HashSum(nodes: seq<Estado>, S: set<StateRef>, k: nat): int
    requires k <= |nodes|
  {
    if k == 0 then 0
    else HashSum(nodes, S, k - 1) + (if k - 1 in S then 31 + nodes[k - 1].id else 0)
  }

  /** hashCode: Objects.hash(S), i.e. 31 + the set's hash, the sum of its members' hashes. */
  function Hash(nodes: seq<Estado>, e: ElemSj): (h: int)
    requires e.S <= Indices(nodes)
    ensures IsInt32(h)
  {
    Wrap32(31 + HashSum(nodes, e.S, |nodes|))
  }

  /** Members of S below k whose id is x. */
  function WithId(nodes: seq<Estado>, S: set<StateRef>, k: nat, x: int): (r: set<StateRef>)
    requires k <= |nodes|
    ensures forall q :: q in r <==> q in S && q < k && nodes[q].id == x
  {
    set q | q in S && q < k && nodes[q].id == x
  }

  /** States that all carry id -1 (clones) add 30 each, so such sets hash by their size alone. */
  lemma {:induction false} HashOfCloneSets(nodes: seq<Estado>, S: set<StateRef>, k: nat)
    requires k <= |nodes|
    requires forall q :: q in S && q < k ==> nodes[q].id == -1
    ensures HashSum(nodes, S, k) == 30 * |WithId(nodes, S, k, -1)|
  {
    if k > 0 {
      HashOfCloneSets(nodes, S, k - 1);
      var before := WithId(nodes, S, k - 1, -1);
      if k - 1 in S {
        assert WithId(nodes, S, k, -1) == before + {k - 1};
      } else {
        assert WithId(nodes, S, k, -1) == before;
      }
    }
  }

  predicate Sorted(s: seq<int>) {
    forall i, j :: 0 <= i < j < |s| ==> s[i] <= s[j]
  }

  /** x put into its place in a sorted sequence. */
  function Insert(s: seq<int>, x: int): (r: seq<int>)
    requires Sorted(s)
    ensures Sorted(r) && multiset(r) == multiset(s) + multiset{x}
  {
    if s == [] then [x]
    else if x <= s[0] then [x] + s
    else
      var rest := Insert(s[1..], x);
      assert s == [s[0]] + s[1..];
      assert forall i :: 0 <= i < |rest| ==> s[0] <= rest[i] by {
        forall i | 0 <= i < |rest|
          ensures s[0] <= rest[i]
        {
          assert rest[i] in multiset(rest);
          if rest[i] != x {
            assert rest[i] in multiset(s[1..]);
            assert rest[i] in s[1..];
          }
        }
      }
      [s[0]] + rest
  }

  /**
   * The ids of the members of S below k, in ascending order: each id appears
   * as many times as members carry it.
   */
  function SortedIds(nodes: seq<Estado>, S: set<StateRef>, k: nat): (r: seq<int>)
    requires k <= |nodes|
    ensures Sorted(r)
    ensures forall x :: multiset(r)[x] == |WithId(nodes, S, k, x)|
  {
    if k == 0 then []
    else
      var r0 := SortedIds(nodes, S, k - 1);
      var r := if k - 1 in S then Insert(r0, nodes[k - 1].id) else r0;
      assert forall x :: multiset(r)[x] == |WithId(nodes, S, k, x)| by {
        forall x
          ensures multiset(r)[x] == |WithId(nodes, S, k, x)|
        {
          WithIdStep(nodes, S, k, x);
        }
      }
      r
  }

  /** Member k - 1 of S counts once more for its own id. */
  lemma WithIdStep(nodes: seq<Estado>, S: set<StateRef>, k: nat, x: int)
    requires 0 < k <= |nodes|
    ensures |WithId(nodes, S, k, x)| ==
      |WithId(nodes, S, k - 1, x)| + (if k - 1 in S && nodes[k - 1].id == x then 1 else 0)
  {
    var before := WithId(nodes, S, k - 1, x);
    if k - 1 in S && nodes[k - 1].id == x {
      assert WithId(nodes, S, k, x) == before + {k - 1};
    } else {
      assert WithId(nodes, S, k, x) == before;
    }
  }

  function IdStrings(ids: seq<int>): (r: seq<string>)
    ensures |r| == |ids| && forall i :: 0 <= i < |ids| ==> r[i] == IntToString(ids[i])
  {
    if ids == [] then [] else [IntToString(ids[0])] + IdStrings(ids[1..])
  }

  /** Two sorted sequences with the same elements start with the same element. */
  lemma SortedHeads(a: seq<int>, b: seq<int>)
    requires Sorted(a) && Sorted(b) && multiset(a) == multiset(b) && a != []
    ensures b != [] && a[0] == b[0]
  {
    assert |b| == |multiset(b)| == |a|;
    assert a[0] in multiset(b) && b[0] in multiset(a);
  }

  /** The elements of a non-empty sequence's tail: all but one copy of its head. */
  lemma TailMultiset(a: seq<int>)
    requires a != []
    ensures multiset(a[1..]) == multiset(a) - multiset{a[0]}
  {
    assert a == [a[0]] + a[1..];
  }

  /** Two ascending sequences holding the same numbers, with the same multiplicities, are equal. */
  lemma {:induction false} SortedUnique(a: seq<int>, b: seq<int>)
    requires Sorted(a) && Sorted(b) && multiset(a) == multiset(b)
    ensures a == b
    decreases |a|
  {
    if a == [] {
      assert |multiset(b)| == 0;
    } else {
      SortedHeads(a, b);
      TailMultiset(a);
      TailMultiset(b);
      SortedUnique(a[1..], b[1..]);
      assert a == [a[0]] + a[1..] && b == [b[0]] + b[1..];
    }
  }

  /**
   * toString: S, the id, "={", then the ids of the members of S in ascending
   * order, each as often as members carry it, joined by commas, and "}".
   */
  function ToString(nodes: seq<Estado>, e: ElemSj): (r: string)
    requires e.S <= Indices(nodes)
    ensures |r| >= 4 && r[0] == 'S' && r[|r| - 1] == '}'
    ensures forall ids :: Sorted(ids) && (forall x :: multiset(ids)[x] == |WithId(nodes, e.S, |nodes|, x)|) ==>
      r == "S" + IntToString(e.id) + "={" + Join(IdStrings(ids), ',') + "}"
  {
    var sorted := SortedIds(nodes, e.S, |nodes|);
    assert forall ids :: Sorted(ids) && (forall x :: multiset(ids)[x] == |WithId(nodes, e.S, |nodes|, x)|) ==>
      ids == sorted by {
      forall ids | Sorted(ids) && (forall x :: multiset(ids)[x] == |WithId(nodes, e.S, |nodes|, x)|)
        ensures ids == sorted
      {
        assert multiset(ids) == multiset(sorted);
        SortedUnique(ids, sorted);
      }
    }
    "S" + IntToString(e.id) + "={" + Join(IdStrings(sorted), ',') + "}"
  }

  /** A fresh element prints as S-1={}. */
  lemma ToStringOfNew(nodes: seq<Estado>)
    ensures ToString(nodes, NewElemSj()) == "S-1={}"
  {
    var ids := SortedIds(nodes, {}, |nodes|);
    forall x
      ensures multiset(ids)[x] == 0
    {
      assert WithId(nodes, {}, |nodes|, x) == {};
    }
    assert multiset(ids) == multiset{};
    assert IdStrings(ids) == [];
  }
}
