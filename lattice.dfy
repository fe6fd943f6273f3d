/** The qualifier lattice and the dense boolean-variable encoding of
    (slot id, qualifier index) pairs used by the MaxSAT back end. */
module Lattices {

  /** A qualifier is identified by its stable 0-based index (the lattice's
      type-to-int map).  A constant slot may hold a value that is not a
      qualifier of the lattice; such a value is a number >= numTypes. */
  type Qualifier = nat

  /** The lattice as the back end sees it: the qualifier count, top, bottom,
      and for each qualifier the collections of its subtypes, supertypes and
      incomparable qualifiers (a qualifier without an entry has no collection). */
  datatype Lattice = Lattice(
    numTypes: nat,
    top: Qualifier,
    bottom: Qualifier,
    subType: map<Qualifier, seq<Qualifier>>,
    superType: map<Qualifier, seq<Qualifier>>,
    incomparableType: map<Qualifier, seq<Qualifier>>)
  {
    /** `getAllTypes().contains(q)`: the qualifiers are exactly [0, numTypes). */
    predicate Contains(q: Qualifier) {
      q < numTypes
    }

    /** Every qualifier the lattice mentions is one of its own. */
    ghost predicate Valid() {
      && top < numTypes
      && bottom < numTypes
      && RelationInRange(subType, numTypes)
      && RelationInRange(superType, numTypes)
      && RelationInRange(incomparableType, numTypes)
    }

    /** Every qualifier other than top has a supertype collection and every
        qualifier other than bottom a subtype collection. */
    predicate RelationsTotal() {
      forall q: Qualifier | q < numTypes ::
        (q != top ==> q in superType) && (q != bottom ==> q in subType)
    }
  }

  ghost predicate AllBelow(s: seq<Qualifier>, n: nat) {
    forall k :: 0 <= k < |s| ==> s[k] < n
  }

  ghost predicate RelationInRange(m: map<Qualifier, seq<Qualifier>>, n: nat) {
    forall q | q in m :: q < n && AllBelow(m[q], n)
  }

  /** `MathUtils.mapIdToMatrixEntry`: the boolean variable that says
      "slot id holds qualifier q".  Variables are 1-based. */
  function Encode(n: nat, id: nat, q: Qualifier): (v: int)
    ensures v >= 1
  {
    id * n + q + 1
  }

  /** `MathUtils.getSlotId` applied to a 0-based variable index. */
  function SlotIdOf(n: nat, v: nat): nat
    requires n > 0
  {
    v / n
  }

  /** `MathUtils.getIntRep` applied to a 0-based variable index. */
  function IntRepOf(n: nat, v: nat): Qualifier
    requires n > 0
  {
    v % n
  }

  lemma MulAtLeast(a: nat, n: nat)
    requires a >= 1
    ensures a * n >= n
  {
    assert a * n == (a - 1) * n + n;
  }

  lemma DivModUnique(n: nat, id: nat, q: nat)
    requires q < n
    ensures (id * n + q) / n == id && (id * n + q) % n == q
  {
    var v := id * n + q;
    var d, r := v / n, v % n;
    assert v == d * n + r;
    if d < id {
      MulAtLeast(id - d, n);
      assert false;
    } else if d > id {
      MulAtLeast(d - id, n);
      assert false;
    }
  }

  /** Decoding a variable recovers the slot id and the qualifier it encodes. */
  lemma EncodeRoundTrip(n: nat, id: nat, q: Qualifier)
    requires q < n
    ensures Encode(n, id, q) >= 1
    ensures SlotIdOf(n, Encode(n, id, q) - 1) == id
    ensures IntRepOf(n, Encode(n, id, q) - 1) == q
  {
    DivModUnique(n, id, q);
  }

  /** Every positive variable is the encoding of the pair it decodes to. */
  lemma DecodeRoundTrip(n: nat, v: int)
    requires n > 0 && v >= 1
    ensures IntRepOf(n, v - 1) < n
    ensures Encode(n, SlotIdOf(n, v - 1), IntRepOf(n, v - 1)) == v
  {
  }

  /** The encoding is injective on qualifiers of the lattice. */
  lemma EncodeInjective(n: nat, id1: nat, q1: Qualifier, id2: nat, q2: Qualifier)
    requires q1 < n && q2 < n
    ensures Encode(n, id1, q1) == Encode(n, id2, q2) <==> id1 == id2 && q1 == q2
  {
    if Encode(n, id1, q1) == Encode(n, id2, q2) {
      EncodeRoundTrip(n, id1, q1);
      EncodeRoundTrip(n, id2, q2);
    }
  }
}
