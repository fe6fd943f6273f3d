/** What the back end's buffers, well-formedness clauses, decoding and DIMACS
    text promise. */
module BackEndProperties {
  import opened Base
  import opened Lattices
  import opened Cnf
  import opened Slots
  import opened Serializer
  import opened SerializerProperties
  import opened Dimacs
  import opened PrintUtils
  import opened BackEnd

  // ----- convertAll ------------------------------------------------------

  /** The kept clauses are the non-empty ones. */
  lemma {:induction false} KeptExact(cl: seq<Clause>)
    ensures forall x :: x in Kept(cl) <==> x in cl && x != []
  {
    if cl != [] {
      KeptExact(cl[..|cl| - 1]);
      assert cl == cl[..|cl| - 1] + [cl[|cl| - 1]];
    }
  }

  /** Hard clause `cl` is paired with the constraint `c` that produced it. */
  predicate HardEntry(lat: Lattice, cs: seq<Constraint>, cl: Clause, c: Constraint) {
    && cl != [] && !c.Preference? && c in cs && WellTyped(c)
    && SerializeSpec(lat, c).Ok? && cl in SerializeSpec(lat, c).value
  }

  /** Soft clause `cl` was produced by a preference constraint. */
  ghost predicate SoftEntry(lat: Lattice, cs: seq<Constraint>, cl: Clause) {
    && cl != []
    && exists c :: c in cs && c.Preference? && WellTyped(c) && SerializeSpec(lat, c).Ok? && cl in SerializeSpec(lat, c).value
  }

  /** `convertAll` only appends; the hard clause and hard constraint lists
      stay parallel, every new hard clause is a non-empty clause of the
      non-preference constraint beside it, and every new soft clause a
      non-empty clause of a preference. */
  lemma {:induction false} ConvertAligned(lat: Lattice, b: Buffers, cs: seq<Constraint>)
    requires AllWellTyped(cs) && |b.hard| == |b.hardOf|
    ensures var r := Convert(lat, b, cs).0;
      && |r.hard| == |r.hardOf|
      && b.hard <= r.hard && b.hardOf <= r.hardOf && b.soft <= r.soft
      && b.varSlotIds <= r.varSlotIds
      && (forall i :: |b.hard| <= i < |r.hard| ==> HardEntry(lat, cs, r.hard[i], r.hardOf[i]))
      && (forall i :: |b.soft| <= i < |r.soft| ==> SoftEntry(lat, cs, r.soft[i]))
  {
    if cs != [] {
      var init := cs[..|cs| - 1];
      var c := cs[|cs| - 1];
      ConvertAligned(lat, b, init);
      var (b1, f) := Convert(lat, b, init);
      forall i | |b.hard| <= i < |b1.hard| ensures HardEntry(lat, cs, b1.hard[i], b1.hardOf[i]) {
        assert b1.hardOf[i] in init;
      }
      forall i | |b.soft| <= i < |b1.soft| ensures SoftEntry(lat, cs, b1.soft[i]) {
        assert SoftEntry(lat, init, b1.soft[i]);
        var d :| d in init && d.Preference? && WellTyped(d) && SerializeSpec(lat, d).Ok? && b1.soft[i] in SerializeSpec(lat, d).value;
        assert d in cs;
      }
      if f.None? {
        var b2 := b1.(varSlotIds := CollectVarSlots(b1.varSlotIds, c));
        if SerializeSpec(lat, c).Ok? {
          var cl := SerializeSpec(lat, c).value;
          KeptExact(cl);
          var r := Distribute(b2, c, cl);
          assert c in cs;
          forall i | |b1.hard| <= i < |r.hard| ensures HardEntry(lat, cs, r.hard[i], r.hardOf[i]) {
            assert r.hard[i] in Kept(cl);
          }
          forall i | |b1.soft| <= i < |r.soft| ensures SoftEntry(lat, cs, r.soft[i]) {
            assert r.soft[i] in Kept(cl);
          }
        }
      }
    }
  }

  /** Clause x of constraint c sits in buffers r past the hard prefix of
      length from. */
  ghost predicate Reached(from: nat, r: Buffers, c: Constraint, x: Clause) {
    if c.Preference? then x in r.soft
    else exists i :: from <= i < |r.hard| && i < |r.hardOf| && r.hard[i] == x && r.hardOf[i] == c
  }

  lemma ReachedGrows(from: nat, r1: Buffers, r2: Buffers, c: Constraint, x: Clause)
    requires Reached(from, r1, c, x)
    requires r1.hard <= r2.hard && r1.hardOf <= r2.hardOf && r1.soft <= r2.soft
    ensures Reached(from, r2, c, x)
  {
    if !c.Preference? {
      var i :| from <= i < |r1.hard| && i < |r1.hardOf| && r1.hard[i] == x && r1.hardOf[i] == c;
      assert r2.hard[i] == x && r2.hardOf[i] == c;
    }
  }

  lemma DistributeReaches(from: nat, b: Buffers, c: Constraint, cl: seq<Clause>, x: Clause)
    requires from <= |b.hard| == |b.hardOf| && x in cl && x != []
    ensures Reached(from, Distribute(b, c, cl), c, x)
  {
    KeptExact(cl);
    var r := Distribute(b, c, cl);
    if !c.Preference? {
      var j :| 0 <= j < |Kept(cl)| && Kept(cl)[j] == x;
      assert r.hard[|b.hard| + j] == x && r.hardOf[|b.hard| + j] == c;
    }
  }

  /** A run without a fault ends with a faultless step on the last
      constraint after a faultless run on the others. */
  lemma ConvertLast(lat: Lattice, b: Buffers, cs: seq<Constraint>)
    requires AllWellTyped(cs) && cs != [] && Convert(lat, b, cs).1.None?
    ensures Convert(lat, b, cs[..|cs| - 1]).1.None?
    ensures Convert(lat, b, cs) == Step(lat, Convert(lat, b, cs[..|cs| - 1]).0, cs[|cs| - 1])
  {
  }

  /** A faultless step distributes the constraint's serialization. */
  lemma StepOk(lat: Lattice, b: Buffers, c: Constraint)
    requires WellTyped(c) && Step(lat, b, c).1.None?
    ensures SerializeSpec(lat, c).Ok?
    ensures Step(lat, b, c).0
      == Distribute(b.(varSlotIds := CollectVarSlots(b.varSlotIds, c)), c, SerializeSpec(lat, c).value)
  {
  }

  /** Without a fault, every non-empty clause of every constraint reaches its
      buffer: a preference's the soft one, any other's the hard one, paired
      with the constraint. */
  lemma {:induction false} ConvertComplete(lat: Lattice, b: Buffers, cs: seq<Constraint>)
    requires AllWellTyped(cs) && |b.hard| == |b.hardOf|
    requires Convert(lat, b, cs).1.None?
    ensures forall k :: 0 <= k < |cs| ==> SerializeSpec(lat, cs[k]).Ok?
    ensures forall k, x :: 0 <= k < |cs| && x in SerializeSpec(lat, cs[k]).value && x != [] ==>
      Reached(|b.hard|, Convert(lat, b, cs).0, cs[k], x)
  {
    if cs != [] {
      var init := cs[..|cs| - 1];
      var c := cs[|cs| - 1];
      ConvertLast(lat, b, cs);
      var b1 := Convert(lat, b, init).0;
      ConvertComplete(lat, b, init);
      ConvertAligned(lat, b, init);
      StepOk(lat, b1, c);
      var cl := SerializeSpec(lat, c).value;
      var b2 := b1.(varSlotIds := CollectVarSlots(b1.varSlotIds, c));
      var r := Distribute(b2, c, cl);
      assert r == Convert(lat, b, cs).0;
      forall k | 0 <= k < |cs| ensures SerializeSpec(lat, cs[k]).Ok? {
        if k < |init| { assert cs[k] == init[k]; }
      }
      forall k, x | 0 <= k < |cs| && x in SerializeSpec(lat, cs[k]).value && x != []
        ensures Reached(|b.hard|, r, cs[k], x)
      {
        if k < |init| {
          assert cs[k] == init[k];
          ReachedGrows(|b.hard|, b1, r, cs[k], x);
        } else {
          DistributeReaches(|b.hard|, b2, c, cl, x);
        }
      }
    }
  }

  /** The only fault is the null dereference of Subtype(variable, variable),
      raised exactly when some constraint's serialization fails. */
  lemma {:induction false} ConvertFault(lat: Lattice, b: Buffers, cs: seq<Constraint>)
    requires AllWellTyped(cs)
    ensures Convert(lat, b, cs).1.Some? <==> exists k :: 0 <= k < |cs| && SerializeSpec(lat, cs[k]).Fail?
    ensures Convert(lat, b, cs).1.Some? ==> Convert(lat, b, cs).1 == Some(NullPointerException)
  {
    ConvertFaultAny(lat, b, cs);
    AnyFailExists(lat, cs);
  }

  /** Some constraint of cs fails to serialize. */
  predicate AnyFail(lat: Lattice, cs: seq<Constraint>)
    requires AllWellTyped(cs)
  {
    cs != [] && (AnyFail(lat, cs[..|cs| - 1]) || SerializeSpec(lat, cs[|cs| - 1]).Fail?)
  }

  lemma {:induction false} ConvertFaultAny(lat: Lattice, b: Buffers, cs: seq<Constraint>)
    requires AllWellTyped(cs)
    ensures Convert(lat, b, cs).1.Some? <==> AnyFail(lat, cs)
    ensures Convert(lat, b, cs).1.Some? ==> Convert(lat, b, cs).1 == Some(NullPointerException)
  {
    if cs != [] {
      var init := cs[..|cs| - 1];
      ConvertFaultAny(lat, b, init);
      ConvertStep(lat, b, cs);
      StepFault(lat, Convert(lat, b, init).0, cs[|cs| - 1]);
    }
  }

  lemma {:induction false} AnyFailExists(lat: Lattice, cs: seq<Constraint>)
    requires AllWellTyped(cs)
    ensures AnyFail(lat, cs) <==> exists k :: 0 <= k < |cs| && SerializeSpec(lat, cs[k]).Fail?
  {
    if cs != [] {
      var init := cs[..|cs| - 1];
      AnyFailExists(lat, init);
      if exists k :: 0 <= k < |init| && SerializeSpec(lat, init[k]).Fail? {
        var k :| 0 <= k < |init| && SerializeSpec(lat, init[k]).Fail?;
        assert cs[k] == init[k];
      }
      if exists k :: 0 <= k < |cs| && SerializeSpec(lat, cs[k]).Fail? {
        var k :| 0 <= k < |cs| && SerializeSpec(lat, cs[k]).Fail?;
        if k < |init| { assert cs[k] == init[k]; }
      }
    }
  }

  /** The fault of a run: the earlier constraints' one, else the last step's. */
  lemma ConvertStep(lat: Lattice, b: Buffers, cs: seq<Constraint>)
    requires AllWellTyped(cs) && cs != []
    ensures Convert(lat, b, cs).1 == if Convert(lat, b, cs[..|cs| - 1]).1.Some?
      then Convert(lat, b, cs[..|cs| - 1]).1
      else Step(lat, Convert(lat, b, cs[..|cs| - 1]).0, cs[|cs| - 1]).1
  {
  }

  /** A step faults exactly when the serialization does, with its fault. */
  lemma StepFault(lat: Lattice, b: Buffers, c: Constraint)
    requires WellTyped(c)
    ensures Step(lat, b, c).1.Some? <==> SerializeSpec(lat, c).Fail?
    ensures Step(lat, b, c).1.Some? ==> Step(lat, b, c).1 == Some(NullPointerException)
  {
    SerializeFailsWithNpe(lat, c);
  }

  lemma SerializeFailsWithNpe(lat: Lattice, c: Constraint)
    requires WellTyped(c)
    ensures SerializeSpec(lat, c).Fail? ==> SerializeSpec(lat, c).fault == NullPointerException
  {
  }

  /** The ids of the variable slots of the constraints. */
  function VarIds(cs: seq<Constraint>): set<nat> {
    if cs == [] then {} else CollectVarSlots(VarIds(cs[..|cs| - 1]), cs[|cs| - 1])
  }

  lemma {:induction false} VarIdsCover(cs: seq<Constraint>)
    ensures forall k :: 0 <= k < |cs| ==> VarIdsOf(cs[k]) <= VarIds(cs)
  {
    if cs != [] {
      var init := cs[..|cs| - 1];
      VarIdsCover(init);
      forall k | 0 <= k < |init| ensures VarIdsOf(cs[k]) <= VarIds(cs) {
        assert cs[k] == init[k];
      }
    }
  }

  lemma {:induction false} VarIdsWithin(cs: seq<Constraint>, id: nat)
    requires id in VarIds(cs)
    ensures exists k :: 0 <= k < |cs| && id in VarIdsOf(cs[k])
  {
    var init := cs[..|cs| - 1];
    if id in VarIds(init) {
      VarIdsWithin(init, id);
      var k :| 0 <= k < |init| && id in VarIdsOf(init[k]);
      assert cs[k] == init[k];
    } else {
      assert id in VarIdsOf(cs[|cs| - 1]);
    }
  }

  /** An id is collected iff some constraint has a variable slot with it. */
  lemma VarIdsMembers(cs: seq<Constraint>)
    ensures forall id :: id in VarIds(cs) <==> exists k :: 0 <= k < |cs| && id in VarIdsOf(cs[k])
  {
    VarIdsCover(cs);
    forall id | id in VarIds(cs) ensures exists k :: 0 <= k < |cs| && id in VarIdsOf(cs[k]) {
      VarIdsWithin(cs, id);
    }
  }

  /** Without a fault, the id set gains exactly the variable slots of the
      constraints. */
  lemma {:induction false} ConvertVarSlots(lat: Lattice, b: Buffers, cs: seq<Constraint>)
    requires AllWellTyped(cs)
    requires Convert(lat, b, cs).1.None?
    ensures Convert(lat, b, cs).0.varSlotIds == b.varSlotIds + VarIds(cs)
    ensures forall id :: id in Convert(lat, b, cs).0.varSlotIds <==>
      id in b.varSlotIds || exists k :: 0 <= k < |cs| && id in VarIdsOf(cs[k])
  {
    if cs != [] {
      ConvertVarSlots(lat, b, cs[..|cs| - 1]);
    }
    VarIdsMembers(cs);
  }

  // ----- generateWellForm -----------------------------------------------

  lemma {:induction false} AtMostOneCount(n: nat, id: nat, k: nat)
    requires k <= n
    ensures 2 * |AtMostOne(n, id, k)| == k * (2 * n - k - 1)
  {
    if k > 0 {
      AtMostOneCount(n, id, k - 1);
      assert (k - 1) * (2 * n - (k - 1) - 1) + 2 * (n - k) == k * (2 * n - k - 1);
    }
  }

  /** One slot gets 1 + n(n-1)/2 well-formedness clauses. */
  lemma WellFormCount(n: nat, id: nat)
    ensures 2 * (|WellForm(n, id)| - 1) == n * (n - 1)
  {
    AtMostOneCount(n, id, n);
  }

  lemma {:induction false} AtMostOneMeaning(m: Assignment, n: nat, id: nat, k: nat)
    requires k <= n
    ensures AllTrue(m, AtMostOne(n, id, k)) <==>
      forall i: Qualifier, j: Qualifier :: i < k && i < j < n ==> !(m(Encode(n, id, i)) && m(Encode(n, id, j)))
  {
    if k > 0 {
      AtMostOneMeaning(m, n, id, k - 1);
      AllTrueAppend(m, AtMostOne(n, id, k - 1), AtMostOneRow(n, id, k - 1));
      AtMostOneRowMeaning(m, n, id, k - 1);
    }
  }

  /** Row i holds iff qualifier i excludes every later one. */
  lemma AtMostOneRowMeaning(m: Assignment, n: nat, id: nat, i: Qualifier)
    requires i < n
    ensures AllTrue(m, AtMostOneRow(n, id, i)) <==>
      forall j: Qualifier :: i < j < n ==> !(m(Encode(n, id, i)) && m(Encode(n, id, j)))
  {
    var row := AtMostOneRow(n, id, i);
    forall t | 0 <= t < |row|
      ensures ClauseTrue(m, row[t]) <==> !(m(Encode(n, id, i)) && m(Encode(n, id, i + 1 + t)))
    {
      PairTrue(m, -Encode(n, id, i), -Encode(n, id, i + 1 + t));
    }
    if AllTrue(m, row) {
      forall j: Qualifier | i < j < n ensures !(m(Encode(n, id, i)) && m(Encode(n, id, j))) {
        assert ClauseTrue(m, row[j - i - 1]);
      }
    }
  }

  lemma AtLeastOneMeaning(m: Assignment, n: nat, id: nat)
    ensures ClauseTrue(m, AtLeastOne(n, id)) <==> exists q: Qualifier :: q < n && m(Encode(n, id, q))
  {
    var c := AtLeastOne(n, id);
    if exists q: Qualifier :: q < n && m(Encode(n, id, q)) {
      var q: Qualifier :| q < n && m(Encode(n, id, q));
      assert LitTrue(m, c[q]);
    }
  }

  /** A slot's well-formedness clauses hold iff it holds exactly one
      qualifier of the lattice. */
  lemma WellFormMeaning(m: Assignment, n: nat, id: nat)
    ensures AllTrue(m, WellForm(n, id)) <==> ExactlyOne(m, n, id)
  {
    AtLeastOneMeaning(m, n, id);
    AtMostOneMeaning(m, n, id, n);
    SingleTrue(m, AtLeastOne(n, id));
    AllTrueAppend(m, [AtLeastOne(n, id)], AtMostOne(n, id, n));
    if AllTrue(m, WellForm(n, id)) {
      var q: Qualifier :| q < n && m(Encode(n, id, q));
      forall p: Qualifier | p < n && p != q ensures !m(Encode(n, id, p)) {
        if p < q {
          assert !(m(Encode(n, id, p)) && m(Encode(n, id, q)));
        } else {
          assert !(m(Encode(n, id, q)) && m(Encode(n, id, p)));
        }
      }
      assert Holds(m, n, id, q);
    }
    if ExactlyOne(m, n, id) {
      var q: Qualifier :| Holds(m, n, id, q);
      assert m(Encode(n, id, q));
    }
  }

  /** All appended well-formedness clauses hold iff every slot id of the set
      holds exactly one qualifier. */
  lemma {:induction false} WellFormUpToMeaning(m: Assignment, n: nat, ids: set<nat>, k: nat)
    ensures AllTrue(m, WellFormUpTo(n, ids, k)) <==> forall id | id in ids && id < k :: ExactlyOne(m, n, id)
  {
    if k > 0 {
      WellFormUpToMeaning(m, n, ids, k - 1);
      var tail := if k - 1 in ids then WellForm(n, k - 1) else [];
      AllTrueAppend(m, WellFormUpTo(n, ids, k - 1), tail);
      if k - 1 in ids {
        WellFormMeaning(m, n, k - 1);
      }
    }
  }

  /** The number of appended clauses: one slot's worth per id of the set. */
  lemma {:induction false} WellFormUpToCount(n: nat, ids: set<nat>, k: nat)
    ensures |WellFormUpTo(n, ids, k)| == |IdsBelow(ids, k)| * |WellForm(n, 0)|
  {
    if k > 0 {
      WellFormUpToCount(n, ids, k - 1);
      WellFormCount(n, k - 1);
      WellFormCount(n, 0);
      IdsBelowStep(ids, k - 1);
    }
  }

  /** The ids of the set below k. */
  function IdsBelow(ids: set<nat>, k: nat): set<nat> {
    set id | id in ids && id < k
  }

  lemma IdsBelowStep(ids: set<nat>, k: nat)
    ensures |IdsBelow(ids, k + 1)| == |IdsBelow(ids, k)| + (if k in ids then 1 else 0)
  {
    if k in ids {
      assert IdsBelow(ids, k + 1) == IdsBelow(ids, k) + {k};
    } else {
      assert IdsBelow(ids, k + 1) == IdsBelow(ids, k);
    }
  }

  // ----- decode ----------------------------------------------------------

  /** The decoded slots are exactly those of the positive literals. */
  lemma {:induction false} DecodeKeys(n: nat, sol: seq<int>)
    requires n > 0
    ensures forall id :: id in DecodeSpec(n, sol) <==>
      exists k :: 0 <= k < |sol| && sol[k] > 0 && SlotIdOf(n, sol[k] - 1) == id
  {
    if sol != [] {
      var init := sol[..|sol| - 1];
      DecodeKeys(n, init);
      forall id ensures id in DecodeSpec(n, sol) <==>
        exists k :: 0 <= k < |sol| && sol[k] > 0 && SlotIdOf(n, sol[k] - 1) == id
      {
        if exists k :: 0 <= k < |init| && init[k] > 0 && SlotIdOf(n, init[k] - 1) == id {
          var k :| 0 <= k < |init| && init[k] > 0 && SlotIdOf(n, init[k] - 1) == id;
          assert sol[k] == init[k];
        }
        if exists k :: 0 <= k < |sol| && sol[k] > 0 && SlotIdOf(n, sol[k] - 1) == id {
          var k :| 0 <= k < |sol| && sol[k] > 0 && SlotIdOf(n, sol[k] - 1) == id;
          if k < |init| { assert init[k] == sol[k]; }
        }
      }
    }
  }

  /** If every positive literal of slot id decodes to q, and there is one,
      the slot decodes to q. */
  lemma {:induction false} DecodeAt(n: nat, sol: seq<int>, id: nat, q: Qualifier)
    requires n > 0
    requires exists k :: 0 <= k < |sol| && sol[k] > 0 && SlotIdOf(n, sol[k] - 1) == id
    requires forall k :: 0 <= k < |sol| && sol[k] > 0 && SlotIdOf(n, sol[k] - 1) == id ==> IntRepOf(n, sol[k] - 1) == q
    ensures id in DecodeSpec(n, sol) && DecodeSpec(n, sol)[id] == q
  {
    var init := sol[..|sol| - 1];
    var v := sol[|sol| - 1];
    if !(v > 0 && SlotIdOf(n, v - 1) == id) {
      var k :| 0 <= k < |sol| && sol[k] > 0 && SlotIdOf(n, sol[k] - 1) == id;
      assert k < |init| && init[k] == sol[k];
      forall j | 0 <= j < |init| && init[j] > 0 && SlotIdOf(n, init[j] - 1) == id
        ensures IntRepOf(n, init[j] - 1) == q
      {
        assert init[j] == sol[j];
      }
      DecodeAt(n, init, id, q);
    }
  }

  /** For a model of a slot that holds exactly q, with its variables in
      range, the slot decodes to q. */
  lemma DecodeModel(m: Assignment, n: nat, vars: nat, id: nat, q: Qualifier)
    requires n > 0 && Holds(m, n, id, q) && Encode(n, id, q) <= vars
    ensures id in DecodeSpec(n, ModelOf(m, vars)) && DecodeSpec(n, ModelOf(m, vars))[id] == q
  {
    var sol := ModelOf(m, vars);
    EncodeRoundTrip(n, id, q);
    assert sol[Encode(n, id, q) - 1] == Encode(n, id, q);
    forall k | 0 <= k < |sol| && sol[k] > 0 && SlotIdOf(n, sol[k] - 1) == id
      ensures IntRepOf(n, sol[k] - 1) == q
    {
      var v := sol[k];
      assert v == k + 1 && m(v);
      DecodeRoundTrip(n, v);
      HoldsVariable(m, n, id, q, IntRepOf(n, v - 1));
    }
    DecodeAt(n, sol, id, q);
  }

  lemma EncodeBelow(n: nat, slots: nat, id: nat, q: Qualifier)
    requires id < slots && q < n
    ensures Encode(n, id, q) <= slots * n
  {
    MulAtLeast(slots - id, n);
    assert slots * n == id * n + (slots - id) * n;
  }

  /** When the solver's model satisfies the hard clauses `solve` passes it
      (the converted clauses, then the well-formedness clauses), every
      variable slot decodes to the one qualifier it holds. */
  lemma SatisfyingModelDecodes(n: nat, slots: nat, ids: set<nat>, converted: seq<Clause>, m: Assignment)
    requires n > 0 && forall id | id in ids :: id < slots
    requires AllTrue(m, converted + WellFormUpTo(n, ids, slots))
    ensures forall id | id in ids ::
      id in DecodeSpec(n, ModelOf(m, slots * n)) && Holds(m, n, id, DecodeSpec(n, ModelOf(m, slots * n))[id])
  {
    AllTrueAppend(m, converted, WellFormUpTo(n, ids, slots));
    WellFormUpToMeaning(m, n, ids, slots);
    forall id | id in ids
      ensures id in DecodeSpec(n, ModelOf(m, slots * n)) && Holds(m, n, id, DecodeSpec(n, ModelOf(m, slots * n))[id])
    {
      var q: Qualifier :| Holds(m, n, id, q);
      EncodeBelow(n, slots, id, q);
      DecodeModel(m, n, slots * n, id, q);
    }
  }

  // ----- the DIMACS text of the hard clauses ---------------------------

  predicate AllNonZero(cs: seq<Clause>) {
    forall k :: 0 <= k < |cs| ==> NonZero(cs[k])
  }

  lemma AllNonZeroAppend(a: seq<Clause>, b: seq<Clause>)
    requires AllNonZero(a) && AllNonZero(b)
    ensures AllNonZero(a + b)
  {
    forall k | 0 <= k < |a + b| ensures NonZero((a + b)[k]) {
      if k >= |a| { assert (a + b)[k] == b[k - |a|]; }
    }
  }

  lemma {:induction false} SubtypeRelationalNonZero(lat: Lattice, subId: nat, supId: nat, k: nat)
    requires TotalBelow(lat, k)
    ensures AllNonZero(SubtypeRelational(lat, subId, supId, k))
  {
    if k > 0 {
      var q := k - 1;
      var n := lat.numTypes;
      var prev := SubtypeRelational(lat, subId, supId, q);
      var a := if q != lat.top then [Maybe(n, q, subId, supId, lat.superType[q])] else [];
      var b := if q != lat.bottom then [Maybe(n, q, supId, subId, lat.subType[q])] else [];
      assert SubtypeRelational(lat, subId, supId, k) == prev + a + b;
      SubtypeRelationalNonZero(lat, subId, supId, q);
      if q != lat.top { MaybeNonZero(n, q, subId, supId, lat.superType[q]); }
      if q != lat.bottom { MaybeNonZero(n, q, supId, subId, lat.subType[q]); }
      AllNonZeroAppend(prev, a);
      AllNonZeroAppend(prev + a, b);
    }
  }

  lemma MaybeNonZero(n: nat, q: Qualifier, known: nat, unknown: nat, s: seq<Qualifier>)
    ensures AllNonZero([Maybe(n, q, known, unknown, s)])
  {
    var c := Maybe(n, q, known, unknown, s);
    forall i | 0 <= i < |c| ensures c[i] != 0 {
      if i > 0 { assert c[i] == Encode(n, unknown, s[i - 1]); }
    }
  }

  lemma {:induction false} ComparableUpToNonZero(lat: Lattice, a: nat, b: nat, k: nat)
    ensures AllNonZero(ComparableUpTo(lat, a, b, k))
  {
    if k > 0 {
      ComparableUpToNonZero(lat, a, b, k - 1);
      var row := if k - 1 in lat.incomparableType
        then ComparableRow(lat.numTypes, a, b, k - 1, lat.incomparableType[k - 1]) else [];
      assert AllNonZero(row);
      AllNonZeroAppend(ComparableUpTo(lat, a, b, k - 1), row);
    }
  }

  /** No serialized clause contains the literal 0, the DIMACS terminator. */
  lemma SerializeNonZero(lat: Lattice, c: Constraint)
    requires WellTyped(c)
    ensures SerializeSpec(lat, c).Ok? ==> AllNonZero(SerializeSpec(lat, c).value)
  {
    match c
    case Subtype(Variable(i, _), Variable(j, _)) =>
      if TotalBelow(lat, lat.numTypes) {
        SubtypeRelationalNonZero(lat, i, j, lat.numTypes);
        var n := lat.numTypes;
        AllNonZeroAppend(SubtypeRelational(lat, i, j, n),
          [[-Encode(n, i, lat.top), Encode(n, j, lat.top)], [-Encode(n, j, lat.bottom), Encode(n, i, lat.bottom)]]);
      }
    case Comparable(Variable(i, _), Variable(j, _)) =>
      ComparableUpToNonZero(lat, i, j, lat.numTypes);
    case _ =>
  }

  lemma {:induction false} KeptNonZero(cl: seq<Clause>)
    requires AllNonZero(cl)
    ensures AllNonZero(Kept(cl))
  {
    KeptExact(cl);
    forall k | 0 <= k < |Kept(cl)| ensures NonZero(Kept(cl)[k]) {
      var x := Kept(cl)[k];
      assert x in Kept(cl);
      var j :| 0 <= j < |cl| && cl[j] == x;
    }
  }

  lemma {:induction false} ConvertNonZero(lat: Lattice, b: Buffers, cs: seq<Constraint>)
    requires AllWellTyped(cs) && AllNonZero(b.hard)
    ensures AllNonZero(Convert(lat, b, cs).0.hard)
  {
    if cs != [] {
      var init := cs[..|cs| - 1];
      var c := cs[|cs| - 1];
      ConvertNonZero(lat, b, init);
      var b1 := Convert(lat, b, init).0;
      SerializeNonZero(lat, c);
      if SerializeSpec(lat, c).Ok? {
        KeptNonZero(SerializeSpec(lat, c).value);
        AllNonZeroAppend(b1.hard, Kept(SerializeSpec(lat, c).value));
      }
    }
  }

  lemma {:induction false} WellFormUpToNonZero(n: nat, ids: set<nat>, k: nat)
    ensures AllNonZero(WellFormUpTo(n, ids, k))
  {
    if k > 0 {
      WellFormUpToNonZero(n, ids, k - 1);
      var id := k - 1;
      AtMostOneNonZero(n, id, n);
      assert NonZero(AtLeastOne(n, id));
      AllNonZeroAppend([AtLeastOne(n, id)], AtMostOne(n, id, n));
      AllNonZeroAppend(WellFormUpTo(n, ids, k - 1), if id in ids then WellForm(n, id) else []);
    }
  }

  lemma {:induction false} AtMostOneNonZero(n: nat, id: nat, k: nat)
    requires k <= n
    ensures AllNonZero(AtMostOne(n, id, k))
  {
    if k > 0 {
      AtMostOneNonZero(n, id, k - 1);
      var row := AtMostOneRow(n, id, k - 1);
      forall t | 0 <= t < |row| ensures NonZero(row[t]) {
        assert row[t] == [-Encode(n, id, k - 1), -Encode(n, id, k + t)];
      }
      AllNonZeroAppend(AtMostOne(n, id, k - 1), AtMostOneRow(n, id, k - 1));
    }
  }

  /** The DIMACS text `buildCNF` writes for the hard clauses `solve` hands the
      solver (the converted ones, then the well-formedness ones) parses back
      to the variable count, the clause count and the clauses themselves. */
  lemma SolveCnfRoundTrip(lat: Lattice, cs: seq<Constraint>, slots: nat, ids: set<nat>)
    requires AllWellTyped(cs)
    ensures var hard := Convert(lat, Buffers(ids, [], [], []), cs).0.hard + WellFormUpTo(lat.numTypes, ids, slots);
      ParseDimacs(Render(slots * lat.numTypes, hard)) == Some((slots * lat.numTypes, |hard|, hard))
  {
    var b := Buffers(ids, [], [], []);
    ConvertNonZero(lat, b, cs);
    WellFormUpToNonZero(lat.numTypes, ids, slots);
    var hard := Convert(lat, b, cs).0.hard + WellFormUpTo(lat.numTypes, ids, slots);
    AllNonZeroAppend(Convert(lat, b, cs).0.hard, WellFormUpTo(lat.numTypes, ids, slots));
    RenderRoundTrip(slots * lat.numTypes, hard);
  }

  // ----- solve -----------------------------------------------------------

  /** What each kind of outcome of `solve` tells about the solver's answer:
      the explanation printer runs exactly on the two unsatisfiable answers,
      the timeout message appears exactly on a timeout, and a decoded result
      with an entry comes only from a satisfiable answer. */
  lemma DecidedOutcome(n: nat, hard: seq<Clause>, hc: seq<Constraint>, answer: SatAnswer,
                       explainer: Explainer, outcome: Outcome, explanation: Option<Explanation>)
    requires n > 0 && Decided(n, hard, hc, answer, explainer, outcome, explanation)
    ensures explanation.Some? <==> answer.Unsatisfiable? || answer.AddContradiction?
    ensures outcome == Escaped(RuntimeException(TimeoutMessage)) <==> answer.SolverTimeout?
    ensures outcome.Returned? && outcome.result != map[] ==> answer.Satisfiable?
    ensures answer.Satisfiable? ==> outcome == Returned(DecodeSpec(n, answer.model))
  {
    assert TimeoutMessage != UnknownMessage;
    assert TimeoutMessage != "Failed to print contradicting constraints";
    assert TimeoutMessage != "Failed to find contradicting constraints";
  }

  /** When the solver reports a model of the hard clauses `solve` built, the
      map `solve` returns gives every variable slot the one qualifier it
      holds in that model. */
  lemma SolveResultHolds(lat: Lattice, slots: nat, ids: set<nat>, converted: seq<Clause>, hc: seq<Constraint>,
                         m: Assignment, explainer: Explainer, outcome: Outcome, explanation: Option<Explanation>)
    requires lat.numTypes > 0 && forall id | id in ids :: id < slots
    requires AllTrue(m, converted + WellFormUpTo(lat.numTypes, ids, slots))
    requires Decided(lat.numTypes, converted + WellFormUpTo(lat.numTypes, ids, slots), hc,
                     Satisfiable(ModelOf(m, slots * lat.numTypes)), explainer, outcome, explanation)
    ensures outcome.Returned?
    ensures forall id | id in ids :: id in outcome.result && Holds(m, lat.numTypes, id, outcome.result[id])
  {
    SatisfyingModelDecodes(lat.numTypes, slots, ids, converted, m);
  }
}
