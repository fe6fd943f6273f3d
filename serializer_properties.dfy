/** What the serializer's clauses mean: for each constraint kind and operand
    kind, which assignments of the slots' qualifiers satisfy them. */
module SerializerProperties {
  import opened Base
  import opened Lattices
  import opened Cnf
  import opened Slots
  import opened Serializer

  lemma UnitTrue(m: Assignment, l: int)
    ensures ClauseTrue(m, [l]) <==> LitTrue(m, l)
  {
    if LitTrue(m, l) { assert [l][0] == l; }
  }

  lemma SingleTrue(m: Assignment, cl: Clause)
    ensures AllTrue(m, [cl]) <==> ClauseTrue(m, cl)
  {
    assert [cl][0] == cl;
  }

  lemma PairTrue(m: Assignment, x: int, y: int)
    ensures ClauseTrue(m, [x, y]) <==> LitTrue(m, x) || LitTrue(m, y)
  {
    if LitTrue(m, x) { assert [x, y][0] == x; }
    if LitTrue(m, y) { assert [x, y][1] == y; }
  }

  // ----- mustNotBe -----------------------------------------------------

  /** The forbidden qualifiers are listed once each, in ascending order. */
  lemma {:induction false} ForbiddenMembers(s: set<Qualifier>, c: Qualifier, k: nat)
    ensures forall q :: q in Forbidden(s, c, k) <==> q < k && q in s && q != c
    ensures forall i, j :: 0 <= i < j < |Forbidden(s, c, k)| ==>
      Forbidden(s, c, k)[i] < Forbidden(s, c, k)[j]
  {
    if k > 0 {
      ForbiddenMembers(s, c, k - 1);
      var prev := Forbidden(s, c, k - 1);
      var r := Forbidden(s, c, k);
      forall i, j | 0 <= i < j < |r| ensures r[i] < r[j] {
        assert prev[i] in prev;
        if j >= |prev| {
          assert r[j] == k - 1;
        } else {
          assert r[j] == prev[j];
        }
      }
    }
  }

  /** With every forbidden qualifier in range, the list has one entry per
      member of s other than c. */
  lemma ForbiddenCount(n: nat, s: set<Qualifier>, c: Qualifier)
    requires forall q | q in s :: q < n
    ensures |Forbidden(s, c, n)| == |s - {c}|
  {
    var f := Forbidden(s, c, n);
    ForbiddenMembers(s, c, n);
    assert NoDup(f);
    NoDupCard(f);
    assert Elems(f) == s - {c};
  }

  /** `getMustNotBe` emits exactly one negative unit clause `[-v_q]` for each
      q in mustNotBe other than the constant itself, and nothing else. */
  lemma MustNotBeMember(n: nat, s: set<Qualifier>, id: nat, c: Qualifier, q: Qualifier)
    requires q < n
    ensures [-Encode(n, id, q)] in MustNotBeClauses(n, s, id, c) <==> q in s && q != c
  {
    var f := Forbidden(s, c, n);
    var r := MustNotBeClauses(n, s, id, c);
    ForbiddenMembers(s, c, n);
    if q in s && q != c {
      var i :| 0 <= i < |f| && f[i] == q;
      assert r[i] == [-Encode(n, id, q)];
    }
    if [-Encode(n, id, q)] in r {
      var i :| 0 <= i < |r| && r[i] == [-Encode(n, id, q)];
      assert f[i] in f;
      EncodeInjective(n, id, q, id, f[i]);
    }
  }

  /** `getMustNotBe` emits only negative unit clauses, exactly one `[-v_q]`
      for each q in mustNotBe other than the constant itself. */
  lemma MustNotBeClausesShape(n: nat, s: set<Qualifier>, id: nat, c: Qualifier)
    requires forall q | q in s :: q < n
    ensures forall k :: 0 <= k < |MustNotBeClauses(n, s, id, c)| ==>
      |MustNotBeClauses(n, s, id, c)[k]| == 1 && MustNotBeClauses(n, s, id, c)[k][0] < 0
    ensures forall q: Qualifier | q < n ::
      [-Encode(n, id, q)] in MustNotBeClauses(n, s, id, c) <==> q in s && q != c
    ensures |MustNotBeClauses(n, s, id, c)| == |s - {c}|
  {
    forall q: Qualifier | q < n
      ensures [-Encode(n, id, q)] in MustNotBeClauses(n, s, id, c) <==> q in s && q != c
    {
      MustNotBeMember(n, s, id, c, q);
    }
    ForbiddenCount(n, s, c);
  }

  /** Under an assignment where the slot holds exactly q0, the mustNotBe
      clauses hold iff q0 is not forbidden. */
  lemma MustNotBeMeaning(m: Assignment, n: nat, s: set<Qualifier>, id: nat, c: Qualifier, q0: Qualifier)
    requires forall q | q in s :: q < n
    requires Holds(m, n, id, q0)
    ensures AllTrue(m, MustNotBeClauses(n, s, id, c)) <==> !(q0 in s && q0 != c)
  {
    var f := Forbidden(s, c, n);
    var r := MustNotBeClauses(n, s, id, c);
    ForbiddenMembers(s, c, n);
    if q0 in s && q0 != c {
      var i :| 0 <= i < |f| && f[i] == q0;
      UnitTrue(m, -Encode(n, id, q0));
      assert !ClauseTrue(m, r[i]);
    } else {
      forall k | 0 <= k < |r| ensures ClauseTrue(m, r[k]) {
        assert f[k] in f;
        HoldsVariable(m, n, id, q0, f[k]);
        UnitTrue(m, -Encode(n, id, f[k]));
      }
    }
  }

  // ----- Subtype with a constant operand ---------------------------------

  lemma SupMustNotBeInRange(lat: Lattice, c: Qualifier)
    requires lat.Valid()
    ensures forall q | q in SupMustNotBe(lat, c) :: q < lat.numTypes
    ensures forall q | q in SubMustNotBe(lat, c) :: q < lat.numTypes
  {
  }

  /** Subtype(constant c, variable sup): if c is top the only clause forces sup
      to top; otherwise one clause `[-sup_q]` per q in subType(c) or
      incomparableType(c) other than c, none when there is no such q. */
  lemma SubtypeConstVarShape(lat: Lattice, c: Qualifier, supId: nat)
    requires lat.Valid()
    ensures c == lat.top ==> SubtypeConstVarClauses(lat, c, supId) == [[Encode(lat.numTypes, supId, lat.top)]]
    ensures c != lat.top ==>
      && |SubtypeConstVarClauses(lat, c, supId)| == |SupMustNotBe(lat, c) - {c}|
      && forall q: Qualifier | q < lat.numTypes ::
           [-Encode(lat.numTypes, supId, q)] in SubtypeConstVarClauses(lat, c, supId)
           <==> q in SupMustNotBe(lat, c) && q != c
  {
    if c != lat.top {
      SupMustNotBeInRange(lat, c);
      MustNotBeClausesShape(lat.numTypes, SupMustNotBe(lat, c), supId, c);
    }
  }

  /** Subtype(constant c, variable sup) holds, for sup holding qb, iff
      qb is top when c is top, and otherwise qb is c or not forbidden. */
  lemma SubtypeConstVarMeaning(lat: Lattice, c: Qualifier, supId: nat, m: Assignment, qb: Qualifier)
    requires lat.Valid()
    requires Holds(m, lat.numTypes, supId, qb)
    ensures AllTrue(m, SubtypeConstVarClauses(lat, c, supId)) <==>
      if c == lat.top then qb == lat.top else qb == c || qb !in SupMustNotBe(lat, c)
  {
    if c == lat.top {
      UnitTrue(m, Encode(lat.numTypes, supId, lat.top));
      HoldsVariable(m, lat.numTypes, supId, qb, lat.top);
      assert SubtypeConstVarClauses(lat, c, supId) == [[Encode(lat.numTypes, supId, lat.top)]];
      SingleTrue(m, [Encode(lat.numTypes, supId, lat.top)]);
    } else {
      SupMustNotBeInRange(lat, c);
      MustNotBeMeaning(m, lat.numTypes, SupMustNotBe(lat, c), supId, c, qb);
    }
  }

  /** The mirror case Subtype(variable sub, constant c). */
  lemma SubtypeVarConstShape(lat: Lattice, subId: nat, c: Qualifier)
    requires lat.Valid()
    ensures c == lat.bottom ==> SubtypeVarConstClauses(lat, subId, c) == [[Encode(lat.numTypes, subId, lat.bottom)]]
    ensures c != lat.bottom ==>
      && |SubtypeVarConstClauses(lat, subId, c)| == |SubMustNotBe(lat, c) - {c}|
      && forall q: Qualifier | q < lat.numTypes ::
           [-Encode(lat.numTypes, subId, q)] in SubtypeVarConstClauses(lat, subId, c)
           <==> q in SubMustNotBe(lat, c) && q != c
  {
    if c != lat.bottom {
      assert SubtypeVarConstClauses(lat, subId, c) == MustNotBeClauses(lat.numTypes, SubMustNotBe(lat, c), subId, c);
      SupMustNotBeInRange(lat, c);
      MustNotBeClausesShape(lat.numTypes, SubMustNotBe(lat, c), subId, c);
    } else {
      assert SubtypeVarConstClauses(lat, subId, c) == Unit(Encode(lat.numTypes, subId, lat.bottom));
    }
  }

  lemma SubtypeVarConstMeaning(lat: Lattice, subId: nat, c: Qualifier, m: Assignment, qa: Qualifier)
    requires lat.Valid()
    requires Holds(m, lat.numTypes, subId, qa)
    ensures AllTrue(m, SubtypeVarConstClauses(lat, subId, c)) <==>
      if c == lat.bottom then qa == lat.bottom else qa == c || qa !in SubMustNotBe(lat, c)
  {
    if c == lat.bottom {
      UnitTrue(m, Encode(lat.numTypes, subId, lat.bottom));
      HoldsVariable(m, lat.numTypes, subId, qa, lat.bottom);
      assert SubtypeVarConstClauses(lat, subId, c) == [[Encode(lat.numTypes, subId, lat.bottom)]];
      SingleTrue(m, [Encode(lat.numTypes, subId, lat.bottom)]);
    } else {
      SupMustNotBeInRange(lat, c);
      MustNotBeMeaning(m, lat.numTypes, SubMustNotBe(lat, c), subId, c, qa);
    }
  }

  // ----- Subtype with two variables --------------------------------------

  /** A `getMaybe` clause holds iff the known slot does not hold q or the
      other slot holds one of the listed qualifiers. */
  lemma MaybeMeaning(m: Assignment, n: nat, q: Qualifier, known: nat, unknown: nat,
                     s: seq<Qualifier>, qu: Qualifier)
    requires AllBelow(s, n)
    requires Holds(m, n, unknown, qu)
    ensures ClauseTrue(m, Maybe(n, q, known, unknown, s)) <==> !m(Encode(n, known, q)) || qu in s
  {
    var c := Maybe(n, q, known, unknown, s);
    if ClauseTrue(m, c) && m(Encode(n, known, q)) {
      var k :| 0 <= k < |c| && LitTrue(m, c[k]);
      assert k > 0;
      assert c[k] == Encode(n, unknown, s[k - 1]);
      HoldsVariable(m, n, unknown, qu, s[k - 1]);
    }
    if !m(Encode(n, known, q)) {
      assert LitTrue(m, c[0]);
    } else if qu in s {
      var k :| 0 <= k < |s| && s[k] == qu;
      assert LitTrue(m, c[k + 1]);
    }
  }

  lemma {:induction false} SubtypeRelationalMeaning(lat: Lattice, subId: nat, supId: nat, k: nat,
                                                    m: Assignment, qa: Qualifier, qb: Qualifier)
    requires lat.Valid() && TotalBelow(lat, k)
    requires Holds(m, lat.numTypes, subId, qa) && Holds(m, lat.numTypes, supId, qb)
    ensures AllTrue(m, SubtypeRelational(lat, subId, supId, k)) <==>
      && (qa < k && qa != lat.top ==> qb in lat.superType[qa])
      && (qb < k && qb != lat.bottom ==> qa in lat.subType[qb])
  {
    if k > 0 {
      var n, q := lat.numTypes, k - 1;
      SubtypeRelationalMeaning(lat, subId, supId, q, m, qa, qb);
      var prev := SubtypeRelational(lat, subId, supId, q);
      var up: seq<Clause> := if q != lat.top then [Maybe(n, q, subId, supId, lat.superType[q])] else [];
      var down: seq<Clause> := if q != lat.bottom then [Maybe(n, q, supId, subId, lat.subType[q])] else [];
      assert SubtypeRelational(lat, subId, supId, k) == prev + up + down;
      AllTrueAppend(m, prev, up);
      AllTrueAppend(m, prev + up, down);
      if q != lat.top {
        MaybeRowMeaning(lat, q, subId, supId, lat.superType[q], m, qa, qb);
      }
      if q != lat.bottom {
        MaybeRowMeaning(lat, q, supId, subId, lat.subType[q], m, qb, qa);
      }
    }
  }

  /** The "maybe" clause of qualifier q holds iff, when the known slot holds
      q, the other slot holds one of the qualifiers listed. */
  lemma MaybeRowMeaning(lat: Lattice, q: Qualifier, known: nat, unknown: nat, s: seq<Qualifier>,
                        m: Assignment, qk: Qualifier, qu: Qualifier)
    requires lat.Valid() && q < lat.numTypes && AllBelow(s, lat.numTypes)
    requires Holds(m, lat.numTypes, known, qk) && Holds(m, lat.numTypes, unknown, qu)
    ensures AllTrue(m, [Maybe(lat.numTypes, q, known, unknown, s)]) <==> (qk == q ==> qu in s)
  {
    var n := lat.numTypes;
    MaybeMeaning(m, n, q, known, unknown, s, qu);
    HoldsVariable(m, n, known, qk, q);
    SingleTrue(m, Maybe(n, q, known, unknown, s));
  }

  /** Subtype(variable sub, variable sup) for sub holding qa and sup holding
      qb: the clauses hold iff qb is a listed supertype of qa (unless qa is
      top), qa a listed subtype of qb (unless qb is bottom), top only below
      top, and bottom only above bottom. */
  lemma SubtypeVarVarMeaning(lat: Lattice, subId: nat, supId: nat, m: Assignment, qa: Qualifier, qb: Qualifier)
    requires lat.Valid() && lat.RelationsTotal()
    requires Holds(m, lat.numTypes, subId, qa) && Holds(m, lat.numTypes, supId, qb)
    ensures SubtypeVarVarClauses(lat, subId, supId).Ok?
    ensures AllTrue(m, SubtypeVarVarClauses(lat, subId, supId).value) <==>
      && (qa != lat.top ==> qb in lat.superType[qa])
      && (qb != lat.bottom ==> qa in lat.subType[qb])
      && (qa == lat.top ==> qb == lat.top)
      && (qb == lat.bottom ==> qa == lat.bottom)
  {
    var n := lat.numTypes;
    var rel := SubtypeRelational(lat, subId, supId, n);
    var tail := [[-Encode(n, subId, lat.top), Encode(n, supId, lat.top)],
                 [-Encode(n, supId, lat.bottom), Encode(n, subId, lat.bottom)]];
    SubtypeRelationalMeaning(lat, subId, supId, n, m, qa, qb);
    AllTrueAppend(m, rel, tail);
    TopBottomMeaning(lat, subId, supId, m, qa, qb);
  }

  lemma TopBottomMeaning(lat: Lattice, subId: nat, supId: nat, m: Assignment, qa: Qualifier, qb: Qualifier)
    requires lat.Valid()
    requires Holds(m, lat.numTypes, subId, qa) && Holds(m, lat.numTypes, supId, qb)
    ensures AllTrue(m, [[-Encode(lat.numTypes, subId, lat.top), Encode(lat.numTypes, supId, lat.top)],
                        [-Encode(lat.numTypes, supId, lat.bottom), Encode(lat.numTypes, subId, lat.bottom)]]) <==>
      (qa == lat.top ==> qb == lat.top) && (qb == lat.bottom ==> qa == lat.bottom)
  {
    var n := lat.numTypes;
    var tail := [[-Encode(n, subId, lat.top), Encode(n, supId, lat.top)],
                 [-Encode(n, supId, lat.bottom), Encode(n, subId, lat.bottom)]];
    PairTrue(m, -Encode(n, subId, lat.top), Encode(n, supId, lat.top));
    PairTrue(m, -Encode(n, supId, lat.bottom), Encode(n, subId, lat.bottom));
    HoldsVariable(m, n, subId, qa, lat.top);
    HoldsVariable(m, n, supId, qb, lat.top);
    HoldsVariable(m, n, subId, qa, lat.bottom);
    HoldsVariable(m, n, supId, qb, lat.bottom);
    assert AllTrue(m, tail) <==> ClauseTrue(m, tail[0]) && ClauseTrue(m, tail[1]);
  }

  lemma {:induction false} SubtypeRelationalCount(lat: Lattice, subId: nat, supId: nat, k: nat)
    requires TotalBelow(lat, k)
    ensures |SubtypeRelational(lat, subId, supId, k)| ==
      2 * k - (if lat.top < k then 1 else 0) - (if lat.bottom < k then 1 else 0)
  {
    if k > 0 {
      SubtypeRelationalCount(lat, subId, supId, k - 1);
    }
  }

  /** Subtype(variable, variable) yields #{q != top} + #{q != bottom} + 2
      clauses, and fails with a null dereference exactly when a relation
      collection is missing. */
  lemma SubtypeVarVarCount(lat: Lattice, subId: nat, supId: nat)
    requires lat.Valid()
    ensures SubtypeVarVarClauses(lat, subId, supId).Fail? <==> !lat.RelationsTotal()
    ensures lat.RelationsTotal() ==>
      |SubtypeVarVarClauses(lat, subId, supId).value| == (lat.numTypes - 1) + (lat.numTypes - 1) + 2
  {
    if lat.RelationsTotal() {
      SubtypeRelationalCount(lat, subId, supId, lat.numTypes);
    }
  }

  // ----- Equality and Inequality with two variables -----------------------

  /** Equality(variable a, variable b) holds iff a_q <==> b_q for every q. */
  lemma EqualityVarVarMeaning(m: Assignment, n: nat, a: nat, b: nat)
    ensures |EqualityVarVarClauses(n, a, b)| == 2 * n
    ensures AllTrue(m, EqualityVarVarClauses(n, a, b)) <==>
      forall q: Qualifier | q < n :: m(Encode(n, a, q)) <==> m(Encode(n, b, q))
  {
    var r := EqualityVarVarClauses(n, a, b);
    forall k | 0 <= k < 2 * n
      ensures ClauseTrue(m, r[k]) <==>
        if k % 2 == 0 then !m(Encode(n, a, k / 2)) || m(Encode(n, b, k / 2))
        else !m(Encode(n, b, k / 2)) || m(Encode(n, a, k / 2))
    {
      var q := k / 2;
      if k % 2 == 0 {
        PairTrue(m, -Encode(n, a, q), Encode(n, b, q));
      } else {
        PairTrue(m, -Encode(n, b, q), Encode(n, a, q));
      }
    }
    if AllTrue(m, r) {
      forall q: Qualifier | q < n ensures m(Encode(n, a, q)) <==> m(Encode(n, b, q)) {
        assert ClauseTrue(m, r[2 * q]) && ClauseTrue(m, r[2 * q + 1]);
        assert (2 * q) / 2 == q && (2 * q + 1) / 2 == q;
      }
    }
  }

  /** Inequality(variable a, variable b) holds iff, for every q, exactly one
      of a_q and b_q is true. */
  lemma InequalityVarVarMeaning(m: Assignment, n: nat, a: nat, b: nat)
    ensures |InequalityVarVarClauses(n, a, b)| == 2 * n
    ensures AllTrue(m, InequalityVarVarClauses(n, a, b)) <==>
      forall q: Qualifier | q < n :: m(Encode(n, a, q)) != m(Encode(n, b, q))
  {
    var r := InequalityVarVarClauses(n, a, b);
    forall k | 0 <= k < 2 * n
      ensures ClauseTrue(m, r[k]) <==>
        if k % 2 == 0 then !m(Encode(n, a, k / 2)) || !m(Encode(n, b, k / 2))
        else m(Encode(n, b, k / 2)) || m(Encode(n, a, k / 2))
    {
      var q := k / 2;
      if k % 2 == 0 {
        PairTrue(m, -Encode(n, a, q), -Encode(n, b, q));
      } else {
        PairTrue(m, Encode(n, b, q), Encode(n, a, q));
      }
    }
    if AllTrue(m, r) {
      forall q: Qualifier | q < n ensures m(Encode(n, a, q)) != m(Encode(n, b, q)) {
        assert ClauseTrue(m, r[2 * q]) && ClauseTrue(m, r[2 * q + 1]);
        assert (2 * q) / 2 == q && (2 * q + 1) / 2 == q;
      }
    }
  }

  /** When both slots hold exactly one qualifier, the Inequality clauses can
      only be met on a two-qualifier lattice: with three or more qualifiers
      some q is held by neither slot and `[b_q, a_q]` fails. */
  lemma InequalityVarVarWellFormed(m: Assignment, n: nat, a: nat, b: nat, qa: Qualifier, qb: Qualifier)
    requires Holds(m, n, a, qa) && Holds(m, n, b, qb)
    ensures AllTrue(m, InequalityVarVarClauses(n, a, b)) <==> n == 2 && qa != qb
  {
    InequalityVarVarMeaning(m, n, a, b);
    HoldsVariable(m, n, a, qa, qa);
    HoldsVariable(m, n, b, qb, qa);
    if n == 2 && qa != qb {
      forall q: Qualifier | q < n ensures m(Encode(n, a, q)) != m(Encode(n, b, q)) {
        HoldsVariable(m, n, a, qa, q);
        HoldsVariable(m, n, b, qb, q);
      }
    } else if n >= 3 {
      var q: Qualifier := if 0 != qa && 0 != qb then 0 else if 1 != qa && 1 != qb then 1 else 2;
      HoldsVariable(m, n, a, qa, q);
      HoldsVariable(m, n, b, qb, q);
    }
  }

  // ----- Comparable with two variables -----------------------------------

  lemma ComparableClauseTrue(m: Assignment, n: nat, a: nat, b: nat, t: Qualifier, u: Qualifier)
    ensures ClauseTrue(m, ComparableClause(n, a, b, t, u))
  {
    var c := ComparableClause(n, a, b, t, u);
    if m(Encode(n, a, t)) { assert LitTrue(m, c[3]); } else { assert LitTrue(m, c[0]); }
  }

  /** Every Comparable(variable, variable) clause contains a literal and its
      negation, so every assignment satisfies all of them. */
  lemma {:induction false} ComparableTautology(m: Assignment, lat: Lattice, a: nat, b: nat, k: nat)
    ensures AllTrue(m, ComparableUpTo(lat, a, b, k))
  {
    if k > 0 {
      ComparableTautology(m, lat, a, b, k - 1);
      var row: seq<Clause> := if k - 1 in lat.incomparableType
        then ComparableRow(lat.numTypes, a, b, k - 1, lat.incomparableType[k - 1]) else [];
      forall j | 0 <= j < |row| ensures ClauseTrue(m, row[j]) {
        ComparableClauseTrue(m, lat.numTypes, a, b, k - 1, lat.incomparableType[k - 1][j]);
      }
      AllTrueAppend(m, ComparableUpTo(lat, a, b, k - 1), row);
    }
  }

  /** Every Comparable clause has four literals, the last two negating the
      first two: `[-a_t, -b_u, b_u, a_t]`. */
  lemma {:induction false} ComparableShape(lat: Lattice, a: nat, b: nat, k: nat)
    ensures forall i :: 0 <= i < |ComparableUpTo(lat, a, b, k)| ==>
      var cl := ComparableUpTo(lat, a, b, k)[i];
      |cl| == 4 && cl[0] < 0 && cl[1] < 0 && cl[2] == -cl[1] && cl[3] == -cl[0]
  {
    if k > 0 {
      ComparableShape(lat, a, b, k - 1);
      var prev := ComparableUpTo(lat, a, b, k - 1);
      var r := ComparableUpTo(lat, a, b, k);
      forall i | 0 <= i < |r|
        ensures |r[i]| == 4 && r[i][0] < 0 && r[i][1] < 0 && r[i][2] == -r[i][1] && r[i][3] == -r[i][0]
      {
        if i < |prev| {
          assert r[i] == prev[i];
        } else {
          var j: nat := i - |prev|;
          assert r[i] == ComparableClause(lat.numTypes, a, b, k - 1, lat.incomparableType[k - 1][j]);
        }
      }
    }
  }

  // ----- One constant operand: Equality, Inequality, Preference -----------

  /** For a variable holding q0: Force holds iff the constant is outside the
      lattice or q0 is the constant; Exclude iff outside or q0 differs. */
  lemma ForceExcludeMeaning(lat: Lattice, id: nat, c: Qualifier, m: Assignment, q0: Qualifier)
    requires Holds(m, lat.numTypes, id, q0)
    ensures |Force(lat, id, c)| == |Exclude(lat, id, c)| == (if lat.Contains(c) then 1 else 0)
    ensures AllTrue(m, Force(lat, id, c)) <==> !lat.Contains(c) || q0 == c
    ensures AllTrue(m, Exclude(lat, id, c)) <==> !lat.Contains(c) || q0 != c
  {
    if lat.Contains(c) {
      HoldsVariable(m, lat.numTypes, id, q0, c);
      UnitTrue(m, Encode(lat.numTypes, id, c));
      UnitTrue(m, -Encode(lat.numTypes, id, c));
      assert Force(lat, id, c) == [[Encode(lat.numTypes, id, c)]];
      assert Exclude(lat, id, c) == [[-Encode(lat.numTypes, id, c)]];
      assert AllTrue(m, Force(lat, id, c)) <==> ClauseTrue(m, [Encode(lat.numTypes, id, c)]);
      assert AllTrue(m, Exclude(lat, id, c)) <==> ClauseTrue(m, [-Encode(lat.numTypes, id, c)]);
    }
  }

  /** The variable/constant cases delegate to the constant/variable cases with
      the operands swapped; Combine, Existential and constant/constant pairs
      produce no clauses. */
  lemma SerializeOperandOrder(lat: Lattice, id: nat, missing: bool, c: Qualifier, s: Slot, t: Slot, u: Slot)
    requires s.Variable?
    ensures SerializeSpec(lat, Equality(Variable(id, missing), Constant(c))) ==
            SerializeSpec(lat, Equality(Constant(c), Variable(id, missing)))
    ensures SerializeSpec(lat, Inequality(Variable(id, missing), Constant(c))) ==
            SerializeSpec(lat, Inequality(Constant(c), Variable(id, missing)))
    ensures SerializeSpec(lat, Combine(s, t, u)) == Ok([])
    ensures SerializeSpec(lat, Existential(s)) == Ok([])
    ensures t.Constant? && u.Constant? ==>
      && SerializeSpec(lat, Subtype(t, u)) == Ok([])
      && SerializeSpec(lat, Equality(t, u)) == Ok([])
      && SerializeSpec(lat, Inequality(t, u)) == Ok([])
  {
  }
}
