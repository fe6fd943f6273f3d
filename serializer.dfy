/** The MaxSAT serializer: each constraint, dispatched on whether each operand
    is a constant or a variable slot, becomes a list of CNF clauses over the
    variables `Encode(numTypes, slot id, qualifier)`. */
module Serializer {
  import opened Base
  import opened Lattices
  import opened Cnf
  import opened Slots

  // ---------------------------------------------------------------------
  // Constant operands: fixed small clause lists
  // ---------------------------------------------------------------------

  /** `VectorUtils.asVecArray(l)`: a single unit clause. */
  function Unit(l: int): seq<Clause> {
    [[l]]
  }

  /** Equality with a constant, and Preference: force the variable to the
      constant's qualifier when that qualifier is in the lattice. */
  function Force(lat: Lattice, id: nat, c: Qualifier): seq<Clause> {
    if lat.Contains(c) then Unit(Encode(lat.numTypes, id, c)) else []
  }

  /** Inequality with a constant: forbid the constant's qualifier. */
  function Exclude(lat: Lattice, id: nat, c: Qualifier): seq<Clause> {
    if lat.Contains(c) then Unit(-Encode(lat.numTypes, id, c)) else []
  }

  /** Qualifiers collected into `mustNotBe` for Subtype(constant c, variable):
      the subtypes of c and the qualifiers incomparable to c. */
  function SupMustNotBe(lat: Lattice, c: Qualifier): set<Qualifier> {
    (if c in lat.subType then Elems(lat.subType[c]) else {}) +
    (if c in lat.incomparableType then Elems(lat.incomparableType[c]) else {})
  }

  /** Qualifiers collected into `mustNotBe` for Subtype(variable, constant c):
      the supertypes of c and the qualifiers incomparable to c. */
  function SubMustNotBe(lat: Lattice, c: Qualifier): set<Qualifier> {
    (if c in lat.superType then Elems(lat.superType[c]) else {}) +
    (if c in lat.incomparableType then Elems(lat.incomparableType[c]) else {})
  }

  /** The members of s below k other than c, in ascending order (the order in
      which the model iterates the `mustNotBe` hash set). */
  function Forbidden(s: set<Qualifier>, c: Qualifier, k: nat): seq<Qualifier> {
    if k == 0 then []
    else Forbidden(s, c, k - 1) + (if k - 1 in s && k - 1 != c then [k - 1] else [])
  }

  /** `getMustNotBe`: one negative unit clause per forbidden qualifier. */
  function MustNotBeClauses(n: nat, s: set<Qualifier>, id: nat, c: Qualifier): seq<Clause> {
    var f := Forbidden(s, c, n);
    seq(|f|, i requires 0 <= i < |f| => [-Encode(n, id, f[i])])
  }

  function SubtypeConstVarClauses(lat: Lattice, sub: Qualifier, supId: nat): seq<Clause> {
    if sub == lat.top then Unit(Encode(lat.numTypes, supId, lat.top))
    else MustNotBeClauses(lat.numTypes, SupMustNotBe(lat, sub), supId, sub)
  }

  function SubtypeVarConstClauses(lat: Lattice, subId: nat, sup: Qualifier): seq<Clause> {
    if sup == lat.bottom then Unit(Encode(lat.numTypes, subId, lat.bottom))
    else MustNotBeClauses(lat.numTypes, SubMustNotBe(lat, sup), subId, sup)
  }

  // ---------------------------------------------------------------------
  // Variable operands: clause lists built by loops
  // ---------------------------------------------------------------------

  /** `getMaybe`: "if `known` holds q then `unknown` holds one of s". */
  function Maybe(n: nat, q: Qualifier, known: nat, unknown: nat, s: seq<Qualifier>): Clause {
    [-Encode(n, known, q)] + seq(|s|, k requires 0 <= k < |s| => Encode(n, unknown, s[k]))
  }

  /** Every qualifier below k other than top has a supertype collection, and
      every one other than bottom a subtype collection. */
  predicate TotalBelow(lat: Lattice, k: nat) {
    forall q: Qualifier | q < k ::
      (q != lat.top ==> q in lat.superType) && (q != lat.bottom ==> q in lat.subType)
  }

  /** The relational clauses Subtype(variable, variable) emits for the
      qualifiers below k. */
  function SubtypeRelational(lat: Lattice, subId: nat, supId: nat, k: nat): seq<Clause>
    requires TotalBelow(lat, k)
  {
    if k == 0 then []
    else
      var q := k - 1;
      SubtypeRelational(lat, subId, supId, q)
      + (if q != lat.top then [Maybe(lat.numTypes, q, subId, supId, lat.superType[q])] else [])
      + (if q != lat.bottom then [Maybe(lat.numTypes, q, supId, subId, lat.subType[q])] else [])
  }

  /** Subtype(variable, variable); a missing relation collection is a null
      dereference in `getMaybe`. */
  function SubtypeVarVarClauses(lat: Lattice, subId: nat, supId: nat): Result<seq<Clause>> {
    var n := lat.numTypes;
    if !TotalBelow(lat, n) then Fail(NullPointerException)
    else Ok(SubtypeRelational(lat, subId, supId, n)
            + [[-Encode(n, subId, lat.top), Encode(n, supId, lat.top)],
               [-Encode(n, supId, lat.bottom), Encode(n, subId, lat.bottom)]])
  }

  /** Entry k of Equality(variable, variable): entries 2q and 2q+1 encode
      a_q ==> b_q and b_q ==> a_q. */
  function EqualityClause(n: nat, a: nat, b: nat, k: nat): Clause {
    var q := k / 2;
    if k % 2 == 0 then [-Encode(n, a, q), Encode(n, b, q)]
    else [-Encode(n, b, q), Encode(n, a, q)]
  }

  function EqualityVarVarClauses(n: nat, a: nat, b: nat): seq<Clause> {
    seq(2 * n, k requires 0 <= k < 2 * n => EqualityClause(n, a, b, k))
  }

  /** Entry k of Inequality(variable, variable): entries 2q and 2q+1 are
      (not a_q or not b_q) and (b_q or a_q). */
  function InequalityClause(n: nat, a: nat, b: nat, k: nat): Clause {
    var q := k / 2;
    if k % 2 == 0 then [-Encode(n, a, q), -Encode(n, b, q)]
    else [Encode(n, b, q), Encode(n, a, q)]
  }

  function InequalityVarVarClauses(n: nat, a: nat, b: nat): seq<Clause> {
    seq(2 * n, k requires 0 <= k < 2 * n => InequalityClause(n, a, b, k))
  }

  /** The clause Comparable(variable, variable) emits for the pair (t, u) of
      the incomparability table. */
  function ComparableClause(n: nat, a: nat, b: nat, t: Qualifier, u: Qualifier): Clause {
    [-Encode(n, a, t), -Encode(n, b, u), Encode(n, b, u), Encode(n, a, t)]
  }

  function ComparableRow(n: nat, a: nat, b: nat, t: Qualifier, s: seq<Qualifier>): seq<Clause> {
    seq(|s|, j requires 0 <= j < |s| => ComparableClause(n, a, b, t, s[j]))
  }

  /** The clauses for the qualifiers below k. */
  function ComparableUpTo(lat: Lattice, a: nat, b: nat, k: nat): seq<Clause> {
    if k == 0 then []
    else
      ComparableUpTo(lat, a, b, k - 1)
      + (if k - 1 in lat.incomparableType
         then ComparableRow(lat.numTypes, a, b, k - 1, lat.incomparableType[k - 1])
         else [])
  }

  // ---------------------------------------------------------------------
  // Dispatch on constraint kind and operand kinds
  // ---------------------------------------------------------------------

  /** What `constraint.serialize(serializer)` returns.  The constant/constant
      cases, and the Comparable cases with a constant operand, fall back to the
      `VariableCombos` default, taken to be its empty value. */
  function SerializeSpec(lat: Lattice, c: Constraint): Result<seq<Clause>>
    requires WellTyped(c)
  {
    match c
    case Subtype(sub, sup) =>
      (match (sub, sup)
       case (Constant(_), Constant(_)) => Ok([])
       case (Constant(v), Variable(id, _)) => Ok(SubtypeConstVarClauses(lat, v, id))
       case (Variable(id, _), Constant(v)) => Ok(SubtypeVarConstClauses(lat, id, v))
       case (Variable(i, _), Variable(j, _)) => SubtypeVarVarClauses(lat, i, j))
    case Equality(x, y) =>
      (match (x, y)
       case (Constant(_), Constant(_)) => Ok([])
       case (Constant(v), Variable(id, _)) => Ok(Force(lat, id, v))
       case (Variable(id, _), Constant(v)) => Ok(Force(lat, id, v))
       case (Variable(i, _), Variable(j, _)) => Ok(EqualityVarVarClauses(lat.numTypes, i, j)))
    case Inequality(x, y) =>
      (match (x, y)
       case (Constant(_), Constant(_)) => Ok([])
       case (Constant(v), Variable(id, _)) => Ok(Exclude(lat, id, v))
       case (Variable(id, _), Constant(v)) => Ok(Exclude(lat, id, v))
       case (Variable(i, _), Variable(j, _)) => Ok(InequalityVarVarClauses(lat.numTypes, i, j)))
    case Comparable(x, y) =>
      (match (x, y)
       case (Variable(i, _), Variable(j, _)) => Ok(ComparableUpTo(lat, i, j, lat.numTypes))
       case _ => Ok([]))
    case Combine(_, _, _) => Ok([])
    case Preference(v, g, _) => Ok(Force(lat, v.id, g.value))
    case Existential(_) => Ok([])
  }

  // ---------------------------------------------------------------------
  // The serializer's loops, proved against the functions above
  // ---------------------------------------------------------------------

  /** `getMustNotBe`: collect the literals, then copy them into an array of
      unit clauses. */
  method GetMustNotBe(lat: Lattice, mustNotBe: set<Qualifier>, vId: nat, c: Qualifier)
    returns (r: seq<Clause>)
    ensures r == MustNotBeClauses(lat.numTypes, mustNotBe, vId, c)
  {
    var n := lat.numTypes;
    var resultList: seq<int> := [];
    for q := 0 to n
      invariant |resultList| == |Forbidden(mustNotBe, c, q)|
      invariant forall i :: 0 <= i < |resultList| ==>
        resultList[i] == -Encode(n, vId, Forbidden(mustNotBe, c, q)[i])
    {
      if q in mustNotBe && q != c {
        resultList := resultList + [-Encode(n, vId, q)];
      }
    }
    var result := new Clause[|resultList|];
    for i := 0 to |resultList|
      invariant forall k :: 0 <= k < i ==> result[k] == [resultList[k]]
    {
      result[i] := [resultList[i]];
    }
    r := result[..];
  }

  /** `getMaybe`: the negated known literal, then one positive literal per
      element of the collection. */
  method GetMaybe(lat: Lattice, q: Qualifier, known: nat, unknown: nat, maybeSet: seq<Qualifier>)
    returns (r: Clause)
    ensures r == Maybe(lat.numTypes, q, known, unknown, maybeSet)
  {
    var n := lat.numTypes;
    var maybeArray := new int[|maybeSet| + 1];
    maybeArray[0] := -Encode(n, known, q);
    var i := 1;
    while i <= |maybeSet|
      invariant 1 <= i <= |maybeSet| + 1
      invariant maybeArray[0] == -Encode(n, known, q)
      invariant forall k :: 1 <= k < i ==> maybeArray[k] == Encode(n, unknown, maybeSet[k - 1])
    {
      maybeArray[i] := Encode(n, unknown, maybeSet[i - 1]);
      i := i + 1;
    }
    r := maybeArray[..];
  }

  /** `SubtypeVariableCombos`: holds the `mustNotBe` set that the constant
      cases fill. */
  class SubtypeVariableCombos {
    const lattice: Lattice
    var mustNotBe: set<Qualifier>

    constructor (lattice: Lattice)
      ensures this.lattice == lattice && mustNotBe == {}
    {
      this.lattice := lattice;
      mustNotBe := {};
    }

    method ConstantVariable(sub: Qualifier, supId: nat) returns (r: seq<Clause>)
      modifies this
      ensures sub == lattice.top ==> mustNotBe == old(mustNotBe)
      ensures sub != lattice.top ==> mustNotBe == old(mustNotBe) + SupMustNotBe(lattice, sub)
      ensures r == if sub == lattice.top then Unit(Encode(lattice.numTypes, supId, lattice.top))
                   else MustNotBeClauses(lattice.numTypes, mustNotBe, supId, sub)
    {
      if sub == lattice.top {
        return Unit(Encode(lattice.numTypes, supId, lattice.top));
      }
      if sub in lattice.subType {
        mustNotBe := mustNotBe + Elems(lattice.subType[sub]);
      }
      if sub in lattice.incomparableType {
        mustNotBe := mustNotBe + Elems(lattice.incomparableType[sub]);
      }
      r := GetMustNotBe(lattice, mustNotBe, supId, sub);
    }

    method VariableConstant(subId: nat, sup: Qualifier) returns (r: seq<Clause>)
      modifies this
      ensures sup == lattice.bottom ==> mustNotBe == old(mustNotBe)
      ensures sup != lattice.bottom ==> mustNotBe == old(mustNotBe) + SubMustNotBe(lattice, sup)
      ensures r == if sup == lattice.bottom then Unit(Encode(lattice.numTypes, subId, lattice.bottom))
                   else MustNotBeClauses(lattice.numTypes, mustNotBe, subId, sup)
    {
      if sup == lattice.bottom {
        return Unit(Encode(lattice.numTypes, subId, lattice.bottom));
      }
      if sup in lattice.superType {
        mustNotBe := mustNotBe + Elems(lattice.superType[sup]);
      }
      if sup in lattice.incomparableType {
        mustNotBe := mustNotBe + Elems(lattice.incomparableType[sup]);
      }
      r := GetMustNotBe(lattice, mustNotBe, subId, sup);
    }

    method VariableVariable(subId: nat, supId: nat) returns (r: Result<seq<Clause>>)
      ensures r == SubtypeVarVarClauses(lattice, subId, supId)
    {
      var n := lattice.numTypes;
      var supertypeOfTop := [-Encode(n, subId, lattice.top), Encode(n, supId, lattice.top)];
      var subtypeOfBottom := [-Encode(n, supId, lattice.bottom), Encode(n, subId, lattice.bottom)];
      var resultList: seq<Clause> := [];
      for q := 0 to n
        invariant TotalBelow(lattice, q)
        invariant resultList == SubtypeRelational(lattice, subId, supId, q)
      {
        if q != lattice.top {
          if q !in lattice.superType {
            return Fail(NullPointerException);
          }
          var clause := GetMaybe(lattice, q, subId, supId, lattice.superType[q]);
          resultList := resultList + [clause];
        }
        if q != lattice.bottom {
          if q !in lattice.subType {
            return Fail(NullPointerException);
          }
          var clause := GetMaybe(lattice, q, supId, subId, lattice.subType[q]);
          resultList := resultList + [clause];
        }
      }
      resultList := resultList + [supertypeOfTop, subtypeOfBottom];
      r := Ok(resultList);
    }
  }

  /** `EqualityVariableCombos.variable_variable`: fills 2 * numTypes entries. */
  method EqualityVariableVariable(lat: Lattice, a: nat, b: nat) returns (r: seq<Clause>)
    ensures r == EqualityVarVarClauses(lat.numTypes, a, b)
  {
    var n := lat.numTypes;
    var result := new Clause[n * 2];
    var i := 0;
    for q := 0 to n
      invariant i == 2 * q
      invariant forall k :: 0 <= k < i ==> result[k] == EqualityClause(n, a, b, k)
    {
      result[i] := [-Encode(n, a, q), Encode(n, b, q)];
      result[i + 1] := [-Encode(n, b, q), Encode(n, a, q)];
      i := i + 2;
    }
    r := result[..];
  }

  /** `InequalityVariableCombos.variable_variable`: fills 2 * numTypes entries. */
  method InequalityVariableVariable(lat: Lattice, a: nat, b: nat) returns (r: seq<Clause>)
    ensures r == InequalityVarVarClauses(lat.numTypes, a, b)
  {
    var n := lat.numTypes;
    var result := new Clause[n * 2];
    var i := 0;
    for q := 0 to n
      invariant i == 2 * q
      invariant forall k :: 0 <= k < i ==> result[k] == InequalityClause(n, a, b, k)
    {
      result[i] := [-Encode(n, a, q), -Encode(n, b, q)];
      result[i + 1] := [Encode(n, b, q), Encode(n, a, q)];
      i := i + 2;
    }
    r := result[..];
  }

  /** `ComparableVariableCombos.variable_variable`: one clause per pair of the
      incomparability table. */
  method ComparableVariableVariable(lat: Lattice, a: nat, b: nat) returns (r: seq<Clause>)
    ensures r == ComparableUpTo(lat, a, b, lat.numTypes)
  {
    var n := lat.numTypes;
    var list: seq<Clause> := [];
    for t := 0 to n
      invariant list == ComparableUpTo(lat, a, b, t)
    {
      if t in lat.incomparableType {
        var row := lat.incomparableType[t];
        ghost var before := list;
        for j := 0 to |row|
          invariant list == before + ComparableRow(n, a, b, t, row[..j])
        {
          list := list + [ComparableClause(n, a, b, t, row[j])];
          TakeNext(row, j);
        }
        TakeAll(row);
      }
    }
    r := list;
  }

  /** `constraint.serialize(serializer)`: each Subtype constraint gets a fresh
      `SubtypeVariableCombos`, so `mustNotBe` starts empty every time. */
  method Serialize(lat: Lattice, c: Constraint) returns (r: Result<seq<Clause>>)
    requires WellTyped(c)
    ensures r == SerializeSpec(lat, c)
  {
    match c {
      case Subtype(sub, sup) =>
        var combos := new SubtypeVariableCombos(lat);
        match (sub, sup) {
          case (Constant(_), Constant(_)) => r := Ok([]);
          case (Constant(v), Variable(id, _)) =>
            var cs := combos.ConstantVariable(v, id);
            assert v != lat.top ==> combos.mustNotBe == SupMustNotBe(lat, v);
            r := Ok(cs);
          case (Variable(id, _), Constant(v)) =>
            var cs := combos.VariableConstant(id, v);
            assert v != lat.bottom ==> combos.mustNotBe == SubMustNotBe(lat, v);
            r := Ok(cs);
          case (Variable(i, _), Variable(j, _)) =>
            r := combos.VariableVariable(i, j);
        }
      case Equality(x, y) =>
        match (x, y) {
          case (Constant(_), Constant(_)) => r := Ok([]);
          case (Constant(v), Variable(id, _)) => r := Ok(Force(lat, id, v));
          case (Variable(id, _), Constant(v)) => r := Ok(Force(lat, id, v));
          case (Variable(i, _), Variable(j, _)) =>
            var cs := EqualityVariableVariable(lat, i, j);
            r := Ok(cs);
        }
      case Inequality(x, y) =>
        match (x, y) {
          case (Constant(_), Constant(_)) => r := Ok([]);
          case (Constant(v), Variable(id, _)) => r := Ok(Exclude(lat, id, v));
          case (Variable(id, _), Constant(v)) => r := Ok(Exclude(lat, id, v));
          case (Variable(i, _), Variable(j, _)) =>
            var cs := InequalityVariableVariable(lat, i, j);
            r := Ok(cs);
        }
      case Comparable(x, y) =>
        if x.Variable? && y.Variable? {
          var cs := ComparableVariableVariable(lat, x.id, y.id);
          r := Ok(cs);
        } else {
          r := Ok([]);
        }
      case Combine(_, _, _) => r := Ok([]);
      case Preference(v, g, _) => r := Ok(Force(lat, v.id, g.value));
      case Existential(_) => r := Ok([]);
    }
  }
}
