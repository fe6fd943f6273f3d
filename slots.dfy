/** The problem vocabulary the back end consumes: slots and constraints. */
module Slots {
  import opened Lattices

  /** A constant slot carries a fixed qualifier value; a variable slot carries
      its dense id and whether its annotation location is of kind MISSING. */
  datatype Slot = Constant(value: Qualifier) | Variable(id: nat, missing: bool)

  datatype Constraint =
    | Subtype(subtype: Slot, supertype: Slot)
    | Equality(first: Slot, second: Slot)
    | Inequality(first: Slot, second: Slot)
    | Comparable(first: Slot, second: Slot)
    | Combine(target: Slot, declared: Slot, result: Slot)
    | Preference(variable: Slot, goal: Slot, weight: int)
    | Existential(potential: Slot)

  /** The Java parameter types: a preference pairs a variable with a constant
      goal, and an existential's potential slot is a variable. */
  predicate WellTyped(c: Constraint) {
    match c
    case Preference(v, g, _) => v.Variable? && g.Constant?
    case Existential(p) => p.Variable?
    case _ => true
  }

  /** `Constraint.getSlots()`: the slots the constraint relates. */
  function SlotsOf(c: Constraint): (r: seq<Slot>)
    ensures |r| >= 1
  {
    match c
    case Subtype(a, b) => [a, b]
    case Equality(a, b) => [a, b]
    case Inequality(a, b) => [a, b]
    case Comparable(a, b) => [a, b]
    case Combine(t, d, r) => [t, d, r]
    case Preference(v, g, _) => [v, g]
    case Existential(p) => [p]
  }

  /** The ids of the constraint's variable slots. */
  function VarIdsOf(c: Constraint): set<nat> {
    set s | s in SlotsOf(c) && s.Variable? :: s.id
  }
}
