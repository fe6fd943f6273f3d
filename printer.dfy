/** `OneLevelSlotsPrinter`: prints the slots of the constraints it visits,
    each non-constant slot at most once over the printer's lifetime.  Printing
    is modelled as appending the slot to `output`. */
module SlotsPrinter {
  import opened Base
  import opened Slots

  /** The slots each `serialize` visitor passes to `printSlotIfNotPrinted`,
      in call order. */
  function VisitedSlots(c: Constraint): seq<Slot> {
    match c
    case Subtype(sub, sup) => [sub, sup]
    case Equality(a, b) => [a, b]
    case Inequality(a, b) => [a, b]
    case Comparable(a, b) => [a, b]
    case Combine(target, declared, result) => [result, target, declared]
    case Preference(v, _, _) => [v]
    case Existential(p) => [p]
  }

  /** What visiting the slots s prints when `printed` is the set of slots
      printed before. */
  function NewSlots(printed: set<Slot>, s: seq<Slot>): seq<Slot>
    decreases |s|
  {
    if s == [] then []
    else if s[0] !in printed && !s[0].Constant? then [s[0]] + NewSlots(printed + {s[0]}, s[1..])
    else NewSlots(printed, s[1..])
  }

  /** The variable slots of s that are not in `printed`. */
  function Unprinted(printed: set<Slot>, s: seq<Slot>): set<Slot> {
    set x | x in s && x.Variable? && x !in printed
  }

  /** Visiting s prints exactly its unprinted variable slots, each once, in
      the order of their first visit. */
  lemma {:induction false} NewSlotsExact(printed: set<Slot>, s: seq<Slot>)
    ensures NoDup(NewSlots(printed, s))
    ensures Elems(NewSlots(printed, s)) == Unprinted(printed, s)
    decreases |s|
  {
    if s != [] {
      var x := s[0];
      if x !in printed && !x.Constant? {
        NewSlotsExact(printed + {x}, s[1..]);
        assert Unprinted(printed, s) == {x} + Unprinted(printed + {x}, s[1..]);
      } else {
        NewSlotsExact(printed, s[1..]);
        assert Unprinted(printed, s) == Unprinted(printed, s[1..]);
      }
    }
  }

  class OneLevelSlotsPrinter {
    var printedSlots: set<Slot>
    var output: seq<Slot>

    /** Every printed slot is in `printedSlots`, once, and is a variable. */
    ghost predicate Valid()
      reads this
    {
      && NoDup(output)
      && Elems(output) == printedSlots
      && forall k :: 0 <= k < |output| ==> output[k].Variable?
    }

    constructor ()
      ensures Valid() && printedSlots == {} && output == []
    {
      printedSlots := {};
      output := [];
    }

    /** `printSlotIfNotPrinted`. */
    method PrintSlotIfNotPrinted(slot: Slot)
      requires Valid()
      modifies this
      ensures Valid()
      ensures if slot !in old(printedSlots) && !slot.Constant?
              then printedSlots == old(printedSlots) + {slot} && output == old(output) + [slot]
              else printedSlots == old(printedSlots) && output == old(output)
    {
      if slot !in printedSlots && !slot.Constant? {
        output := output + [slot];
        printedSlots := printedSlots + {slot};
      }
    }

    /** One visitor step: `printSlotIfNotPrinted` on the next visited slot. */
    method Visit(ghost total: seq<Slot>, ghost s: seq<Slot>, slot: Slot)
      requires Valid() && s != [] && s[0] == slot
      requires output + NewSlots(printedSlots, s) == total
      modifies this
      ensures Valid()
      ensures output + NewSlots(printedSlots, s[1..]) == total
    {
      PrintSlotIfNotPrinted(slot);
    }

    /** The `serialize` visitors: print the constraint's slots in visit order. */
    method Serialize(c: Constraint)
      requires Valid()
      modifies this
      ensures Valid()
      ensures output == old(output) + NewSlots(old(printedSlots), VisitedSlots(c))
      ensures printedSlots == old(printedSlots) + Unprinted(old(printedSlots), VisitedSlots(c))
    {
      ghost var p0, s := printedSlots, VisitedSlots(c);
      ghost var t := output + NewSlots(p0, s);
      match c {
        case Subtype(sub, sup) =>
          Visit(t, s, sub);
          Visit(t, s[1..], sup);
        case Equality(a, b) =>
          Visit(t, s, a);
          Visit(t, s[1..], b);
        case Inequality(a, b) =>
          Visit(t, s, a);
          Visit(t, s[1..], b);
        case Comparable(a, b) =>
          Visit(t, s, a);
          Visit(t, s[1..], b);
        case Combine(target, declared, result) =>
          Visit(t, s, result);
          Visit(t, s[1..], target);
          Visit(t, s[2..], declared);
          assert s[2..][1..] == [];
        case Preference(v, _, _) =>
          Visit(t, s, v);
        case Existential(p) =>
          Visit(t, s, p);
      }
      NewSlotsExact(p0, s);
    }
  }
}
