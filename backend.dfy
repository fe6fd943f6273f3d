/** `MaxSatBackEnd`: serializes the constraints into hard and soft clause
    buffers, adds the well-formedness clauses, optionally renders the DIMACS
    text, hands the clauses to the solver and decodes its model.  The SAT
    solver and the explanation solver are oracles passed in as functions. */
module BackEnd {
  import opened Base
  import opened Lattices
  import opened Cnf
  import opened Slots
  import opened Serializer
  import opened Dimacs
  import opened PrintUtils

  // ---------------------------------------------------------------------
  // convertAll
  // ---------------------------------------------------------------------

  predicate AllWellTyped(cs: seq<Constraint>) {
    forall k :: 0 <= k < |cs| ==> WellTyped(cs[k])
  }

  /** The buffers `convertAll` fills. */
  datatype Buffers = Buffers(
    varSlotIds: set<nat>,
    hard: seq<Clause>,
    hardOf: seq<Constraint>,
    soft: seq<Clause>)

  /** `collectVarSlots`: the ids of the constraint's non-constant slots join
      the set. */
  function CollectVarSlots(ids: set<nat>, c: Constraint): set<nat> {
    ids + VarIdsOf(c)
  }

  /** The non-empty clauses, in order. */
  function Kept(cl: seq<Clause>): seq<Clause> {
    if cl == [] then []
    else Kept(cl[..|cl| - 1]) + (if cl[|cl| - 1] != [] then [cl[|cl| - 1]] else [])
  }

  function Repeat(c: Constraint, k: nat): (r: seq<Constraint>)
    ensures |r| == k && forall i :: 0 <= i < k ==> r[i] == c
  {
    seq(k, _ => c)
  }

  /** Where the clauses of one constraint go: a preference's to the soft
      buffer, any other's to the hard buffer, each paired with the
      constraint. */
  function Distribute(b: Buffers, c: Constraint, cl: seq<Clause>): Buffers {
    if c.Preference? then b.(soft := b.soft + Kept(cl))
    else b.(hard := b.hard + Kept(cl), hardOf := b.hardOf + Repeat(c, |Kept(cl)|))
  }

  /** One iteration of `convertAll`: collect the slots, then serialize. */
  function Step(lat: Lattice, b: Buffers, c: Constraint): (Buffers, Option<Fault>)
    requires WellTyped(c)
  {
    var b1 := b.(varSlotIds := CollectVarSlots(b.varSlotIds, c));
    match SerializeSpec(lat, c)
    case Fail(f) => (b1, Some(f))
    case Ok(cl) => (Distribute(b1, c, cl), None)
  }

  /** `convertAll` over cs from buffers b; a fault stops the loop where it is
      raised. */
  function Convert(lat: Lattice, b: Buffers, cs: seq<Constraint>): (Buffers, Option<Fault>)
    requires AllWellTyped(cs)
  {
    if cs == [] then (b, None)
    else
      var (b1, f) := Convert(lat, b, cs[..|cs| - 1]);
      if f.Some? then (b1, f) else Step(lat, b1, cs[|cs| - 1])
  }

  // ---------------------------------------------------------------------
  // generateWellForm
  // ---------------------------------------------------------------------

  /** "Slot id holds at least one qualifier". */
  function AtLeastOne(n: nat, id: nat): Clause {
    seq(n, q requires 0 <= q < n => Encode(n, id, q))
  }

  /** The pairs (i, j), j > i, of "not both". */
  function AtMostOneRow(n: nat, id: nat, i: Qualifier): seq<Clause>
    requires i < n
  {
    seq(n - i - 1, k requires 0 <= k < n - i - 1 => [-Encode(n, id, i), -Encode(n, id, i + 1 + k)])
  }

  /** The rows for i below k. */
  function AtMostOne(n: nat, id: nat, k: nat): seq<Clause>
    requires k <= n
  {
    if k == 0 then [] else AtMostOne(n, id, k - 1) + AtMostOneRow(n, id, k - 1)
  }

  /** The well-formedness clauses of one slot. */
  function WellForm(n: nat, id: nat): seq<Clause> {
    [AtLeastOne(n, id)] + AtMostOne(n, id, n)
  }

  /** The well-formedness clauses of the ids in the set that are below k, in
      ascending id order (the iteration order the model gives the id set). */
  function WellFormUpTo(n: nat, ids: set<nat>, k: nat): seq<Clause> {
    if k == 0 then []
    else WellFormUpTo(n, ids, k - 1) + (if k - 1 in ids then WellForm(n, k - 1) else [])
  }

  // ---------------------------------------------------------------------
  // decode
  // ---------------------------------------------------------------------

  /** `decode`: each positive literal v records slot (v-1)/n |-> (v-1) mod n;
      a later literal of the same slot overwrites an earlier one. */
  function DecodeSpec(n: nat, solution: seq<int>): map<nat, Qualifier>
    requires n > 0
  {
    if solution == [] then map[]
    else
      var r := DecodeSpec(n, solution[..|solution| - 1]);
      var v := solution[|solution| - 1];
      if v > 0 then r[SlotIdOf(n, v - 1) := IntRepOf(n, v - 1)] else r
  }

  /** The model a solver reports for assignment m over variables 1..vars:
      each variable, negated when false. */
  function ModelOf(m: Assignment, vars: nat): seq<int> {
    seq(vars, i => if m(i + 1) then i + 1 else -(i + 1))
  }

  // ---------------------------------------------------------------------
  // solve
  // ---------------------------------------------------------------------

  /** What the SAT solver does with the hard and soft clauses. */
  datatype SatAnswer =
    | Satisfiable(model: seq<int>)
    | Unsatisfiable
    | AddContradiction     // `addHardClause` raised ContradictionException
    | SolverTimeout        // TimeoutException
    | SolverError          // any other exception

  type SatSolver = (seq<Clause>, seq<Clause>) -> SatAnswer

  datatype Outcome = Returned(result: map<nat, Qualifier>) | Escaped(error: Thrown)

  const TimeoutMessage: string := "Failed to solve constrains due to timeout"
  const UnknownMessage: string := "Unknown exception occurred when solving constraints"

  /** The outcome of the `try` block of `solve` and its handlers, given the
      solver's answer; `explanation` is what the explanation printer
      produced, when it ran. */
  ghost predicate Decided(n: nat, hard: seq<Clause>, hc: seq<Constraint>, answer: SatAnswer,
                          explainer: Explainer, outcome: Outcome, explanation: Option<Explanation>)
    requires n > 0
  {
    match answer
    case Satisfiable(model) => outcome == Returned(DecodeSpec(n, model)) && explanation == None
    case Unsatisfiable =>
      // an exception of the explanation is caught by `catch (Exception e)`
      && explanation.Some? && ExplanationOf(hc, explainer(hard), explanation.value)
      && outcome == (if explanation.value.Reported? then Returned(map[]) else Escaped(RuntimeException(UnknownMessage)))
    case AddContradiction =>
      // here the explanation runs inside a handler, so its exception escapes
      && explanation.Some? && ExplanationOf(hc, explainer(hard), explanation.value)
      && outcome == (if explanation.value.Reported? then Returned(map[]) else Escaped(explanation.value.error))
    case SolverTimeout => outcome == Escaped(RuntimeException(TimeoutMessage)) && explanation == None
    case SolverError => outcome == Escaped(RuntimeException(UnknownMessage)) && explanation == None
  }

  /** The body of `generateWellForm` for one slot id: the at-least-one clause
      filled through an array, then the nested i < j loops. */
  method SlotWellForm(n: nat, id: nat) returns (clauses: seq<Clause>)
    ensures clauses == WellForm(n, id)
  {
    var leastOneIsTrue := new int[n];
    for i := 0 to n
      invariant forall k :: 0 <= k < i ==> leastOneIsTrue[k] == Encode(n, id, k)
    {
      leastOneIsTrue[i] := Encode(n, id, i);
    }
    clauses := [leastOneIsTrue[..]];
    assert leastOneIsTrue[..] == AtLeastOne(n, id);
    for i := 0 to n
      invariant clauses == [AtLeastOne(n, id)] + AtMostOne(n, id, i)
    {
      clauses := AppendPairs(n, id, i, clauses);
      ConcatAssoc([AtLeastOne(n, id)], AtMostOne(n, id, i), AtMostOneRow(n, id, i));
    }
  }

  /** The inner loop of `generateWellForm`: "not both i and j" for every
      j above i, appended to the clause list. */
  method AppendPairs(n: nat, id: nat, i: nat, clauses0: seq<Clause>) returns (clauses: seq<Clause>)
    requires i < n
    ensures clauses == clauses0 + AtMostOneRow(n, id, i)
  {
    clauses := clauses0;
    for j := i + 1 to n
      invariant clauses == clauses0 + AtMostOneRow(n, id, i)[..j - i - 1]
    {
      clauses := clauses + [[-Encode(n, id, i), -Encode(n, id, j)]];
      assert AtMostOneRow(n, id, i)[..j - i] ==
        AtMostOneRow(n, id, i)[..j - i - 1] + [[-Encode(n, id, i), -Encode(n, id, j)]];
      ConcatAssoc(clauses0, AtMostOneRow(n, id, i)[..j - i - 1], [[-Encode(n, id, i), -Encode(n, id, j)]]);
    }
    assert AtMostOneRow(n, id, i)[..n - i - 1] == AtMostOneRow(n, id, i);
  }

  /** The text `buildCNF` appends for `totalVars` variables and the hard
      clauses: the comment, the header, then one line per clause. */
  method CnfText(totalVars: int, hardClauses: seq<Clause>) returns (text: string)
    ensures text == Render(totalVars, hardClauses)
  {
    text := Comment;
    text := text + "p cnf " + IntToString(totalVars) + " " + IntToString(|hardClauses|) + "\n";
    var body := ClauseLines(hardClauses);
    text := text + body;
  }

  /** The clause lines, in order. */
  method ClauseLines(hardClauses: seq<Clause>) returns (body: string)
    ensures body == ClausesText(hardClauses)
  {
    body := "";
    for k := 0 to |hardClauses|
      invariant body == ClausesText(hardClauses[..k])
    {
      var line := ClauseText(hardClauses[k]);
      ClausesTextAppend(hardClauses[..k], hardClauses[k]);
      TakeNext(hardClauses, k);
      body := body + line;
    }
    TakeAll(hardClauses);
  }

  /** One clause line: each literal and a space, then `0` and a newline. */
  method ClauseText(literals: Clause) returns (line: string)
    ensures line == ClauseLine(literals)
  {
    line := "";
    for i := 0 to |literals|
      invariant line == LiteralsText(literals[..i])
    {
      LiteralsTextAppend(literals[..i], literals[i]);
      TakeNext(literals, i);
      line := line + IntToString(literals[i]) + " ";
    }
    TakeAll(literals);
    line := line + "0\n";
  }

  predicate SlotsBelow(cs: seq<Constraint>, bound: nat) {
    forall k, s :: 0 <= k < |cs| && s in SlotsOf(cs[k]) && s.Variable? ==> s.id < bound
  }

  class MaxSatBackEnd {
    const lattice: Lattice
    /** `slotManager.getNumberOfSlots()`. */
    const numberOfSlots: nat
    /** `shouldOutputCNF()`. */
    const outputCnf: bool
    /** The constraint collection; `solve` sets it to null. */
    var constraints: Option<seq<Constraint>>
    var varSlotIds: set<nat>
    var hardClauses: seq<Clause>
    var hardConstraints: seq<Constraint>
    var softClauses: seq<Clause>
    /** The `CNFInput` builder; writing it out sets it to null. */
    var cnfInput: Option<string>
    /** The text written to `cnfData/cnfdata.txt`, once written. */
    var cnfFile: Option<string>

    ghost predicate Valid()
      reads this
    {
      && lattice.Valid()
      && (forall id | id in varSlotIds :: id < numberOfSlots)
      && (constraints.Some? ==>
            AllWellTyped(constraints.value) && SlotsBelow(constraints.value, numberOfSlots) && cnfInput.Some?)
    }

    function CurrentBuffers(): Buffers
      reads this
    {
      Buffers(varSlotIds, hardClauses, hardConstraints, softClauses)
    }

    constructor (lattice: Lattice, numberOfSlots: nat, constraints: seq<Constraint>, outputCnf: bool)
      requires lattice.Valid() && AllWellTyped(constraints) && SlotsBelow(constraints, numberOfSlots)
      ensures Valid()
      ensures this.lattice == lattice && this.numberOfSlots == numberOfSlots && this.outputCnf == outputCnf
      ensures this.constraints == Some(constraints) && cnfInput == Some("") && cnfFile == None
      ensures CurrentBuffers() == Buffers({}, [], [], [])
    {
      this.lattice := lattice;
      this.numberOfSlots := numberOfSlots;
      this.outputCnf := outputCnf;
      this.constraints := Some(constraints);
      varSlotIds := {};
      hardClauses := [];
      hardConstraints := [];
      softClauses := [];
      cnfInput := Some("");
      cnfFile := None;
    }

    method CollectVarSlotsOf(c: Constraint)
      modifies this
      ensures varSlotIds == CollectVarSlots(old(varSlotIds), c)
      ensures constraints == old(constraints) && hardClauses == old(hardClauses)
      ensures hardConstraints == old(hardConstraints) && softClauses == old(softClauses)
      ensures cnfInput == old(cnfInput) && cnfFile == old(cnfFile)
    {
      var slots := SlotsOf(c);
      for i := 0 to |slots|
        invariant varSlotIds == old(varSlotIds) + set s | s in slots[..i] && s.Variable? :: s.id
        invariant constraints == old(constraints) && hardClauses == old(hardClauses)
        invariant hardConstraints == old(hardConstraints) && softClauses == old(softClauses)
        invariant cnfInput == old(cnfInput) && cnfFile == old(cnfFile)
      {
        TakeNext(slots, i);
        if slots[i].Variable? {
          varSlotIds := varSlotIds + {slots[i].id};
        }
      }
      TakeAll(slots);
    }

    /** The inner loop of `convertAll`: route one constraint's clauses. */
    method AddClauses(c: Constraint, cl: seq<Clause>)
      modifies this
      ensures CurrentBuffers() == Distribute(old(CurrentBuffers()), c, cl)
      ensures constraints == old(constraints) && cnfInput == old(cnfInput) && cnfFile == old(cnfFile)
    {
      ghost var b0 := CurrentBuffers();
      for j := 0 to |cl|
        invariant CurrentBuffers() == Distribute(b0, c, cl[..j])
        invariant constraints == old(constraints) && cnfInput == old(cnfInput) && cnfFile == old(cnfFile)
      {
        assert cl[..j + 1][..j] == cl[..j];
        var res := cl[j];
        if res != [] {
          if c.Preference? {
            softClauses := softClauses + [res];
          } else {
            assert Repeat(c, |Kept(cl[..j])| + 1) == Repeat(c, |Kept(cl[..j])|) + [c];
            hardClauses := hardClauses + [res];
            hardConstraints := hardConstraints + [c];
          }
        }
      }
      TakeAll(cl);
    }

    /** `convertAll`; a null constraint collection is dereferenced. */
    method ConvertAll() returns (fault: Option<Fault>)
      requires Valid()
      modifies this
      ensures Valid()
      ensures constraints == old(constraints) && cnfInput == old(cnfInput) && cnfFile == old(cnfFile)
      ensures old(constraints).None? ==> fault == Some(NullPointerException) && CurrentBuffers() == old(CurrentBuffers())
      ensures old(constraints).Some? ==>
        (CurrentBuffers(), fault) == Convert(lattice, old(CurrentBuffers()), old(constraints).value)
    {
      if constraints.None? {
        return Some(NullPointerException);
      }
      var cs := constraints.value;
      ghost var b0 := CurrentBuffers();
      for i := 0 to |cs|
        invariant (CurrentBuffers(), None) == Convert(lattice, b0, cs[..i])
        invariant constraints == old(constraints) && cnfInput == old(cnfInput) && cnfFile == old(cnfFile)
        invariant forall id | id in varSlotIds :: id < numberOfSlots
      {
        assert cs[..i + 1][..i] == cs[..i];
        CollectVarSlotsOf(cs[i]);
        var r := Serialize(lattice, cs[i]);
        if r.Fail? {
          ConvertStops(lattice, b0, cs, i + 1);
          return Some(r.fault);
        }
        AddClauses(cs[i], r.value);
      }
      TakeAll(cs);
      fault := None;
    }

    /** `generateWellForm(hardClauses)`. */
    method GenerateWellForm()
      requires Valid()
      modifies this
      ensures Valid()
      ensures hardClauses == old(hardClauses) + WellFormUpTo(lattice.numTypes, varSlotIds, numberOfSlots)
      ensures varSlotIds == old(varSlotIds) && constraints == old(constraints)
      ensures hardConstraints == old(hardConstraints) && softClauses == old(softClauses)
      ensures cnfInput == old(cnfInput) && cnfFile == old(cnfFile)
    {
      var n := lattice.numTypes;
      for id := 0 to numberOfSlots
        invariant hardClauses == old(hardClauses) + WellFormUpTo(n, varSlotIds, id)
        invariant varSlotIds == old(varSlotIds) && constraints == old(constraints)
        invariant hardConstraints == old(hardConstraints) && softClauses == old(softClauses)
        invariant cnfInput == old(cnfInput) && cnfFile == old(cnfFile)
      {
        if id in varSlotIds {
          var clauses := SlotWellForm(n, id);
          hardClauses := hardClauses + clauses;
        }
      }
    }

    /** What `solve` does with the solver's answer: decode a model, explain
        an unsatisfiable or refused clause set, turn a timeout or another
        failure into a runtime exception. */
    method Respond(answer: SatAnswer, explainer: Explainer) returns (outcome: Outcome, explanation: Option<Explanation>)
      requires lattice.Valid()
      ensures Decided(lattice.numTypes, hardClauses, hardConstraints, answer, explainer, outcome, explanation)
    {
      explanation := None;
      match answer {
        case Satisfiable(model) =>
          var result := Decode(model);
          outcome := Returned(result);
        case Unsatisfiable =>
          var e := PrintContradictingHardConstraintsAndSlots(hardClauses, hardConstraints, explainer);
          explanation := Some(e);
          outcome := if e.Reported? then Returned(map[]) else Escaped(RuntimeException(UnknownMessage));
        case AddContradiction =>
          var e := PrintContradictingHardConstraintsAndSlots(hardClauses, hardConstraints, explainer);
          explanation := Some(e);
          outcome := if e.Reported? then Returned(map[]) else Escaped(e.error);
        case SolverTimeout =>
          outcome := Escaped(RuntimeException(TimeoutMessage));
        case SolverError =>
          outcome := Escaped(RuntimeException(UnknownMessage));
      }
    }

    /** `decode`. */
    method Decode(solution: seq<int>) returns (result: map<nat, Qualifier>)
      requires lattice.Valid()
      ensures result == DecodeSpec(lattice.numTypes, solution)
    {
      var n := lattice.numTypes;
      result := map[];
      for k := 0 to |solution|
        invariant result == DecodeSpec(n, solution[..k])
      {
        assert solution[..k + 1][..k] == solution[..k];
        var v := solution[k];
        if v > 0 {
          v := v - 1;
          var slotId := SlotIdOf(n, v);
          var qualifier := IntRepOf(n, v);
          result := result[slotId := qualifier];
        }
      }
      TakeAll(solution);
    }

    /** `buildCNF`: appends the DIMACS text of the hard clauses. */
    method BuildCnf()
      requires cnfInput.Some?
      modifies this
      ensures cnfInput == Some(old(cnfInput).value + Render(numberOfSlots * lattice.numTypes, hardClauses))
      ensures CurrentBuffers() == old(CurrentBuffers()) && constraints == old(constraints) && cnfFile == old(cnfFile)
    {
      var text := CnfText(numberOfSlots * lattice.numTypes, hardClauses);
      cnfInput := Some(cnfInput.value + text);
    }

    /** `writeCNFInput`: the builder's text goes to the file and the builder
        is dropped. */
    method WriteCnfInput()
      requires cnfInput.Some?
      modifies this
      ensures cnfFile == old(cnfInput) && cnfInput == None
      ensures CurrentBuffers() == old(CurrentBuffers()) && constraints == old(constraints)
    {
      cnfFile := cnfInput;
      cnfInput := None;
    }

    /** `solve`.  `convertAll` runs before the `try`, so its fault escapes with
        the buffers as it left them; otherwise the `finally` block empties the
        clause buffers and drops the constraint collection. */
    method Solve(solver: SatSolver, explainer: Explainer) returns (outcome: Outcome, explanation: Option<Explanation>)
      requires Valid()
      modifies this
      ensures Valid()
      ensures old(constraints).None? ==>
        && outcome == Escaped(Raised(NullPointerException)) && explanation == None
        && CurrentBuffers() == old(CurrentBuffers()) && constraints == None
        && cnfInput == old(cnfInput) && cnfFile == old(cnfFile)
      ensures old(constraints).Some? ==>
        var (b, f) := Convert(lattice, old(CurrentBuffers()), old(constraints).value);
        var hard := b.hard + WellFormUpTo(lattice.numTypes, b.varSlotIds, numberOfSlots);
        if f.Some? then
          && outcome == Escaped(Raised(f.value)) && explanation == None
          && CurrentBuffers() == b && constraints == old(constraints)
          && cnfInput == old(cnfInput) && cnfFile == old(cnfFile)
        else
          && hardClauses == [] && softClauses == [] && constraints == None
          && hardConstraints == b.hardOf && varSlotIds == b.varSlotIds
          && (outputCnf ==> cnfFile == Some(old(cnfInput).value + Render(numberOfSlots * lattice.numTypes, hard))
                            && cnfInput == None)
          && (!outputCnf ==> cnfInput == old(cnfInput) && cnfFile == old(cnfFile))
          && Decided(lattice.numTypes, hard, b.hardOf, solver(hard, b.soft), explainer, outcome, explanation)
    {
      var fault := ConvertAll();
      if fault.Some? {
        return Escaped(Raised(fault.value)), None;
      }
      GenerateWellForm();
      if outputCnf {
        BuildCnf();
        WriteCnfInput();
      }
      var answer := solver(hardClauses, softClauses);
      outcome, explanation := Respond(answer, explainer);
      hardClauses := [];
      softClauses := [];
      constraints := None;
    }
  }

  /** Once a prefix of the constraints faults, the whole list stops there. */
  lemma {:induction false} ConvertStops(lat: Lattice, b: Buffers, cs: seq<Constraint>, i: nat)
    requires AllWellTyped(cs) && i <= |cs|
    requires Convert(lat, b, cs[..i]).1.Some?
    ensures Convert(lat, b, cs) == Convert(lat, b, cs[..i])
    decreases |cs| - i
  {
    if i < |cs| {
      assert cs[..i + 1][..i] == cs[..i];
      ConvertStops(lat, b, cs, i + 1);
    } else {
      assert cs[..i] == cs;
    }
  }
}
