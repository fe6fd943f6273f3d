# MaxSAT back end of a type-qualifier inference solver

This project models the MaxSAT back end of a type-qualifier inference
framework and proves properties of that model. Type inference produces
*slots* and *constraints*:

- a slot is either a constant qualifier or a variable with a 0-based id
  below the slot manager's slot count;
- a constraint is one of subtype, equality, inequality, comparable,
  combine, preference or existential.

The back end does five things:

- The **serializer** (`MaxSatSerializer`) turns each constraint into CNF
  clauses. The clauses are over the propositional variables
  `Encode(n, id, q) = id * n + q + 1`, with `n` the number of qualifiers of
  the lattice. Such a variable means "slot `id` has qualifier `q`".
- The **back end** (`MaxSatBackEnd`) does the rest of the solving:
  - it collects the clauses into hard and soft lists, keeping the hard
    constraints parallel to the hard clauses;
  - it adds "exactly one qualifier" well-formedness clauses for every
    variable slot;
  - if asked, it renders the hard clauses in DIMACS form and writes them
    out;
  - it hands the clauses to a SAT solver and decodes a model back into a
    slot-to-qualifier map, or explains an unsatisfiable set.
- The **explainer** (`PrintUtils`) maps a minimal unsatisfiable subset of
  hard-clause indices back to the constraints that produced them. It
  reports each constraint once, in order, then prints their slots.
- The **slots printer** (`OneLevelSlotsPrinter`) prints each non-constant
  slot of the visited constraints at most once.
- The **graph builder** (`GraphBuilder`) builds the constraint graph:
  - one vertex per slot and edges per constraint;
  - the constant vertices;
  - the independent paths, one set of constraints per connected
    component;
  - for every constant, the constraints its breadth-first search
    collects.

Modules, in dependency order:

| module | file | what it holds |
|---|---|---|
| `Base` | `base.dfy` | `Option`, `Result`, faults, `NoDup`/`Elems`, sequence lemmas |
| `Lattices` | `lattice.dfy` | the lattice record, the variable encoding and its inverse |
| `Slots` | `slots.dfy` | slots and constraints |
| `Cnf` | `cnf.dfy` | clauses, assignments, "slot `id` holds `q`" |
| `Serializer` | `serializer.dfy` | clause functions, and the Java loops as methods proved equal to them |
| `SerializerProperties` | `serializer_properties.dfy` | what each constraint's clauses mean under a well-formed assignment |
| `Dimacs` | `dimacs.dfy` | the DIMACS text `buildCNF` writes, a parser, and the round trip |
| `PrintUtils` | `explain.dfy` | the explanation of an unsatisfiable hard-clause set |
| `SlotsPrinter` | `printer.dfy` | `OneLevelSlotsPrinter` as a class |
| `BackEnd` | `backend.dfy` | `convertAll`, well-formedness, `decode` and `solve` on the `MaxSatBackEnd` class |
| `BackEndProperties` | `backend_properties.dfy` | alignment, completeness, failure, well-formedness and decoding lemmas |
| `Graphs` | `graph.dfy` | edges, what `addEdges`/`addSubtypeEdge` link, the `ConstraintGraph` class |
| `GraphSearch` | `graph_search.dfy` | both breadth-first searches as methods, with closure and uniqueness lemmas |
| `GraphBuilding` | `graph_builder.dfy` | the `GraphBuilder` class and the partition lemmas |

Three consequences of the encoding:

- A subtype constraint from a constant `c` to a variable forbids exactly
  the members of `subType(c)` and `incomparableType(c)` other than `c`
  (see `SubtypeConstVarMeaning`).
- The comparable clause `(¬a ∨ ¬b ∨ b ∨ a)` is a tautology, so a
  comparable constraint between two variables constrains nothing (see
  `ComparableTautology`).
- Inequality between two variables is encoded as "differ at every
  qualifier". Under well-formedness this holds only when there are
  exactly two qualifiers (see `InequalityVarVarWellFormed`).

## Model

| member | source | states |
|---|---|---|
| Lattices.EncodeRoundTrip | src/maxsatbackend/MaxSatBackEnd.java:162-173 | for `q < n`, the variable of (id, q) decodes, via `/n` and `%n` of `v-1`, back to slot id and qualifier q |
| Lattices.DecodeRoundTrip | src/maxsatbackend/MaxSatBackEnd.java:164-169 | every positive literal decodes to a qualifier below n, and re-encoding gives the literal back |
| Lattices.EncodeInjective | src/maxsatbackend/MaxSatSerializer.java:64 | two (slot, qualifier) pairs with qualifiers below n share a variable iff they are equal |
| Cnf.HoldsVariable | src/maxsatbackend/MaxSatBackEnd.java:143-160 | under "slot id holds q", the variable of (id, p) is true exactly when p = q |
| Serializer.GetMustNotBe | src/maxsatbackend/MaxSatSerializer.java:144-163 | the loop yields one negative unit clause per forbidden qualifier other than the constant's own, in ascending order (empty when none) |
| Serializer.GetMaybe | src/maxsatbackend/MaxSatSerializer.java:173-183 | the array is `¬known=q` followed by `unknown=s` for each s of the maybe set, in order |
| Serializer.SubtypeVariableCombos.constructor | src/maxsatbackend/MaxSatSerializer.java:57-59 | a fresh combos object over the lattice with an empty `mustNotBe` set |
| Serializer.SubtypeVariableCombos.ConstantVariable | src/maxsatbackend/MaxSatSerializer.java:62-74 | a top constant forces the supertype to top; otherwise `subType(c)` and `incomparableType(c)` join `mustNotBe` and the result is its exclusion clauses |
| Serializer.SubtypeVariableCombos.VariableConstant | src/maxsatbackend/MaxSatSerializer.java:77-90 | a bottom constant forces the subtype to bottom; otherwise `superType(c)` and `incomparableType(c)` join `mustNotBe` and the result is its exclusion clauses |
| Serializer.SubtypeVariableCombos.VariableVariable | src/maxsatbackend/MaxSatSerializer.java:93-122 | the result is the relational clauses of all qualifiers plus the top and bottom clauses, or a NullPointerException when a relation entry is missing |
| Serializer.EqualityVariableVariable | src/maxsatbackend/MaxSatSerializer.java:210-226 | the 2n clauses `a=q → b=q` and `b=q → a=q`, per qualifier |
| Serializer.InequalityVariableVariable | src/maxsatbackend/MaxSatSerializer.java:265-281 | the 2n clauses `¬(a=q ∧ b=q)` and `b=q ∨ a=q`, per qualifier |
| Serializer.ComparableVariableVariable | src/maxsatbackend/MaxSatSerializer.java:305-321 | one four-literal clause per qualifier and each qualifier incomparable to it, in lattice order |
| Serializer.Serialize | src/maxsatbackend/MaxSatSerializer.java:50-52 | the visitor dispatch agrees with the clause specification for every constraint kind, including the NullPointerException path |
| SerializerProperties.ForbiddenMembers | src/maxsatbackend/MaxSatSerializer.java:148-152 | the forbidden list holds exactly the set's qualifiers below k other than c, strictly ascending |
| SerializerProperties.ForbiddenCount | src/maxsatbackend/MaxSatSerializer.java:154-162 | for a set within the lattice, the number of clauses is the size of the set without the constant |
| SerializerProperties.MustNotBeMember | src/maxsatbackend/MaxSatSerializer.java:148-151 | `[¬id=q]` is a clause iff q is in the set and is not the constant |
| SerializerProperties.MustNotBeClausesShape | src/maxsatbackend/MaxSatSerializer.java:144-163 | every clause is one negative literal; membership is exactly the forbidden qualifiers; the count is the size of the set without c |
| SerializerProperties.MustNotBeMeaning | src/maxsatbackend/MaxSatSerializer.java:144-163 | when the slot holds q0, the clauses hold iff q0 is not a forbidden qualifier |
| SerializerProperties.SupMustNotBeInRange | src/maxsatbackend/MaxSatSerializer.java:66-72 | on a valid lattice the gathered sets stay within the qualifiers |
| SerializerProperties.SubtypeConstVarShape | src/maxsatbackend/MaxSatSerializer.java:62-74 | top gives the single unit `[sup=top]`; otherwise one exclusion per member of `subType(c) ∪ incomparableType(c)` other than c |
| SerializerProperties.SubtypeConstVarMeaning | src/maxsatbackend/MaxSatSerializer.java:62-74 | when the supertype holds qb, the clauses hold iff qb is top (for c = top), or else qb = c or qb is outside `subType(c) ∪ incomparableType(c)` |
| SerializerProperties.SubtypeVarConstShape | src/maxsatbackend/MaxSatSerializer.java:77-90 | bottom gives the unit `[sub=bottom]`; otherwise one exclusion per member of `superType(c) ∪ incomparableType(c)` other than c |
| SerializerProperties.SubtypeVarConstMeaning | src/maxsatbackend/MaxSatSerializer.java:77-90 | when the subtype holds qa, the clauses hold iff qa is bottom (c = bottom), or else qa = c or qa is outside `superType(c) ∪ incomparableType(c)` |
| SerializerProperties.MaybeMeaning | src/maxsatbackend/MaxSatSerializer.java:173-183 | the maybe clause holds iff the known slot is not q or the unknown slot's qualifier is in the maybe set |
| SerializerProperties.MaybeRowMeaning | src/maxsatbackend/MaxSatSerializer.java:105-116 | under well-formed slots, one maybe clause means "known holds q implies unknown is in the set" |
| SerializerProperties.SubtypeRelationalMeaning | src/maxsatbackend/MaxSatSerializer.java:104-117 | the clauses of qualifiers below k hold iff sub's qualifier (when below k and not top) has sup among its supertypes, and sup's (when below k and not bottom) has sub among its subtypes |
| SerializerProperties.SubtypeVarVarMeaning | src/maxsatbackend/MaxSatSerializer.java:93-122 | on a lattice with total relations the encoding succeeds, and it holds iff the supertype/subtype relations hold and top and bottom propagate |
| SerializerProperties.TopBottomMeaning | src/maxsatbackend/MaxSatSerializer.java:95-102 | the two extra clauses mean "sub is top ⇒ sup is top" and "sup is bottom ⇒ sub is bottom" |
| SerializerProperties.SubtypeRelationalCount | src/maxsatbackend/MaxSatSerializer.java:105-117 | 2k clauses, less one if top is below k and one if bottom is below k |
| SerializerProperties.SubtypeVarVarCount | src/maxsatbackend/MaxSatSerializer.java:93-122 | the encoding fails iff some relation entry is missing; otherwise it has 2(n-1)+2 clauses |
| SerializerProperties.EqualityVarVarMeaning | src/maxsatbackend/MaxSatSerializer.java:210-226 | 2n clauses, which hold iff the two slots agree on every qualifier variable |
| SerializerProperties.InequalityVarVarMeaning | src/maxsatbackend/MaxSatSerializer.java:265-281 | 2n clauses, which hold iff the two slots differ on every qualifier variable |
| SerializerProperties.InequalityVarVarWellFormed | src/maxsatbackend/MaxSatSerializer.java:265-281 | for well-formed slots holding qa and qb, the clauses hold iff n = 2 and qa ≠ qb |
| SerializerProperties.ComparableClauseTrue | src/maxsatbackend/MaxSatSerializer.java:311-315 | every comparable clause is true under every assignment |
| SerializerProperties.ComparableTautology | src/maxsatbackend/MaxSatSerializer.java:305-321 | the whole comparable clause list is true under every assignment |
| SerializerProperties.ComparableShape | src/maxsatbackend/MaxSatSerializer.java:311-315 | each clause is `[¬x, ¬y, y, x]` with x, y positive |
| SerializerProperties.ForceExcludeMeaning | src/maxsatbackend/MaxSatSerializer.java:196-202 | for qualifiers of the lattice, equality/preference with a constant forces the slot to it, and inequality forbids it; otherwise nothing is added |
| SerializerProperties.SerializeOperandOrder | src/maxsatbackend/MaxSatSerializer.java:205-207 | variable/constant equality and inequality encode as constant/variable; combine and existential give no clauses; constant/constant gives none |
| Dimacs.ParseIntRoundTrip | src/maxsatbackend/MaxSatBackEnd.java:91 | the decimal text of any integer, followed by a non-digit, parses back to it |
| Dimacs.ParseLiteralsRoundTrip | src/maxsatbackend/MaxSatBackEnd.java:89-94 | a clause line with non-zero literals parses back to the clause |
| Dimacs.ParseClausesRoundTrip | src/maxsatbackend/MaxSatBackEnd.java:88-95 | the clause lines parse back to the clauses |
| Dimacs.RenderRoundTrip | src/maxsatbackend/MaxSatBackEnd.java:75-96 | the whole text, with comment and `p cnf` header, parses back to the variable count, the clause count and the clauses |
| BackEnd.SlotWellForm | src/maxsatbackend/MaxSatBackEnd.java:144-158 | the loop's clauses for one slot: the at-least-one clause, then "not both" for every pair i < j |
| BackEnd.AppendPairs | src/maxsatbackend/MaxSatBackEnd.java:152-157 | the inner loop appends "not both i and j" for every j > i |
| BackEnd.CnfText | src/maxsatbackend/MaxSatBackEnd.java:75-96 | the text appended is the DIMACS rendering of the hard clauses |
| BackEnd.ClauseLines | src/maxsatbackend/MaxSatBackEnd.java:88-95 | the clause loop appends one line per hard clause |
| BackEnd.ClauseText | src/maxsatbackend/MaxSatBackEnd.java:89-94 | each literal followed by a space, then `0` and a newline |
| BackEnd.MaxSatBackEnd.constructor | src/maxsatbackend/MaxSatBackEnd.java:55-68 | empty buffers and an empty CNF builder; the constraints are held |
| BackEnd.MaxSatBackEnd.CollectVarSlotsOf | src/maxsatbackend/MaxSatBackEnd.java:123 | the constraint's variable ids join the set; nothing else changes |
| BackEnd.MaxSatBackEnd.AddClauses | src/maxsatbackend/MaxSatBackEnd.java:124-133 | non-empty clauses go to the soft list for a preference, otherwise to the hard list with the constraint beside each |
| BackEnd.MaxSatBackEnd.ConvertAll | src/maxsatbackend/MaxSatBackEnd.java:121-135 | the buffers become the conversion of the constraints; a null collection throws NullPointerException |
| BackEnd.MaxSatBackEnd.GenerateWellForm | src/maxsatbackend/MaxSatBackEnd.java:143-160 | the well-formedness clauses of the collected ids are appended to the hard clauses, and nothing else changes |
| BackEnd.MaxSatBackEnd.Respond | src/maxsatbackend/MaxSatBackEnd.java:219-230 | the try block's result and handlers for each solver answer, including the explanation printer on unsatisfiability |
| BackEnd.MaxSatBackEnd.Decode | src/maxsatbackend/MaxSatBackEnd.java:162-173 | the loop builds the decode map of the solution |
| BackEnd.MaxSatBackEnd.BuildCnf | src/maxsatbackend/MaxSatBackEnd.java:75-96 | the builder gets the DIMACS text with `numberOfSlots * numTypes` variables |
| BackEnd.MaxSatBackEnd.WriteCnfInput | src/maxsatbackend/MaxSatBackEnd.java:102-115 | the file receives the builder's text and the builder is set to null |
| BackEnd.MaxSatBackEnd.Solve | src/maxsatbackend/MaxSatBackEnd.java:176-239 | the whole solve: a serializer fault escapes with the buffers kept; otherwise well-formedness, the optional CNF file, the outcome for the solver's answer, and the buffers cleared |
| BackEnd.ConvertStops | src/maxsatbackend/MaxSatBackEnd.java:121-135 | once a constraint's serialization throws, the later constraints are not converted |
| BackEndProperties.KeptExact | src/maxsatbackend/MaxSatBackEnd.java:125 | the kept clauses are exactly the non-empty ones |
| BackEndProperties.ConvertAligned | src/maxsatbackend/MaxSatBackEnd.java:121-135 | conversion only appends; hard clauses and hard constraints stay parallel; every new hard clause comes from its non-preference constraint and every soft clause from a preference |
| BackEndProperties.ConvertComplete | src/maxsatbackend/MaxSatBackEnd.java:121-135 | when no fault occurs, every non-empty clause of every constraint reaches the right list |
| BackEndProperties.ConvertFault | src/maxsatbackend/MaxSatBackEnd.java:121-135 | conversion faults iff some constraint's serialization fails, and the fault is a NullPointerException |
| BackEndProperties.ConvertFaultAny | src/maxsatbackend/MaxSatBackEnd.java:121-135 | conversion faults iff the recursive "some constraint fails" predicate holds |
| BackEndProperties.AnyFailExists | src/maxsatbackend/MaxSatBackEnd.java:122-124 | the recursive failure predicate holds iff some constraint's serialization fails |
| BackEndProperties.StepFault | src/maxsatbackend/MaxSatBackEnd.java:123-124 | a step faults iff serializing its constraint fails, and only with NullPointerException |
| BackEndProperties.SerializeFailsWithNpe | src/maxsatbackend/MaxSatSerializer.java:108-115 | serialization can fail only with a NullPointerException |
| BackEndProperties.VarIdsCover | src/maxsatbackend/MaxSatBackEnd.java:122-123 | the collected ids include every constraint's variable ids |
| BackEndProperties.VarIdsWithin | src/maxsatbackend/MaxSatBackEnd.java:122-123 | every collected id belongs to some constraint |
| BackEndProperties.VarIdsMembers | src/maxsatbackend/MaxSatBackEnd.java:122-123 | an id is collected iff it is a variable id of some constraint |
| BackEndProperties.ConvertVarSlots | src/maxsatbackend/MaxSatBackEnd.java:121-135 | a fault-free conversion's id set is the old set plus the variable ids of all constraints |
| BackEndProperties.AtMostOneCount | src/maxsatbackend/MaxSatBackEnd.java:151-158 | the pair loops over the first k rows emit k(2n-k-1)/2 clauses |
| BackEndProperties.WellFormCount | src/maxsatbackend/MaxSatBackEnd.java:144-158 | one slot's clauses number 1 + n(n-1)/2 |
| BackEndProperties.AtMostOneMeaning | src/maxsatbackend/MaxSatBackEnd.java:151-158 | the pair clauses hold iff no two distinct qualifiers (the first below k) are both true |
| BackEndProperties.AtMostOneRowMeaning | src/maxsatbackend/MaxSatBackEnd.java:152-157 | one row holds iff qualifier i is not true together with any later one |
| BackEndProperties.AtLeastOneMeaning | src/maxsatbackend/MaxSatBackEnd.java:145-149 | the at-least-one clause holds iff some qualifier variable of the slot is true |
| BackEndProperties.WellFormMeaning | src/maxsatbackend/MaxSatBackEnd.java:143-160 | one slot's clauses hold iff exactly one of its qualifier variables is true |
| BackEndProperties.WellFormUpToMeaning | src/maxsatbackend/MaxSatBackEnd.java:143-160 | the clauses for the collected ids hold iff every collected id below the bound has exactly one qualifier |
| BackEndProperties.WellFormUpToCount | src/maxsatbackend/MaxSatBackEnd.java:143-160 | the number of clauses is the number of collected ids times `1 + n(n-1)/2` |
| BackEndProperties.IdsBelowStep | src/maxsatbackend/MaxSatBackEnd.java:144 | raising the bound by one adds that id when it is collected |
| BackEndProperties.DecodeKeys | src/maxsatbackend/MaxSatBackEnd.java:162-173 | the decoded keys are exactly the slot ids of the positive literals |
| BackEndProperties.DecodeAt | src/maxsatbackend/MaxSatBackEnd.java:162-173 | when every positive literal of a slot names the same qualifier, the map gives that qualifier |
| BackEndProperties.DecodeModel | src/maxsatbackend/MaxSatBackEnd.java:162-173 | decoding a model in which a slot holds q maps that slot to q |
| BackEndProperties.EncodeBelow | src/maxsatbackend/MaxSatBackEnd.java:80 | the variables of slots below the slot count fit in `slots * numTypes` |
| BackEndProperties.SatisfyingModelDecodes | src/maxsatbackend/MaxSatBackEnd.java:184-220 | a model of the hard clauses decodes to a qualifier for every collected slot, and the slot holds it |
| BackEndProperties.SubtypeRelationalNonZero | src/maxsatbackend/MaxSatSerializer.java:104-117 | the relational clauses contain no zero literal |
| BackEndProperties.MaybeNonZero | src/maxsatbackend/MaxSatSerializer.java:173-183 | the maybe clause contains no zero literal |
| BackEndProperties.ComparableUpToNonZero | src/maxsatbackend/MaxSatSerializer.java:305-321 | the comparable clauses contain no zero literal |
| BackEndProperties.SerializeNonZero | src/maxsatbackend/MaxSatSerializer.java:50-388 | no serialized clause contains a zero literal |
| BackEndProperties.KeptNonZero | src/maxsatbackend/MaxSatBackEnd.java:125 | filtering keeps the clauses free of zero literals |
| BackEndProperties.ConvertNonZero | src/maxsatbackend/MaxSatBackEnd.java:121-135 | the hard clauses stay free of zero literals through conversion |
| BackEndProperties.WellFormUpToNonZero | src/maxsatbackend/MaxSatBackEnd.java:143-160 | the well-formedness clauses contain no zero literal |
| BackEndProperties.AtMostOneNonZero | src/maxsatbackend/MaxSatBackEnd.java:151-158 | the pair clauses contain no zero literal |
| BackEndProperties.SolveCnfRoundTrip | src/maxsatbackend/MaxSatBackEnd.java:184-188 | the CNF file `solve` writes parses back to its variable count, clause count and hard clauses |
| BackEndProperties.DecidedOutcome | src/maxsatbackend/MaxSatBackEnd.java:192-236 | the explanation runs iff the solver answers unsatisfiable or refuses a clause; the timeout exception is thrown iff it times out; a non-empty result needs a model; a model gives its decoding |
| BackEndProperties.SolveResultHolds | src/maxsatbackend/MaxSatBackEnd.java:219-220 | for a satisfying model the result maps every collected slot to the qualifier it holds |
| PrintUtils.ContradictingFails | src/util/PrintUtils.java:164-170 | mapping the indices fails iff some index is below 1 |
| PrintUtils.ContradictingMembers | src/util/PrintUtils.java:164-170 | each constraint named by an in-range index is reported exactly once, and nothing else |
| PrintUtils.ContradictingOrder | src/util/PrintUtils.java:164-170 | the constraints are reported in order of their first index |
| PrintUtils.PrintRelatedSlots | src/util/PrintUtils.java:171-174 | the slots printed are the variable slots of the contradicting constraints, each once |
| PrintUtils.PrintAnalysisResult | src/util/PrintUtils.java:157-176 | the report is the deduplicated constraints in first-index order plus their related slots; the first index below 1 throws IndexOutOfBoundsException, after the constraints named before it have been printed |
| PrintUtils.PrintedBeforeFailure | src/util/PrintUtils.java:164-169 | the indices before the first one below 1 map without failure, and the whole list fails iff such an index exists |
| PrintUtils.FailureSticks | src/util/PrintUtils.java:164-167 | a failure on a prefix of the indices is the failure of the whole list |
| PrintUtils.PrintContradictingHardConstraintsAndSlots | src/util/PrintUtils.java:127-147 | a refused clause or a timeout throws "Failed to print …"; a satisfiable set throws "Failed to find …"; otherwise the analysis result |
| SlotsPrinter.NewSlotsExact | src/util/OneLevelSlotsPrinter.java:39-44 | visiting slots prints exactly the unprinted variable slots, each once |
| SlotsPrinter.OneLevelSlotsPrinter.constructor | src/util/OneLevelSlotsPrinter.java:34-37 | nothing printed yet |
| SlotsPrinter.OneLevelSlotsPrinter.PrintSlotIfNotPrinted | src/util/OneLevelSlotsPrinter.java:39-44 | an unprinted non-constant slot is printed and remembered; anything else changes nothing |
| SlotsPrinter.OneLevelSlotsPrinter.Serialize | src/util/OneLevelSlotsPrinter.java:47-92 | each visitor prints its constraint's slots in its own order, and only the unprinted variable ones |
| Graphs.IncidentEdges | src/constraintgraph/GraphBuilder.java:77 | the edges at a vertex are exactly the graph's edges with that vertex as an end |
| Graphs.AddEdgesTwo | src/constraintgraph/GraphBuilder.java:144-154 | two slots give one edge unless both are constants |
| Graphs.AddEdgesThree | src/constraintgraph/GraphBuilder.java:144-154 | the three-slot recursion over the shared list, case by case (it never links all three pairs) |
| Graphs.EdgesOfConstraint | src/constraintgraph/GraphBuilder.java:47-58 | every edge a constraint contributes carries that constraint and is a subtype edge iff it is a subtype constraint |
| Graphs.EdgesOfLinked | src/constraintgraph/GraphBuilder.java:144-169 | the edges of one constraint pairwise share a vertex |
| Graphs.AllEdgesFrom | src/constraintgraph/GraphBuilder.java:47-58 | every edge comes from a constraint of the list |
| Graphs.AllEdgesLinked | src/constraintgraph/GraphBuilder.java:47-58 | edges with the same constraint share a vertex |
| Graphs.SubtypeEdges | src/constraintgraph/GraphBuilder.java:49-52 | an existential adds no edge; a subtype adds the edge sub→sup unless both are constants |
| Graphs.GrowElems | src/constraintgraph/GraphBuilder.java:151 | the vertex list stays duplicate-free and gains exactly the edges' ends |
| Graphs.ConstantsOf | src/constraintgraph/GraphBuilder.java:136-142 | the constants are exactly the constant vertices |
| Graphs.ConstraintGraph.CreateEdge | src/constraintgraph/GraphBuilder.java:151 | adds the edge and its two ends once each; nothing else changes |
| Graphs.ConstraintGraph.AddConstant | src/constraintgraph/GraphBuilder.java:139 | appends to the constants; nothing else changes |
| Graphs.ConstraintGraph.AddIndependentPath | src/constraintgraph/GraphBuilder.java:86 | appends to the independent paths; nothing else changes |
| Graphs.ConstraintGraph.AddConstantPath | src/constraintgraph/GraphBuilder.java:94 | maps the constant to its path; nothing else changes |
| GraphSearch.Neighbours | src/constraintgraph/GraphBuilder.java:77-84 | records every constraint at the vertex and queues each unvisited other end |
| GraphSearch.ComponentSearch | src/constraintgraph/GraphBuilder.java:70-87 | the search visits exactly the connected component of the start: a closed set of new vertices, each reached from the start through edges in either direction; its path is the constraints touching them, including every constraint at the start and only constraints of the graph |
| GraphSearch.ComponentLeast | src/constraintgraph/GraphBuilder.java:70-87 | the component of a vertex lies in every closed set that contains the vertex |
| GraphSearch.ComponentUnique | src/constraintgraph/GraphBuilder.java:70-87 | the component of a vertex is determined by the edges alone |
| GraphSearch.Successors | src/constraintgraph/GraphBuilder.java:106-131 | skips subtype edges into the vertex, records the others, and queues their unvisited, unpruned `to` ends |
| GraphSearch.ConstantSearch | src/constraintgraph/GraphBuilder.java:98-134 | `BFSSearch` visits vertices each entered from an earlier one, closed under unpruned moves, and returns the constraints taken out of them; these include every constraint the start takes and only constraints of the graph |
| GraphSearch.SearchLeast | src/constraintgraph/GraphBuilder.java:98-134 | the visited vertices lie in every start-containing set closed under the search's moves |
| GraphSearch.SearchUnique | src/constraintgraph/GraphBuilder.java:98-134 | whatever the queue order, the search visits the same vertices and collects the same constraints |
| GraphBuilding.PathsPartition | src/constraintgraph/GraphBuilder.java:67-89 | the independent paths cover the graph's constraints and, when a constraint's edges meet, are pairwise disjoint |
| GraphBuilding.PathsDisjoint | src/constraintgraph/GraphBuilder.java:67-89 | the paths of two separate closed components share no constraint |
| GraphBuilding.GraphBuilder.constructor | src/constraintgraph/GraphBuilder.java:42-45 | a fresh empty graph over the constraints and the top qualifier |
| GraphBuilding.GraphBuilder.AddSubtypeEdge | src/constraintgraph/GraphBuilder.java:162-169 | adds the sub→sup edge unless both ends are constants |
| GraphBuilding.GraphBuilder.AddEdges | src/constraintgraph/GraphBuilder.java:144-154 | links the pairs of the recursive specification and returns what is left of the shared list |
| GraphBuilding.GraphBuilder.AddConstants | src/constraintgraph/GraphBuilder.java:136-142 | appends the constant vertices, in vertex order |
| GraphBuilding.GraphBuilder.CalculateIndependentPath | src/constraintgraph/GraphBuilder.java:67-89 | appends one path per component found; the components partition the vertices, each is the connected component of the vertex its search began at, and each search begins at the first vertex, in creation order, not yet visited |
| GraphBuilding.GraphBuilder.CalculateConstantPath | src/constraintgraph/GraphBuilder.java:91-96 | maps every constant to the result of its search; other entries stay |
| GraphBuilding.GraphBuilder.AddAllEdges | src/constraintgraph/GraphBuilder.java:48-58 | adds every constraint's edges in order |
| GraphBuilding.GraphBuilder.AddConstraintEdges | src/constraintgraph/GraphBuilder.java:49-57 | one constraint's edges, by its kind |
| GraphBuilding.GraphBuilder.BuildGraph | src/constraintgraph/GraphBuilder.java:47-65 | the edges, constants, independent paths and constant paths of the built graph; the independent paths are those of the connected components |
| GraphBuilding.FoundAdd | src/constraintgraph/GraphBuilder.java:69-87 | a new closed component keeps the components a partition of the visited vertices |
| GraphBuilding.ComponentsAdd | src/constraintgraph/GraphBuilder.java:69-87 | a component found by a new search joins the list with its start vertex |
| GraphBuilding.InVertexOrderAdd | src/constraintgraph/GraphBuilder.java:69-71 | a search begun at the loop's first unvisited vertex keeps the starts in vertex order |
| GraphBuilding.ComponentsDetermined | src/constraintgraph/GraphBuilder.java:67-89 | the list of components, and so of independent paths, is determined by the edges and the vertex order |
| GraphBuilding.SearchedUnique | src/constraintgraph/GraphBuilder.java:91-96 | a constant's path is determined by the graph |
| GraphBuilding.SearchedBounds | src/constraintgraph/GraphBuilder.java:98-134 | a constant's path holds every constraint at the constant that the search takes, and only constraints of the graph |
| GraphBuilding.BuiltPaths | src/constraintgraph/GraphBuilder.java:47-89 | the independent paths of a fresh build cover all edge constraints and are pairwise disjoint |

## Left out

- The SAT solver (`WeightedMaxSatDecorator` over sat4j) and the explanation solver (`Xplain`) are oracles passed as function parameters. Their answers are datatypes.
- Timing and statistics are not modelled: `System.currentTimeMillis` and `StatisticPrinter.record`.
- `configureSatSolver`, `countVariables` and `configureExplanationSolver` are not modelled. They only size the solver and record statistics.
- File I/O is abstracted:
  - `CNFData.mkdir` is left out;
  - the file `cnfData/cnfdata.txt` is the `cnfFile` field;
  - a `FileNotFoundException` is not modelled.
- The `explain` configuration flag and the `useGraph`/`solveInParallel` flags are not modelled; they select only statistics keys or nothing this code uses.
- Printed text on `System.out` is modelled as the list of constraints and slots printed. The banner lines and the `ToStringSerializer` rendering are left out.
- `solve` line 223 calls `printContradictingHardConstraints`, which is not part of this model. Both unsatisfiable paths are modelled with `printContradictingHardConstraintsAndSlots`.
- `VariableCombos`, `MathUtils`, `VectorUtils`, `ConstantUtils`, `collectVarSlots`, `ConstraintGraph`, `Vertex`, `Edge` and `DataflowUtils` are not part of this model. Their behaviour is inferred from their use:
  - `accept` dispatches on constant/variable;
  - `defaultAction` returns the empty value, so constant/constant constraints and a comparable constraint with a constant give no clauses;
  - `mapIdToMatrixEntry` is `Encode`;
  - `getSlotId`/`getIntRep` are `/n` and `%n`;
  - `createEdge` adds one edge and at most one vertex per slot, and an edge is a `SubtypeEdge` exactly for a subtype constraint;
  - vertices iterate in creation order.
- Qualifiers are indices `0..n-1`.
  - `getAllTypes()` and `intToType.keySet()` iterate in index order.
  - The `HashSet` of forbidden qualifiers iterates in ascending order.
  - The set of variable slot ids iterates in ascending order.
- `DataflowUtils.getTypeNames` is abstracted as the set `unnamed` of qualifiers whose only type name is empty.
- In the two-argument `GraphBuilder` constructor `top` stays null. This case is not modelled: the model always has a `top` qualifier.
- The ArrayList shared between the recursive `addEdges` calls is modelled by each call returning what is left of the list. `addEdges` on an empty list (an `IndexOutOfBoundsException`) cannot arise, since every constraint has at least one slot.
- BackEnd.MaxSatBackEnd.constructor, BackEnd.MaxSatBackEnd.Valid, BackEnd.MaxSatBackEnd.GenerateWellForm, BackEndProperties.EncodeBelow, BackEndProperties.SatisfyingModelDecodes and BackEndProperties.SolveResultHolds assume that variable slot ids are 0-based and below the slot manager's `getNumberOfSlots()`. The slot manager is not part of this model, so the bound is a precondition, not a proved fact. Under it:
  - looping over `0..numberOfSlots` and testing membership, as `GenerateWellForm` does, visits the same ids as iterating `varSlotIds` (src/maxsatbackend/MaxSatBackEnd.java:144);
  - every variable `id * numTypes + q + 1` fits the `p cnf` count `numberOfSlots * numTypes` (src/maxsatbackend/MaxSatBackEnd.java:80 and 248).
  An id at or above the count is not modelled. The code would still write its well-formedness clauses, with variables beyond that count.
- Java `int` overflow of `id * numTypes + q + 1` and of `numberOfSlots * numTypes` is not modelled. The model uses unbounded integers.
- Null constraints, null clauses from the serializer and null slot locations are not modelled, except the null constraint collection after `solve`.
- The weight of a preference constraint is carried but not used, as in the code.
- `printEdges`, `printGraph` and the `serialize` overloads for slots (which return null) are not modelled.
- Serializer.SubtypeVariableCombos.VariableVariable, BackEnd.MaxSatBackEnd.ConvertAll and BackEnd.MaxSatBackEnd.Solve model a missing relation entry only as the NullPointerException it causes. The partly built result list is not modelled.
- GraphSearch.ConstantSearch and GraphSearch.ComponentSearch state the visited set and the collected constraints but not the visiting order. That order comes from the FIFO queue and from the order of `Vertex.getEdges()` (src/constraintgraph/GraphBuilder.java:72-84 and 100-106), and `Vertex` is not part of this model; the model walks a vertex's edges in the order they were added.
- PrintUtils.PrintRelatedSlots states which slots are printed and that each is printed once, but not their order, since it iterates a `HashSet`.
