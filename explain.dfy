/** `PrintUtils`' explanation of an unsatisfiable clause set: the 1-based
    indices of a minimal unsatisfiable subset of the hard clauses are mapped
    back to the constraints that produced them, de-duplicated, and the slots
    of those constraints are printed once each. */
module PrintUtils {
  import opened Base
  import opened Cnf
  import opened Slots
  import opened SlotsPrinter

  /** Index k of the explanation names constraint c: k is 1-based and within
      the constraint list (larger indices are well-formedness clauses). */
  predicate Names(hc: seq<Constraint>, k: int, c: Constraint) {
    1 <= k <= |hc| && hc[k - 1] == c
  }

  /** The contradicting constraints `printAnalysisResult` prints, in the
      order it prints them.  An index below 1 makes `hardConstraints.get`
      throw. */
  function Contradicting(hc: seq<Constraint>, idx: seq<int>): Result<seq<Constraint>> {
    if idx == [] then Ok([])
    else
      match Contradicting(hc, idx[..|idx| - 1])
      case Fail(f) => Fail(f)
      case Ok(acc) =>
        var k := idx[|idx| - 1];
        if k > |hc| then Ok(acc)
        else if k < 1 then Fail(IndexOutOfBoundsException)
        else if hc[k - 1] in acc then Ok(acc)
        else Ok(acc + [hc[k - 1]])
  }

  /** The mapping fails exactly when some index is below 1. */
  lemma {:induction false} ContradictingFails(hc: seq<Constraint>, idx: seq<int>)
    ensures Contradicting(hc, idx).Fail? <==> exists p :: 0 <= p < |idx| && idx[p] < 1
  {
    if idx != [] {
      var init := idx[..|idx| - 1];
      ContradictingFails(hc, init);
      if exists p :: 0 <= p < |init| && init[p] < 1 {
        var p :| 0 <= p < |init| && init[p] < 1;
        assert idx[p] < 1;
      }
      if exists p :: 0 <= p < |idx| && idx[p] < 1 {
        var p :| 0 <= p < |idx| && idx[p] < 1;
        if p < |init| { assert init[p] < 1; }
      }
    }
  }

  /** Each named constraint is reported once, and nothing else is reported. */
  lemma {:induction false} ContradictingMembers(hc: seq<Constraint>, idx: seq<int>)
    requires Contradicting(hc, idx).Ok?
    ensures NoDup(Contradicting(hc, idx).value)
    ensures forall c :: c in Contradicting(hc, idx).value <==>
      exists p :: 0 <= p < |idx| && Names(hc, idx[p], c)
  {
    if idx != [] {
      var init := idx[..|idx| - 1];
      ContradictingMembers(hc, init);
      var acc := Contradicting(hc, init).value;
      forall c ensures c in Contradicting(hc, idx).value <==>
        exists p :: 0 <= p < |idx| && Names(hc, idx[p], c)
      {
        if exists p :: 0 <= p < |init| && Names(hc, init[p], c) {
          var p :| 0 <= p < |init| && Names(hc, init[p], c);
          assert Names(hc, idx[p], c);
        }
        if exists p :: 0 <= p < |idx| && Names(hc, idx[p], c) {
          var p :| 0 <= p < |idx| && Names(hc, idx[p], c);
          if p < |init| { assert Names(hc, init[p], c); }
        }
      }
    }
  }

  /** Constraint c is named by index position p and by none before it. */
  predicate FirstNamedAt(hc: seq<Constraint>, idx: seq<int>, c: Constraint, p: int) {
    && 0 <= p < |idx|
    && Names(hc, idx[p], c)
    && forall q :: 0 <= q < p ==> !Names(hc, idx[q], c)
  }

  /** Constraints a and b are first named at positions p < q. */
  ghost predicate FirstNamedBefore(hc: seq<Constraint>, idx: seq<int>, a: Constraint, b: Constraint) {
    exists p, q :: p < q && FirstNamedAt(hc, idx, a, p) && FirstNamedAt(hc, idx, b, q)
  }

  /** The report is in order of first occurrence in the index list. */
  lemma {:induction false} ContradictingOrder(hc: seq<Constraint>, idx: seq<int>)
    requires Contradicting(hc, idx).Ok?
    ensures forall i, j :: 0 <= i < j < |Contradicting(hc, idx).value| ==>
      FirstNamedBefore(hc, idx, Contradicting(hc, idx).value[i], Contradicting(hc, idx).value[j])
  {
    if idx != [] {
      var init := idx[..|idx| - 1];
      ContradictingOrder(hc, init);
      ContradictingMembers(hc, init);
      var r := Contradicting(hc, idx).value;
      forall i, j | 0 <= i < j < |r| ensures FirstNamedBefore(hc, idx, r[i], r[j]) {
        OrderStep(hc, idx, i, j);
      }
    }
  }

  lemma OrderStep(hc: seq<Constraint>, idx: seq<int>, i: int, j: int)
    requires idx != [] && Contradicting(hc, idx).Ok?
    requires 0 <= i < j < |Contradicting(hc, idx).value|
    requires var init := idx[..|idx| - 1];
      forall i, j :: 0 <= i < j < |Contradicting(hc, init).value| ==>
        FirstNamedBefore(hc, init, Contradicting(hc, init).value[i], Contradicting(hc, init).value[j])
    requires var init := idx[..|idx| - 1];
      forall c :: c in Contradicting(hc, init).value <==> exists p :: 0 <= p < |init| && Names(hc, init[p], c)
    ensures FirstNamedBefore(hc, idx, Contradicting(hc, idx).value[i], Contradicting(hc, idx).value[j])
  {
    var init := idx[..|idx| - 1];
    var last := |idx| - 1;
    var acc := Contradicting(hc, init).value;
    var r := Contradicting(hc, idx).value;
    // a position first naming a constraint of init keeps that role in idx
    forall c, p | FirstNamedAt(hc, init, c, p) ensures FirstNamedAt(hc, idx, c, p) {
      forall q | 0 <= q < p ensures !Names(hc, idx[q], c) { assert idx[q] == init[q]; }
    }
    if j < |acc| {
      assert r[i] == acc[i] && r[j] == acc[j];
      assert FirstNamedBefore(hc, init, acc[i], acc[j]);
      var p, q :| p < q && FirstNamedAt(hc, init, acc[i], p) && FirstNamedAt(hc, init, acc[j], q);
      assert FirstNamedAt(hc, idx, r[i], p) && FirstNamedAt(hc, idx, r[j], q);
    } else {
      // r[j] is the constraint the last index adds; it is new
      assert r == acc + [r[j]] && r[j] !in acc;
      assert r[i] == acc[i] && acc[i] in acc;
      var p0 :| 0 <= p0 < |init| && Names(hc, init[p0], acc[i]);
      var p := FirstIndex(hc, init, acc[i], p0);
      assert FirstNamedAt(hc, idx, r[i], p);
      forall q | 0 <= q < last ensures !Names(hc, idx[q], r[j]) {
        assert idx[q] == init[q];
      }
      assert FirstNamedAt(hc, idx, r[j], last);
    }
  }

  /** The first position naming c, given some position that does. */
  lemma FirstIndex(hc: seq<Constraint>, idx: seq<int>, c: Constraint, p0: int) returns (p: int)
    requires 0 <= p0 < |idx| && Names(hc, idx[p0], c)
    ensures p <= p0 && FirstNamedAt(hc, idx, c, p)
  {
    p := p0;
    while exists q :: 0 <= q < p && Names(hc, idx[q], c)
      invariant 0 <= p <= p0 && Names(hc, idx[p], c)
      decreases p
    {
      var q :| 0 <= q < p && Names(hc, idx[q], c);
      p := q;
    }
  }

  /** The variable slots of the given constraints: what the related-slots pass
      prints. */
  function RelatedSlots(cs: set<Constraint>): set<Slot> {
    set c, x | c in cs && x in VisitedSlots(c) && x.Variable? :: x
  }

  /** The related-slots pass: every contradicting constraint visited once, in
      hash-set iteration order (left unspecified), with one shared printer. */
  method PrintRelatedSlots(cs: set<Constraint>) returns (printed: seq<Slot>)
    ensures NoDup(printed)
    ensures Elems(printed) == RelatedSlots(cs)
  {
    var printer := new OneLevelSlotsPrinter();
    var remaining := cs;
    while remaining != {}
      invariant remaining <= cs
      invariant printer.Valid()
      invariant printer.printedSlots == RelatedSlots(cs - remaining)
      decreases |remaining|
    {
      var c :| c in remaining;
      printer.Serialize(c);
      assert RelatedSlots(cs - (remaining - {c})) ==
        RelatedSlots(cs - remaining) + Unprinted(RelatedSlots(cs - remaining), VisitedSlots(c));
      remaining := remaining - {c};
    }
    printed := printer.output;
  }

  /** What the explanation solver answers for the hard clauses. */
  datatype ExplainAnswer =
    | AddRefused          // `addClause` raised ContradictionException
    | FoundSatisfiable    // `isSatisfiable` returned true
    | TimedOut            // `isSatisfiable` or `minimalExplanation` timed out
    | Minimal(indices: seq<int>)

  type Explainer = seq<Clause> -> ExplainAnswer

  /** What the explanation printed: the contradicting constraints and their
      related slots, or the exception it threw and the constraints it had
      printed before throwing. */
  datatype Explanation =
    | Reported(constraints: seq<Constraint>, slots: seq<Slot>)
    | Threw(error: Thrown, printed: seq<Constraint>)

  /** The position of the first index below 1, or |idx| if there is none:
      where `printAnalysisResult` stops printing. */
  function FirstBad(idx: seq<int>): (p: nat)
    ensures p <= |idx| && (p < |idx| ==> idx[p] < 1)
    ensures forall q :: 0 <= q < p ==> idx[q] >= 1
  {
    if idx == [] then 0
    else if idx[0] < 1 then 0
    else 1 + FirstBad(idx[1..])
  }

  /** The constraints printed before the first index below 1: those of the
      indices in front of it, each once. */
  lemma PrintedBeforeFailure(hc: seq<Constraint>, idx: seq<int>)
    ensures Contradicting(hc, idx[..FirstBad(idx)]).Ok?
    ensures Contradicting(hc, idx).Fail? <==> FirstBad(idx) < |idx|
  {
    var p := FirstBad(idx);
    ContradictingFails(hc, idx[..p]);
    ContradictingFails(hc, idx);
    if p < |idx| {
      assert idx[..p + 1][..p] == idx[..p];
      assert Contradicting(hc, idx[..p + 1]) == Fail(IndexOutOfBoundsException);
      FailureSticks(hc, idx, p + 1);
    }
  }

  /** The explanation `printContradictingHardConstraintsAndSlots` produces for
      a given answer; the related slots are printed in an unspecified order. */
  ghost predicate ExplanationOf(hc: seq<Constraint>, answer: ExplainAnswer, r: Explanation) {
    match answer
    case AddRefused => r == Threw(RuntimeException("Failed to print contradicting constraints"), [])
    case FoundSatisfiable => r == Threw(RuntimeException("Failed to find contradicting constraints"), [])
    case TimedOut => r == Threw(RuntimeException("Failed to print contradicting constraints"), [])
    case Minimal(idx) =>
      match Contradicting(hc, idx)
      case Fail(f) =>
        PrintedBeforeFailure(hc, idx);
        r == Threw(Raised(f), Contradicting(hc, idx[..FirstBad(idx)]).value)
      case Ok(cs) =>
        && r.Reported? && r.constraints == cs
        && NoDup(r.slots) && Elems(r.slots) == RelatedSlots(Elems(cs))
  }

  /** `printAnalysisResult`: the index loop with its `HashSet`, then the
      related-slots pass. */
  method PrintAnalysisResult(hc: seq<Constraint>, idx: seq<int>) returns (r: Explanation)
    ensures ExplanationOf(hc, Minimal(idx), r)
  {
    var contradicting: set<Constraint> := {};
    var reported: seq<Constraint> := [];
    for i := 0 to |idx|
      invariant Contradicting(hc, idx[..i]) == Ok(reported)
      invariant contradicting == Elems(reported)
    {
      assert idx[..i + 1][..i] == idx[..i];
      var k := idx[i];
      if k > |hc| {
        continue;
      }
      if k < 1 {
        BadIndex(hc, idx, i, reported);
        return Threw(Raised(IndexOutOfBoundsException), reported);
      }
      var constraint := hc[k - 1];
      if constraint !in contradicting {
        contradicting := contradicting + {constraint};
        reported := reported + [constraint];
      }
    }
    TakeAll(idx);
    var slots := PrintRelatedSlots(contradicting);
    r := Reported(reported, slots);
  }

  /** The loop meets its first index below 1 at position i, with the
      constraints of the earlier indices reported. */
  lemma BadIndex(hc: seq<Constraint>, idx: seq<int>, i: nat, reported: seq<Constraint>)
    requires i < |idx| && idx[i] < 1 && Contradicting(hc, idx[..i]) == Ok(reported)
    ensures Contradicting(hc, idx) == Fail(IndexOutOfBoundsException)
    ensures FirstBad(idx) == i && Contradicting(hc, idx[..FirstBad(idx)]) == Ok(reported)
  {
    assert idx[..i + 1][..i] == idx[..i];
    assert Contradicting(hc, idx[..i + 1]) == Fail(IndexOutOfBoundsException);
    FailureSticks(hc, idx, i + 1);
    PrintedBeforeFailure(hc, idx);
    ContradictingFails(hc, idx[..i]);
    assert forall q :: 0 <= q < i ==> idx[..i][q] == idx[q];
  }

  /** Once the mapping fails on a prefix, it fails on the whole list. */
  lemma {:induction false} FailureSticks(hc: seq<Constraint>, idx: seq<int>, i: nat)
    requires i <= |idx| && Contradicting(hc, idx[..i]) == Fail(IndexOutOfBoundsException)
    ensures Contradicting(hc, idx) == Fail(IndexOutOfBoundsException)
    decreases |idx| - i
  {
    if i < |idx| {
      assert idx[..i + 1][..i] == idx[..i];
      FailureSticks(hc, idx, i + 1);
    } else {
      assert idx[..i] == idx;
    }
  }

  /** `printContradictingHardConstraintsAndSlots`, with the explanation solver
      as an oracle. */
  method PrintContradictingHardConstraintsAndSlots(hardClauses: seq<Clause>, hc: seq<Constraint>, explainer: Explainer)
    returns (r: Explanation)
    ensures ExplanationOf(hc, explainer(hardClauses), r)
  {
    var answer := explainer(hardClauses);
    match answer {
      case AddRefused => r := Threw(RuntimeException("Failed to print contradicting constraints"), []);
      case FoundSatisfiable => r := Threw(RuntimeException("Failed to find contradicting constraints"), []);
      case TimedOut => r := Threw(RuntimeException("Failed to print contradicting constraints"), []);
      case Minimal(idx) => r := PrintAnalysisResult(hc, idx);
    }
  }
}
