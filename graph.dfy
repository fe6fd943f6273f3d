/** The constraint graph: one vertex per slot, one edge per pair of slots a
    constraint relates.  `addEdges` is modelled as written, recursion over a
    shared slot list included. */
module Graphs {
  import opened Base
  import opened Slots

  /** An edge records its ends, whether it is a `SubtypeEdge`, and the
      constraint it came from. */
  datatype Edge = Edge(from: Slot, to: Slot, isSubtype: bool, constraint: Constraint)

  predicate Incident(e: Edge, v: Slot) {
    e.from == v || e.to == v
  }

  /** The end of e other than v (v itself for a self-loop). */
  function Other(e: Edge, v: Slot): Slot {
    if e.from == v then e.to else e.from
  }

  /** `Vertex.getEdges()`: the edges at v, in creation order. */
  function IncidentEdges(edges: seq<Edge>, v: Slot): (r: seq<Edge>)
    ensures forall e :: e in r <==> e in edges && Incident(e, v)
  {
    if edges == [] then []
    else
      IncidentEdges(edges[..|edges| - 1], v)
      + (if Incident(edges[|edges| - 1], v) then [edges[|edges| - 1]] else [])
  }

  /** The slots at either end of some edge. */
  function Ends(edges: seq<Edge>): set<Slot> {
    (set e | e in edges :: e.from) + (set e | e in edges :: e.to)
  }

  /** The constraints of the edges. */
  function EdgeConstraints(edges: seq<Edge>): set<Constraint> {
    set e | e in edges :: e.constraint
  }

  /** Two edges meet in a vertex. */
  predicate Meet(e1: Edge, e2: Edge) {
    e1.from == e2.from || e1.from == e2.to || e1.to == e2.from || e1.to == e2.to
  }

  /** Edges of the same constraint meet: what makes the constraints of
      different components disjoint. */
  ghost predicate EdgesLinked(edges: seq<Edge>) {
    forall e1, e2 | e1 in edges && e2 in edges && e1.constraint == e2.constraint :: Meet(e1, e2)
  }

  // ---------------------------------------------------------------------
  // addEdges
  // ---------------------------------------------------------------------

  /** `addEdges(slots, c)`: the pairs it links, in creation order, and what
      is left of the shared list.  The head is removed, then the loop runs. */
  function AddEdgesSpec(slots: seq<Slot>): (r: (seq<(Slot, Slot)>, seq<Slot>))
    requires |slots| >= 1
    ensures |r.0| + |r.1| < |slots|
    decreases |slots|, 1
  {
    LinkFrom(slots[0], slots[1..], 0)
  }

  /** The loop of `addEdges` at index i, `first` removed and `rest` the
      shared list as it now stands: two constants are skipped; otherwise the
      pair is linked and the recursive call consumes the head of the list. */
  function LinkFrom(first: Slot, rest: seq<Slot>, i: nat): (r: (seq<(Slot, Slot)>, seq<Slot>))
    ensures |r.0| + |r.1| <= |rest|
    decreases |rest| + 1, 0, |rest| - i
  {
    if i >= |rest| then ([], rest)
    else if first.Constant? && rest[i].Constant? then LinkFrom(first, rest, i + 1)
    else
      var (p1, r1) := AddEdgesSpec(rest);
      var (p2, r2) := LinkFrom(first, r1, i + 1);
      ([(first, rest[i])] + p1 + p2, r2)
  }

  /** The edges `createEdge` makes for the pairs, for constraint c. */
  function ToEdges(pairs: seq<(Slot, Slot)>, c: Constraint): (r: seq<Edge>)
    ensures |r| == |pairs|
  {
    seq(|pairs|, k requires 0 <= k < |pairs| => Edge(pairs[k].0, pairs[k].1, c.Subtype?, c))
  }

  lemma ToEdgesAppend(a: seq<(Slot, Slot)>, b: seq<(Slot, Slot)>, c: Constraint)
    ensures ToEdges(a + b, c) == ToEdges(a, c) + ToEdges(b, c)
  {
  }

  /** The loop of `addEdges` at index i has put out `done` so far, and
      what remains of it completes `target`. */
  ghost predicate LinkedSoFar(first: Slot, rest: seq<Slot>, i: nat, done: seq<(Slot, Slot)>, target: (seq<(Slot, Slot)>, seq<Slot>)) {
    done + LinkFrom(first, rest, i).0 == target.0 && LinkFrom(first, rest, i).1 == target.1
  }

  lemma LinkedStart(slots: seq<Slot>)
    requires |slots| >= 1
    ensures LinkedSoFar(slots[0], slots[1..], 0, [], AddEdgesSpec(slots))
  {
  }

  /** Two constants are skipped. */
  lemma LinkedSkip(first: Slot, rest: seq<Slot>, i: nat, done: seq<(Slot, Slot)>, target: (seq<(Slot, Slot)>, seq<Slot>))
    requires i < |rest| && first.Constant? && rest[i].Constant? && LinkedSoFar(first, rest, i, done, target)
    ensures LinkedSoFar(first, rest, i + 1, done, target)
  {
  }

  /** A linked pair is followed by the pairs of the recursive call, which
      consumes the list. */
  lemma LinkedTake(first: Slot, rest: seq<Slot>, i: nat, done: seq<(Slot, Slot)>, target: (seq<(Slot, Slot)>, seq<Slot>))
    requires i < |rest| && !(first.Constant? && rest[i].Constant?) && LinkedSoFar(first, rest, i, done, target)
    ensures LinkedSoFar(first, AddEdgesSpec(rest).1, i + 1, done + [(first, rest[i])] + AddEdgesSpec(rest).0, target)
  {
    var sp := AddEdgesSpec(rest);
    var later := LinkFrom(first, sp.1, i + 1);
    var here := LinkFrom(first, rest, i);
    LinkFromStep(first, rest, i);
    assert here.0 == [(first, rest[i])] + sp.0 + later.0 && here.1 == later.1;
    ConcatAssoc(done, [(first, rest[i])], sp.0);
    ConcatAssoc(done, [(first, rest[i])] + sp.0, later.0);
  }

  lemma LinkedEnd(first: Slot, rest: seq<Slot>, i: nat, done: seq<(Slot, Slot)>, target: (seq<(Slot, Slot)>, seq<Slot>))
    requires i >= |rest| && LinkedSoFar(first, rest, i, done, target)
    ensures done == target.0 && rest == target.1
  {
    assert LinkFrom(first, rest, i) == ([], rest);
  }

  /** One turn of the loop of `addEdges`, unfolded. */
  lemma LinkFromStep(first: Slot, rest: seq<Slot>, i: nat)
    requires i < |rest|
    ensures first.Constant? && rest[i].Constant? ==> LinkFrom(first, rest, i) == LinkFrom(first, rest, i + 1)
    ensures !(first.Constant? && rest[i].Constant?) ==>
      var sp := AddEdgesSpec(rest);
      LinkFrom(first, rest, i) == ([(first, rest[i])] + sp.0 + LinkFrom(first, sp.1, i + 1).0, LinkFrom(first, sp.1, i + 1).1)
  {
  }

  /** Creating one edge and then the edges of p1 is creating the edges of
      the pair followed by p1. */
  lemma ExtendEdges(e0: seq<Edge>, done: seq<(Slot, Slot)>, pair: (Slot, Slot), p1: seq<(Slot, Slot)>, c: Constraint)
    ensures e0 + ToEdges(done, c) + [Edge(pair.0, pair.1, c.Subtype?, c)] + ToEdges(p1, c) == e0 + ToEdges(done + [pair] + p1, c)
  {
    ToEdgesAppend(done, [pair], c);
    ToEdgesAppend(done + [pair], p1, c);
  }

  /** The vertices after the same edges. */
  lemma ExtendVertices(v0: seq<Slot>, done: seq<(Slot, Slot)>, pair: (Slot, Slot), p1: seq<(Slot, Slot)>, c: Constraint)
    ensures Grow(Insert(Insert(Grow(v0, ToEdges(done, c)), pair.0), pair.1), ToEdges(p1, c)) == Grow(v0, ToEdges(done + [pair] + p1, c))
  {
    var one := ToEdges([pair], c);
    ToEdgesAppend(done, [pair], c);
    ToEdgesAppend(done + [pair], p1, c);
    GrowAppend(v0, ToEdges(done, c), one);
    assert one[..0] == [];
    assert Grow(Grow(v0, ToEdges(done, c)), one) == Insert(Insert(Grow(v0, ToEdges(done, c)), pair.0), pair.1);
    GrowAppend(v0, ToEdges(done + [pair], c), ToEdges(p1, c));
  }

  /** The edges a constraint contributes to the graph. */
  function EdgesOf(c: Constraint): seq<Edge> {
    match c
    case Subtype(sub, sup) => if sub.Constant? && sup.Constant? then [] else [Edge(sub, sup, true, c)]
    case Existential(_) => []
    case _ => ToEdges(AddEdgesSpec(SlotsOf(c)).0, c)
  }

  /** The edges of the constraints, in order. */
  function AllEdges(cs: seq<Constraint>): seq<Edge> {
    if cs == [] then [] else AllEdges(cs[..|cs| - 1]) + EdgesOf(cs[|cs| - 1])
  }

  /** The edges of one more constraint, and the vertices they grow. */
  lemma AllEdgesStep(v0: seq<Slot>, cs: seq<Constraint>, k: nat)
    requires k < |cs|
    ensures AllEdges(cs[..k + 1]) == AllEdges(cs[..k]) + EdgesOf(cs[k])
    ensures Grow(v0, AllEdges(cs[..k + 1])) == Grow(Grow(v0, AllEdges(cs[..k])), EdgesOf(cs[k]))
  {
    assert cs[..k + 1][..k] == cs[..k];
    GrowAppend(v0, AllEdges(cs[..k]), EdgesOf(cs[k]));
  }

  /** `addEdges` on two slots: one edge unless both are constants, and the
      list is used up. */
  lemma AddEdgesTwo(a: Slot, b: Slot)
    ensures a.Constant? && b.Constant? ==> AddEdgesSpec([a, b]) == ([], [b])
    ensures !(a.Constant? && b.Constant?) ==> AddEdgesSpec([a, b]) == ([(a, b)], [])
  {
    assert [a, b][1..] == [b];
    assert AddEdgesSpec([a, b]) == LinkFrom(a, [b], 0);
    if !(a.Constant? && b.Constant?) {
      assert [b][1..] == [];
      assert AddEdgesSpec([b]) == LinkFrom(b, [], 0) == ([], []);
      assert LinkFrom(a, [], 1) == ([], []);
      assert LinkFrom(a, [b], 0) == ([(a, b)] + [] + [], []);
      assert [(a, b)] + [] + [] == [(a, b)];
    } else {
      assert LinkFrom(a, [b], 1) == ([], [b]);
    }
  }

  /** `addEdges` on three slots: the chain a-b, b-c when a and b are not both
      constants (b-c dropped when b and c are); a-c, b-c when a and b are
      constants and c is not; nothing for three constants.  It never links
      all three pairs. */
  lemma AddEdgesThree(a: Slot, b: Slot, c: Slot)
    ensures AddEdgesSpec([a, b, c]).0 ==
      if !(a.Constant? && b.Constant?) then
        [(a, b)] + (if b.Constant? && c.Constant? then [] else [(b, c)])
      else if !c.Constant? then [(a, c), (b, c)]
      else []
  {
    assert [a, b, c][1..] == [b, c];
    AddEdgesTwo(b, c);
    if !(a.Constant? && b.Constant?) {
      var (p1, r1) := AddEdgesSpec([b, c]);
      assert LinkFrom(a, r1, 1) == ([], r1);
    } else if !c.Constant? {
      assert LinkFrom(a, [], 2) == ([], []);
      assert LinkFrom(a, [b, c], 1) == ([(a, c)] + [(b, c)] + [], []);
      assert LinkFrom(a, [b, c], 0) == LinkFrom(a, [b, c], 1);
    } else {
      assert LinkFrom(a, [b, c], 2) == ([], [b, c]);
      assert LinkFrom(a, [b, c], 0) == LinkFrom(a, [b, c], 1) == LinkFrom(a, [b, c], 2);
    }
  }

  /** Every edge a constraint contributes carries that constraint. */
  lemma EdgesOfConstraint(c: Constraint)
    ensures forall e | e in EdgesOf(c) :: e.constraint == c && e.isSubtype == c.Subtype?
  {
  }

  /** The edges of one constraint pairwise meet. */
  lemma EdgesOfLinked(c: Constraint)
    ensures EdgesLinked(EdgesOf(c))
  {
    match c
    case Subtype(_, _) =>
    case Existential(_) =>
    case Combine(t, d, r) =>
      AddEdgesThree(t, d, r);
    case Equality(a, b) => AddEdgesTwo(a, b);
    case Inequality(a, b) => AddEdgesTwo(a, b);
    case Comparable(a, b) => AddEdgesTwo(a, b);
    case Preference(v, g, _) => AddEdgesTwo(v, g);
  }

  /** The edges of a constraint list say which constraint they came from. */
  lemma {:induction false} AllEdgesFrom(cs: seq<Constraint>)
    ensures forall e | e in AllEdges(cs) :: e.constraint in cs && e in EdgesOf(e.constraint)
  {
    if cs != [] {
      var init := cs[..|cs| - 1];
      AllEdgesFrom(init);
      EdgesOfConstraint(cs[|cs| - 1]);
      forall e | e in AllEdges(cs) ensures e.constraint in cs && e in EdgesOf(e.constraint) {
        if e in AllEdges(init) {
          assert e.constraint in init;
        }
      }
    }
  }

  /** All edges of the built graph that share a constraint meet. */
  lemma AllEdgesLinked(cs: seq<Constraint>)
    ensures EdgesLinked(AllEdges(cs))
  {
    AllEdgesFrom(cs);
    forall e1, e2 | e1 in AllEdges(cs) && e2 in AllEdges(cs) && e1.constraint == e2.constraint
      ensures Meet(e1, e2)
    {
      EdgesOfLinked(e1.constraint);
    }
  }

  /** Per constraint: a Subtype between two constants and an Existential add
      no edge; any other Subtype adds exactly one, from the subtype to the
      supertype. */
  lemma SubtypeEdges(c: Constraint)
    ensures c.Existential? ==> EdgesOf(c) == []
    ensures c.Subtype? ==>
      EdgesOf(c) == (if c.subtype.Constant? && c.supertype.Constant? then []
                     else [Edge(c.subtype, c.supertype, true, c)])
  {
  }

  // ---------------------------------------------------------------------
  // The graph
  // ---------------------------------------------------------------------

  /** vs with s appended unless it is already there. */
  function Insert(vs: seq<Slot>, s: Slot): seq<Slot> {
    if s in vs then vs else vs + [s]
  }

  /** The vertex list after creating the edges, in order. */
  function Grow(vs: seq<Slot>, edges: seq<Edge>): seq<Slot> {
    if edges == [] then vs
    else
      var e := edges[|edges| - 1];
      Insert(Insert(Grow(vs, edges[..|edges| - 1]), e.from), e.to)
  }

  lemma EndsAppend(edges: seq<Edge>, e: Edge)
    ensures Ends(edges + [e]) == Ends(edges) + {e.from, e.to}
  {
    var froms := set x | x in edges + [e] :: x.from;
    var tos := set x | x in edges + [e] :: x.to;
    assert froms == (set x | x in edges :: x.from) + {e.from};
    assert tos == (set x | x in edges :: x.to) + {e.to};
  }

  lemma InsertElems(vs: seq<Slot>, s: Slot)
    requires NoDup(vs)
    ensures NoDup(Insert(vs, s)) && Elems(Insert(vs, s)) == Elems(vs) + {s}
  {
  }

  lemma {:induction false} GrowAppend(vs: seq<Slot>, a: seq<Edge>, b: seq<Edge>)
    ensures Grow(vs, a + b) == Grow(Grow(vs, a), b)
  {
    if b == [] {
      assert a + b == a;
    } else {
      var init := b[..|b| - 1];
      GrowAppend(vs, a, init);
      DropLast(a, b);
    }
  }

  lemma {:induction false} GrowElems(vs: seq<Slot>, edges: seq<Edge>)
    requires NoDup(vs)
    ensures NoDup(Grow(vs, edges)) && Elems(Grow(vs, edges)) == Elems(vs) + Ends(edges)
  {
    if edges != [] {
      var init := edges[..|edges| - 1];
      var e := edges[|edges| - 1];
      var g := Grow(vs, init);
      var g1 := Insert(g, e.from);
      GrowElems(vs, init);
      InsertElems(g, e.from);
      InsertElems(g1, e.to);
      assert Grow(vs, edges) == Insert(g1, e.to);
      SplitLast(edges);
      EndsAppend(init, e);
      assert Elems(Insert(g1, e.to)) == Elems(vs) + Ends(init) + {e.from, e.to};
    }
  }

  /** The constant vertices, in vertex order. */
  function ConstantsOf(vs: seq<Slot>): (r: seq<Slot>)
    ensures forall s :: s in r <==> s in vs && s.Constant?
  {
    if vs == [] then []
    else ConstantsOf(vs[..|vs| - 1]) + (if vs[|vs| - 1].Constant? then [vs[|vs| - 1]] else [])
  }

  /** `ConstraintGraph`: vertices in creation order, edges, the constant
      vertices, the independent paths and the constant paths. */
  class ConstraintGraph {
    var vertices: seq<Slot>
    var edges: seq<Edge>
    var constants: seq<Slot>
    var independentPaths: seq<set<Constraint>>
    var constantPath: map<Slot, set<Constraint>>

    /** One vertex per slot, and every edge between two vertices. */
    ghost predicate Valid()
      reads this
    {
      NoDup(vertices) && Ends(edges) <= Elems(vertices)
    }

    constructor ()
      ensures Valid()
      ensures vertices == [] && edges == [] && constants == [] && independentPaths == [] && constantPath == map[]
    {
      vertices := [];
      edges := [];
      constants := [];
      independentPaths := [];
      constantPath := map[];
    }

    /** `createEdge`: the vertices of both slots, created when missing, and
        a new edge between them, a `SubtypeEdge` for a Subtype constraint. */
    method CreateEdge(from: Slot, to: Slot, c: Constraint)
      requires Valid()
      modifies this
      ensures Valid()
      ensures vertices == Insert(Insert(old(vertices), from), to)
      ensures edges == old(edges) + [Edge(from, to, c.Subtype?, c)]
      ensures constants == old(constants) && independentPaths == old(independentPaths)
      ensures constantPath == old(constantPath)
    {
      if from !in vertices {
        vertices := vertices + [from];
      }
      if to !in vertices {
        vertices := vertices + [to];
      }
      var e := Edge(from, to, c.Subtype?, c);
      EndsAppend(edges, e);
      edges := edges + [e];
    }

    method AddConstant(v: Slot)
      modifies this
      ensures constants == old(constants) + [v]
      ensures vertices == old(vertices) && edges == old(edges)
      ensures independentPaths == old(independentPaths) && constantPath == old(constantPath)
    {
      constants := constants + [v];
    }

    method AddIndependentPath(path: set<Constraint>)
      modifies this
      ensures independentPaths == old(independentPaths) + [path]
      ensures vertices == old(vertices) && edges == old(edges)
      ensures constants == old(constants) && constantPath == old(constantPath)
    {
      independentPaths := independentPaths + [path];
    }

    method AddConstantPath(v: Slot, path: set<Constraint>)
      modifies this
      ensures constantPath == old(constantPath)[v := path]
      ensures vertices == old(vertices) && edges == old(edges)
      ensures constants == old(constants) && independentPaths == old(independentPaths)
    {
      constantPath := constantPath[v := path];
    }
  }
}
