/** `GraphBuilder`: adds an edge per related slot pair, marks the constant
    vertices, then records the independent paths (the constraints of each
    connected component) and the constant paths (the constraints the pruned
    directed search from each constant vertex takes). */
module GraphBuilding {
  import opened Base
  import opened Lattices
  import opened Slots
  import opened Graphs
  import opened GraphSearch

  /** The union of the sets. */
  function UnionOf(ss: seq<set<Slot>>): set<Slot> {
    if ss == [] then {} else UnionOf(ss[..|ss| - 1]) + ss[|ss| - 1]
  }

  lemma {:induction false} UnionOfMembers(ss: seq<set<Slot>>)
    ensures forall x :: x in UnionOf(ss) <==> exists j :: 0 <= j < |ss| && x in ss[j]
  {
    if ss != [] {
      var init := ss[..|ss| - 1];
      UnionOfMembers(init);
      forall x ensures x in UnionOf(ss) <==> exists j :: 0 <= j < |ss| && x in ss[j] {
        if exists j :: 0 <= j < |init| && x in init[j] {
          var j :| 0 <= j < |init| && x in init[j];
          assert ss[j] == init[j];
        }
        if exists j :: 0 <= j < |ss| && x in ss[j] {
          var j :| 0 <= j < |ss| && x in ss[j];
          if j < |init| { assert ss[j] == init[j]; }
        }
      }
    }
  }

  /** The components found: non-empty, closed, pairwise disjoint. */
  ghost predicate Partition(edges: seq<Edge>, comps: seq<set<Slot>>) {
    && (forall j :: 0 <= j < |comps| ==> comps[j] != {} && Closed(edges, comps[j]))
    && (forall j, k :: 0 <= j < k < |comps| ==> comps[j] * comps[k] == {})
  }

  /** With every edge end inside some component, the constraint sets of the
      components together are the constraints of all edges; when edges of
      one constraint always meet, those sets are pairwise disjoint. */
  lemma PathsPartition(edges: seq<Edge>, comps: seq<set<Slot>>)
    requires Partition(edges, comps) && Ends(edges) <= UnionOf(comps)
    ensures forall c :: c in EdgeConstraints(edges) <==> exists j :: 0 <= j < |comps| && c in Touching(edges, comps[j])
    ensures EdgesLinked(edges) ==>
      forall j, k :: 0 <= j < k < |comps| ==> Touching(edges, comps[j]) * Touching(edges, comps[k]) == {}
  {
    PathsCover(edges, comps);
    if EdgesLinked(edges) {
      forall j, k | 0 <= j < k < |comps| ensures Touching(edges, comps[j]) * Touching(edges, comps[k]) == {} {
        PathsDisjoint(edges, comps[j], comps[k]);
      }
    }
  }

  lemma PathsCover(edges: seq<Edge>, comps: seq<set<Slot>>)
    requires Ends(edges) <= UnionOf(comps)
    ensures forall c :: c in EdgeConstraints(edges) <==> exists j :: 0 <= j < |comps| && c in Touching(edges, comps[j])
  {
    UnionOfMembers(comps);
    forall c | c in EdgeConstraints(edges) ensures exists j :: 0 <= j < |comps| && c in Touching(edges, comps[j]) {
      var e :| e in edges && e.constraint == c;
      assert e.from in Ends(edges);
      var j :| 0 <= j < |comps| && e.from in comps[j];
      assert c in Touching(edges, comps[j]);
    }
  }

  /** Two disjoint closed vertex sets share no constraint when edges of one
      constraint always meet. */
  lemma PathsDisjoint(edges: seq<Edge>, a: set<Slot>, b: set<Slot>)
    requires Closed(edges, a) && Closed(edges, b) && a * b == {} && EdgesLinked(edges)
    ensures Touching(edges, a) * Touching(edges, b) == {}
  {
    forall c | c in Touching(edges, a) ensures c !in Touching(edges, b) {
      var e1 :| e1 in edges && (e1.from in a || e1.to in a) && e1.constraint == c;
      assert e1.from in a && e1.to in a;
      forall e2 | e2 in edges && e2.constraint == c ensures e2.from !in b && e2.to !in b {
        assert Meet(e1, e2);
        assert e2.from in a && e2.to in a;
        assert e2.from !in a * b && e2.to !in a * b;
      }
    }
  }

  class GraphBuilder {
    const constraints: seq<Constraint>
    /** The `top` annotation, as a qualifier. */
    const top: Qualifier
    /** The constant qualifiers whose only type name is the empty string. */
    const unnamed: set<Qualifier>
    const graph: ConstraintGraph

    constructor (constraints: seq<Constraint>, top: Qualifier, unnamed: set<Qualifier>)
      ensures this.constraints == constraints && this.top == top && this.unnamed == unnamed
      ensures fresh(graph) && graph.Valid()
      ensures graph.vertices == [] && graph.edges == [] && graph.constants == []
      ensures graph.independentPaths == [] && graph.constantPath == map[]
    {
      this.constraints := constraints;
      this.top := top;
      this.unnamed := unnamed;
      graph := new ConstraintGraph();
    }

    /** `addSubtypeEdge`: one edge from the subtype to the supertype, none
        between two constants. */
    method AddSubtypeEdge(c: Constraint)
      requires c.Subtype? && graph.Valid()
      modifies graph
      ensures graph.Valid()
      ensures graph.edges == old(graph.edges) + EdgesOf(c)
      ensures graph.vertices == Grow(old(graph.vertices), EdgesOf(c))
      ensures graph.constants == old(graph.constants) && graph.independentPaths == old(graph.independentPaths)
      ensures graph.constantPath == old(graph.constantPath)
    {
      var subtype := c.subtype;
      var supertype := c.supertype;
      if subtype.Constant? && supertype.Constant? {
        return;
      }
      graph.CreateEdge(subtype, supertype, c);
      assert EdgesOf(c)[..0] == [];
    }

    /** `addEdges(slots, c)` on the shared list `slots`: the head is removed;
        each later slot not paired with a constant head gets an edge from the
        head (see `LinkAt`).  `rest` is what is left of the list. */
    method AddEdges(slots: seq<Slot>, c: Constraint) returns (rest: seq<Slot>)
      requires |slots| >= 1 && graph.Valid()
      modifies graph
      ensures graph.Valid()
      ensures rest == AddEdgesSpec(slots).1
      ensures graph.edges == old(graph.edges) + ToEdges(AddEdgesSpec(slots).0, c)
      ensures graph.vertices == Grow(old(graph.vertices), ToEdges(AddEdgesSpec(slots).0, c))
      ensures graph.constants == old(graph.constants) && graph.independentPaths == old(graph.independentPaths)
      ensures graph.constantPath == old(graph.constantPath)
      decreases |slots|, 1
    {
      var first := slots[0];
      rest := slots[1..];
      ghost var edges0 := graph.edges;
      ghost var vertices0 := graph.vertices;
      ghost var done: seq<(Slot, Slot)> := [];
      LinkedStart(slots);
      var i := 0;
      while i < |rest|
        invariant graph.Valid() && |rest| < |slots|
        invariant graph.constants == old(graph.constants) && graph.independentPaths == old(graph.independentPaths)
        invariant graph.constantPath == old(graph.constantPath)
        invariant graph.edges == edges0 + ToEdges(done, c)
        invariant graph.vertices == Grow(vertices0, ToEdges(done, c))
        invariant LinkedSoFar(first, rest, i, done, AddEdgesSpec(slots))
        decreases |rest| - i
      {
        if first.Constant? && rest[i].Constant? {
          LinkedSkip(first, rest, i, done, AddEdgesSpec(slots));
        } else {
          rest, done := LinkAt(first, rest, i, c, edges0, vertices0, done, AddEdgesSpec(slots));
        }
        i := i + 1;
      }
      LinkedEnd(first, rest, i, done, AddEdgesSpec(slots));
    }

    /** One linking turn of the loop of `addEdges`: the edge from `first` to
        the slot at i, then the recursive call on the shared list; `done`
        grows by the pair and the pairs of the recursive call. */
    method LinkAt(first: Slot, rest: seq<Slot>, i: nat, c: Constraint, ghost edges0: seq<Edge>, ghost vertices0: seq<Slot>,
                  ghost done: seq<(Slot, Slot)>, ghost target: (seq<(Slot, Slot)>, seq<Slot>))
      returns (rest': seq<Slot>, ghost done': seq<(Slot, Slot)>)
      requires i < |rest| && !(first.Constant? && rest[i].Constant?) && graph.Valid()
      requires graph.edges == edges0 + ToEdges(done, c) && graph.vertices == Grow(vertices0, ToEdges(done, c))
      requires LinkedSoFar(first, rest, i, done, target)
      modifies graph
      ensures graph.Valid() && |rest'| < |rest|
      ensures graph.edges == edges0 + ToEdges(done', c) && graph.vertices == Grow(vertices0, ToEdges(done', c))
      ensures LinkedSoFar(first, rest', i + 1, done', target)
      ensures graph.constants == old(graph.constants) && graph.independentPaths == old(graph.independentPaths)
      ensures graph.constantPath == old(graph.constantPath)
      decreases |rest|, 2
    {
      ghost var pair := (first, rest[i]);
      ghost var sp := AddEdgesSpec(rest);
      LinkedTake(first, rest, i, done, target);
      graph.CreateEdge(first, rest[i], c);
      rest' := AddEdges(rest, c);
      ExtendEdges(edges0, done, pair, sp.0, c);
      ExtendVertices(vertices0, done, pair, sp.0, c);
      done' := done + [pair] + sp.0;
    }

    /** `addConstant`: every constant vertex, in vertex order, joins the
        constant vertices. */
    method AddConstants()
      modifies graph
      ensures graph.constants == old(graph.constants) + ConstantsOf(graph.vertices)
      ensures graph.vertices == old(graph.vertices) && graph.edges == old(graph.edges)
      ensures graph.independentPaths == old(graph.independentPaths) && graph.constantPath == old(graph.constantPath)
    {
      var vs := graph.vertices;
      for i := 0 to |vs|
        invariant graph.constants == old(graph.constants) + ConstantsOf(vs[..i])
        invariant graph.vertices == vs && graph.edges == old(graph.edges)
        invariant graph.independentPaths == old(graph.independentPaths) && graph.constantPath == old(graph.constantPath)
      {
        assert vs[..i + 1][..i] == vs[..i];
        if vs[i].Constant? {
          graph.AddConstant(vs[i]);
        }
      }
      TakeAll(vs);
    }

    /** `calculateIndependentPath`: a search from every vertex not yet
        visited records the constraints of its component.  `comps` are the
        connected components, in the order found, and `starts` the vertices
        their searches began at. */
    method CalculateIndependentPath() returns (ghost comps: seq<set<Slot>>, ghost starts: seq<Slot>)
      requires graph.Valid()
      modifies graph
      ensures graph.vertices == old(graph.vertices) && graph.edges == old(graph.edges)
      ensures graph.constants == old(graph.constants) && graph.constantPath == old(graph.constantPath)
      ensures graph.independentPaths == old(graph.independentPaths) + PathsOf(graph.edges, comps)
      ensures Partition(graph.edges, comps) && UnionOf(comps) == Elems(graph.vertices)
      ensures Components(graph.edges, comps, starts) && InVertexOrder(graph.vertices, comps, starts)
    {
      var vs := graph.vertices;
      ghost var es := graph.edges;
      ghost var paths0 := graph.independentPaths;
      var visited: set<Slot> := {};
      comps, starts := [], [];
      for i := 0 to |vs|
        invariant graph.vertices == vs && graph.edges == es && graph.Valid()
        invariant graph.constants == old(graph.constants) && graph.constantPath == old(graph.constantPath)
        invariant graph.independentPaths == paths0 + PathsOf(es, comps)
        invariant Found(es, comps, visited) && visited <= Elems(vs)
        invariant Components(es, comps, starts) && InVertexOrder(vs, comps, starts)
        invariant Elems(vs[..i]) <= visited
      {
        if vs[i] !in visited {
          var path, visited', comp := ComponentSearch(graph.edges, visited, vs[i]);
          graph.AddIndependentPath(path);
          FoundAdd(es, comps, visited, comp);
          ComponentsAdd(es, comps, starts, vs[i], comp);
          InVertexOrderAdd(vs, comps, starts, i, comp);
          starts := starts + [vs[i]];
          ConcatAssoc(paths0, PathsOf(es, comps), [path]);
          comps := comps + [comp];
          visited := visited';
        }
        TakeNext(vs, i);
      }
      TakeAll(vs);
    }

    /** `calculateConstantPath`: the constraints the search from each
        constant vertex records. */
    method CalculateConstantPath()
      modifies graph
      ensures graph.vertices == old(graph.vertices) && graph.edges == old(graph.edges)
      ensures graph.constants == old(graph.constants) && graph.independentPaths == old(graph.independentPaths)
      ensures graph.constantPath.Keys == old(graph.constantPath).Keys + Elems(graph.constants)
      ensures forall v | v in graph.constants :: Searched(graph.edges, top, unnamed, v, graph.constantPath[v])
      ensures forall v | v in graph.constantPath && v !in graph.constants :: graph.constantPath[v] == old(graph.constantPath)[v]
    {
      var cs := graph.constants;
      for i := 0 to |cs|
        invariant graph.vertices == old(graph.vertices) && graph.edges == old(graph.edges)
        invariant graph.constants == cs && graph.independentPaths == old(graph.independentPaths)
        invariant graph.constantPath.Keys == old(graph.constantPath).Keys + Elems(cs[..i])
        invariant forall v | v in cs[..i] :: Searched(graph.edges, top, unnamed, v, graph.constantPath[v])
        invariant forall v | v in graph.constantPath && v !in cs[..i] :: graph.constantPath[v] == old(graph.constantPath)[v]
      {
        var path, order := ConstantSearch(graph.edges, top, unnamed, cs[i]);
        assert Searched(graph.edges, top, unnamed, cs[i], path);
        graph.AddConstantPath(cs[i], path);
        TakeNext(cs, i);
      }
      TakeAll(cs);
    }

    /** The loop of `buildGraph` over the constraints: a Subtype adds its
        edge, an Existential nothing, any other constraint the edges among
        its slots. */
    method AddAllEdges()
      requires graph.Valid()
      modifies graph
      ensures graph.Valid()
      ensures graph.edges == old(graph.edges) + AllEdges(constraints)
      ensures graph.vertices == Grow(old(graph.vertices), AllEdges(constraints))
      ensures graph.constants == old(graph.constants) && graph.independentPaths == old(graph.independentPaths)
      ensures graph.constantPath == old(graph.constantPath)
    {
      ghost var edges0 := graph.edges;
      ghost var vertices0 := graph.vertices;
      ghost var more: seq<Edge> := [];
      for k := 0 to |constraints|
        invariant graph.Valid()
        invariant more == AllEdges(constraints[..k])
        invariant graph.edges == edges0 + more
        invariant graph.vertices == Grow(vertices0, more)
        invariant graph.constants == old(graph.constants) && graph.independentPaths == old(graph.independentPaths)
        invariant graph.constantPath == old(graph.constantPath)
      {
        ghost var next := AddConstraintEdges(constraints[k]);
        AllEdgesStep(vertices0, constraints, k);
        GrowAppend(vertices0, more, next);
        ConcatAssoc(edges0, more, next);
        more := more + next;
      }
      TakeAll(constraints);
    }

    /** The body of that loop, for one constraint. */
    method AddConstraintEdges(c: Constraint) returns (ghost added: seq<Edge>)
      requires graph.Valid()
      modifies graph
      ensures graph.Valid() && added == EdgesOf(c)
      ensures graph.edges == old(graph.edges) + added
      ensures graph.vertices == Grow(old(graph.vertices), added)
      ensures graph.constants == old(graph.constants) && graph.independentPaths == old(graph.independentPaths)
      ensures graph.constantPath == old(graph.constantPath)
    {
      added := EdgesOf(c);
      if c.Subtype? {
        AddSubtypeEdge(c);
      } else if c.Existential? {
        assert Grow(graph.vertices, []) == graph.vertices;
      } else {
        var _ := AddEdges(SlotsOf(c), c);
      }
    }

    /** `buildGraph`: the edges of every constraint, then the constant
        vertices, the independent paths and the constant paths. */
    method BuildGraph() returns (g: ConstraintGraph, ghost comps: seq<set<Slot>>, ghost starts: seq<Slot>)
      requires graph.Valid()
      modifies graph
      ensures g == graph && graph.Valid()
      ensures graph.edges == old(graph.edges) + AllEdges(constraints)
      ensures graph.vertices == Grow(old(graph.vertices), AllEdges(constraints))
      ensures graph.constants == old(graph.constants) + ConstantsOf(graph.vertices)
      ensures graph.independentPaths == old(graph.independentPaths) + PathsOf(graph.edges, comps)
      ensures Partition(graph.edges, comps) && UnionOf(comps) == Elems(graph.vertices)
      ensures Components(graph.edges, comps, starts) && InVertexOrder(graph.vertices, comps, starts)
      ensures graph.constantPath.Keys == old(graph.constantPath).Keys + Elems(graph.constants)
      ensures forall v | v in graph.constants :: Searched(graph.edges, top, unnamed, v, graph.constantPath[v])
    {
      AddAllEdges();
      AddConstants();
      comps, starts := CalculateIndependentPath();
      CalculateConstantPath();
      g := graph;
    }
  }

  /** The independent paths of the components: the constraints at each. */
  function PathsOf(edges: seq<Edge>, comps: seq<set<Slot>>): (r: seq<set<Constraint>>)
    ensures |r| == |comps| && forall j :: 0 <= j < |comps| ==> r[j] == Touching(edges, comps[j])
  {
    seq(|comps|, j requires 0 <= j < |comps| => Touching(edges, comps[j]))
  }

  /** Each found set is the connected component of the vertex its search
      began at. */
  ghost predicate Components(edges: seq<Edge>, comps: seq<set<Slot>>, starts: seq<Slot>) {
    |starts| == |comps| && forall j :: 0 <= j < |comps| ==> ComponentOf(edges, starts[j], comps[j])
  }

  lemma ComponentsAdd(edges: seq<Edge>, comps: seq<set<Slot>>, starts: seq<Slot>, v: Slot, comp: set<Slot>)
    requires Components(edges, comps, starts) && ComponentOf(edges, v, comp)
    ensures Components(edges, comps + [comp], starts + [v])
  {
    var comps', starts' := comps + [comp], starts + [v];
    forall j | 0 <= j < |comps'| ensures ComponentOf(edges, starts'[j], comps'[j]) {
      if j < |comps| {
        assert comps'[j] == comps[j] && starts'[j] == starts[j];
      }
    }
  }

  /** The position of the first vertex outside s, or |vs| when there is none. */
  function FirstOutside(vs: seq<Slot>, s: set<Slot>): (p: nat)
    ensures p <= |vs| && (p < |vs| ==> vs[p] !in s)
    ensures forall q :: 0 <= q < p ==> vs[q] in s
  {
    if vs == [] then 0 else if vs[0] !in s then 0 else 1 + FirstOutside(vs[1..], s)
  }

  /** Each search began at the first vertex, in creation order, that the
      components found before it had not visited. */
  ghost predicate InVertexOrder(vs: seq<Slot>, comps: seq<set<Slot>>, starts: seq<Slot>) {
    && |starts| == |comps|
    && forall j :: 0 <= j < |comps| ==>
         FirstOutside(vs, UnionOf(comps[..j])) < |vs| && starts[j] == vs[FirstOutside(vs, UnionOf(comps[..j]))]
  }

  lemma InVertexOrderAdd(vs: seq<Slot>, comps: seq<set<Slot>>, starts: seq<Slot>, i: nat, comp: set<Slot>)
    requires InVertexOrder(vs, comps, starts)
    requires i < |vs| && vs[i] !in UnionOf(comps) && Elems(vs[..i]) <= UnionOf(comps)
    ensures InVertexOrder(vs, comps + [comp], starts + [vs[i]])
  {
    assert FirstOutside(vs, UnionOf(comps)) == i;
    var comps', starts' := comps + [comp], starts + [vs[i]];
    forall j | 0 <= j < |comps'|
      ensures FirstOutside(vs, UnionOf(comps'[..j])) < |vs| && starts'[j] == vs[FirstOutside(vs, UnionOf(comps'[..j]))]
    {
      if j < |comps| {
        assert comps'[..j] == comps[..j] && starts'[j] == starts[j];
      } else {
        assert comps'[..j] == comps;
      }
    }
  }

  /** Two runs over the same graph that agree on the earlier components
      agree on the next one. */
  lemma NextAgrees(edges: seq<Edge>, vs: seq<Slot>,
                   c1: seq<set<Slot>>, s1: seq<Slot>, c2: seq<set<Slot>>, s2: seq<Slot>)
    requires Components(edges, c1, s1) && InVertexOrder(vs, c1, s1)
    requires Components(edges, c2, s2) && InVertexOrder(vs, c2, s2)
    ensures forall j :: 0 <= j < |c1| && j < |c2| && c1[..j] == c2[..j] ==> c1[j] == c2[j]
  {
    forall j | 0 <= j < |c1| && j < |c2| && c1[..j] == c2[..j] ensures c1[j] == c2[j] {
      StartsAgree(vs, c1, s1, c2, s2, j);
      assert ComponentOf(edges, s1[j], c1[j]) && ComponentOf(edges, s2[j], c2[j]);
      ComponentUnique(edges, s1[j], c1[j], c2[j]);
    }
  }

  /** If the next elements agree wherever the elements before them do, the
      first k elements agree. */
  lemma {:induction false} AgreePrefix<T>(c1: seq<T>, c2: seq<T>, k: nat)
    requires k <= |c1| && k <= |c2|
    requires forall j :: 0 <= j < k && c1[..j] == c2[..j] ==> c1[j] == c2[j]
    ensures c1[..k] == c2[..k]
  {
    if k > 0 {
      AgreePrefix(c1, c2, k - 1);
      assert c1[..k] == c1[..k - 1] + [c1[k - 1]];
      assert c2[..k] == c2[..k - 1] + [c2[k - 1]];
    }
  }

  lemma StartsAgree(vs: seq<Slot>, c1: seq<set<Slot>>, s1: seq<Slot>, c2: seq<set<Slot>>, s2: seq<Slot>, j: nat)
    requires InVertexOrder(vs, c1, s1) && InVertexOrder(vs, c2, s2)
    requires j < |c1| && j < |c2| && c1[..j] == c2[..j]
    ensures s1[j] == s2[j]
  {
    assert s1[j] == vs[FirstOutside(vs, UnionOf(c1[..j]))];
    assert s2[j] == vs[FirstOutside(vs, UnionOf(c2[..j]))];
  }

  /** The components, in the order `calculateIndependentPath` finds them,
      are determined by the edges and the vertex order. */
  lemma ComponentsDetermined(edges: seq<Edge>, vs: seq<Slot>,
                             c1: seq<set<Slot>>, s1: seq<Slot>, c2: seq<set<Slot>>, s2: seq<Slot>)
    requires Components(edges, c1, s1) && InVertexOrder(vs, c1, s1) && UnionOf(c1) == Elems(vs)
    requires Components(edges, c2, s2) && InVertexOrder(vs, c2, s2) && UnionOf(c2) == Elems(vs)
    ensures c1 == c2 && s1 == s2
  {
    NextAgrees(edges, vs, c1, s1, c2, s2);
    if |c1| < |c2| {
      AgreePrefix(c1, c2, |c1|);
      TakeAll(c1);
    } else if |c2| < |c1| {
      AgreePrefix(c1, c2, |c2|);
      TakeAll(c2);
    } else {
      AgreePrefix(c1, c2, |c1|);
      TakeAll(c1);
      TakeAll(c2);
    }
  }

  /** The loop state of `calculateIndependentPath`: the components found
      partition the visited vertices. */
  ghost predicate Found(edges: seq<Edge>, comps: seq<set<Slot>>, visited: set<Slot>) {
    Partition(edges, comps) && Closed(edges, visited) && visited == UnionOf(comps)
  }

  /** A new closed component, disjoint from the visited vertices, extends
      the partition. */
  lemma FoundAdd(edges: seq<Edge>, comps: seq<set<Slot>>, visited: set<Slot>, comp: set<Slot>)
    requires Found(edges, comps, visited) && comp != {} && Closed(edges, comp) && comp * visited == {}
    ensures Found(edges, comps + [comp], visited + comp)
    ensures PathsOf(edges, comps + [comp]) == PathsOf(edges, comps) + [Touching(edges, comp)]
  {
    var comps' := comps + [comp];
    assert comps'[..|comps'| - 1] == comps;
    UnionOfMembers(comps);
    forall j | 0 <= j < |comps| ensures comps[j] * comp == {} {
      forall x | x in comps[j] ensures x !in comp {
        assert x in visited;
        assert x !in comp * visited;
      }
    }
    forall j, k | 0 <= j < k < |comps'| ensures comps'[j] * comps'[k] == {} {
      if k < |comps| {
        assert comps'[j] == comps[j] && comps'[k] == comps[k];
      }
    }
  }

  /** The search from `start` records `path`. */
  ghost predicate Searched(edges: seq<Edge>, top: Qualifier, unnamed: set<Qualifier>, start: Slot, path: set<Constraint>) {
    exists order :: SearchOrder(edges, top, unnamed, start, order) && SearchClosed(edges, top, unnamed, Elems(order))
      && path == Collected(edges, Elems(order))
  }

  /** The constant path of a vertex is determined by the graph. */
  lemma SearchedUnique(edges: seq<Edge>, top: Qualifier, unnamed: set<Qualifier>, start: Slot,
                       p1: set<Constraint>, p2: set<Constraint>)
    requires Searched(edges, top, unnamed, start, p1) && Searched(edges, top, unnamed, start, p2)
    ensures p1 == p2
  {
    var o1 :| SearchOrder(edges, top, unnamed, start, o1) && SearchClosed(edges, top, unnamed, Elems(o1))
      && p1 == Collected(edges, Elems(o1));
    var o2 :| SearchOrder(edges, top, unnamed, start, o2) && SearchClosed(edges, top, unnamed, Elems(o2))
      && p2 == Collected(edges, Elems(o2));
    SearchUnique(edges, top, unnamed, start, o1, o2);
  }

  /** The constant path records every edge the search takes out of the
      constant itself, pruned far end or not, and only constraints of the
      graph. */
  lemma SearchedBounds(edges: seq<Edge>, top: Qualifier, unnamed: set<Qualifier>, start: Slot, p: set<Constraint>)
    requires Searched(edges, top, unnamed, start, p)
    ensures TakenAt(edges, start) <= p <= EdgeConstraints(edges)
  {
    var o :| SearchOrder(edges, top, unnamed, start, o) && SearchClosed(edges, top, unnamed, Elems(o))
      && p == Collected(edges, Elems(o));
    assert start == o[0] && start in Elems(o);
    forall c | c in TakenAt(edges, start) ensures c in p {
      var e :| e in edges && Admissible(e, start) && e.constraint == c;
      assert e.from == start || e.to == start;
    }
  }

  /** On a fresh graph, the independent paths of the built graph are the
      constraints of all edges, split without overlap. */
  lemma BuiltPaths(cs: seq<Constraint>, comps: seq<set<Slot>>, vertices: seq<Slot>)
    requires Partition(AllEdges(cs), comps) && UnionOf(comps) == Elems(vertices)
    requires Ends(AllEdges(cs)) <= Elems(vertices)
    ensures forall c :: c in EdgeConstraints(AllEdges(cs)) <==> exists j :: 0 <= j < |comps| && c in Touching(AllEdges(cs), comps[j])
    ensures forall j, k :: 0 <= j < k < |comps| ==> Touching(AllEdges(cs), comps[j]) * Touching(AllEdges(cs), comps[k]) == {}
  {
    AllEdgesLinked(cs);
    PathsPartition(AllEdges(cs), comps);
  }
}
