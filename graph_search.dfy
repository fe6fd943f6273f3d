/** The two breadth-first searches of `GraphBuilder`: the undirected one of
    `calculateIndependentPath` and the directed, pruned one of `BFSSearch`.
    Both keep a FIFO queue that may hold a vertex twice and a visited set. */
module GraphSearch {
  import opened Base
  import opened Lattices
  import opened Slots
  import opened Graphs

  /** No edge leaves s: each edge has both ends in s or neither. */
  ghost predicate Closed(edges: seq<Edge>, s: set<Slot>) {
    forall e | e in edges :: e.from in s <==> e.to in s
  }

  /** The constraints of the edges at some vertex of s. */
  function Touching(edges: seq<Edge>, s: set<Slot>): set<Constraint> {
    set e | e in edges && (e.from in s || e.to in s) :: e.constraint
  }

  /** The queue entries that are already visited. */
  function CountIn(q: seq<Slot>, s: set<Slot>): nat {
    if q == [] then 0 else (if q[0] in s then 1 else 0) + CountIn(q[1..], s)
  }

  lemma {:induction false} CountAppend(a: seq<Slot>, b: seq<Slot>, s: set<Slot>)
    ensures CountIn(a + b, s) == CountIn(a, s) + CountIn(b, s)
  {
    if a == [] {
      assert a + b == b;
    } else {
      assert (a + b)[0] == a[0];
      assert (a + b)[1..] == a[1..] + b;
      CountAppend(a[1..], b, s);
    }
  }

  lemma {:induction false} CountNone(a: seq<Slot>, s: set<Slot>)
    requires forall x | x in a :: x !in s
    ensures CountIn(a, s) == 0
  {
    if a != [] {
      assert forall x | x in a[1..] :: x in a;
      CountNone(a[1..], s);
    }
  }

  /** Visiting a new vertex of the universe leaves fewer unvisited. */
  lemma FewerUnvisited(universe: set<Slot>, before: set<Slot>, current: Slot)
    requires current in universe && current !in before
    ensures |universe - (before + {current})| < |universe - before|
  {
    var a := universe - (before + {current});
    assert universe - before == a + {current};
    assert current !in a;
  }

  /** Dequeuing a visited vertex and enqueuing only unvisited ones leaves
      fewer visited queue entries. */
  lemma FewerVisitedEntries(before: set<Slot>, current: Slot, rest: seq<Slot>, added: seq<Slot>)
    requires current in before
    requires forall x | x in added :: x !in before
    ensures CountIn(rest + added, before) < CountIn([current] + rest, before)
  {
    CountAppend(rest, added, before);
    CountNone(added, before);
    assert ([current] + rest)[1..] == rest;
  }

  /** One turn of a breadth-first search lowers its measure: the unvisited
      part of the universe, then the visited queue entries. */
  lemma QueueProgress(universe: set<Slot>, before: set<Slot>, current: Slot, rest: seq<Slot>, added: seq<Slot>)
    requires current in universe
    requires forall x | x in added :: x !in before + {current}
    ensures || |universe - (before + {current})| < |universe - before|
            || (before + {current} == before && CountIn(rest + added, before + {current}) < CountIn([current] + rest, before))
  {
    if current in before {
      FewerVisitedEntries(before, current, rest, added);
      assert before + {current} == before;
    } else {
      FewerUnvisited(universe, before, current);
    }
  }

  /** The constraints of the edges at v. */
  function AtVertex(edges: seq<Edge>, v: Slot): set<Constraint> {
    set e | e in edges && Incident(e, v) :: e.constraint
  }

  lemma TouchingAdd(edges: seq<Edge>, s: set<Slot>, v: Slot)
    ensures Touching(edges, s + {v}) == Touching(edges, s) + AtVertex(edges, v)
  {
  }

  /** The loop over `current.getEdges()` of `calculateIndependentPath`: the
      constraints of the edges at `current`, and the unvisited far ends, in
      the order they join the queue. */
  method Neighbours(edges: seq<Edge>, current: Slot, visited: set<Slot>)
    returns (found: set<Constraint>, added: seq<Slot>)
    requires current in visited
    ensures found == AtVertex(edges, current)
    ensures forall q | q in added :: q in Ends(edges) && q !in visited && Adjacent(edges, current, q)
    ensures forall e | e in edges && Incident(e, current) :: Other(e, current) in visited || Other(e, current) in added
  {
    var inc := IncidentEdges(edges, current);
    found := {};
    added := [];
    for j := 0 to |inc|
      invariant found == set t | 0 <= t < j :: inc[t].constraint
      invariant forall q | q in added :: q in Ends(edges) && q !in visited && Adjacent(edges, current, q)
      invariant forall t | 0 <= t < j :: Other(inc[t], current) in visited || Other(inc[t], current) in added
    {
      var edge := inc[j];
      assert edge in edges;
      found := found + {edge.constraint};
      var next := if edge.from == current then edge.to else edge.from;
      if next !in visited {
        added := added + [next];
      }
    }
    forall e | e in edges && Incident(e, current)
      ensures Other(e, current) in visited || Other(e, current) in added
    {
      assert e in inc;
      var t :| 0 <= t < |inc| && inc[t] == e;
    }
    assert found == AtVertex(edges, current) by {
      forall c | c in AtVertex(edges, current) ensures c in found {
        var e :| e in edges && Incident(e, current) && e.constraint == c;
        assert e in inc;
        var t :| 0 <= t < |inc| && inc[t] == e;
      }
      forall c | c in found ensures c in AtVertex(edges, current) {
        var t :| 0 <= t < |inc| && inc[t].constraint == c;
        assert inc[t] in inc;
      }
    }
  }

  /** v and w are the two ends of one edge. */
  predicate Adjacent(edges: seq<Edge>, v: Slot, w: Slot) {
    exists e | e in edges :: Incident(e, v) && Other(e, v) == w
  }

  /** A first-visit order of the undirected search from start: the start
      first, and each later vertex adjacent to an earlier one. */
  ghost predicate ConnectedOrder(edges: seq<Edge>, start: Slot, order: seq<Slot>) {
    && (order != [] ==> order[0] == start)
    && forall k :: 0 < k < |order| ==> exists j :: 0 <= j < k && Adjacent(edges, order[j], order[k])
  }

  /** comp is the connected component of start: a closed set of vertices,
      each reached from start through edges. */
  ghost predicate ComponentOf(edges: seq<Edge>, start: Slot, comp: set<Slot>) {
    && start in comp && Closed(edges, comp)
    && exists order :: ConnectedOrder(edges, start, order) && Elems(order) == comp
  }

  /** A queue entry of the undirected search: the start, or a vertex
      adjacent to a visited one. */
  ghost predicate Discovered(edges: seq<Edge>, start: Slot, order: seq<Slot>, q: Slot) {
    q == start || exists j :: 0 <= j < |order| && Adjacent(edges, order[j], q)
  }

  /** order visits comp connectedly from start and every queue entry is discovered. */
  ghost predicate Reached(edges: seq<Edge>, start: Slot, order: seq<Slot>, comp: set<Slot>, queue: seq<Slot>) {
    && ConnectedOrder(edges, start, order) && Elems(order) == comp
    && forall q | q in queue :: Discovered(edges, start, order, q)
  }

  /** The reached vertices lie in every closed set that contains the start. */
  lemma {:induction false} ConnectedLeast(edges: seq<Edge>, start: Slot, order: seq<Slot>, s: set<Slot>, k: nat)
    requires ConnectedOrder(edges, start, order) && k < |order|
    requires start in s && Closed(edges, s)
    ensures order[k] in s
  {
    if k > 0 {
      var j :| 0 <= j < k && Adjacent(edges, order[j], order[k]);
      ConnectedLeast(edges, start, order, s, j);
      var e :| e in edges && Incident(e, order[j]) && Other(e, order[j]) == order[k];
    }
  }

  /** The component of start is the least closed set containing start. */
  lemma ComponentLeast(edges: seq<Edge>, start: Slot, comp: set<Slot>, s: set<Slot>)
    requires ComponentOf(edges, start, comp)
    requires start in s && Closed(edges, s)
    ensures comp <= s
  {
    var order :| ConnectedOrder(edges, start, order) && Elems(order) == comp;
    forall v | v in comp ensures v in s {
      var k :| 0 <= k < |order| && order[k] == v;
      ConnectedLeast(edges, start, order, s, k);
    }
  }

  /** The component of a vertex is determined by the graph. */
  lemma ComponentUnique(edges: seq<Edge>, start: Slot, c1: set<Slot>, c2: set<Slot>)
    requires ComponentOf(edges, start, c1) && ComponentOf(edges, start, c2)
    ensures c1 == c2
  {
    ComponentLeast(edges, start, c1, c2);
    ComponentLeast(edges, start, c2, c1);
  }

  /** Visiting the head of the queue keeps the order connected and the
      queue entries discovered. */
  lemma ConnectedStep(edges: seq<Edge>, start: Slot, order: seq<Slot>, comp: set<Slot>,
                      current: Slot, rest: seq<Slot>, added: seq<Slot>)
    requires Reached(edges, start, order, comp, [current] + rest)
    requires start in comp || start in [current] + rest
    requires forall q | q in added :: Adjacent(edges, current, q)
    ensures Reached(edges, start, if current in comp then order else order + [current], comp + {current}, rest + added)
  {
    assert current in [current] + rest;
    assert Discovered(edges, start, order, current);
    var order' := if current in comp then order else order + [current];
    assert forall j :: 0 <= j < |order| ==> order'[j] == order[j];
    if current in comp {
      assert current in order;
    } else {
      assert order'[|order|] == current;
    }
    assert exists j :: 0 <= j < |order'| && order'[j] == current;
    if current !in comp && order != [] {
      assert order[0] in comp;
    }
    forall q | q in rest + added ensures Discovered(edges, start, order', q) {
      if q in rest {
        assert q in [current] + rest;
      } else {
        var j :| 0 <= j < |order'| && order'[j] == current;
        assert Adjacent(edges, order'[j], q);
      }
    }
  }

  /** Every edge at a vertex of comp has its other end visited or queued. */
  ghost predicate Frontier(edges: seq<Edge>, comp: set<Slot>, visited: set<Slot>, queue: seq<Slot>) {
    forall e | e in edges ::
      && (e.from in comp ==> e.to in visited || e.to in queue)
      && (e.to in comp ==> e.from in visited || e.from in queue)
  }

  /** The inner `while` of `calculateIndependentPath`: the search from
      `start`, an unvisited vertex, through edges in both directions.  It
      visits a closed set of vertices, disjoint from those visited before,
      and collects the constraints of the edges at them. */
  method ComponentSearch(edges: seq<Edge>, visited0: set<Slot>, start: Slot)
    returns (path: set<Constraint>, visited: set<Slot>, ghost comp: set<Slot>)
    requires start !in visited0 && Closed(edges, visited0)
    ensures visited == visited0 + comp && comp * visited0 == {} && start in comp
    ensures comp <= Ends(edges) + {start}
    ensures Closed(edges, comp) && path == Touching(edges, comp)
    ensures ComponentOf(edges, start, comp)
    ensures visited0 < visited && start in visited
    ensures AtVertex(edges, start) <= path <= EdgeConstraints(edges)
  {
    ghost var universe := Ends(edges) + {start};
    path := {};
    visited := visited0;
    comp := {};
    ghost var order: seq<Slot> := [];
    var queue := [start];
    while queue != []
      invariant ComponentInv(edges, visited0, start, universe, path, visited, comp, queue, order)
      decreases |universe - visited|, CountIn(queue, visited)
    {
      path, visited, comp, queue, order := ComponentStep(edges, visited0, start, universe, path, visited, comp, queue, order);
    }
    ComponentDone(edges, visited0, start, universe, path, visited, comp, order);
  }

  /** With the queue empty, the visited vertices form the component of start. */
  lemma ComponentDone(edges: seq<Edge>, visited0: set<Slot>, start: Slot, universe: set<Slot>,
                      path: set<Constraint>, visited: set<Slot>, comp: set<Slot>, order: seq<Slot>)
    requires Closed(edges, visited0)
    requires ComponentInv(edges, visited0, start, universe, path, visited, comp, [], order)
    ensures visited == visited0 + comp && comp * visited0 == {} && start in comp
    ensures comp <= Ends(edges) + {start}
    ensures Closed(edges, comp) && path == Touching(edges, comp)
    ensures ComponentOf(edges, start, comp)
    ensures visited0 < visited && start in visited
    ensures AtVertex(edges, start) <= path <= EdgeConstraints(edges)
  {
    forall e | e in edges ensures e.from in comp <==> e.to in comp {
      // an edge leaving comp would end in visited0, which is closed
      if e.from in comp {
        assert e.from !in comp * visited0;
        assert e.to in visited && e.to !in visited0;
      }
      if e.to in comp {
        assert e.to !in comp * visited0;
        assert e.from in visited && e.from !in visited0;
      }
    }
    assert Reached(edges, start, order, comp, []);
    assert start !in comp * visited0;
  }

  /** The invariant of the search loop of `calculateIndependentPath`. */
  ghost predicate ComponentInv(edges: seq<Edge>, visited0: set<Slot>, start: Slot, universe: set<Slot>,
                               path: set<Constraint>, visited: set<Slot>, comp: set<Slot>, queue: seq<Slot>,
                               order: seq<Slot>) {
    && universe == Ends(edges) + {start}
    && visited == visited0 + comp && comp * visited0 == {} && comp <= universe
    && (forall q | q in queue :: q in universe && q !in visited0)
    && (start in comp || start in queue)
    && path == Touching(edges, comp)
    && Frontier(edges, comp, visited, queue)
    && Reached(edges, start, order, comp, queue)
  }

  /** One turn of the search loop: dequeue, visit, collect the constraints
      at the vertex and enqueue its unvisited neighbours. */
  method ComponentStep(edges: seq<Edge>, ghost visited0: set<Slot>, start: Slot, ghost universe: set<Slot>,
                       path: set<Constraint>, visited: set<Slot>, ghost comp: set<Slot>, queue: seq<Slot>,
                       ghost order: seq<Slot>)
    returns (path': set<Constraint>, visited': set<Slot>, ghost comp': set<Slot>, queue': seq<Slot>,
             ghost order': seq<Slot>)
    requires queue != [] && ComponentInv(edges, visited0, start, universe, path, visited, comp, queue, order)
    ensures ComponentInv(edges, visited0, start, universe, path', visited', comp', queue', order')
    ensures || |universe - visited'| < |universe - visited|
            || (visited' == visited && CountIn(queue', visited') < CountIn(queue, visited))
  {
    var current := queue[0];
    var rest := queue[1..];
    assert queue == [current] + rest;
    visited' := visited + {current};
    comp' := comp + {current};
    var found, added := Neighbours(edges, current, visited');
    path' := path + found;
    queue' := rest + added;
    order' := if current in comp then order else order + [current];
    ComponentInvStep(edges, visited0, start, universe, path, visited, comp, queue, order, current, rest, added);
    QueueProgress(universe, visited, current, rest, added);
  }

  /** The invariant survives one turn of the search loop. */
  lemma ComponentInvStep(edges: seq<Edge>, visited0: set<Slot>, start: Slot, universe: set<Slot>,
                         path: set<Constraint>, visited: set<Slot>, comp: set<Slot>, queue: seq<Slot>,
                         order: seq<Slot>, current: Slot, rest: seq<Slot>, added: seq<Slot>)
    requires ComponentInv(edges, visited0, start, universe, path, visited, comp, queue, order)
    requires queue == [current] + rest
    requires forall q | q in added :: q in Ends(edges) && q !in visited + {current} && Adjacent(edges, current, q)
    requires forall e | e in edges && Incident(e, current) ::
      Other(e, current) in visited + {current} || Other(e, current) in added
    ensures ComponentInv(edges, visited0, start, universe, path + AtVertex(edges, current), visited + {current},
                         comp + {current}, rest + added, if current in comp then order else order + [current])
  {
    assert current in queue;
    TouchingAdd(edges, comp, current);
    assert Frontier(edges, comp + {current}, visited + {current}, rest + added) by {
      FrontierStep(edges, comp, visited, current, rest, added);
    }
    assert Reached(edges, start, if current in comp then order else order + [current], comp + {current}, rest + added) by {
      ConnectedStep(edges, start, order, comp, current, rest, added);
    }
    forall q | q in rest + added ensures q in universe && q !in visited0 {
      if q in rest {
        assert q in queue;
      }
    }
  }

  lemma FrontierStep(edges: seq<Edge>, comp: set<Slot>, visited: set<Slot>, current: Slot, rest: seq<Slot>, added: seq<Slot>)
    requires Frontier(edges, comp, visited, [current] + rest)
    requires forall e | e in edges && Incident(e, current) ::
      Other(e, current) in visited + {current} || Other(e, current) in added
    ensures Frontier(edges, comp + {current}, visited + {current}, rest + added)
  {
    forall e | e in edges
      ensures (e.from in comp + {current} ==> e.to in visited + {current} || e.to in rest + added)
      ensures (e.to in comp + {current} ==> e.from in visited + {current} || e.from in rest + added)
    {
      if e.from in comp && e.to in [current] + rest && e.to != current {
        assert e.to in rest;
      }
      if e.to in comp && e.from in [current] + rest && e.from != current {
        assert e.from in rest;
      }
    }
  }

  // ---------------------------------------------------------------------
  // The constant-path search
  // ---------------------------------------------------------------------

  /** The edges the search takes out of v: every edge at v except a Subtype
      edge whose `to` end is v. */
  predicate Admissible(e: Edge, v: Slot) {
    Incident(e, v) && !(e.isSubtype && e.to == v)
  }

  /** The vertices the search records the edge to but does not go on from:
      the `top` constant, a constant whose only type name is empty (the
      qualifiers in `unnamed`), and a variable at a MISSING location. */
  predicate Pruned(top: Qualifier, unnamed: set<Qualifier>, w: Slot) {
    match w
    case Constant(q) => q == top || q in unnamed
    case Variable(_, missing) => missing
  }

  /** The search moves from v to w: an edge it takes out of v ends at w. */
  ghost predicate Enters(edges: seq<Edge>, v: Slot, w: Slot) {
    exists e | e in edges :: Admissible(e, v) && e.to == w
  }

  /** The constraints of the edges taken out of the vertices of s. */
  function Collected(edges: seq<Edge>, s: set<Slot>): set<Constraint> {
    set e | e in edges && ((e.from in s && Admissible(e, e.from)) || (e.to in s && Admissible(e, e.to))) :: e.constraint
  }

  /** The first-visit order of the search from start: each later vertex is
      not pruned and is entered from an earlier one. */
  ghost predicate SearchOrder(edges: seq<Edge>, top: Qualifier, unnamed: set<Qualifier>, start: Slot, order: seq<Slot>) {
    |order| > 0 && OrderOk(edges, top, unnamed, start, order)
  }

  /** Every edge taken out of s ends in s or at a pruned vertex. */
  ghost predicate SearchClosed(edges: seq<Edge>, top: Qualifier, unnamed: set<Qualifier>, s: set<Slot>) {
    forall e, v | e in edges && v in s && Admissible(e, v) :: e.to in s || Pruned(top, unnamed, e.to)
  }

  /** A queue entry: the start before anything is visited, or a vertex
      entered from a visited one and not pruned. */
  ghost predicate Queued(edges: seq<Edge>, top: Qualifier, unnamed: set<Qualifier>, start: Slot, order: seq<Slot>, q: Slot) {
    (order == [] && q == start)
    || (!Pruned(top, unnamed, q) && exists j :: 0 <= j < |order| && Enters(edges, order[j], q))
  }

  /** The constraints of the edges taken out of v. */
  function TakenAt(edges: seq<Edge>, v: Slot): set<Constraint> {
    set e | e in edges && Admissible(e, v) :: e.constraint
  }

  lemma CollectedAdd(edges: seq<Edge>, s: set<Slot>, v: Slot)
    ensures Collected(edges, s + {v}) == Collected(edges, s) + TakenAt(edges, v)
  {
  }

  /** Every edge taken out of a visited vertex ends visited, queued or
      pruned. */
  ghost predicate SearchFrontier(edges: seq<Edge>, top: Qualifier, unnamed: set<Qualifier>, visited: set<Slot>, queue: seq<Slot>) {
    forall e, v | e in edges && v in visited && Admissible(e, v) ::
      e.to in visited || e.to in queue || Pruned(top, unnamed, e.to)
  }

  /** The loop over `current.getEdges()` of `BFSSearch`: a Subtype edge
      whose `to` end is `current` is skipped; for any other the constraint
      is recorded and its `to` end joins the queue unless it is visited or
      pruned. */
  method Successors(edges: seq<Edge>, top: Qualifier, unnamed: set<Qualifier>, current: Slot, visited: set<Slot>)
    returns (found: set<Constraint>, added: seq<Slot>)
    ensures found == TakenAt(edges, current)
    ensures forall q | q in added ::
      q in Ends(edges) && q !in visited && !Pruned(top, unnamed, q) && Enters(edges, current, q)
    ensures forall e | e in edges && Admissible(e, current) ::
      e.to in visited || e.to in added || Pruned(top, unnamed, e.to)
  {
    var inc := IncidentEdges(edges, current);
    found := {};
    added := [];
    for j := 0 to |inc|
      invariant found == set t | 0 <= t < j && Admissible(inc[t], current) :: inc[t].constraint
      invariant forall q | q in added ::
        q in Ends(edges) && q !in visited && !Pruned(top, unnamed, q) && Enters(edges, current, q)
      invariant forall t | 0 <= t < j && Admissible(inc[t], current) ::
        inc[t].to in visited || inc[t].to in added || Pruned(top, unnamed, inc[t].to)
    {
      var edge := inc[j];
      assert edge in edges;
      if edge.isSubtype && current == edge.to {
        continue;
      }
      var next := edge.to;
      found := found + {edge.constraint};
      if next !in visited {
        if next.Constant? {
          if next.value == top {
            continue;
          } else if next.value in unnamed {
            continue;
          }
        } else if next.missing {
          continue;
        }
        added := added + [next];
      }
    }
    forall e | e in edges && Admissible(e, current)
      ensures e.to in visited || e.to in added || Pruned(top, unnamed, e.to)
    {
      assert e in inc;
      var t :| 0 <= t < |inc| && inc[t] == e;
    }
    assert found == TakenAt(edges, current) by {
      forall c | c in TakenAt(edges, current) ensures c in found {
        var e :| e in edges && Admissible(e, current) && e.constraint == c;
        assert e in inc;
        var t :| 0 <= t < |inc| && inc[t] == e;
      }
      forall c | c in found ensures c in TakenAt(edges, current) {
        var t :| 0 <= t < |inc| && Admissible(inc[t], current) && inc[t].constraint == c;
        assert inc[t] in inc;
      }
    }
  }

  lemma SearchFrontierStep(edges: seq<Edge>, top: Qualifier, unnamed: set<Qualifier>, visited: set<Slot>,
                           current: Slot, rest: seq<Slot>, added: seq<Slot>)
    requires SearchFrontier(edges, top, unnamed, visited, [current] + rest)
    requires forall e | e in edges && Admissible(e, current) ::
      e.to in visited + {current} || e.to in added || Pruned(top, unnamed, e.to)
    ensures SearchFrontier(edges, top, unnamed, visited + {current}, rest + added)
  {
    forall e, v | e in edges && v in visited + {current} && Admissible(e, v)
      ensures e.to in visited + {current} || e.to in rest + added || Pruned(top, unnamed, e.to)
    {
      if v != current && e.to in [current] + rest && e.to != current {
        assert e.to in rest;
      }
    }
  }

  /** A visit order so far: no repeats, the start first, and every later
      vertex unpruned and entered from an earlier one. */
  ghost predicate OrderOk(edges: seq<Edge>, top: Qualifier, unnamed: set<Qualifier>, start: Slot, order: seq<Slot>) {
    && NoDup(order)
    && (order != [] ==> order[0] == start)
    && forall k :: 0 < k < |order| ==>
         !Pruned(top, unnamed, order[k]) && exists j :: 0 <= j < k && Enters(edges, order[j], order[k])
  }

  ghost predicate AllQueued(edges: seq<Edge>, top: Qualifier, unnamed: set<Qualifier>, start: Slot,
                            universe: set<Slot>, order: seq<Slot>, queue: seq<Slot>) {
    forall q | q in queue :: q in universe && Queued(edges, top, unnamed, start, order, q)
  }

  /** The state of `BFSSearch` between iterations. */
  ghost predicate SearchInv(edges: seq<Edge>, top: Qualifier, unnamed: set<Qualifier>, start: Slot, universe: set<Slot>,
                            order: seq<Slot>, visited: set<Slot>, queue: seq<Slot>, path: set<Constraint>) {
    && visited == Elems(order) && visited <= universe && Ends(edges) <= universe
    && OrderOk(edges, top, unnamed, start, order)
    && (order == [] ==> queue == [start])
    && AllQueued(edges, top, unnamed, start, universe, order, queue)
    && path == Collected(edges, visited)
    && SearchFrontier(edges, top, unnamed, visited, queue)
  }

  /** `BFSSearch(start)`.  The result is the set of constraints of the edges
      taken out of the reached vertices; the reached vertices are entered in
      order through taken edges, and only pruned vertices are left behind. */
  method ConstantSearch(edges: seq<Edge>, top: Qualifier, unnamed: set<Qualifier>, start: Slot)
    returns (path: set<Constraint>, ghost order: seq<Slot>)
    ensures SearchOrder(edges, top, unnamed, start, order)
    ensures SearchClosed(edges, top, unnamed, Elems(order))
    ensures path == Collected(edges, Elems(order))
    ensures TakenAt(edges, start) <= path <= EdgeConstraints(edges)
  {
    ghost var universe := Ends(edges) + {start};
    path := {};
    var queue := [start];
    var visited: set<Slot> := {};
    order := [];
    while queue != []
      invariant SearchInv(edges, top, unnamed, start, universe, order, visited, queue, path)
      decreases |universe - visited|, CountIn(queue, visited)
    {
      queue, visited, path, order := SearchStep(edges, top, unnamed, start, universe, order, visited, queue, path);
    }
  }

  /** One iteration of the `while` of `BFSSearch`: dequeue, mark visited,
      follow the edges. */
  method SearchStep(edges: seq<Edge>, top: Qualifier, unnamed: set<Qualifier>, start: Slot, ghost universe: set<Slot>,
                    ghost order: seq<Slot>, visited: set<Slot>, queue: seq<Slot>, path: set<Constraint>)
    returns (queue': seq<Slot>, visited': set<Slot>, path': set<Constraint>, ghost order': seq<Slot>)
    requires queue != [] && SearchInv(edges, top, unnamed, start, universe, order, visited, queue, path)
    ensures SearchInv(edges, top, unnamed, start, universe, order', visited', queue', path')
    ensures |universe - visited'| < |universe - visited|
      || (visited' == visited && CountIn(queue', visited') < CountIn(queue, visited))
  {
    var current := queue[0];
    ghost var rest := queue[1..];
    assert queue == [current] + rest;
    assert current in universe && Queued(edges, top, unnamed, start, order, current);
    queue' := queue[1..];
    order' := order;
    if current !in visited {
      order' := AppendVisit(edges, top, unnamed, start, order, current);
    }
    visited' := visited + {current};
    var found, added := Successors(edges, top, unnamed, current, visited');
    path' := path + found;
    queue' := queue' + added;
    assert path' == Collected(edges, visited') by { CollectedAdd(edges, visited, current); }
    assert SearchFrontier(edges, top, unnamed, visited', queue') by {
      SearchFrontierStep(edges, top, unnamed, visited, current, rest, added);
    }
    assert AllQueued(edges, top, unnamed, start, universe, order', queue') by {
      QueuedStep(edges, top, unnamed, start, universe, order, order', current, rest, added);
    }
    if current in visited {
      FewerVisitedEntries(visited, current, rest, added);
      assert visited' == visited;
    } else {
      FewerUnvisited(universe, visited, current);
    }
  }

  /** A dequeued vertex seen for the first time extends the visit order. */
  ghost function AppendVisit(edges: seq<Edge>, top: Qualifier, unnamed: set<Qualifier>, start: Slot,
                             order: seq<Slot>, current: Slot): (r: seq<Slot>)
    requires Queued(edges, top, unnamed, start, order, current) && current !in order
    requires OrderOk(edges, top, unnamed, start, order)
    ensures r == order + [current] && OrderOk(edges, top, unnamed, start, r) && r != []
  {
    var r := order + [current];
    assert forall k :: 0 <= k < |order| ==> r[k] == order[k];
    r
  }

  lemma QueuedStep(edges: seq<Edge>, top: Qualifier, unnamed: set<Qualifier>, start: Slot, universe: set<Slot>,
                   order: seq<Slot>, order2: seq<Slot>, current: Slot, rest: seq<Slot>, added: seq<Slot>)
    requires AllQueued(edges, top, unnamed, start, universe, order, [current] + rest)
    requires order == [] ==> [current] + rest == [start]
    requires order2 == order || order2 == order + [current]
    requires current in order2 && order2 != []
    requires Ends(edges) <= universe
    requires forall q | q in added :: q in Ends(edges) && !Pruned(top, unnamed, q) && Enters(edges, current, q)
    ensures AllQueued(edges, top, unnamed, start, universe, order2, rest + added)
  {
    var jc :| 0 <= jc < |order2| && order2[jc] == current;
    forall q | q in rest + added ensures q in universe && Queued(edges, top, unnamed, start, order2, q) {
      if q in rest {
        assert q in [current] + rest;
        assert order != [];
        var j :| 0 <= j < |order| && Enters(edges, order[j], q);
        assert order2[j] == order[j];
      } else {
        assert Enters(edges, order2[jc], q);
      }
    }
  }

  /** The reached vertices lie in every set that contains the start and is
      closed under the search's unpruned moves. */
  lemma {:induction false} SearchLeast(edges: seq<Edge>, top: Qualifier, unnamed: set<Qualifier>,
                                       start: Slot, order: seq<Slot>, s: set<Slot>, k: nat)
    requires SearchOrder(edges, top, unnamed, start, order) && k < |order|
    requires start in s
    requires forall e, v | e in edges && v in s && Admissible(e, v) && !Pruned(top, unnamed, e.to) :: e.to in s
    ensures order[k] in s
  {
    if k > 0 {
      var j :| 0 <= j < k && Enters(edges, order[j], order[k]);
      SearchLeast(edges, top, unnamed, start, order, s, j);
      var e :| e in edges && Admissible(e, order[j]) && e.to == order[k];
    }
  }

  /** Two runs of the search from the same vertex reach the same vertices
      and record the same constraints. */
  lemma SearchUnique(edges: seq<Edge>, top: Qualifier, unnamed: set<Qualifier>, start: Slot,
                     order1: seq<Slot>, order2: seq<Slot>)
    requires SearchOrder(edges, top, unnamed, start, order1) && SearchClosed(edges, top, unnamed, Elems(order1))
    requires SearchOrder(edges, top, unnamed, start, order2) && SearchClosed(edges, top, unnamed, Elems(order2))
    ensures Elems(order1) == Elems(order2)
    ensures Collected(edges, Elems(order1)) == Collected(edges, Elems(order2))
  {
    forall k | 0 <= k < |order1| ensures order1[k] in Elems(order2) {
      SearchLeast(edges, top, unnamed, start, order1, Elems(order2), k);
    }
    forall k | 0 <= k < |order2| ensures order2[k] in Elems(order1) {
      SearchLeast(edges, top, unnamed, start, order2, Elems(order1), k);
    }
  }
}
