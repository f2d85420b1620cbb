/**
 The mutable DAG.  A Python set is represented by its elements in iteration order, which every
 mutation may change: `SetAdd` and `SetDiscard` promise the elements and leave the order open.
 A Python dict is a key sequence in insertion order together with a map.
 */
module WorkflowGraphs {
  import opened Basics
  import opened Digraph
  import opened Kahn
  import opened WorkflowStates

  datatype Module = Module(name: string, maxRetries: int, allowFailure: bool)

  datatype GraphOutcome = Ok | NodeExists | NoSuchNode | CycleIntroduced

  type SetMap = map<Id, seq<Id>>

  method SetAdd(s: seq<Id>, x: Id) returns (t: seq<Id>)
    requires NoDup(s)
    ensures NoDup(t)
    ensures forall y :: y in t <==> y in s || y == x
  {
    t := if x in s then s else s + [x];
  }

  method SetDiscard(s: seq<Id>, x: Id) returns (t: seq<Id>)
    requires NoDup(s)
    ensures NoDup(t)
    ensures forall y :: y in t <==> y in s && y != x
  {
    WithoutExact(s, x);
    t := Without(s, x);
  }

  /** `m[k].remove(x)` for each listed `k`; the precondition is that no `remove` raises KeyError. */
  method DropFromEach(m: SetMap, keys: seq<Id>, x: Id) returns (m': SetMap)
    requires IsSetMap(m) && NoDup(keys)
    requires forall k :: k in keys ==> k in m && x in m[k]
    ensures IsSetMap(m') && m'.Keys == m.Keys
    ensures forall u, y {:trigger y in Kids(m', u)} :: y in Kids(m', u) <==> y in Kids(m, u) && !(y == x && u in keys)
  {
    m' := m;
    var i := 0;
    while i < |keys|
      invariant 0 <= i <= |keys|
      invariant IsSetMap(m') && m'.Keys == m.Keys
      invariant forall u, y {:trigger y in Kids(m', u)} ::
        y in Kids(m', u) <==> y in Kids(m, u) && !(y == x && u in keys[..i])
    {
      var k := keys[i];
      assert keys[..i + 1] == keys[..i] + [k];
      assert x in Kids(m', k);
      assert NoDup(Kids(m', k));
      var s := SetDiscard(m'[k], x);
      UpdateSetMap(m', k, s);
      ghost var prev := m';
      m' := m'[k := s];
      forall u, y {:trigger y in Kids(m', u)}
        ensures y in Kids(m', u) <==> y in Kids(m, u) && !(y == x && u in keys[..i + 1])
      {
        assert y in Kids(prev, u) <==> y in Kids(m, u) && !(y == x && u in keys[..i]);
      }
      i := i + 1;
    }
    assert keys[..|keys|] == keys;
  }

  // ---------------------------------------------------------------- mirrored adjacency

  ghost predicate IsSetMap(m: SetMap) {
    forall u :: NoDup(Kids(m, u))
  }

  ghost predicate Mirror(adjacency: SetMap, reverse: SetMap) {
    forall u, v {:trigger v in Kids(adjacency, u)} {:trigger u in Kids(reverse, v)} ::
      v in Kids(adjacency, u) <==> u in Kids(reverse, v)
  }

  ghost predicate Coherent(nodes: seq<Id>, adjacency: SetMap, reverse: SetMap) {
    && WellFormed(Network(nodes, adjacency))
    && (forall v :: v in nodes ==> v in adjacency && v in reverse)
    && IsSetMap(adjacency) && IsSetMap(reverse)
    && Mirror(adjacency, reverse)
  }

  ghost function ParentSet(succ: SetMap, from: set<Id>, v: Id): set<Id> {
    set u | u in from && v in Kids(succ, u)
  }

  lemma {:induction false} LoadOfSets(succ: SetMap, from: set<Id>, v: Id)
    requires IsSetMap(succ)
    ensures Load(succ, from, v) == |ParentSet(succ, from, v)|
    decreases |from|
  {
    if from == {} {
    } else {
      var u := Pick(from);
      LoadOfSets(succ, from - {u}, v);
      OccursOnce(Kids(succ, u), v);
      if v in Kids(succ, u) {
        assert ParentSet(succ, from, v) == ParentSet(succ, from - {u}, v) + {u};
      } else {
        assert ParentSet(succ, from, v) == ParentSet(succ, from - {u}, v);
      }
    }
  }

  /** `len(reverse_adjacency[v])` is the in-degree of `v`. */
  lemma MirrorInDegree(nodes: seq<Id>, adjacency: SetMap, reverse: SetMap, v: Id)
    requires Coherent(nodes, adjacency, reverse)
    ensures |Kids(reverse, v)| == Load(adjacency, Elems(nodes), v)
  {
    LoadOfSets(adjacency, Elems(nodes), v);
    NoDupSize(Kids(reverse, v));
    assert ParentSet(adjacency, Elems(nodes), v) == Elems(Kids(reverse, v));
  }

  /** Writing `to` into (or out of) one child set and `from` into its mirror keeps the mirror exact. */
  lemma UpdateMirror(adjacency: SetMap, reverse: SetMap, from: Id, to: Id, out: seq<Id>, into: seq<Id>, present: bool)
    requires Mirror(adjacency, reverse)
    requires forall y :: y in out <==> if y == to then present else y in Kids(adjacency, from)
    requires forall y :: y in into <==> if y == from then present else y in Kids(reverse, to)
    ensures Mirror(adjacency[from := out], reverse[to := into])
  {
    var a, r := adjacency[from := out], reverse[to := into];
    forall u, v ensures v in Kids(a, u) <==> u in Kids(r, v) {
      assert v in Kids(adjacency, u) <==> u in Kids(reverse, v);
      assert Kids(a, u) == if u == from then out else Kids(adjacency, u);
      assert Kids(r, v) == if v == to then into else Kids(reverse, v);
    }
  }

  lemma UpdateSetMap(m: SetMap, k: Id, s: seq<Id>)
    requires IsSetMap(m) && NoDup(s)
    ensures IsSetMap(m[k := s])
  {
    var m' := m[k := s];
    forall u ensures NoDup(Kids(m', u)) {
      assert NoDup(Kids(m, u));
    }
  }

  lemma UpdateWellFormed(nodes: seq<Id>, adjacency: SetMap, from: Id, out: seq<Id>)
    requires WellFormed(Network(nodes, adjacency))
    requires forall y :: y in out ==> (y in nodes && from in nodes) || y in Kids(adjacency, from)
    ensures WellFormed(Network(nodes, adjacency[from := out]))
  {
    var g, g' := Network(nodes, adjacency), Network(nodes, adjacency[from := out]);
    forall u, v {:trigger v in Kids(g'.succ, u)} | v in Kids(g'.succ, u) ensures u in g'.nodes && v in g'.nodes {
      assert v in Kids(g.succ, u) || (u == from && v in out);
      assert Kids(g.succ, from) == Kids(adjacency, from);
    }
  }

  /** One write to a child set and its mirror: what `add_edge` and `remove_edge` each do. */
  lemma WriteCoherent(nodes: seq<Id>, adjacency: SetMap, reverse: SetMap, from: Id, to: Id, out: seq<Id>,
                      into: seq<Id>, present: bool)
    requires Coherent(nodes, adjacency, reverse)
    requires present ==> from in nodes && to in nodes
    requires NoDup(out) && forall y :: y in out <==> if y == to then present else y in Kids(adjacency, from)
    requires NoDup(into) && forall y :: y in into <==> if y == from then present else y in Kids(reverse, to)
    ensures Coherent(nodes, adjacency[from := out], reverse[to := into])
  {
    UpdateMirror(adjacency, reverse, from, to, out, into, present);
    UpdateSetMap(adjacency, from, out);
    UpdateSetMap(reverse, to, into);
    UpdateWellFormed(nodes, adjacency, from, out);
  }

  lemma Inserted(nodes: seq<Id>, adjacency: SetMap, reverse: SetMap, from: Id, to: Id, out: seq<Id>, into: seq<Id>)
    requires Coherent(nodes, adjacency, reverse) && from in nodes && to in nodes
    requires NoDup(out) && forall y :: y in out <==> y in Kids(adjacency, from) || y == to
    requires NoDup(into) && forall y :: y in into <==> y in Kids(reverse, to) || y == from
    ensures Coherent(nodes, adjacency[from := out], reverse[to := into])
    ensures Edges(adjacency[from := out]) == Edges(adjacency) + {(from, to)}
  {
    EdgesAfterAdd(adjacency, adjacency[from := out], from, to);
    WriteCoherent(nodes, adjacency, reverse, from, to, out, into, true);
  }

  lemma Discarded(nodes: seq<Id>, adjacency: SetMap, reverse: SetMap, from: Id, to: Id, out: seq<Id>, into: seq<Id>)
    requires Coherent(nodes, adjacency, reverse)
    requires NoDup(out) && forall y :: y in out <==> y in Kids(adjacency, from) && y != to
    requires NoDup(into) && forall y :: y in into <==> y in Kids(reverse, to) && y != from
    ensures Coherent(nodes, adjacency[from := out], reverse[to := into])
    ensures Edges(adjacency[from := out]) == Edges(adjacency) - {(from, to)}
  {
    EdgesAfterDiscard(adjacency, adjacency[from := out], from, to);
    WriteCoherent(nodes, adjacency, reverse, from, to, out, into, false);
  }

  /** Deleting a node together with its entries in both maps. */
  lemma NodeRemoved(nodes: seq<Id>, adjacency: SetMap, reverse: SetMap, id: Id, a: SetMap, r: SetMap)
    requires Coherent(nodes, adjacency, reverse)
    requires a.Keys == adjacency.Keys - {id} && r.Keys == reverse.Keys - {id}
    requires IsSetMap(a) && IsSetMap(r)
    requires forall u, v {:trigger v in Kids(a, u)} ::
      v in Kids(a, u) <==> v in Kids(adjacency, u) && u != id && v != id
    requires forall u, v {:trigger u in Kids(r, v)} :: u in Kids(r, v) <==> u in Kids(reverse, v) && u != id && v != id
    ensures Coherent(Without(nodes, id), a, r)
    ensures Edges(a) == set e | e in Edges(adjacency) && e.0 != id && e.1 != id
  {
    WithoutExact(nodes, id);
    forall u, v {:trigger v in Kids(a, u)} {:trigger u in Kids(r, v)} ensures v in Kids(a, u) <==> u in Kids(r, v) {
      assert v in Kids(adjacency, u) <==> u in Kids(reverse, v);
    }
    var g' := Network(Without(nodes, id), a);
    forall u, v {:trigger v in Kids(g'.succ, u)} | v in Kids(g'.succ, u) ensures u in g'.nodes && v in g'.nodes {
      assert v in Kids(Network(nodes, adjacency).succ, u);
    }
    var q := set e | e in Edges(adjacency) && e.0 != id && e.1 != id;
    forall u, v ensures Edge(Edges(a), u, v) <==> Edge(q, u, v) {
      assert Edge(Edges(adjacency), u, v) <==> v in Kids(adjacency, u);
      assert Edge(Edges(a), u, v) <==> v in Kids(a, u);
    }
    EdgeSetsEqual(Edges(a), q);
  }

  /** Rollback is exact because it only fires for an edge that was not there before. */
  lemma AddThenDiscard(r: Rel, from: Id, to: Id)
    requires Acyclic(r) && !Acyclic(r + {(from, to)})
    ensures (from, to) !in r
    ensures r + {(from, to)} - {(from, to)} == r
  {
    assert (from, to) in r ==> r + {(from, to)} == r;
  }

  /** The two removal loops of `remove_node`, then the deletion of the node's own entries. */
  method CutNode(nodes: seq<Id>, adjacency: SetMap, reverse: SetMap, id: Id) returns (a: SetMap, r: SetMap)
    requires Coherent(nodes, adjacency, reverse) && id in nodes && id !in Kids(adjacency, id)
    ensures a.Keys == adjacency.Keys - {id} && r.Keys == reverse.Keys - {id}
    ensures IsSetMap(a) && IsSetMap(r)
    ensures forall u, v {:trigger v in Kids(a, u)} :: v in Kids(a, u) <==> v in Kids(adjacency, u) && u != id && v != id
    ensures forall u, v {:trigger u in Kids(r, v)} :: u in Kids(r, v) <==> u in Kids(reverse, v) && u != id && v != id
  {
    var parents := Kids(reverse, id);
    forall p | p in parents ensures p in adjacency && id in adjacency[p] {
      assert id in Kids(adjacency, p);
    }
    var a1 := DropFromEach(adjacency, parents, id);
    var children := a1[id];
    forall c {:trigger c in children} ensures c in children <==> c in Kids(adjacency, id) {
      assert c in Kids(a1, id) <==> c in Kids(adjacency, id) && !(c == id && id in parents);
    }
    forall c | c in children ensures c in reverse && id in reverse[c] {
      assert c in Kids(adjacency, id);
      assert id in Kids(reverse, c);
    }
    assert NoDup(Kids(a1, id));
    var r1 := DropFromEach(reverse, children, id);
    a, r := a1 - {id}, r1 - {id};
    RemoveEntry(a1, id);
    RemoveEntry(r1, id);
    forall u, v {:trigger v in Kids(a, u)} ensures v in Kids(a, u) <==> v in Kids(adjacency, u) && u != id && v != id {
      assert v in Kids(a1, u) <==> v in Kids(adjacency, u) && !(v == id && u in parents);
      assert v in Kids(adjacency, u) <==> u in Kids(reverse, v);
    }
    forall u, v {:trigger u in Kids(r, v)} ensures u in Kids(r, v) <==> u in Kids(reverse, v) && u != id && v != id {
      assert u in Kids(r1, v) <==> u in Kids(reverse, v) && !(u == id && v in children);
      assert v in Kids(adjacency, u) <==> u in Kids(reverse, v);
    }
  }

  lemma RemoveEntry(m: SetMap, k: Id)
    requires IsSetMap(m)
    ensures IsSetMap(m - {k})
    ensures forall u {:trigger Kids(m - {k}, u)} :: Kids(m - {k}, u) == if u == k then [] else Kids(m, u)
  {
    var m' := m - {k};
    forall u {:trigger Kids(m', u)} ensures Kids(m', u) == (if u == k then [] else Kids(m, u)) && NoDup(Kids(m', u)) {
      assert NoDup(Kids(m, u));
    }
  }

  // ---------------------------------------------------------------- readiness

  predicate IsReady(reverse: SetMap, records: Records, v: Id) {
    && v in records && records[v].status == Pending
    && forall p :: p in Kids(reverse, v) ==> p in records && records[p].status == Completed
  }

  function ReadyAmong(candidates: seq<Id>, reverse: SetMap, records: Records): (r: seq<Id>)
    ensures forall v :: v in r <==> v in candidates && IsReady(reverse, records, v)
  {
    if candidates == [] then []
    else
      var n := |candidates| - 1;
      ReadyAmong(candidates[..n], reverse, records)
      + (if IsReady(reverse, records, candidates[n]) then [candidates[n]] else [])
  }

  ghost predicate AllKnown(nodes: seq<Id>, records: Records) {
    forall v :: v in nodes ==> v in records
  }

  ghost predicate AllCompleted(nodes: seq<Id>, records: Records) {
    forall v :: v in nodes ==> v in records && records[v].status == Completed
  }

  /** The inner `all(...)`: a parent that is not completed, or has no record, makes the node not ready. */
  method AllParentsCompleted(parents: seq<Id>, records: Records) returns (all: bool)
    ensures all <==> forall p :: p in parents ==> p in records && records[p].status == Completed
  {
    var i := 0;
    while i < |parents|
      invariant 0 <= i <= |parents|
      invariant forall k :: 0 <= k < i ==> parents[k] in records && records[parents[k]].status == Completed
    {
      if parents[i] !in records || records[parents[i]].status != Completed {
        return false;
      }
      i := i + 1;
    }
    return true;
  }

  method ScanReady(nodes: seq<Id>, reverse: SetMap, records: Records) returns (r: Option<seq<Id>>)
    ensures r.Some? <==> AllKnown(nodes, records)
    ensures r.Some? ==> r.value == ReadyAmong(nodes, reverse, records)
  {
    var ready: seq<Id> := [];
    var i := 0;
    while i < |nodes|
      invariant 0 <= i <= |nodes|
      invariant forall k :: 0 <= k < i ==> nodes[k] in records
      invariant ready == ReadyAmong(nodes[..i], reverse, records)
    {
      var v := nodes[i];
      assert nodes[..i + 1][..i] == nodes[..i];
      if v !in records {
        return None;
      }
      if records[v].status == Pending {
        var all := AllParentsCompleted(Kids(reverse, v), records);
        if all {
          ready := ready + [v];
        }
      }
      i := i + 1;
    }
    assert nodes[..i] == nodes;
    return Some(ready);
  }

  class WorkflowGraph {
    var nodes: seq<Id>
    var modules: map<Id, Module>
    var adjacency: SetMap
    var reverse: SetMap

    ghost function Net(): Network reads this {
      Network(nodes, adjacency)
    }

    ghost function EdgeSet(): Rel reads this {
      Edges(adjacency)
    }

    /**
     Forward and reverse adjacency mirror each other, and edges join existing nodes only.  The maps
     may hold extra empty entries: `remove_edge` creates them for ids that are not nodes.
     */
    ghost predicate Consistent() reads this {
      modules.Keys == Elems(nodes) && Coherent(nodes, adjacency, reverse)
    }

    ghost predicate Valid() reads this {
      Consistent() && Acyclic(EdgeSet())
    }

    constructor ()
      ensures Valid() && nodes == [] && modules == map[] && EdgeSet() == {}
    {
      nodes, modules, adjacency, reverse := [], map[], map[], map[];
      new;
      forall v ensures !Before(EdgeSet(), v, v) {
        if Before(EdgeSet(), v, v) {
          var p := LastParent(EdgeSet(), v, v);
        }
      }
    }

    method AddNode(id: Id, m: Module) returns (r: GraphOutcome)
      requires Valid()
      modifies this
      ensures Valid() && EdgeSet() == old(EdgeSet())
      ensures r == if id in old(nodes) then NodeExists else Ok
      ensures r.NodeExists? ==> nodes == old(nodes) && modules == old(modules)
      ensures r.Ok? ==> nodes == old(nodes) + [id] && modules == old(modules)[id := m]
    {
      if id in nodes {
        return NodeExists;
      }
      FreshNodeHasNoEdges(nodes, adjacency, reverse, id);
      nodes := nodes + [id];
      modules := modules[id := m];
      adjacency := adjacency[id := []];
      reverse := reverse[id := []];
      assert forall u :: Kids(adjacency, u) == Kids(old(adjacency), u);
      assert forall u :: Kids(reverse, u) == Kids(old(reverse), u);
      SameKids(old(adjacency), adjacency);
      return Ok;
    }

    method RemoveNode(id: Id) returns (r: GraphOutcome)
      requires Valid()
      modifies this
      ensures Valid()
      ensures r == if id in old(nodes) then Ok else NoSuchNode
      ensures r.NoSuchNode? ==> nodes == old(nodes) && modules == old(modules) && EdgeSet() == old(EdgeSet())
      ensures r.Ok? ==> nodes == Without(old(nodes), id) && modules == old(modules) - {id}
      ensures r.Ok? ==> EdgeSet() == set e | e in old(EdgeSet()) && e.0 != id && e.1 != id
    {
      if id !in nodes {
        return NoSuchNode;
      }
      assert id !in Kids(adjacency, id) by {
        if id in Kids(adjacency, id) { BeforeEdge(EdgeSet(), id, id); }
      }
      var a, rv := CutNode(nodes, adjacency, reverse, id);
      NodeRemoved(nodes, adjacency, reverse, id, a, rv);
      WithoutExact(nodes, id);
      nodes := Without(nodes, id);
      modules := modules - {id};
      adjacency := a;
      reverse := rv;
      AcyclicMono(EdgeSet(), old(EdgeSet()));
      return Ok;
    }

    /** `_has_cycle` is the negation of this method's success. */
    method GetTopologicalOrder() returns (r: Option<seq<Id>>)
      requires Consistent()
      ensures r.Some? <==> Acyclic(EdgeSet())
      ensures r.Some? ==> r.value == Order(Net()) && Topological(EdgeSet(), Elems(nodes), r.value)
    {
      ghost var g := Net();
      var inDegree: Degrees := map v | v in nodes :: |Kids(reverse, v)|;
      forall v | v in nodes ensures inDegree[v] == Load(adjacency, Elems(nodes), v) {
        MirrorInDegree(nodes, adjacency, reverse, v);
      }
      assert inDegree == InDegrees(g);
      var _, order := RunQueue(Network(nodes, adjacency), inDegree);
      OrderCorrect(g);
      if |order| != |nodes| {
        return None;
      }
      return Some(order);
    }

    /**
     Accepts exactly the edges between known nodes that keep the graph acyclic; whatever the
     outcome, the edge set afterwards is the old one plus the accepted edge.
     */
    method AddEdge(from: Id, to: Id) returns (r: GraphOutcome)
      requires Valid()
      modifies this`adjacency, this`reverse
      ensures Valid()
      ensures r == if from !in nodes || to !in nodes then NoSuchNode
                   else if Reaches(old(EdgeSet()), to, from) then CycleIntroduced else Ok
      ensures EdgeSet() == if r.Ok? then old(EdgeSet()) + {(from, to)} else old(EdgeSet())
    {
      if from !in nodes || to !in nodes {
        return NoSuchNode;
      }
      ghost var before := EdgeSet();
      var out := SetAdd(Kids(adjacency, from), to);
      var into := SetAdd(Kids(reverse, to), from);
      Inserted(nodes, adjacency, reverse, from, to, out, into);
      adjacency := adjacency[from := out];
      reverse := reverse[to := into];
      EdgeClosesCycle(before, from, to);
      var order := GetTopologicalOrder();
      if order.None? {
        out := SetDiscard(Kids(adjacency, from), to);
        into := SetDiscard(Kids(reverse, to), from);
        Discarded(nodes, adjacency, reverse, from, to, out, into);
        adjacency := adjacency[from := out];
        reverse := reverse[to := into];
        AddThenDiscard(before, from, to);
        return CycleIntroduced;
      }
      return Ok;
    }

    method RemoveEdge(from: Id, to: Id)
      requires Valid()
      modifies this`adjacency, this`reverse
      ensures Valid()
      ensures EdgeSet() == old(EdgeSet()) - {(from, to)}
    {
      var out := SetDiscard(Kids(adjacency, from), to);
      var into := SetDiscard(Kids(reverse, to), from);
      Discarded(nodes, adjacency, reverse, from, to, out, into);
      adjacency := adjacency[from := out];
      reverse := reverse[to := into];
      AcyclicMono(EdgeSet(), old(EdgeSet()));
    }

    /** Reads a copy of the parents; raises when the node is unknown. */
    method GetParents(id: Id) returns (r: Option<seq<Id>>)
      requires Consistent()
      ensures r.Some? <==> id in nodes
      ensures r.Some? ==> NoDup(r.value) && forall u :: u in r.value <==> Edge(EdgeSet(), u, id)
    {
      if id !in nodes {
        return None;
      }
      assert forall u :: u in Kids(reverse, id) <==> id in Kids(adjacency, u);
      return Some(Kids(reverse, id));
    }

    method GetChildren(id: Id) returns (r: Option<seq<Id>>)
      requires Consistent()
      ensures r.Some? <==> id in nodes
      ensures r.Some? ==> NoDup(r.value) && forall v :: v in r.value <==> Edge(EdgeSet(), id, v)
    {
      if id !in nodes {
        return None;
      }
      assert NoDup(Kids(adjacency, id));
      return Some(Kids(adjacency, id));
    }

    /** Raises (None) exactly when some node has no record; otherwise lists the ready nodes in dict order. */
    method GetReadyNodes(state: WorkflowState) returns (r: Option<seq<Id>>)
      requires Consistent()
      ensures r.Some? <==> AllKnown(nodes, state.nodes)
      ensures r.Some? ==> r.value == ReadyAmong(nodes, reverse, state.nodes)
    {
      r := ScanReady(nodes, reverse, state.nodes);
    }

    /** `all(...)` stops at the first node that is not completed, and raises (None) on a node it cannot find. */
    method IsComplete(state: WorkflowState) returns (r: Option<bool>)
      requires Consistent()
      ensures r == Some(true) <==> AllCompleted(nodes, state.nodes)
      ensures AllKnown(nodes, state.nodes) ==> r.Some?
    {
      var i := 0;
      while i < |nodes|
        invariant 0 <= i <= |nodes|
        invariant forall k :: 0 <= k < i ==> nodes[k] in state.nodes && state.nodes[nodes[k]].status == Completed
      {
        var v := nodes[i];
        if v !in state.nodes {
          return None;
        }
        if state.nodes[v].status != Completed {
          return Some(false);
        }
        i := i + 1;
      }
      return Some(true);
    }
  }

  // ---------------------------------------------------------------- edge-set lemmas

  lemma EdgeSetsEqual(r: Rel, q: Rel)
    requires forall u, v {:trigger Edge(r, u, v)} :: Edge(r, u, v) <==> Edge(q, u, v)
    ensures r == q
  {
    forall e ensures e in r <==> e in q {
      assert Edge(r, e.0, e.1) <==> Edge(q, e.0, e.1);
    }
  }

  lemma SameKids(a: SetMap, b: SetMap)
    requires forall u :: Kids(a, u) == Kids(b, u)
    ensures Edges(a) == Edges(b)
  {
    EdgeSetsEqual(Edges(a), Edges(b));
  }

  lemma FreshNodeHasNoEdges(nodes: seq<Id>, adjacency: SetMap, reverse: SetMap, id: Id)
    requires Coherent(nodes, adjacency, reverse) && id !in nodes
    ensures Kids(adjacency, id) == [] && Kids(reverse, id) == []
  {
    assert forall v :: v in Kids(adjacency, id) ==> id in nodes;
    assert forall u :: u in Kids(reverse, id) ==> id in Kids(adjacency, u);
    NoMembers(Kids(adjacency, id));
    NoMembers(Kids(reverse, id));
  }

  lemma EdgesAfterAdd(a: SetMap, b: SetMap, from: Id, to: Id)
    requires forall u :: u != from ==> Kids(b, u) == Kids(a, u)
    requires forall v :: v in Kids(b, from) <==> v in Kids(a, from) || v == to
    ensures Edges(b) == Edges(a) + {(from, to)}
  {
    var r := Edges(a) + {(from, to)};
    forall u, v ensures Edge(Edges(b), u, v) <==> Edge(r, u, v) {
      assert Edge(Edges(a), u, v) <==> v in Kids(a, u);
      assert Edge(Edges(b), u, v) <==> v in Kids(b, u);
    }
    EdgeSetsEqual(Edges(b), r);
  }

  lemma EdgesAfterDiscard(a: SetMap, b: SetMap, from: Id, to: Id)
    requires forall u :: u != from ==> Kids(b, u) == Kids(a, u)
    requires forall v :: v in Kids(b, from) <==> v in Kids(a, from) && v != to
    ensures Edges(b) == Edges(a) - {(from, to)}
  {
    var r := Edges(a) - {(from, to)};
    forall u, v ensures Edge(Edges(b), u, v) <==> Edge(r, u, v) {
      assert Edge(Edges(a), u, v) <==> v in Kids(a, u);
      assert Edge(Edges(b), u, v) <==> v in Kids(b, u);
    }
    EdgeSetsEqual(Edges(b), r);
  }
}
