/** Plans, their validation, and building a graph from one. */
module Plans {
  import opened Basics
  import opened Digraph
  import opened WorkflowGraphs
  import opened Merging

  /** Converter source: absent, refused by the compiler or without a callable `convert`, or a function. */
  datatype ConverterCode = NoCode | Rejected | Compiles(fn: Converter)

  datatype NodeDef = NodeDef(id: Id, moduleName: string, input: Value)

  /** `text` is the converter text, if the edge has the key; `code` is what compiling it gives. */
  datatype EdgeDef = EdgeDef(from: Id, to: Id, text: Option<string>, code: ConverterCode)
  datatype Plan = Plan(nodes: seq<NodeDef>, edges: seq<EdgeDef>)

  type Registry = map<string, Module>

  function PlanIds(nodes: seq<NodeDef>): (ids: seq<Id>)
    ensures |ids| == |nodes| && forall i :: 0 <= i < |ids| ==> ids[i] == nodes[i].id
  {
    seq(|nodes|, i requires 0 <= i < |nodes| => nodes[i].id)
  }

  ghost function PlanEdges(edges: seq<EdgeDef>): Rel {
    set e | e in edges :: (e.from, e.to)
  }

  /** The converter table after the listed edges: a later edge overrides, one without code does not. */
  function ConvertersOf(edges: seq<EdgeDef>): Converters {
    if edges == [] then map[]
    else
      var n := |edges| - 1;
      var e := edges[n];
      var rest := ConvertersOf(edges[..n]);
      if e.code.Compiles? then rest[(e.from, e.to) := e.code.fn] else rest
  }

  ghost predicate ModulesKnown(plan: Plan, registry: Registry) {
    forall i :: 0 <= i < |plan.nodes| ==> plan.nodes[i].moduleName in registry
  }

  ghost predicate EndpointsKnown(plan: Plan) {
    forall i :: 0 <= i < |plan.edges| ==>
      plan.edges[i].from in PlanIds(plan.nodes) && plan.edges[i].to in PlanIds(plan.nodes)
  }

  ghost predicate NoRejected(plan: Plan) {
    forall i :: 0 <= i < |plan.edges| ==> !plan.edges[i].code.Rejected?
  }

  predicate Contains(text: string, part: string) {
    exists i | 0 <= i <= |text| :: part <= text[i..]
  }

  lemma ContainsExactly(text: string, part: string)
    ensures Contains(text, part) <==> exists a, b :: text == a + part + b
  {
    if Contains(text, part) {
      var i :| 0 <= i <= |text| && part <= text[i..];
      assert text == text[..i] + part + text[i + |part|..];
    }
    if a, b :| text == a + part + b {
      assert part <= text[|a|..];
    }
  }

  /** An edge that brings converter text must bring one that mentions `def convert`. */
  ghost predicate TextFits(e: EdgeDef) {
    e.text.Some? ==> exists a, b :: e.text.value == a + "def convert" + b
  }

  /** What `_validate_plan` guarantees. */
  ghost predicate ValidPlan(plan: Plan, registry: Registry) {
    && ModulesKnown(plan, registry) && EndpointsKnown(plan)
    && forall i :: 0 <= i < |plan.edges| ==> TextFits(plan.edges[i])
  }

  method ValidatePlan(plan: Plan, registry: Registry) returns (ok: bool)
    ensures ok <==> ValidPlan(plan, registry)
  {
    var nodeIds: set<Id> := {};
    var i := 0;
    while i < |plan.nodes|
      invariant 0 <= i <= |plan.nodes|
      invariant forall k :: 0 <= k < i ==> plan.nodes[k].moduleName in registry
      invariant forall v :: v in nodeIds <==> v in PlanIds(plan.nodes)[..i]
    {
      if plan.nodes[i].moduleName !in registry {
        return false;
      }
      assert PlanIds(plan.nodes)[..i + 1] == PlanIds(plan.nodes)[..i] + [plan.nodes[i].id];
      nodeIds := nodeIds + {plan.nodes[i].id};
      i := i + 1;
    }
    assert PlanIds(plan.nodes)[..i] == PlanIds(plan.nodes);
    i := 0;
    while i < |plan.edges|
      invariant 0 <= i <= |plan.edges|
      invariant forall k :: 0 <= k < i ==> plan.edges[k].from in nodeIds && plan.edges[k].to in nodeIds
      invariant forall k :: 0 <= k < i ==> TextFits(plan.edges[k])
    {
      if plan.edges[i].from !in nodeIds || plan.edges[i].to !in nodeIds {
        return false;
      }
      if plan.edges[i].text.Some? {
        ContainsExactly(plan.edges[i].text.value, "def convert");
        if !Contains(plan.edges[i].text.value, "def convert") {
          return false;
        }
      }
      i := i + 1;
    }
    return true;
  }

  lemma PlanEdgesSnoc(edges: seq<EdgeDef>, e: EdgeDef)
    ensures PlanEdges(edges + [e]) == PlanEdges(edges) + {(e.from, e.to)}
  {
    assert forall x :: x in edges + [e] <==> x in edges || x == e;
  }

  lemma PlanEdgesMono(edges: seq<EdgeDef>, i: nat)
    requires i <= |edges|
    ensures PlanEdges(edges[..i]) <= PlanEdges(edges)
  {
    assert forall x :: x in edges[..i] ==> x in edges;
  }

  /** The next edge extends the prefix, and keeps it acyclic unless its head already reaches its tail. */
  lemma NextEdge(edges: seq<EdgeDef>, i: nat)
    requires i < |edges| && Acyclic(PlanEdges(edges[..i]))
    ensures PlanEdges(edges[..i + 1]) == PlanEdges(edges[..i]) + {(edges[i].from, edges[i].to)}
    ensures Acyclic(PlanEdges(edges[..i + 1])) <==> !Reaches(PlanEdges(edges[..i]), edges[i].to, edges[i].from)
  {
    assert edges[..i + 1] == edges[..i] + [edges[i]];
    PlanEdgesSnoc(edges[..i], edges[i]);
    EdgeClosesCycle(PlanEdges(edges[..i]), edges[i].from, edges[i].to);
  }

  // ---------------------------------------------------------------- building

  /** When `_build_graph_from_plan` returns a graph rather than raising. */
  ghost predicate Buildable(plan: Plan, registry: Registry) {
    && ModulesKnown(plan, registry) && EndpointsKnown(plan)
    && NoDup(PlanIds(plan.nodes))
    && NoRejected(plan)
    && Acyclic(PlanEdges(plan.edges))
  }

  /**
   The order in which a plan lists its edges decides neither whether it builds nor which edges it
   gets.  Which converters it gets is another matter: see `ConverterOrderFree`.
   */
  lemma EdgeOrderIrrelevant(p: Plan, q: Plan, registry: Registry)
    requires p.nodes == q.nodes && multiset(p.edges) == multiset(q.edges)
    ensures PlanEdges(p.edges) == PlanEdges(q.edges)
    ensures Buildable(p, registry) <==> Buildable(q, registry)
  {
    forall e ensures e in p.edges <==> e in q.edges {
      assert e in p.edges <==> e in multiset(p.edges);
      assert e in q.edges <==> e in multiset(q.edges);
    }
    SameListing(p, q);
    SameListing(q, p);
  }

  lemma SameListing(p: Plan, q: Plan)
    requires p.nodes == q.nodes && forall e :: e in q.edges ==> e in p.edges
    ensures EndpointsKnown(p) ==> EndpointsKnown(q)
    ensures NoRejected(p) ==> NoRejected(q)
  {
    forall i | 0 <= i < |q.edges| ensures exists k :: 0 <= k < |p.edges| && p.edges[k] == q.edges[i] {
      assert q.edges[i] in p.edges;
    }
  }

  ghost function ModulesOf(nodes: seq<NodeDef>, registry: Registry): map<Id, Module>
    requires forall i :: 0 <= i < |nodes| ==> nodes[i].moduleName in registry
  {
    if nodes == [] then map[]
    else
      var n := |nodes| - 1;
      ModulesOf(nodes[..n], registry)[nodes[n].id := registry[nodes[n].moduleName]]
  }

  function InputsOf(nodes: seq<NodeDef>): map<Id, Value> {
    if nodes == [] then map[]
    else
      var n := |nodes| - 1;
      InputsOf(nodes[..n])[nodes[n].id := nodes[n].input]
  }

  /** With distinct ids the built tables give every node definition its own input and module. */
  lemma {:induction false} TablesExact(nodes: seq<NodeDef>, registry: Registry, i: nat)
    requires NoDup(PlanIds(nodes)) && i < |nodes|
    requires forall k :: 0 <= k < |nodes| ==> nodes[k].moduleName in registry
    ensures nodes[i].id in InputsOf(nodes) && InputsOf(nodes)[nodes[i].id] == nodes[i].input
    ensures nodes[i].id in ModulesOf(nodes, registry)
    ensures ModulesOf(nodes, registry)[nodes[i].id] == registry[nodes[i].moduleName]
  {
    var n := |nodes| - 1;
    if i < n {
      var front := nodes[..n];
      assert NoDup(PlanIds(front)) by {
        assert forall k :: 0 <= k < n ==> PlanIds(front)[k] == PlanIds(nodes)[k];
      }
      TablesExact(front, registry, i);
      assert PlanIds(nodes)[i] != PlanIds(nodes)[n];
    }
  }

  /** Edge `i` has its own converter unless a later edge between the same nodes brings another. */
  lemma {:induction false} ConverterOfEdge(edges: seq<EdgeDef>, i: nat)
    requires i < |edges| && edges[i].code.Compiles?
    requires forall j :: i < j < |edges| ==>
      !(edges[j].code.Compiles? && edges[j].from == edges[i].from && edges[j].to == edges[i].to)
    ensures (edges[i].from, edges[i].to) in ConvertersOf(edges)
    ensures ConvertersOf(edges)[(edges[i].from, edges[i].to)] == edges[i].code.fn
  {
    var n := |edges| - 1;
    if i < n {
      ConverterOfEdge(edges[..n], i);
    }
  }

  /** An edge none of whose listings compiles a converter has none. */
  lemma {:induction false} NoConverter(edges: seq<EdgeDef>, from: Id, to: Id)
    requires forall i :: 0 <= i < |edges| ==> !(edges[i].code.Compiles? && edges[i].from == from && edges[i].to == to)
    ensures (from, to) !in ConvertersOf(edges)
  {
    if edges == [] {
    } else {
      NoConverter(edges[..|edges| - 1], from, to);
    }
  }

  /** Listing `i` brings a converter for the edge `k`. */
  ghost predicate Brings(edges: seq<EdgeDef>, i: int, k: (Id, Id)) {
    0 <= i < |edges| && edges[i].code.Compiles? && (edges[i].from, edges[i].to) == k
  }

  /** An edge has a converter exactly if a listing of it brings one, and then it is one of those. */
  lemma {:induction false} ConverterFromListing(edges: seq<EdgeDef>, k: (Id, Id))
    ensures k in ConvertersOf(edges) <==> exists i :: Brings(edges, i, k)
    ensures k in ConvertersOf(edges) ==> exists i :: Brings(edges, i, k) && edges[i].code.fn == ConvertersOf(edges)[k]
  {
    if edges != [] {
      var n := |edges| - 1;
      var front := edges[..n];
      ConverterFromListing(front, k);
      assert forall i :: 0 <= i < n ==> (Brings(front, i, k) <==> Brings(edges, i, k));
      if Brings(edges, n, k) {
      } else if k in ConvertersOf(front) {
        var i :| Brings(front, i, k) && front[i].code.fn == ConvertersOf(front)[k];
        assert Brings(edges, i, k);
      }
    }
  }

  /** Listings of one edge never bring different converters. */
  ghost predicate ConvertersAgree(edges: seq<EdgeDef>) {
    forall i, j, k :: Brings(edges, i, k) && Brings(edges, j, k) ==> edges[i].code.fn == edges[j].code.fn
  }

  /** Listing the same edges in any other order gives the same converters. */
  ghost predicate OrderFree(edges: seq<EdgeDef>) {
    forall other :: multiset(other) == multiset(edges) ==> ConvertersOf(other) == ConvertersOf(edges)
  }

  lemma Relisted(edges: seq<EdgeDef>, other: seq<EdgeDef>, i: int, k: (Id, Id)) returns (j: int)
    requires multiset(other) == multiset(edges) && Brings(edges, i, k)
    ensures Brings(other, j, k) && other[j] == edges[i]
  {
    assert edges[i] in multiset(edges);
    assert edges[i] in other;
    j :| 0 <= j < |other| && other[j] == edges[i];
  }

  lemma AgreeingTables(edges: seq<EdgeDef>, other: seq<EdgeDef>)
    requires multiset(other) == multiset(edges) && ConvertersAgree(edges)
    ensures ConvertersOf(other) == ConvertersOf(edges)
  {
    forall k ensures k in ConvertersOf(other) <==> k in ConvertersOf(edges) {
      SameKey(edges, other, k);
      SameKey(other, edges, k);
    }
    assert ConvertersOf(other).Keys == ConvertersOf(edges).Keys;
    forall k | k in ConvertersOf(edges) ensures ConvertersOf(other)[k] == ConvertersOf(edges)[k] {
      ConverterFromListing(edges, k);
      ConverterFromListing(other, k);
      var i :| Brings(edges, i, k) && edges[i].code.fn == ConvertersOf(edges)[k];
      var j :| Brings(other, j, k) && other[j].code.fn == ConvertersOf(other)[k];
      var m := Relisted(other, edges, j, k);
    }
  }

  lemma SameKey(edges: seq<EdgeDef>, other: seq<EdgeDef>, k: (Id, Id))
    requires multiset(other) == multiset(edges)
    ensures k in ConvertersOf(edges) ==> k in ConvertersOf(other)
  {
    ConverterFromListing(edges, k);
    ConverterFromListing(other, k);
    if i :| Brings(edges, i, k) {
      var j := Relisted(edges, other, i, k);
    }
  }

  /** The same listings with listing `i` moved to the end, where its converter wins. */
  lemma MovedLast(edges: seq<EdgeDef>, i: int, k: (Id, Id)) returns (other: seq<EdgeDef>)
    requires Brings(edges, i, k)
    ensures multiset(other) == multiset(edges)
    ensures k in ConvertersOf(other) && ConvertersOf(other)[k] == edges[i].code.fn
  {
    var rest := edges[..i] + edges[i + 1..];
    other := rest + [edges[i]];
    assert edges == edges[..i] + [edges[i]] + edges[i + 1..];
    assert other[..|other| - 1] == rest;
  }

  /** The listing order cannot change the converters exactly when listings of one edge bring the same one. */
  lemma ConverterOrderFree(edges: seq<EdgeDef>)
    ensures OrderFree(edges) <==> ConvertersAgree(edges)
  {
    if ConvertersAgree(edges) {
      forall other | multiset(other) == multiset(edges) ensures ConvertersOf(other) == ConvertersOf(edges) {
        AgreeingTables(edges, other);
      }
    } else {
      var i, j, k :| Brings(edges, i, k) && Brings(edges, j, k) && edges[i].code.fn != edges[j].code.fn;
      var one := MovedLast(edges, i, k);
      var two := MovedLast(edges, j, k);
      assert ConvertersOf(one) != ConvertersOf(two);
    }
  }

  /** One edge listed twice with different converters: the listing order decides which one it gets. */
  lemma LaterListingWins(from: Id, to: Id, text: string, f: Converter, g: Converter)
    requires f != g
    ensures var one, two := EdgeDef(from, to, Some(text), Compiles(f)), EdgeDef(from, to, Some(text), Compiles(g));
      && multiset([one, two]) == multiset([two, one])
      && ConvertersOf([one, two]) == map[(from, to) := g] && ConvertersOf([two, one]) == map[(from, to) := f]
      && ConvertersOf([one, two]) != ConvertersOf([two, one])
  {
    var one, two := EdgeDef(from, to, Some(text), Compiles(f)), EdgeDef(from, to, Some(text), Compiles(g));
    assert [one, two][..1] == [one] && [two, one][..1] == [two];
    assert ConvertersOf([one]) == map[(from, to) := f] && ConvertersOf([two]) == map[(from, to) := g];
    assert ConvertersOf([one, two])[(from, to)] == g;
    assert ConvertersOf([two, one])[(from, to)] == f;
  }

  method BuildNodes(plan: Plan, registry: Registry, graph: WorkflowGraph) returns (ok: bool, inputs: map<Id, Value>)
    requires graph.Valid() && graph.nodes == [] && graph.EdgeSet() == {} && graph.modules == map[]
    modifies graph
    ensures graph.Valid() && graph.EdgeSet() == {}
    ensures ok <==> ModulesKnown(plan, registry) && NoDup(PlanIds(plan.nodes))
    ensures ok ==> graph.nodes == PlanIds(plan.nodes) && inputs == InputsOf(plan.nodes)
    ensures ok ==> graph.modules == ModulesOf(plan.nodes, registry)
  {
    inputs := map[];
    var i := 0;
    while i < |plan.nodes|
      invariant 0 <= i <= |plan.nodes|
      invariant graph.Valid() && graph.EdgeSet() == {}
      invariant forall k :: 0 <= k < i ==> plan.nodes[k].moduleName in registry
      invariant graph.nodes == PlanIds(plan.nodes)[..i] && NoDup(graph.nodes)
      invariant inputs == InputsOf(plan.nodes[..i])
      invariant graph.modules == ModulesOf(plan.nodes[..i], registry)
    {
      var def := plan.nodes[i];
      assert plan.nodes[..i + 1][..i] == plan.nodes[..i];
      if def.moduleName !in registry {
        return false, map[];
      }
      ghost var ids := PlanIds(plan.nodes);
      var r := graph.AddNode(def.id, registry[def.moduleName]);
      if r.NodeExists? {
        ghost var k :| 0 <= k < i && ids[..i][k] == def.id;
        assert ids[k] == ids[i];
        return false, map[];
      }
      assert ids[..i + 1] == ids[..i] + [def.id];
      inputs := inputs[def.id := def.input];
      i := i + 1;
    }
    assert plan.nodes[..i] == plan.nodes;
    return true, inputs;
  }

  ghost predicate EdgeFits(plan: Plan, e: EdgeDef) {
    e.from in PlanIds(plan.nodes) && e.to in PlanIds(plan.nodes) && !e.code.Rejected?
  }

  ghost predicate EdgesFit(plan: Plan, i: nat)
    requires i <= |plan.edges|
  {
    forall k {:trigger EdgeFits(plan, plan.edges[k])} :: 0 <= k < i ==> EdgeFits(plan, plan.edges[k])
  }

  lemma AllEdgesFit(plan: Plan)
    ensures EdgesFit(plan, |plan.edges|) <==> EndpointsKnown(plan) && NoRejected(plan)
  {
    if EdgesFit(plan, |plan.edges|) {
      forall k | 0 <= k < |plan.edges|
        ensures plan.edges[k].from in PlanIds(plan.nodes) && plan.edges[k].to in PlanIds(plan.nodes)
        ensures !plan.edges[k].code.Rejected?
      {
        assert EdgeFits(plan, plan.edges[k]);
      }
    }
  }

  /** Adding the edges one by one fails exactly when some prefix of them would close a cycle. */
  lemma NextConverter(edges: seq<EdgeDef>, i: nat)
    requires i < |edges|
    ensures var table, e := ConvertersOf(edges[..i]), edges[i];
      ConvertersOf(edges[..i + 1]) == if e.code.Compiles? then table[(e.from, e.to) := e.code.fn] else table
  {
    assert edges[..i + 1][..i] == edges[..i];
  }

  method BuildEdges(plan: Plan, graph: WorkflowGraph) returns (ok: bool, converters: Converters)
    requires graph.Valid() && graph.nodes == PlanIds(plan.nodes) && graph.EdgeSet() == {}
    modifies graph`adjacency, graph`reverse
    ensures graph.Valid()
    ensures ok <==> EdgesFit(plan, |plan.edges|) && Acyclic(PlanEdges(plan.edges))
    ensures ok ==> graph.EdgeSet() == PlanEdges(plan.edges) && converters == ConvertersOf(plan.edges)
  {
    converters := map[];
    var i := 0;
    while i < |plan.edges|
      invariant 0 <= i <= |plan.edges|
      invariant graph.Valid() && graph.EdgeSet() == PlanEdges(plan.edges[..i])
      invariant EdgesFit(plan, i)
      invariant converters == ConvertersOf(plan.edges[..i])
    {
      ok, converters := AddPlanEdge(plan, i, graph, converters);
      if !ok {
        PrefixDecides(plan, i);
        return false, map[];
      }
      i := i + 1;
    }
    assert plan.edges[..i] == plan.edges;
    return true, converters;
  }

  /** An edge that does not fit, or closes a cycle with the edges before it, spoils the whole plan. */
  lemma PrefixDecides(plan: Plan, i: nat)
    requires i < |plan.edges|
    ensures EdgesFit(plan, |plan.edges|) && Acyclic(PlanEdges(plan.edges)) ==>
      EdgeFits(plan, plan.edges[i]) && Acyclic(PlanEdges(plan.edges[..i + 1]))
  {
    if EdgesFit(plan, |plan.edges|) && Acyclic(PlanEdges(plan.edges)) {
      assert EdgeFits(plan, plan.edges[i]);
      PlanEdgesMono(plan.edges, i + 1);
      AcyclicMono(PlanEdges(plan.edges[..i + 1]), PlanEdges(plan.edges));
    }
  }

  /** The body of the edge loop: add edge `i` to the graph and its converter, if it brings one, to the table. */
  method AddPlanEdge(plan: Plan, i: nat, graph: WorkflowGraph, before: Converters)
    returns (ok: bool, converters: Converters)
    requires graph.Valid() && graph.nodes == PlanIds(plan.nodes) && i < |plan.edges|
    requires graph.EdgeSet() == PlanEdges(plan.edges[..i]) && before == ConvertersOf(plan.edges[..i])
    modifies graph`adjacency, graph`reverse
    ensures graph.Valid()
    ensures ok <==> EdgeFits(plan, plan.edges[i]) && Acyclic(PlanEdges(plan.edges[..i + 1]))
    ensures ok ==> graph.EdgeSet() == PlanEdges(plan.edges[..i + 1])
    ensures ok ==> converters == ConvertersOf(plan.edges[..i + 1])
  {
    var e := plan.edges[i];
    converters := before;
    NextEdge(plan.edges, i);
    NextConverter(plan.edges, i);
    var r := graph.AddEdge(e.from, e.to);
    if !r.Ok? || e.code.Rejected? {
      return false, converters;
    }
    if e.code.Compiles? {
      converters := converters[(e.from, e.to) := e.code.fn];
    }
    return true, converters;
  }

  /**
   A plan builds exactly when it is valid, its ids are distinct, its converters compile and its
   whole edge set is acyclic, in whatever order it lists the edges; the graph then has exactly the
   plan's nodes and edges.
   */
  method BuildGraph(plan: Plan, registry: Registry)
    returns (ok: bool, graph: WorkflowGraph, inputs: map<Id, Value>, converters: Converters)
    ensures fresh(graph) && graph.Valid()
    ensures ok <==> Buildable(plan, registry)
    ensures ok ==> graph.nodes == PlanIds(plan.nodes) && graph.EdgeSet() == PlanEdges(plan.edges)
    ensures ok ==> graph.modules == ModulesOf(plan.nodes, registry)
    ensures ok ==> inputs == InputsOf(plan.nodes) && converters == ConvertersOf(plan.edges)
  {
    graph := new WorkflowGraph();
    converters := map[];
    ok, inputs := BuildNodes(plan, registry, graph);
    if ok {
      AllEdgesFit(plan);
      ok, converters := BuildEdges(plan, graph);
    }
  }
}
