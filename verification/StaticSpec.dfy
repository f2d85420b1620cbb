/** Static workflow specs of the DSL engine: validation, in-degrees, and ordered parent lists. */
module StaticSpecs {
  import opened Basics
  import opened Digraph
  import opened Kahn
  import opened DagRuns

  /** What a node does: call out (policy or agent), or run another stored workflow. */
  datatype NodeKind = Leaf(ref: Id) | SubWorkflow(wid: Id)

  datatype NodeDef = NodeDef(nodeId: Id, kind: NodeKind)

  /** A dict of child lists: keys in insertion order, and the list under each key. */
  datatype RawDict = RawDict(keys: seq<Id>, lists: map<Id, seq<Id>>)

  ghost predicate IsDict(d: RawDict) {
    NoDup(d.keys) && Elems(d.keys) == d.lists.Keys
  }

  type ChildDict = d: RawDict | IsDict(d) ghost witness RawDict([], map[])

  datatype Spec = Spec(nodes: seq<NodeDef>, graph: ChildDict)

  function Ids(nodes: seq<NodeDef>): (ids: seq<Id>)
    ensures |ids| == |nodes| && forall i :: 0 <= i < |ids| ==> ids[i] == nodes[i].nodeId
  {
    seq(|nodes|, i requires 0 <= i < |nodes| => nodes[i].nodeId)
  }

  ghost function NetOf(spec: Spec): Network {
    Network(Ids(spec.nodes), spec.graph.lists)
  }

  ghost function RelOf(spec: Spec): Rel {
    Edges(spec.graph.lists)
  }

  // ---------------------------------------------------------------- validation

  /** What the constructor accepts: distinct node ids, known endpoints, no self-loop. */
  ghost predicate Loadable(spec: Spec) {
    && NoDup(Ids(spec.nodes))
    && (forall p :: p in spec.graph.keys ==> p in Ids(spec.nodes))
    && forall p, c {:trigger c in Kids(spec.graph.lists, p)} :: c in Kids(spec.graph.lists, p) ==>
        c in Ids(spec.nodes) && c != p
  }

  lemma LoadableNet(spec: Spec)
    requires Loadable(spec)
    ensures WellFormed(NetOf(spec))
  {
    var g := NetOf(spec);
    forall u, v {:trigger v in Kids(g.succ, u)} | v in Kids(g.succ, u) ensures u in g.nodes && v in g.nodes {
      assert u in Elems(spec.graph.keys);
    }
  }

  method CheckChildren(parent: Id, children: seq<Id>, known: set<Id>) returns (e: Option<Error>)
    ensures e.None? <==> forall c :: c in children ==> c in known && c != parent
    ensures e == Some(SpecError) ==> exists c :: c in children && c !in known
    ensures e.Some? ==> e.value.SpecError? || (e.value == CycleError([parent]) && parent in children)
  {
    var j := 0;
    while j < |children|
      invariant 0 <= j <= |children|
      invariant forall k :: 0 <= k < j ==> children[k] in known && children[k] != parent
    {
      if children[j] !in known {
        return Some(SpecError);
      }
      if children[j] == parent {
        return Some(CycleError([parent]));
      }
      j := j + 1;
    }
    return None;
  }

  /** The constructor: `_load_and_validate_nodes`, then `_validate_static_graph`. */
  method LoadSpec(spec: Spec) returns (e: Option<Error>)
    ensures e.None? <==> Loadable(spec)
    ensures e == Some(SpecError) ==> !NoDup(Ids(spec.nodes)) || UnknownEndpoint(spec)
    ensures e.Some? ==> e.value.SpecError? || exists p :: e.value == CycleError([p]) && p in Kids(spec.graph.lists, p)
  {
    var known: set<Id> := {};
    var i := 0;
    ghost var ids := Ids(spec.nodes);
    while i < |spec.nodes|
      invariant 0 <= i <= |spec.nodes|
      invariant known == Elems(ids[..i]) && NoDup(ids[..i])
    {
      var id := spec.nodes[i].nodeId;
      assert ids[..i + 1] == ids[..i] + [id];
      if id in known {
        RepeatedId(ids, i);
        return Some(SpecError);
      }
      NoDupAppend(ids[..i], id);
      known := known + {id};
      i := i + 1;
    }
    assert ids[..i] == ids;
    i := 0;
    while i < |spec.graph.keys|
      invariant 0 <= i <= |spec.graph.keys|
      invariant forall k :: 0 <= k < i ==> KeyOk(spec, spec.graph.keys[k])
    {
      var parent := spec.graph.keys[i];
      assert parent in Elems(spec.graph.keys);
      if parent !in known {
        return Some(SpecError);
      }
      assert Kids(spec.graph.lists, parent) == spec.graph.lists[parent];
      e := CheckChildren(parent, spec.graph.lists[parent], known);
      if e.Some? {
        return;
      }
      assert KeyOk(spec, parent);
      i := i + 1;
    }
    AllKeysOk(spec);
    return None;
  }

  /** Some key or listed child is not a node. */
  ghost predicate UnknownEndpoint(spec: Spec) {
    || (exists p :: p in spec.graph.keys && p !in Ids(spec.nodes))
    || exists p, c {:trigger c in Kids(spec.graph.lists, p)} :: c in Kids(spec.graph.lists, p) && c !in Ids(spec.nodes)
  }

  ghost predicate KeyOk(spec: Spec, p: Id) {
    p in Ids(spec.nodes) && forall c :: c in Kids(spec.graph.lists, p) ==> c in Ids(spec.nodes) && c != p
  }

  lemma RepeatedId(ids: seq<Id>, i: nat)
    requires i < |ids| && ids[i] in ids[..i]
    ensures !NoDup(ids)
  {
    var k :| 0 <= k < i && ids[..i][k] == ids[i];
    assert ids[k] == ids[i];
  }

  lemma AllKeysOk(spec: Spec)
    requires NoDup(Ids(spec.nodes)) && forall k :: 0 <= k < |spec.graph.keys| ==> KeyOk(spec, spec.graph.keys[k])
    ensures Loadable(spec)
  {
    forall p, c {:trigger c in Kids(spec.graph.lists, p)} | c in Kids(spec.graph.lists, p)
      ensures c in Ids(spec.nodes) && c != p
    {
      assert p in Elems(spec.graph.keys);
      var k :| 0 <= k < |spec.graph.keys| && spec.graph.keys[k] == p;
      assert KeyOk(spec, spec.graph.keys[k]);
    }
  }

  // ---------------------------------------------------------------- in-degrees

  lemma {:induction false} LoadIgnoresChildless(succ: map<Id, seq<Id>>, a: set<Id>, b: set<Id>, v: Id)
    requires a <= b && forall u :: u in b - a ==> Kids(succ, u) == []
    ensures Load(succ, a, v) == Load(succ, b, v)
    decreases |b - a|
  {
    if b - a == {} {
      assert a == b;
    } else {
      var u :| u in b - a;
      LoadRemove(succ, b, u, v);
      assert (b - {u}) - a == (b - a) - {u};
      LoadIgnoresChildless(succ, a, b - {u}, v);
    }
  }

  lemma CountNext(children: seq<Id>, j: nat, v: Id)
    requires j < |children|
    ensures multiset(children[..j + 1])[v] == multiset(children[..j])[v] + (if v == children[j] then 1 else 0)
  {
    assert children[..j + 1] == children[..j] + [children[j]];
  }

  method CountChildren(inDegree: Degrees, children: seq<Id>) returns (inDegree': Degrees)
    requires forall c :: c in children ==> c in inDegree
    ensures inDegree'.Keys == inDegree.Keys
    ensures forall v :: v in inDegree ==> inDegree'[v] == inDegree[v] + multiset(children)[v]
  {
    inDegree' := inDegree;
    var j := 0;
    while j < |children|
      invariant 0 <= j <= |children|
      invariant inDegree'.Keys == inDegree.Keys
      invariant forall v :: v in inDegree ==> inDegree'[v] == inDegree[v] + multiset(children[..j])[v]
    {
      forall v
        ensures multiset(children[..j + 1])[v] == multiset(children[..j])[v] + (if v == children[j] then 1 else 0)
      {
        CountNext(children, j, v);
      }
      inDegree' := inDegree'[children[j] := inDegree'[children[j]] + 1];
      j := j + 1;
    }
    assert children[..j] == children;
  }

  lemma KidsInNodes(spec: Spec, p: Id)
    requires Loadable(spec) && p in spec.graph.lists
    ensures Kids(spec.graph.lists, p) == spec.graph.lists[p]
    ensures forall c :: c in spec.graph.lists[p] ==> c in Ids(spec.nodes)
  {
    assert forall c :: c in spec.graph.lists[p] ==> c in Kids(spec.graph.lists, p);
  }

  /** The table counts the edges out of the first `i` keys. */
  ghost predicate CountsKeys(inDegree: Degrees, spec: Spec, i: nat)
    requires i <= |spec.graph.keys|
  {
    forall v :: v in inDegree ==> inDegree[v] == Load(spec.graph.lists, Elems(spec.graph.keys[..i]), v)
  }

  lemma AllKeysCounted(inDegree: Degrees, spec: Spec)
    requires Loadable(spec) && CountsKeys(inDegree, spec, |spec.graph.keys|) && inDegree.Keys == Elems(Ids(spec.nodes))
    ensures inDegree == InDegrees(NetOf(spec))
  {
    assert spec.graph.keys[..|spec.graph.keys|] == spec.graph.keys;
    forall v | v in inDegree ensures inDegree[v] == InDegrees(NetOf(spec))[v] {
      LoadOverKeys(spec, v);
    }
  }

  /** The in-degree table of `_topological_sort`, counting repeated children. */
  method ComputeInDegrees(spec: Spec) returns (inDegree: Degrees)
    requires Loadable(spec)
    ensures inDegree == InDegrees(NetOf(spec))
  {
    ghost var g := NetOf(spec);
    inDegree := map v | v in Ids(spec.nodes) :: 0;
    var i := 0;
    while i < |spec.graph.keys|
      invariant 0 <= i <= |spec.graph.keys|
      invariant inDegree.Keys == Elems(g.nodes)
      invariant CountsKeys(inDegree, spec, i)
    {
      var p := spec.graph.keys[i];
      assert p in Elems(spec.graph.keys);
      KidsInNodes(spec, p);
      inDegree := CountChildren(inDegree, spec.graph.lists[p]);
      forall v | v in inDegree ensures inDegree[v] == Load(spec.graph.lists, Elems(spec.graph.keys[..i + 1]), v) {
        NextKey(spec, i, v);
      }
      i := i + 1;
    }
    AllKeysCounted(inDegree, spec);
  }

  lemma LoadOverKeys(spec: Spec, v: Id)
    requires Loadable(spec)
    ensures Load(spec.graph.lists, Elems(spec.graph.keys), v) == Load(spec.graph.lists, Elems(Ids(spec.nodes)), v)
  {
    LoadIgnoresChildless(spec.graph.lists, Elems(spec.graph.keys), Elems(Ids(spec.nodes)), v);
  }

  lemma NextKey(spec: Spec, i: nat, v: Id)
    requires i < |spec.graph.keys|
    ensures Load(spec.graph.lists, Elems(spec.graph.keys[..i + 1]), v)
         == Load(spec.graph.lists, Elems(spec.graph.keys[..i]), v) + Times(spec.graph.lists, spec.graph.keys[i], v)
  {
    var p := spec.graph.keys[i];
    assert spec.graph.keys[..i + 1] == spec.graph.keys[..i] + [p];
    assert p !in spec.graph.keys[..i];
    assert Elems(spec.graph.keys[..i + 1]) - {p} == Elems(spec.graph.keys[..i]);
    LoadRemove(spec.graph.lists, Elems(spec.graph.keys[..i + 1]), p, v);
  }

  /** The nodes whose in-degree never reached zero, in node order. */
  function Positives(nodes: seq<Id>, deg: Degrees): (r: seq<Id>)
    requires forall v :: v in nodes ==> v in deg
    ensures forall v :: v in r <==> v in nodes && deg[v] > 0
  {
    if nodes == [] then []
    else (if deg[nodes[0]] > 0 then [nodes[0]] else []) + Positives(nodes[1..], deg)
  }

  ghost function CycleIds(spec: Spec): seq<Id>
    requires Loadable(spec)
  {
    LoadableNet(spec);
    var g := NetOf(spec);
    CoversNodes(g);
    Positives(g.nodes, Run(g).0)
  }

  lemma CoversNodes(g: Network)
    requires WellFormed(g)
    ensures forall v :: v in g.nodes ==> v in Run(g).0
  {
    forall v | v in g.nodes ensures v in Run(g).0 {
      LeftoverExact(g, v);
    }
  }

  /** The ids named by the cycle error are exactly the nodes on a cycle or downstream of one. */
  lemma CycleIdsExact(spec: Spec, v: Id)
    requires Loadable(spec)
    ensures v in CycleIds(spec) <==> v in Ids(spec.nodes) && FedByCycle(RelOf(spec), v)
  {
    LoadableNet(spec);
    CoversNodes(NetOf(spec));
    if v in Ids(spec.nodes) {
      LeftoverExact(NetOf(spec), v);
    }
  }

  /** The nodes on a cycle or downstream of one, in the given order. */
  ghost function FedAmong(nodes: seq<Id>, r: Rel): seq<Id> {
    if nodes == [] then []
    else (if FedByCycle(r, nodes[0]) then [nodes[0]] else []) + FedAmong(nodes[1..], r)
  }

  lemma {:induction false} PositivesAreFed(g: Network, nodes: seq<Id>)
    requires WellFormed(g) && forall v :: v in nodes ==> v in g.nodes
    ensures forall v :: v in nodes ==> v in Run(g).0
    ensures Positives(nodes, Run(g).0) == FedAmong(nodes, Edges(g.succ))
  {
    CoversNodes(g);
    if nodes != [] {
      LeftoverExact(g, nodes[0]);
      PositivesAreFed(g, nodes[1..]);
    }
  }

  /** The cycle error names those nodes in node order, once each. */
  lemma CycleIdsInOrder(spec: Spec)
    requires Loadable(spec)
    ensures CycleIds(spec) == FedAmong(Ids(spec.nodes), RelOf(spec))
  {
    LoadableNet(spec);
    PositivesAreFed(NetOf(spec), Ids(spec.nodes));
  }

  /**
   `_topological_sort` succeeds exactly on acyclic graphs, with every edge pointing forward;
   otherwise it names the nodes fed by a cycle, of which there is at least one.
   */
  method TopologicalSort(spec: Spec) returns (r: Result<seq<Id>>)
    requires Loadable(spec)
    ensures r.Ok? <==> Acyclic(RelOf(spec))
    ensures r.Ok? ==> LoadedOrder(spec) == r.value && Topological(RelOf(spec), Elems(Ids(spec.nodes)), r.value)
    ensures r.Fail? ==> r.error == CycleError(CycleIds(spec))
    ensures r.Fail? ==> exists v :: v in CycleIds(spec)
  {
    LoadableNet(spec);
    ghost var g := NetOf(spec);
    var table := ComputeInDegrees(spec);
    var inDegree, order := RunQueue(Network(Ids(spec.nodes), spec.graph.lists), table);
    OrderCorrect(g);
    CoversNodes(g);
    if |order| != |spec.nodes| {
      EdgesOver(g);
      AcyclicIsUnfed(RelOf(spec), Elems(g.nodes));
      ghost var v :| v in Elems(g.nodes) && FedByCycle(RelOf(spec), v);
      CycleIdsExact(spec, v);
      return Fail(CycleError(Positives(Ids(spec.nodes), inDegree)));
    }
    return Ok(order);
  }

  ghost function LoadedOrder(spec: Spec): seq<Id>
    requires Loadable(spec)
  {
    LoadableNet(spec);
    Order(NetOf(spec))
  }

  // ---------------------------------------------------------------- parent lists

  function Repeat(x: Id, n: nat): (s: seq<Id>)
    ensures |s| == n && forall y :: y in s <==> y == x && n > 0
  {
    var s := seq(n, _ => x);
    assert n > 0 ==> s[0] == x;
    s
  }

  /** The parents of `v` in dict order, each as often as it lists `v` as a child. */
  ghost function ParentsOf(keys: seq<Id>, lists: map<Id, seq<Id>>, v: Id): seq<Id> {
    if keys == [] then []
    else
      var n := |keys| - 1;
      ParentsOf(keys[..n], lists, v) + Repeat(keys[n], Times(lists, keys[n], v))
  }

  ghost function Parents(spec: Spec, v: Id): seq<Id> {
    ParentsOf(spec.graph.keys, spec.graph.lists, v)
  }

  lemma {:induction false} ParentsOfMembers(keys: seq<Id>, lists: map<Id, seq<Id>>, v: Id, p: Id)
    ensures p in ParentsOf(keys, lists, v) <==> p in keys && v in Kids(lists, p)
  {
    if keys != [] {
      var n := |keys| - 1;
      assert keys == keys[..n] + [keys[n]];
      ParentsOfMembers(keys[..n], lists, v, p);
    }
  }

  lemma ParentsExact(spec: Spec, v: Id, p: Id)
    ensures p in Parents(spec, v) <==> Edge(RelOf(spec), p, v)
  {
    ParentsOfMembers(spec.graph.keys, spec.graph.lists, v, p);
    assert p in spec.graph.keys <==> p in Elems(spec.graph.keys);
  }

  lemma RepeatMore(x: Id, n: nat)
    ensures Repeat(x, n + 1) == Repeat(x, n) + [x]
  {
  }

  lemma NextParent(base: seq<Id>, before: seq<Id>, after: seq<Id>, parent: Id, children: seq<Id>, j: nat, v: Id)
    requires j < |children| && before == base + Repeat(parent, multiset(children[..j])[v])
    requires after == if v == children[j] then before + [parent] else before
    ensures after == base + Repeat(parent, multiset(children[..j + 1])[v])
  {
    CountNext(children, j, v);
    RepeatMore(parent, multiset(children[..j])[v]);
  }

  method AppendParent(parentMap: map<Id, seq<Id>>, parent: Id, children: seq<Id>) returns (out: map<Id, seq<Id>>)
    ensures forall v {:trigger Kids(out, v)} ::
      Kids(out, v) == Kids(parentMap, v) + Repeat(parent, multiset(children)[v])
  {
    out := parentMap;
    var j := 0;
    while j < |children|
      invariant 0 <= j <= |children|
      invariant forall v {:trigger Kids(out, v)} ::
        Kids(out, v) == Kids(parentMap, v) + Repeat(parent, multiset(children[..j])[v])
    {
      var c := children[j];
      ghost var was := out;
      out := out[c := Kids(out, c) + [parent]];
      forall v {:trigger Kids(out, v)}
        ensures Kids(out, v) == Kids(parentMap, v) + Repeat(parent, multiset(children[..j + 1])[v])
      {
        assert Kids(out, v) == if v == c then Kids(was, v) + [parent] else Kids(was, v);
        NextParent(Kids(parentMap, v), Kids(was, v), Kids(out, v), parent, children, j, v);
      }
      j := j + 1;
    }
    assert children[..j] == children;
  }

  lemma ParentsOfNext(keys: seq<Id>, lists: map<Id, seq<Id>>, i: nat, v: Id)
    requires i < |keys|
    ensures ParentsOf(keys[..i + 1], lists, v)
         == ParentsOf(keys[..i], lists, v) + Repeat(keys[i], Times(lists, keys[i], v))
  {
    assert keys[..i + 1][..i] == keys[..i];
  }

  /** `_build_parent_map` */
  method BuildParentMap(spec: Spec) returns (parentMap: map<Id, seq<Id>>)
    ensures forall v {:trigger Kids(parentMap, v)} :: Kids(parentMap, v) == Parents(spec, v)
  {
    parentMap := map[];
    var i := 0;
    while i < |spec.graph.keys|
      invariant 0 <= i <= |spec.graph.keys|
      invariant forall v {:trigger Kids(parentMap, v)} ::
        Kids(parentMap, v) == ParentsOf(spec.graph.keys[..i], spec.graph.lists, v)
    {
      var p := spec.graph.keys[i];
      assert p in Elems(spec.graph.keys);
      ghost var was := parentMap;
      parentMap := AppendParent(parentMap, p, spec.graph.lists[p]);
      forall v {:trigger Kids(parentMap, v)}
        ensures Kids(parentMap, v) == ParentsOf(spec.graph.keys[..i + 1], spec.graph.lists, v)
      {
        assert Kids(was, v) == ParentsOf(spec.graph.keys[..i], spec.graph.lists, v);
        ParentsOfNext(spec.graph.keys, spec.graph.lists, i, v);
      }
      i := i + 1;
    }
    assert spec.graph.keys[..i] == spec.graph.keys;
  }
}
