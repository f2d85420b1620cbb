/**
 Static execution of a workflow spec, and of workflows nested through a library.  The methods are
 the engine's loops; `Meaning` and `RunnerAt` are the denotation they are proved equal to.
 */
module StaticRuns {
  import opened Basics
  import opened Digraph
  import opened Kahn
  import opened DagRuns
  import opened StaticSpecs

  /** What running a node definition on an input gives. */
  type Runner = (NodeDef, Value) -> Result<Value>

  function Lookup(nodes: seq<NodeDef>, v: Id): (d: NodeDef)
    requires v in Ids(nodes)
    ensures d in nodes && d.nodeId == v
  {
    if nodes[0].nodeId == v then nodes[0]
    else
      assert v in Ids(nodes[1..]) by {
        var i :| 0 <= i < |nodes| && Ids(nodes)[i] == v;
        assert Ids(nodes[1..])[i - 1] == v;
      }
      Lookup(nodes[1..], v)
  }

  ghost function DagOf(spec: Spec): Dag {
    Dag(Elems(Ids(spec.nodes)), RelOf(spec), map v | v in Ids(spec.nodes) :: Parents(spec, v))
  }

  lemma DagOfSpec(spec: Spec)
    requires Loadable(spec) && Acyclic(RelOf(spec))
    ensures IsDag(DagOf(spec))
  {
    LoadableNet(spec);
    EdgesOver(NetOf(spec));
    var g := DagOf(spec);
    forall v, p {:trigger Edge(g.edges, p, v)} {:trigger p in g.parents[v]} | v in g.nodes
      ensures p in g.parents[v] <==> Edge(g.edges, p, v)
    {
      ParentsExact(spec, v, p);
    }
  }

  ghost function StepOf(nodes: seq<NodeDef>, run: Runner): Step {
    (v, x) => if v in Ids(nodes) then run(Lookup(nodes, v), x) else Fail(SpecError)
  }

  lemma OrderInside(spec: Spec)
    requires Loadable(spec)
    ensures forall v :: v in LoadedOrder(spec) ==> v in DagOf(spec).nodes
  {
    LoadableNet(spec);
    OrderShape(NetOf(spec));
    assert forall v :: v in LoadedOrder(spec) ==> v in Elems(LoadedOrder(spec));
  }

  /** What `execute` returns or raises, for any deterministic way of running nodes. */
  ghost function Meaning(spec: Spec, input: Value, run: Runner): Result<map<Id, Value>>
    requires Loadable(spec)
  {
    if !input.Dict? || spec.nodes == [] then Fail(SpecError)
    else if !Acyclic(RelOf(spec)) then Fail(CycleError(CycleIds(spec)))
    else
      DagOfSpec(spec);
      OrderInside(spec);
      match FirstFailure(DagOf(spec), LoadedOrder(spec), input, StepOf(spec.nodes, run))
      case Some(e) => Fail(e)
      case None => Ok(AllMeanings(DagOf(spec), input, StepOf(spec.nodes, run)))
  }

  /** A successful run returns the unique solution of the dataflow equations; if there is one, the run succeeds. */
  lemma MeaningIsUniqueSolution(spec: Spec, out: map<Id, Value>, input: Value, run: Runner)
    requires Loadable(spec) && Acyclic(RelOf(spec)) && input.Dict? && spec.nodes != []
    ensures Meaning(spec, input, run) == Ok(out) <==> IsSolution(DagOf(spec), out, input, StepOf(spec.nodes, run))
  {
    DagOfSpec(spec);
    OrderInside(spec);
    LoadableNet(spec);
    OrderCorrect(NetOf(spec));
    NoFailureIsFaithful(DagOf(spec), LoadedOrder(spec), input, StepOf(spec.nodes, run));
    SolutionIsAll(DagOf(spec), out, input, StepOf(spec.nodes, run));
  }

  // ---------------------------------------------------------------- nested workflows

  type LeafFn = (NodeDef, Value) -> Attempt
  type Library = map<Id, Spec>
  type Ranks = map<Id, nat>

  /** The stored workflows, ranks witnessing that the references followed are well-founded, and the leaves. */
  datatype Env = Env(lib: Library, rank: Ranks, leaf: LeafFn)

  /** `_run_node` on a leaf: an exception names the node, None becomes an empty dict. */
  function LeafOutcome(id: Id, r: Attempt): Result<Value> {
    match r
    case Threw => Fail(NodeError(id))
    case Returned(v) => Ok(OutputOf(v))
  }

  /** A sub-workflow's spec error escapes as it is; any other error is blamed on the workflow node. */
  function SubOutcome(id: Id, r: Result<map<Id, Value>>): Result<Value> {
    match r
    case Ok(outputs) => Ok(Dict(outputs))
    case Fail(e) => Fail(if e.SpecError? then SpecError else NodeError(id))
  }

  ghost predicate RefBelow(d: NodeDef, env: Env, n: nat) {
    d.kind.SubWorkflow? && d.kind.wid in env.lib && Loadable(env.lib[d.kind.wid]) ==>
      d.kind.wid in env.rank && env.rank[d.kind.wid] < n
  }

  ghost predicate RefsBelow(nodes: seq<NodeDef>, env: Env, n: nat) {
    forall d {:trigger RefBelow(d, env, n)} :: d in nodes ==> RefBelow(d, env, n)
  }

  /**
   Every ranked workflow refers only to stored workflows of smaller rank.  Workflows without a rank,
   circular ones among them, may be stored too: what is executed never reaches them.
   */
  ghost predicate WellFounded(env: Env) {
    forall w {:trigger env.lib[w]} :: w in env.lib && w in env.rank ==> RefsBelow(env.lib[w].nodes, env, env.rank[w])
  }

  /**
   How nodes of a workflow of rank `n` run: a leaf answers; a workflow node means the whole output
   map of its sub-workflow on the wrapped input, whose own nodes run at the sub-workflow's rank.
   */
  ghost function RunnerAt(env: Env, n: nat): Runner
    decreases n
  {
    (d: NodeDef, x: Value) =>
      match d.kind
      case Leaf(_) => LeafOutcome(d.nodeId, env.leaf(d, x))
      case SubWorkflow(w) =>
        if w !in env.lib || !Loadable(env.lib[w]) || w !in env.rank || env.rank[w] >= n then Fail(NodeError(d.nodeId))
        else SubOutcome(d.nodeId, Meaning(env.lib[w], Wrap(x), RunnerAt(env, env.rank[w])))
  }

  /** A leaf means its own answer, or an empty dict when it answers None; its exception names the node. */
  lemma LeafMeaning(env: Env, n: nat, d: NodeDef, x: Value)
    requires d.kind.Leaf?
    ensures forall v :: v != Null && env.leaf(d, x) == Returned(v) ==> RunnerAt(env, n)(d, x) == Ok(v)
    ensures env.leaf(d, x) == Returned(Null) ==> RunnerAt(env, n)(d, x) == Ok(Dict(map[]))
    ensures env.leaf(d, x) == Threw ==> RunnerAt(env, n)(d, x) == Fail(NodeError(d.nodeId))
  {
    assert RunnerAt(env, n)(d, x) == LeafOutcome(d.nodeId, env.leaf(d, x));
  }

  /** The input of a sub-workflow: a dict as it is, anything else under the key "data". */
  ghost predicate IsWrapped(x: Value, y: Value) {
    if x.Dict? then y == x else y == Dict(map[Id("data") := x])
  }

  /** What the sub-workflow of a workflow node means on the wrapped input. */
  ghost function SubMeaning(env: Env, w: Id, y: Value): Result<map<Id, Value>>
    requires w in env.lib && Loadable(env.lib[w]) && w in env.rank
  {
    Meaning(env.lib[w], y, RunnerAt(env, env.rank[w]))
  }

  /**
   A workflow node gives the whole output map of its sub-workflow exactly when that succeeds.  A spec
   error of the sub-workflow escapes; any other, and a missing or refused sub-workflow, names the node.
   */
  lemma SubWorkflowMeaning(env: Env, n: nat, d: NodeDef, x: Value, y: Value)
    requires d.kind.SubWorkflow? && RefBelow(d, env, n) && IsWrapped(x, y)
    ensures var w, r := d.kind.wid, RunnerAt(env, n)(d, x);
      if w !in env.lib || !Loadable(env.lib[w]) then r == Fail(NodeError(d.nodeId))
      else
        && (forall v :: r == Ok(v) <==> v.Dict? && SubMeaning(env, w, y) == Ok(v.entries))
        && (r == Fail(SpecError) <==> SubMeaning(env, w, y) == Fail(SpecError))
        && (SubMeaning(env, w, y).Fail? && SubMeaning(env, w, y).error != SpecError ==> r == Fail(NodeError(d.nodeId)))
  {
    var w := d.kind.wid;
    if w in env.lib && Loadable(env.lib[w]) {
      assert Wrap(x) == y;
      assert RunnerAt(env, n)(d, x) == SubOutcome(d.nodeId, SubMeaning(env, w, y));
    }
  }

  // ---------------------------------------------------------------- the rank does not matter

  lemma StepsAgree(nodes: seq<NodeDef>, one: Runner, two: Runner, v: Id, x: Value)
    requires forall d, y :: d in nodes ==> one(d, y) == two(d, y)
    ensures StepOf(nodes, one)(v, x) == StepOf(nodes, two)(v, x)
  {
    if v in Ids(nodes) {
      var d := Lookup(nodes, v);
      assert one(d, x) == two(d, x);
    }
  }

  lemma StepsEqual(nodes: seq<NodeDef>, one: Runner, two: Runner)
    requires forall d, x :: d in nodes ==> one(d, x) == two(d, x)
    ensures forall v, x :: StepOf(nodes, one)(v, x) == StepOf(nodes, two)(v, x)
  {
    forall v, x ensures StepOf(nodes, one)(v, x) == StepOf(nodes, two)(v, x) {
      StepsAgree(nodes, one, two, v, x);
    }
  }

  lemma MeaningExtensional(spec: Spec, input: Value, one: Runner, two: Runner)
    requires Loadable(spec) && forall d, x :: d in spec.nodes ==> one(d, x) == two(d, x)
    ensures Meaning(spec, input, one) == Meaning(spec, input, two)
  {
    if Acyclic(RelOf(spec)) {
      DagOfSpec(spec);
      OrderInside(spec);
      StepsEqual(spec.nodes, one, two);
      RunExtensional(DagOf(spec), LoadedOrder(spec), input, StepOf(spec.nodes, one), StepOf(spec.nodes, two));
    }
  }

  /** Any two rankings that show the references well-founded give the same meaning. */
  lemma {:induction false} RankingIrrelevant(a: Env, b: Env, m: nat, n: nat, d: NodeDef, x: Value)
    requires a.lib == b.lib && a.leaf == b.leaf && WellFounded(a) && WellFounded(b)
    requires RefBelow(d, a, m) && RefBelow(d, b, n)
    ensures RunnerAt(a, m)(d, x) == RunnerAt(b, n)(d, x)
    decreases m
  {
    if d.kind.SubWorkflow? && d.kind.wid in a.lib && Loadable(a.lib[d.kind.wid]) {
      var w := d.kind.wid;
      forall e, y | e in a.lib[w].nodes
        ensures RunnerAt(a, a.rank[w])(e, y) == RunnerAt(b, b.rank[w])(e, y)
      {
        assert RefBelow(e, a, a.rank[w]) && RefBelow(e, b, b.rank[w]);
        RankingIrrelevant(a, b, a.rank[w], b.rank[w], e, y);
      }
      MeaningExtensional(a.lib[w], Wrap(x), RunnerAt(a, a.rank[w]), RunnerAt(b, b.rank[w]));
    }
  }

  // ---------------------------------------------------------------- the engine

  /** `_resolve_static_input`: initial input, single output, or the list of outputs; never with one missing. */
  function ResolveInput(id: Id, parents: seq<Id>, outputs: map<Id, Value>, input: Value): (r: Result<Value>)
    ensures r.Fail? <==> exists p :: p in parents && p !in outputs
    ensures parents == [] ==> r == Ok(input)
    ensures r.Ok? && |parents| == 1 ==> r.value == outputs[parents[0]]
    ensures r.Ok? && |parents| > 1 ==> r.value.List? && |r.value.items| == |parents|
    ensures r.Ok? && |parents| > 1 ==> forall i :: 0 <= i < |parents| ==> r.value.items[i] == outputs[parents[i]]
  {
    if exists p :: p in parents && p !in outputs then Fail(OutputsMissing(id))
    else Ok(Resolve(Gather(parents, outputs), input))
  }

  /** `_run_node` with the node dispatch; a workflow node loads and executes its sub-workflow. */
  method RunNode(d: NodeDef, x: Value, lib: Library, leaf: LeafFn, ghost env: Env, ghost n: nat)
    returns (r: Result<Value>)
    requires env.lib == lib && env.leaf == leaf && WellFounded(env) && RefBelow(d, env, n)
    ensures r == RunnerAt(env, n)(d, x)
    decreases n, 0
  {
    match d.kind
    case Leaf(_) =>
      return LeafOutcome(d.nodeId, leaf(d, x));
    case SubWorkflow(w) =>
      if w !in lib {
        return Fail(NodeError(d.nodeId));
      }
      var refused := LoadSpec(lib[w]);
      if refused.Some? {
        return Fail(NodeError(d.nodeId));
      }
      var sub := ExecuteStatic(lib[w], Wrap(x), lib, leaf, env, env.rank[w]);
      return SubOutcome(d.nodeId, sub);
  }

  /**
   `execute` in static mode.  It terminates whenever the references it can follow are well-founded,
   however deeply workflows nest, and returns or raises exactly what the denotation says.
   */
  method ExecuteStatic(spec: Spec, input: Value, lib: Library, leaf: LeafFn, ghost env: Env, ghost n: nat)
    returns (r: Result<map<Id, Value>>)
    requires env.lib == lib && env.leaf == leaf && WellFounded(env)
    requires Loadable(spec) && RefsBelow(spec.nodes, env, n)
    ensures r == Meaning(spec, input, RunnerAt(env, n))
    ensures r.Fail? ==> !r.error.OutputsMissing?
    decreases n, 2
  {
    NothingMissing(spec, input, env, n);
    if !input.Dict? || spec.nodes == [] {
      return Fail(SpecError);
    }
    var sorted := TopologicalSort(spec);
    if sorted.Fail? {
      return Fail(sorted.error);
    }
    var parentMap := BuildParentMap(spec);
    LoopIsMeaning(spec, input, RunnerAt(env, n));
    r := RunInOrder(spec, sorted.value, parentMap, input, lib, leaf, env, n);
  }

  /** No error of a nested run is the "outputs not yet available" error. */
  lemma NothingMissing(spec: Spec, input: Value, env: Env, n: nat)
    requires Loadable(spec)
    ensures var r := Meaning(spec, input, RunnerAt(env, n)); r.Fail? ==> !r.error.OutputsMissing?
  {
    var run := RunnerAt(env, n);
    var step := StepOf(spec.nodes, run);
    forall v, x | step(v, x).Fail? ensures !step(v, x).error.OutputsMissing? {
      if v in Ids(spec.nodes) {
        RunnerErrors(env, n, Lookup(spec.nodes, v), x);
      }
    }
    if input.Dict? && spec.nodes != [] && Acyclic(RelOf(spec)) {
      DagOfSpec(spec);
      OrderInside(spec);
      FailureFromStep(DagOf(spec), LoadedOrder(spec), input, step);
    }
  }

  lemma RunnerErrors(env: Env, n: nat, d: NodeDef, x: Value)
    ensures RunnerAt(env, n)(d, x).Fail? ==> !RunnerAt(env, n)(d, x).error.OutputsMissing?
  {
    match d.kind
    case Leaf(_) =>
      assert RunnerAt(env, n)(d, x) == LeafOutcome(d.nodeId, env.leaf(d, x));
    case SubWorkflow(w) =>
      if w in env.lib && Loadable(env.lib[w]) && w in env.rank && env.rank[w] < n {
        var r := Meaning(env.lib[w], Wrap(x), RunnerAt(env, env.rank[w]));
        assert RunnerAt(env, n)(d, x) == SubOutcome(d.nodeId, r);
      }
  }

  /**
   Along the sorted order the loop returns or raises what the denotation says, and an error it
   raises comes from running a node: the loop itself never finds an output missing.
   */
  lemma LoopIsMeaning(spec: Spec, input: Value, run: Runner)
    requires Loadable(spec) && Acyclic(RelOf(spec)) && input.Dict? && spec.nodes != []
    ensures forall v :: v in LoadedOrder(spec) ==> v in DagOf(spec).parents
    ensures Along(DagOf(spec), LoadedOrder(spec), map[], input, StepOf(spec.nodes, run)) == Meaning(spec, input, run)
    ensures var r := Along(DagOf(spec), LoadedOrder(spec), map[], input, StepOf(spec.nodes, run));
      r.Fail? ==> RaisedByStep(r.error, DagOf(spec), StepOf(spec.nodes, run))
  {
    var order := LoadedOrder(spec);
    DagOfSpec(spec);
    OrderInside(spec);
    LoadableNet(spec);
    OrderCorrect(NetOf(spec));
    assert order[0..] == order && order[..0] == [];
    AlongIsMeaning(DagOf(spec), order, 0, map[], input, StepOf(spec.nodes, run));
    OutputsAreThere(DagOf(spec), order, input, StepOf(spec.nodes, run));
  }

  method RunInOrder(spec: Spec, order: seq<Id>, parentMap: map<Id, seq<Id>>, input: Value, lib: Library, leaf: LeafFn,
                    ghost env: Env, ghost n: nat) returns (r: Result<map<Id, Value>>)
    requires env.lib == lib && env.leaf == leaf && WellFounded(env) && RefsBelow(spec.nodes, env, n)
    requires forall v {:trigger Kids(parentMap, v)} :: Kids(parentMap, v) == Parents(spec, v)
    requires forall v :: v in order ==> v in DagOf(spec).parents
    ensures r == Along(DagOf(spec), order, map[], input, StepOf(spec.nodes, RunnerAt(env, n)))
    decreases n, 1
  {
    ghost var g, step := DagOf(spec), StepOf(spec.nodes, RunnerAt(env, n));
    var outputs: map<Id, Value> := map[];
    var i := 0;
    while i < |order|
      invariant 0 <= i <= |order|
      invariant Along(g, order[i..], outputs, input, step) == Along(g, order, map[], input, step)
    {
      var v := order[i];
      assert order[i..][0] == v && order[i..][1..] == order[i + 1..];
      assert Kids(parentMap, v) == g.parents[v];
      var nodeInput := ResolveInput(v, Kids(parentMap, v), outputs, input);
      if nodeInput.Fail? {
        return Fail(nodeInput.error);
      }
      var d := Lookup(spec.nodes, v);
      assert RefBelow(d, env, n);
      var result := RunNode(d, nodeInput.value, lib, leaf, env, n);
      assert result == step(v, nodeInput.value);
      if result.Fail? {
        return Fail(result.error);
      }
      outputs := outputs[v := result.value];
      i := i + 1;
    }
    return Ok(outputs);
  }
}
