/** The dataflow equations a run leaves behind, and why their solution is unique. */
module Dataflow {
  import opened Basics
  import opened Digraph
  import opened WorkflowStates
  import opened WorkflowGraphs
  import opened ModuleRuns
  import opened Merging

  /** The input of `v` is what merging its completed parents, in some order, produced. */
  ghost predicate InputFrom(v: Id, parents: set<Id>, given: Value, records: Records, converters: Converters,
                            input: Value)
  {
    && (forall p :: p in parents ==> p in records && records[p].status == Completed)
    && exists order :: NoDup(order) && Elems(order) == parents
                       && Prepare(order, v, given, records, converters) == Input(input)
  }

  /** Merging the completed parents of `v` in some order raises. */
  ghost predicate InputFails(v: Id, parents: set<Id>, given: Value, records: Records, converters: Converters) {
    && (forall p :: p in parents ==> p in records && records[p].status == Completed)
    && exists order :: NoDup(order) && Elems(order) == parents
                       && Prepare(order, v, given, records, converters) == Raises
  }

  /** The output of `v` is the first good answer of its module on that input. */
  ghost predicate OutputFrom(v: Id, m: Module, world: World, record: NodeRecord) {
    && record.output.Some? && record.output.value.Dict?
    && CanSucceed(m, v, record.input, world)
    && exists k: nat :: FirstGood(v, record.input, world, k) && record.output.value == world(v, k, record.input).v
  }

  /**
   `v` has run, on an input merged from its completed parents: it is completed with its module's
   first good answer, or failed because the module has none within its allowed attempts.
   */
  ghost predicate Settled(v: Id, parents: set<Id>, given: Value, records: Records, converters: Converters,
                          m: Module, world: World)
  {
    && v in records
    && InputFrom(v, parents, given, records, converters, records[v].input)
    && match records[v].status
       case Completed => OutputFrom(v, m, world, records[v])
       case Failed => !CanSucceed(m, v, records[v].input, world)
       case _ => false
  }

  lemma InputFromFrame(v: Id, parents: set<Id>, given: Value, before: Records, after: Records,
                       converters: Converters, input: Value)
    requires InputFrom(v, parents, given, before, converters, input)
    requires forall p :: p in parents ==> p in after && after[p] == before[p]
    ensures InputFrom(v, parents, given, after, converters, input)
  {
    var order :| NoDup(order) && Elems(order) == parents
                 && Prepare(order, v, given, before, converters) == Input(input);
    assert forall p :: p in order ==> p in Elems(order);
    MergeReads(order, v, before, after, converters);
  }

  // ---------------------------------------------------------------- uniqueness

  lemma SameOutput(v: Id, m: Module, world: World, one: NodeRecord, two: NodeRecord)
    requires OutputFrom(v, m, world, one) && OutputFrom(v, m, world, two) && one.input == two.input
    ensures one.output == two.output
  {
    var j: nat :| FirstGood(v, one.input, world, j) && one.output.value == world(v, j, one.input).v;
    var k: nat :| FirstGood(v, two.input, world, k) && two.output.value == world(v, k, two.input).v;
    assert j == k;
  }

  lemma SharesCarryOver(parents: set<Id>, v: Id, one: Records, two: Records, converters: Converters)
    requires SharesAgree(parents, v, one, converters)
    requires forall p :: p in parents ==> p in two && two[p].output == one[p].output
    ensures SharesAgree(parents, v, two, converters)
    ensures forall p :: p in parents ==> HasDict(p, v, one, converters) && HasDict(p, v, two, converters)
    ensures forall p :: p in parents ==> Share(p, v, one, converters) == Share(p, v, two, converters)
  {
    assert forall p :: p in parents ==> HasDict(p, v, one, converters) && HasDict(p, v, two, converters);
    assert forall p :: p in parents ==> Share(p, v, one, converters) == Share(p, v, two, converters);
  }

  lemma MergedAsUnion(v: Id, parents: set<Id>, given: Value, records: Records, converters: Converters, input: Value)
    requires InputFrom(v, parents, given, records, converters, input) && parents != {}
    requires SharesAgree(parents, v, records, converters)
    ensures input.Dict? && IsUnion(input.entries, parents, v, records, converters)
  {
    var order :| NoDup(order) && Elems(order) == parents
                 && Prepare(order, v, given, records, converters) == Input(input);
    MergeIsUnion(order, v, records, converters);
  }

  /** Equal parent outputs with agreeing contributions give equal inputs, whatever the two orders were. */
  lemma SameInput(v: Id, parents: set<Id>, given: Value, one: Records, two: Records, converters: Converters,
                  i: Value, j: Value)
    requires InputFrom(v, parents, given, one, converters, i) && InputFrom(v, parents, given, two, converters, j)
    requires SharesAgree(parents, v, one, converters)
    requires forall p :: p in parents ==> two[p].output == one[p].output
    ensures i == j
  {
    if parents == {} {
      var a :| NoDup(a) && Elems(a) == parents && Prepare(a, v, given, one, converters) == Input(i);
      var b :| NoDup(b) && Elems(b) == parents && Prepare(b, v, given, two, converters) == Input(j);
      EmptyElems(a);
      EmptyElems(b);
    } else {
      SharesCarryOver(parents, v, one, two, converters);
      MergedAsUnion(v, parents, given, one, converters, i);
      MergedAsUnion(v, parents, given, two, converters, j);
      UnionsEqual(i.entries, j.entries, parents, v, one, two, converters);
    }
  }

  lemma EmptyElems(s: seq<Id>)
    requires Elems(s) == {}
    ensures s == []
  {
    assert forall x :: x in s <==> x in Elems(s);
    NoMembers(s);
  }

  ghost function ParentIds(r: Rel, nodes: seq<Id>, id: Id): set<Id> {
    set p | p in nodes && Edge(r, p, id)
  }

  /** What a run that began with `start` may have made of node `v`. */
  ghost predicate NodeProgress(v: Id, nodes: seq<Id>, r: Rel, start: Records, records: Records, converters: Converters,
                               modules: map<Id, Module>, world: World)
    requires v in start && v in records
  {
    if v in nodes && start[v].status == Pending && records[v].status != Pending then
      v in modules && Settled(v, ParentIds(r, nodes, v), start[v].input, records, converters, modules[v], world)
    else
      records[v] == start[v]
  }

  /**
   The dataflow equations of a run over a graph, complete or not: a pending node of the graph is
   settled by the records or untouched, and every other record is untouched.
   */
  ghost predicate Progress(nodes: seq<Id>, r: Rel, start: Records, records: Records, converters: Converters,
                           modules: map<Id, Module>, world: World)
  {
    && start.Keys == records.Keys
    && forall v :: v in start ==> NodeProgress(v, nodes, r, start, records, converters, modules, world)
  }

  /** The converted outputs of the parents of each node that the run settled agree on shared keys. */
  ghost predicate Compatible(nodes: seq<Id>, r: Rel, start: Records, records: Records, converters: Converters) {
    forall v :: v in nodes && v in start && v in records && start[v].status == Pending && records[v].status != Pending
      ==> SharesAgree(ParentIds(r, nodes, v), v, records, converters)
  }

  ghost predicate HasRun(records: Records, v: Id) {
    v in records && records[v].status != Pending
  }

  /**
   Confluence: two runs over the same graph, converters and modules, from the same records, give a
   node that both have run the same input, the same verdict and the same output, however ready nodes
   were chosen and in whatever orders parents were merged, as soon as the contributions agree on
   shared keys in one of them.  Neither run need be complete.
   */
  lemma {:induction false} Confluent(nodes: seq<Id>, r: Rel, start: Records, one: Records, two: Records,
                                     converters: Converters, modules: map<Id, Module>, world: World, v: Id)
    requires Acyclic(r) && Over(r, Elems(nodes)) && v in nodes
    requires Progress(nodes, r, start, one, converters, modules, world)
    requires Progress(nodes, r, start, two, converters, modules, world)
    requires Compatible(nodes, r, start, one, converters)
    requires HasRun(one, v) && HasRun(two, v)
    ensures one[v].input == two[v].input && one[v].status == two[v].status
    ensures one[v].status == Completed ==> one[v].output == two[v].output
    decreases |Ancestors(r, Elems(nodes), v)|
  {
    assert NodeProgress(v, nodes, r, start, one, converters, modules, world);
    assert NodeProgress(v, nodes, r, start, two, converters, modules, world);
    if start[v].status == Pending {
      var parents := ParentIds(r, nodes, v);
      forall p | p in parents ensures two[p].output == one[p].output {
        FewerAncestors(r, Elems(nodes), p, v);
        Confluent(nodes, r, start, one, two, converters, modules, world, p);
      }
      SameInput(v, parents, start[v].input, one, two, converters, one[v].input, two[v].input);
      if one[v].status == Completed {
        SameOutput(v, modules[v], world, one[v], two[v]);
      }
    }
  }

  // ---------------------------------------------------------------- solvable graphs

  /** Records that complete the whole graph from `start`, with contributions that agree on shared keys. */
  ghost predicate Solution(nodes: seq<Id>, r: Rel, start: Records, sol: Records, converters: Converters,
                           modules: map<Id, Module>, world: World)
  {
    && Progress(nodes, r, start, sol, converters, modules, world) && Compatible(nodes, r, start, sol, converters)
    && forall v :: v in nodes ==> v in sol && sol[v].status == Completed
  }

  /** If the graph has a solution, no run of it fails a node. */
  lemma SolvableNeverFails(nodes: seq<Id>, r: Rel, start: Records, sol: Records, records: Records,
                           converters: Converters, modules: map<Id, Module>, world: World, v: Id)
    requires Acyclic(r) && Over(r, Elems(nodes))
    requires Solution(nodes, r, start, sol, converters, modules, world)
    requires Progress(nodes, r, start, records, converters, modules, world)
    requires v in nodes && HasRun(records, v)
    ensures records[v].status == Completed && records[v].output == sol[v].output && records[v].input == sol[v].input
  {
    Confluent(nodes, r, start, sol, records, converters, modules, world, v);
  }

  /** If the graph has a solution, preparing the input of a pending node never raises. */
  lemma SolvableNeverRaises(nodes: seq<Id>, r: Rel, start: Records, sol: Records, records: Records,
                            converters: Converters, modules: map<Id, Module>, world: World, v: Id)
    requires Acyclic(r) && Over(r, Elems(nodes))
    requires Solution(nodes, r, start, sol, converters, modules, world)
    requires Progress(nodes, r, start, records, converters, modules, world)
    requires v in nodes && v in records && records[v].status == Pending
    ensures !InputFails(v, ParentIds(r, nodes, v), records[v].input, records, converters)
  {
    var parents := ParentIds(r, nodes, v);
    assert NodeProgress(v, nodes, r, start, records, converters, modules, world);
    assert NodeProgress(v, nodes, r, start, sol, converters, modules, world);
    if forall p :: p in parents ==> p in records && records[p].status == Completed {
      forall p | p in parents ensures records[p].output == sol[p].output {
        SolvableNeverFails(nodes, r, start, sol, records, converters, modules, world, p);
      }
      SharesCarryOver(parents, v, sol, records, converters);
      forall order | Elems(order) == parents
        ensures Prepare(order, v, records[v].input, records, converters).Input?
      {
        MergeIsUnion(order, v, records, converters);
      }
    }
  }
}
