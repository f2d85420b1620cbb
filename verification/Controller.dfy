/** `WorkflowController`: the inner loop with converters, and the outer replan loop over one state. */
module Controller {
  import opened Basics
  import opened Digraph
  import opened Kahn
  import opened WorkflowStates
  import opened WorkflowGraphs
  import opened ModuleRuns
  import opened Merging
  import opened Dataflow
  import opened Plans
  import opened Executor

  /** How `_execute_with_converters` ends: normally, or with an exception. */
  datatype LoopOutcome = Completes | IsStuck | InputRaises(id: Id) | NodeRaises(id: Id)

  // ---------------------------------------------------------------- one pass

  /** No node is left "running": what holds between passes. */
  ghost predicate Quiet(records: Records) {
    forall v :: v in records ==> records[v].status != Running
  }

  /** A pass that runs `id`: prepare its input from its completed parents, then execute it. */
  ghost predicate PassRan(nodes: seq<Id>, r: Rel, modules: map<Id, Module>, converters: Converters, world: World,
                          id: Id, raised: bool, before: Records, after: Records)
  {
    && id in nodes && id in modules && id in before && before[id].status == Pending
    && exists input ::
         && InputFrom(id, ParentIds(r, nodes, id), before[id].input, before, converters, input)
         && NodeRan(modules[id], id, world, before[id := before[id].(input := input)], after, raised)
  }

  lemma SettledStays(nodes: seq<Id>, r: Rel, modules: map<Id, Module>, converters: Converters, world: World,
                     id: Id, raised: bool, before: Records, after: Records, v: Id, given: Value)
    requires PassRan(nodes, r, modules, converters, world, id, raised, before, after)
    requires v in modules && v != id
    requires Settled(v, ParentIds(r, nodes, v), given, before, converters, modules[v], world)
    ensures Settled(v, ParentIds(r, nodes, v), given, after, converters, modules[v], world)
  {
    InputFromFrame(v, ParentIds(r, nodes, v), given, before, after, converters, before[v].input);
  }

  lemma NewNodeSettled(nodes: seq<Id>, r: Rel, modules: map<Id, Module>, converters: Converters, world: World,
                       id: Id, raised: bool, before: Records, after: Records)
    requires PassRan(nodes, r, modules, converters, world, id, raised, before, after)
    ensures id in after && after.Keys == before.Keys && forall v :: v in before && v != id ==> after[v] == before[v]
    ensures Settled(id, ParentIds(r, nodes, id), before[id].input, after, converters, modules[id], world)
    ensures raised <==> after[id].status == Failed && !Tolerates(modules[id], after[id].input)
  {
    var input :|
      && InputFrom(id, ParentIds(r, nodes, id), before[id].input, before, converters, input)
      && NodeRan(modules[id], id, world, before[id := before[id].(input := input)], after, raised);
    InputFromFrame(id, ParentIds(r, nodes, id), before[id].input, before, after, converters, input);
    if after[id].status == Completed {
      var k: nat :| FirstGood(id, input, world, k) && after[id].output == Some(world(id, k, input).v);
    }
  }

  lemma PassKeeps(nodes: seq<Id>, r: Rel, modules: map<Id, Module>, converters: Converters, world: World,
                  id: Id, raised: bool, start: Records, before: Records, after: Records)
    requires PassRan(nodes, r, modules, converters, world, id, raised, before, after)
    requires Quiet(before) && Progress(nodes, r, start, before, converters, modules, world)
    ensures Quiet(after) && Progress(nodes, r, start, after, converters, modules, world)
    ensures PendingIn(nodes, after) < PendingIn(nodes, before)
    ensures raised ==> FailedHard(modules, start, after, id)
  {
    NewNodeSettled(nodes, r, modules, converters, world, id, raised, before, after);
    forall v | v in start ensures NodeProgress(v, nodes, r, start, after, converters, modules, world) {
      assert NodeProgress(v, nodes, r, start, before, converters, modules, world);
      if v != id && start[v].status == Pending && before[v].status != Pending && v in nodes {
        SettledStays(nodes, r, modules, converters, world, id, raised, before, after, v, start[v].input);
      }
    }
    assert NodeProgress(id, nodes, r, start, before, converters, modules, world);
    assert id in PendingIn(nodes, before) && id !in PendingIn(nodes, after);
  }

  // ---------------------------------------------------------------- how the inner loop ends

  /** `id` was run and failed, and its module does not tolerate that. */
  ghost predicate FailedHard(modules: map<Id, Module>, start: Records, records: Records, id: Id) {
    && id in modules && id in start && id in records
    && start[id].status == Pending && records[id].status == Failed && !Tolerates(modules[id], records[id].input)
  }

  ghost function FailedIds(nodes: seq<Id>, records: Records): set<Id> {
    set v | v in nodes && v in records && records[v].status == Failed
  }

  /** What each way of ending says about the records. */
  ghost predicate Ended(nodes: seq<Id>, r: Rel, start: Records, records: Records, converters: Converters,
                        modules: map<Id, Module>, o: LoopOutcome)
  {
    match o
    case Completes => AllCompleted(nodes, records)
    case IsStuck => StuckOn(nodes, r, records, FailedIds(nodes, records))
    case InputRaises(id) =>
      && id in nodes && id in records && records[id].status == Pending
      && InputFails(id, ParentIds(r, nodes, id), records[id].input, records, converters)
    case NodeRaises(id) => id in nodes && FailedHard(modules, start, records, id)
  }

  ghost predicate SameResult(one: Records, two: Records, v: Id) {
    v in one && v in two && one[v].input == two[v].input && one[v].output == two[v].output
  }

  /**
   If some records complete the whole graph from where it starts, with contributions that agree on
   shared keys, then the loop must complete it too, and with the same inputs and outputs.
   */
  lemma SolvableCompletes(nodes: seq<Id>, r: Rel, start: Records, sol: Records, records: Records,
                          converters: Converters, modules: map<Id, Module>, world: World, o: LoopOutcome)
    requires Acyclic(r) && Over(r, Elems(nodes))
    requires Solution(nodes, r, start, sol, converters, modules, world)
    requires Progress(nodes, r, start, records, converters, modules, world)
    requires Ended(nodes, r, start, records, converters, modules, o)
    ensures o.Completes?
    ensures forall v :: v in nodes ==> SameResult(records, sol, v)
  {
    match o
    case InputRaises(id) =>
      SolvableNeverRaises(nodes, r, start, sol, records, converters, modules, world, id);
    case NodeRaises(id) =>
      SolvableNeverFails(nodes, r, start, sol, records, converters, modules, world, id);
    case IsStuck =>
      var v :| v in FailedIds(nodes, records);
      SolvableNeverFails(nodes, r, start, sol, records, converters, modules, world, v);
    case Completes =>
      forall v | v in nodes ensures SameResult(records, sol, v) {
        SolvableNeverFails(nodes, r, start, sol, records, converters, modules, world, v);
      }
  }

  /**
   While the graph is incomplete, some node is ready, or else some node has failed and every pending
   node has a failed proper ancestor.
   */
  lemma ProgressOrFailure(nodes: seq<Id>, r: Rel, reverse: SetMap, records: Records)
    requires Acyclic(r) && Over(r, Elems(nodes))
    requires forall p, v {:trigger p in Kids(reverse, v)} :: p in Kids(reverse, v) ==> Edge(r, p, v)
    requires AllKnown(nodes, records) && Quiet(records) && !AllCompleted(nodes, records)
    ensures ReadyAmong(nodes, reverse, records) != [] || StuckOn(nodes, r, records, FailedIds(nodes, records))
    ensures FailedIds(nodes, records) == {} ==> ReadyAmong(nodes, reverse, records) != []
  {
    if ReadyAmong(nodes, reverse, records) == [] {
      NoneReadyIsStuck(nodes, r, reverse, records);
      assert HaltedIds(nodes, records) == FailedIds(nodes, records);
    }
  }

  // ---------------------------------------------------------------- histories and graphs in force

  /** Every start recorded from position `from` on demanded exactly the parents in this graph. */
  ghost predicate StartedUnder(history: seq<Event>, from: nat, r: Rel, nodes: seq<Id>) {
    forall i :: from <= i < |history| && history[i].Started? ==>
      history[i].id in nodes && history[i].parents == ParentIds(r, nodes, history[i].id)
  }

  lemma StartedUnderMore(history: seq<Event>, from: nat, r: Rel, nodes: seq<Id>, id: Id, last: Event)
    requires StartedUnder(history, from, r, nodes) && id in nodes && !last.Started?
    ensures StartedUnder(history + [Started(id, ParentIds(r, nodes, id))] + [last], from, r, nodes)
  {
  }

  datatype RunOutcome = Returns(round: nat) | Escaped(round: nat) | Unfinished

  /** How many of the plans were built before the run ended or was cut off. */
  ghost function RoundsBuilt(r: RunOutcome, plans: seq<Option<Plan>>): nat {
    match r case Returns(i) => i + 1 case Escaped(i) => i case Unfinished => |plans|
  }

  ghost function SeedWith(records: Records, inputs: map<Id, Value>, v: Id): NodeRecord {
    if v in records then records[v]
    else NodeRecord(Pending, if v in inputs then inputs[v] else EMPTY_DICT, None, false, 0)
  }

  /** The records after the plan's new nodes got theirs: what a round starts from. */
  ghost function Seeded(records: Records, plan: Plan): Records {
    map v | v in records.Keys + Elems(PlanIds(plan.nodes)) :: SeedWith(records, InputsOf(plan.nodes), v)
  }

  /** One round over state records: how it ended, the records around it, and the span of its history. */
  datatype Round = Round(o: LoopOutcome, before: Records, after: Records, from: nat, to: nat)

  /** What a round under a buildable plan does to the records, and what the records then say. */
  ghost predicate RoundResult(plan: Plan, registry: Registry, world: World, o: LoopOutcome, before: Records,
                              after: Records)
  {
    var nodes, r := PlanIds(plan.nodes), PlanEdges(plan.edges);
    && ModulesKnown(plan, registry) && Acyclic(r) && Over(r, Elems(nodes))
    && Progress(nodes, r, Seeded(before, plan), after, ConvertersOf(plan.edges), ModulesOf(plan.nodes, registry), world)
    && Ended(nodes, r, Seeded(before, plan), after, ConvertersOf(plan.edges), ModulesOf(plan.nodes, registry), o)
  }

  /** Round `i` begins where the round before it ended. */
  ghost predicate FollowsOn(rounds: seq<Round>, i: nat, length: nat)
    requires i < |rounds|
  {
    var d := rounds[i];
    && d.from == (if i == 0 then 0 else rounds[i - 1].to) && d.from <= d.to <= length
    && d.before == (if i == 0 then map[] else rounds[i - 1].after)
  }

  /** Round `i` runs the graph of plan `i` and starts nodes only under that graph. */
  ghost predicate RunsPlan(d: Round, i: nat, plans: seq<Option<Plan>>, registry: Registry, world: World,
                           history: seq<Event>)
  {
    && i < |plans| && plans[i].Some? && Buildable(plans[i].value, registry)
    && RoundResult(plans[i].value, registry, world, d.o, d.before, d.after)
    && d.to <= |history|
    && StartedUnder(history[..d.to], d.from, PlanEdges(plans[i].value.edges), PlanIds(plans[i].value.nodes))
  }

  /** Rounds follow each other without a gap, up to this history length and these records. */
  ghost predicate Chained(rounds: seq<Round>, length: nat, records: Records) {
    && (forall i :: 0 <= i < |rounds| ==> FollowsOn(rounds, i, length))
    && length == (if rounds == [] then 0 else rounds[|rounds| - 1].to)
    && records == (if rounds == [] then map[] else rounds[|rounds| - 1].after)
  }

  ghost predicate AllRun(rounds: seq<Round>, plans: seq<Option<Plan>>, registry: Registry, world: World,
                         history: seq<Event>)
  {
    forall i :: 0 <= i < |rounds| ==> RunsPlan(rounds[i], i, plans, registry, world, history)
  }

  /** The whole run, cut into its rounds: one for each plan that was built, in order, with nothing between them. */
  ghost predicate InRounds(rounds: seq<Round>, plans: seq<Option<Plan>>, registry: Registry, world: World,
                           history: seq<Event>, records: Records)
  {
    Chained(rounds, |history|, records) && AllRun(rounds, plans, registry, world, history)
  }

  lemma ChainedSnoc(rounds: seq<Round>, d: Round, length: nat, before: Records)
    requires Chained(rounds, length, before)
    requires d.before == before && d.from == length <= d.to
    ensures Chained(rounds + [d], d.to, d.after)
  {
    var all := rounds + [d];
    forall i | 0 <= i < |all| ensures FollowsOn(all, i, d.to) {
      if i < |rounds| {
        assert FollowsOn(rounds, i, length);
      }
    }
  }

  /** Rounds end in order. */
  lemma {:induction false} RoundEnds(rounds: seq<Round>, length: nat, i: nat)
    requires forall k :: 0 <= k < |rounds| ==> FollowsOn(rounds, k, length)
    requires i < |rounds|
    ensures forall k :: 0 <= k < i ==> rounds[k].to <= rounds[i].from
  {
    if i > 0 {
      RoundEnds(rounds, length, i - 1);
      assert FollowsOn(rounds, i, length) && FollowsOn(rounds, i - 1, length);
    }
  }

  lemma ChainedPrefix(rounds: seq<Round>, length: nat, records: Records)
    requires Chained(rounds, length, records) && rounds != []
    ensures var n := |rounds| - 1;
      && rounds[n].from <= rounds[n].to == length
      && Chained(rounds[..n], rounds[n].from, rounds[n].before)
      && forall k :: 0 <= k < n ==> rounds[k].to <= rounds[n].from
  {
    var n := |rounds| - 1;
    assert FollowsOn(rounds, n, length);
    RoundEnds(rounds, length, n);
    forall i | 0 <= i < n ensures FollowsOn(rounds[..n], i, rounds[n].from) {
      assert FollowsOn(rounds, i, length);
    }
  }

  lemma RunsPlanAlong(d: Round, i: nat, plans: seq<Option<Plan>>, registry: Registry, world: World,
                      h: seq<Event>, history: seq<Event>)
    requires RunsPlan(d, i, plans, registry, world, h) && d.to <= |history|
    requires h <= history || history <= h
    ensures RunsPlan(d, i, plans, registry, world, history)
  {
    assert history[..d.to] == h[..d.to];
  }

  lemma AllRunSnoc(rounds: seq<Round>, d: Round, plans: seq<Option<Plan>>, registry: Registry, world: World,
                   h: seq<Event>, history: seq<Event>)
    requires AllRun(rounds, plans, registry, world, h) && h <= history
    requires forall k :: 0 <= k < |rounds| ==> rounds[k].to <= |h|
    requires RunsPlan(d, |rounds|, plans, registry, world, history)
    ensures AllRun(rounds + [d], plans, registry, world, history)
  {
    var all := rounds + [d];
    forall i | 0 <= i < |all| ensures RunsPlan(all[i], i, plans, registry, world, history) {
      if i < |rounds| {
        RunsPlanAlong(rounds[i], i, plans, registry, world, h, history);
      }
    }
  }

  /** None of the first `n` rounds completed its graph. */
  ghost predicate NoneCompletes(rounds: seq<Round>, n: nat) {
    forall k :: 0 <= k < n && k < |rounds| ==> !rounds[k].o.Completes?
  }

  lemma RoundDone(rounds: seq<Round>, plans: seq<Option<Plan>>, registry: Registry, world: World, o: LoopOutcome,
                  before: Records, h: seq<Event>, after: Records, history: seq<Event>)
    returns (all: seq<Round>)
    requires InRounds(rounds, plans, registry, world, h, before)
    requires |rounds| < |plans| && plans[|rounds|].Some? && Buildable(plans[|rounds|].value, registry)
    requires RoundResult(plans[|rounds|].value, registry, world, o, before, after)
    requires h <= history
    requires StartedUnder(history, |h|, PlanEdges(plans[|rounds|].value.edges), PlanIds(plans[|rounds|].value.nodes))
    ensures InRounds(all, plans, registry, world, history, after)
    ensures |all| == |rounds| + 1 && all[|rounds|].o == o
    ensures NoneCompletes(rounds, |rounds|) ==> NoneCompletes(all, |rounds|)
    ensures NoneCompletes(rounds, |rounds|) && !o.Completes? ==> NoneCompletes(all, |all|)
  {
    var d := Round(o, before, after, |h|, |history|);
    all := rounds + [d];
    ChainedSnoc(rounds, d, |h|, before);
    forall k | 0 <= k < |rounds| ensures rounds[k].to <= |h| {
      assert FollowsOn(rounds, k, |h|);
    }
    assert history[..d.to] == history;
    assert RunsPlan(d, |rounds|, plans, registry, world, history);
    AllRunSnoc(rounds, d, plans, registry, world, h, history);
  }

  /** Records that a round does not find pending leave it as they were. */
  lemma EndedStays(plan: Plan, registry: Registry, world: World, o: LoopOutcome, before: Records, after: Records, v: Id)
    requires RoundResult(plan, registry, world, o, before, after)
    requires v in before && before[v].status != Pending
    ensures v in after && after[v] == before[v]
  {
    assert NodeProgress(v, PlanIds(plan.nodes), PlanEdges(plan.edges), Seeded(before, plan), after,
                        ConvertersOf(plan.edges), ModulesOf(plan.nodes, registry), world);
  }

  /** The records settle `v` by the graph, converters and modules of this plan. */
  ghost predicate SettledBy(plan: Plan, registry: Registry, world: World, given: Value, records: Records, v: Id) {
    && ModulesKnown(plan, registry)
    && v in PlanIds(plan.nodes) && v in ModulesOf(plan.nodes, registry)
    && Settled(v, ParentIds(PlanEdges(plan.edges), PlanIds(plan.nodes), v), given, records, ConvertersOf(plan.edges),
               ModulesOf(plan.nodes, registry)[v], world)
  }

  ghost predicate SettledByRound(plans: seq<Option<Plan>>, registry: Registry, world: World, rounds: seq<Round>,
                                 records: Records, v: Id, i: nat)
  {
    && i < |rounds| && i < |plans| && plans[i].Some?
    && SettledBy(plans[i].value, registry, world,
                 SeedWith(rounds[i].before, InputsOf(plans[i].value.nodes), v).input, records, v)
  }

  lemma AllRunPrefix(rounds: seq<Round>, n: nat, plans: seq<Option<Plan>>, registry: Registry, world: World,
                     history: seq<Event>, h: seq<Event>)
    requires AllRun(rounds, plans, registry, world, history) && h <= history && n <= |rounds|
    requires forall k :: 0 <= k < n ==> rounds[k].to <= |h|
    ensures AllRun(rounds[..n], plans, registry, world, h)
  {
    forall i | 0 <= i < n ensures RunsPlan(rounds[..n][i], i, plans, registry, world, h) {
      RunsPlanAlong(rounds[i], i, plans, registry, world, history, h);
    }
  }

  /**
   Over a whole run: every node that has ended was settled in one of the rounds, by the plan of that
   round, and the final records still bear that out, whatever plans followed.
   */
  lemma {:induction false} EndedIsSettled(rounds: seq<Round>, plans: seq<Option<Plan>>, registry: Registry,
                                          world: World, history: seq<Event>, records: Records, v: Id)
    requires InRounds(rounds, plans, registry, world, history, records)
    requires v in records && records[v].status != Pending
    ensures exists i: nat :: SettledByRound(plans, registry, world, rounds, records, v, i)
  {
    var n := |rounds| - 1;
    ChainedPrefix(rounds, |history|, records);
    var d := rounds[n];
    AllRunPrefix(rounds, n, plans, registry, world, history, history[..d.from]);
    assert RunsPlan(d, n, plans, registry, world, history);
    var plan := plans[n].value;
    assert NodeProgress(v, PlanIds(plan.nodes), PlanEdges(plan.edges), Seeded(d.before, plan), records,
                        ConvertersOf(plan.edges), ModulesOf(plan.nodes, registry), world);
    if v in d.before && d.before[v].status != Pending {
      EndedIsSettled(rounds[..n], plans, registry, world, history[..d.from], d.before, v);
      var i: nat :| SettledByRound(plans, registry, world, rounds[..n], d.before, v, i);
      var given := SeedWith(rounds[i].before, InputsOf(plans[i].value.nodes), v).input;
      SettledSurvives(plans[i].value, plan, registry, world, d, given, v);
      assert SettledByRound(plans, registry, world, rounds, records, v, i);
    } else {
      assert SettledByRound(plans, registry, world, rounds, records, v, n);
    }
  }

  lemma SettledSurvives(earlier: Plan, plan: Plan, registry: Registry, world: World, d: Round, given: Value, v: Id)
    requires RoundResult(plan, registry, world, d.o, d.before, d.after)
    requires SettledBy(earlier, registry, world, given, d.before, v)
    ensures SettledBy(earlier, registry, world, given, d.after, v)
  {
    var parents := ParentIds(PlanEdges(earlier.edges), PlanIds(earlier.nodes), v);
    EndedStays(plan, registry, world, d.o, d.before, d.after, v);
    forall p | p in parents ensures p in d.after && d.after[p] == d.before[p] {
      EndedStays(plan, registry, world, d.o, d.before, d.after, p);
    }
    InputFromFrame(v, parents, given, d.before, d.after, ConvertersOf(earlier.edges), d.before[v].input);
  }

  lemma {:induction false} InputsCover(nodes: seq<NodeDef>)
    ensures forall v :: v in PlanIds(nodes) ==> v in InputsOf(nodes)
  {
    if nodes != [] {
      var n := |nodes| - 1;
      InputsCover(nodes[..n]);
      forall v | v in PlanIds(nodes) ensures v in InputsOf(nodes) {
        var i :| 0 <= i < |nodes| && PlanIds(nodes)[i] == v;
        if i < n {
          assert PlanIds(nodes[..n])[i] == v;
        }
      }
    }
  }

  lemma StuckOnFailure(g: WorkflowGraph, records: Records)
    requires g.Valid() && AllKnown(g.nodes, records) && Quiet(records) && !AllCompleted(g.nodes, records)
    requires ReadyAmong(g.nodes, g.reverse, records) == []
    ensures StuckOn(g.nodes, g.EdgeSet(), records, FailedIds(g.nodes, records))
  {
    GraphContext(g, {});
    EdgesOver(g.Net());
    ProgressOrFailure(g.nodes, g.EdgeSet(), g.reverse, records);
  }

  lemma EachRunOnce(state: WorkflowState)
    requires state.Valid() && Legal(state.history)
    ensures NoDup(state.executionOrder) && forall v :: v in state.nodes ==> state.nodes[v].attempts <= 1
  {
    StartedOnce(state.history);
    forall v | v in state.nodes ensures state.nodes[v].attempts <= 1 {
      assert Recorded(state.nodes, state.executionOrder, state.history, v);
      LegalRecords(state.nodes, state.executionOrder, state.history, v);
    }
  }

  // ---------------------------------------------------------------- the class

  datatype Turn = GraphDone | NoneIsReady | InputFailed(id: Id) | RanNode(id: Id, raised: bool)

  /** How the loop ends after a pass that does not let it go on. */
  function Ending(p: Turn): LoopOutcome {
    match p
    case GraphDone => Completes
    case NoneIsReady => IsStuck
    case InputFailed(id) => InputRaises(id)
    case RanNode(id, _) => NodeRaises(id)
  }

  class WorkflowController {
    var executor: WorkflowExecutor
    var converters: Converters

    constructor (executor: WorkflowExecutor)
      ensures this.executor == executor && converters == map[]
    {
      this.executor := executor;
      converters := map[];
    }

    ghost predicate Ready(state: WorkflowState) reads this, executor, executor.graph, state {
      executor.Ready(state) && AllKnown(executor.graph.nodes, state.nodes)
    }

    method PrepareInput(id: Id, state: WorkflowState) returns (r: Prepared)
      requires Ready(state) && id in executor.graph.nodes && IsReady(executor.graph.reverse, state.nodes, id)
      ensures var g := executor.graph;
        var parents, given := ParentIds(g.EdgeSet(), g.nodes, id), state.nodes[id].input;
        match r
        case Input(v) => InputFrom(id, parents, given, state.nodes, converters, v)
        case Raises => InputFails(id, parents, given, state.nodes, converters)
    {
      ghost var g := executor.graph;
      var found := executor.graph.GetParents(id);
      var parents := found.value;
      EdgesOver(g.Net());
      forall p ensures p in parents <==> p in ParentIds(g.EdgeSet(), g.nodes, id) {
        assert Edge(g.EdgeSet(), p, id) <==> id in Kids(g.adjacency, p);
        assert id in Kids(g.adjacency, p) <==> p in Kids(g.reverse, id);
      }
      assert Elems(parents) == ParentIds(g.EdgeSet(), g.nodes, id);
      forall p | p in parents ensures p in state.nodes && state.nodes[p].status == Completed {
        assert id in Kids(g.adjacency, p);
        assert p in Kids(g.reverse, id);
      }
      r := PrepareNodeInput(parents, id, state.nodes[id].input, state.nodes, converters);
    }

    /** Prepare the input of a ready node and run it. */
    method RunPrepared(id: Id, state: WorkflowState, world: World) returns (p: Turn)
      requires Ready(state) && id in executor.graph.nodes && IsReady(executor.graph.reverse, state.nodes, id)
      modifies state
      ensures Ready(state)
      ensures p == InputFailed(id) || (p.RanNode? && p.id == id)
      ensures p.InputFailed? ==> state.nodes == old(state.nodes) && state.history == old(state.history)
      ensures p.InputFailed? ==> state.status == old(state.status) && InputFailsHere(state, id)
      ensures p.RanNode? ==> RanHere(state, world, id, p.raised, old(state.nodes), old(state.history))
      ensures p.RanNode? ==> state.status == if p.raised then Broken else old(state.status)
    {
      ghost var g := executor.graph;
      ghost var before, h := state.nodes, state.history;
      ReadyMayStart(g.nodes, g.adjacency, g.reverse, state, id);
      var prepared := PrepareInput(id, state);
      if prepared.Raises? {
        return InputFailed(id);
      }
      state.SetInput(id, prepared.v);
      var raised := executor.ExecuteNode(id, state, world);
      return RanNode(id, raised);
    }

    ghost predicate InputFailsHere(state: WorkflowState, id: Id)
      reads this, executor, executor.graph, state
    {
      var g := executor.graph;
      && id in g.nodes && id in state.nodes && state.nodes[id].status == Pending
      && InputFails(id, ParentIds(g.EdgeSet(), g.nodes, id), state.nodes[id].input, state.nodes, converters)
    }

    ghost predicate RanHere(state: WorkflowState, world: World, id: Id, raised: bool, before: Records,
                            history: seq<Event>)
      reads this, executor, executor.graph, state
    {
      var g := executor.graph;
      && PassRan(g.nodes, g.EdgeSet(), g.modules, converters, world, id, raised, before, state.nodes)
      && exists last: Event :: !last.Started?
           && state.history == history + [Started(id, ParentIds(g.EdgeSet(), g.nodes, id))] + [last]
    }

    /** The ready node the executor selects, if any node is ready. */
    method NextReady(state: WorkflowState) returns (r: Option<Id>)
      requires Ready(state)
      ensures r.None? ==> ReadyAmong(executor.graph.nodes, executor.graph.reverse, state.nodes) == []
      ensures r.Some? ==> r.value in executor.graph.nodes && IsReady(executor.graph.reverse, state.nodes, r.value)
    {
      var ready := executor.graph.GetReadyNodes(state);
      if ready.value == [] {
        return None;
      }
      var id := executor.SelectFirstReady(ready.value, state);
      return Some(id);
    }

    /** One pass of the `while True` body. */
    method Pass(state: WorkflowState, world: World) returns (p: Turn)
      requires Ready(state)
      modifies state
      ensures Ready(state)
      ensures p.GraphDone? ==> AllCompleted(executor.graph.nodes, state.nodes)
      ensures p.NoneIsReady? ==> !AllCompleted(executor.graph.nodes, state.nodes)
      ensures p.NoneIsReady? ==> ReadyAmong(executor.graph.nodes, executor.graph.reverse, state.nodes) == []
      ensures !p.RanNode? ==> state.nodes == old(state.nodes) && state.history == old(state.history)
      ensures p.RanNode? ==> RanHere(state, world, p.id, p.raised, old(state.nodes), old(state.history))
      ensures p.InputFailed? ==> InputFailsHere(state, p.id)
      ensures state.status == if p.RanNode? && p.raised then Broken else old(state.status)
    {
      var complete := executor.graph.IsComplete(state);
      if complete.value {
        return GraphDone;
      }
      var next := NextReady(state);
      if next.None? {
        return NoneIsReady;
      }
      p := RunPrepared(next.value, state, world);
    }

    /** What every pass keeps, relative to the records and the history when the loop began. */
    ghost predicate LoopInv(state: WorkflowState, world: World, start: Records, h: seq<Event>)
      reads this, executor, executor.graph, state
    {
      Ready(state) && Keeps(state.nodes, state.history, world, start, h)
    }

    ghost predicate Keeps(records: Records, history: seq<Event>, world: World, start: Records, h: seq<Event>)
      reads this, executor, executor.graph
    {
      var g := executor.graph;
      && Quiet(records)
      && Progress(g.nodes, g.EdgeSet(), start, records, converters, g.modules, world)
      && h <= history && StartedUnder(history, |h|, g.EdgeSet(), g.nodes)
    }

    ghost predicate EndedHere(records: Records, start: Records, o: LoopOutcome)
      reads this, executor, executor.graph
    {
      var g := executor.graph;
      Ended(g.nodes, g.EdgeSet(), start, records, converters, g.modules, o)
    }

    lemma AfterNode(state: WorkflowState, world: World, id: Id, raised: bool, before: Records, was: seq<Event>,
                    start: Records, h: seq<Event>)
      requires RanHere(state, world, id, raised, before, was) && Keeps(before, was, world, start, h)
      ensures Keeps(state.nodes, state.history, world, start, h)
      ensures PendingIn(executor.graph.nodes, state.nodes) < PendingIn(executor.graph.nodes, before)
      ensures raised ==> EndedHere(state.nodes, start, NodeRaises(id))
    {
      var g := executor.graph;
      PassKeeps(g.nodes, g.EdgeSet(), g.modules, converters, world, id, raised, start, before, state.nodes);
      var last: Event :| !last.Started?
        && state.history == was + [Started(id, ParentIds(g.EdgeSet(), g.nodes, id))] + [last];
      StartedUnderMore(was, |h|, g.EdgeSet(), g.nodes, id, last);
    }

    /** One pass keeps the invariant, and either runs a node and goes on or has a reason to end the loop. */
    method TakeTurn(state: WorkflowState, world: World, ghost start: Records, ghost h: seq<Event>) returns (p: Turn)
      requires LoopInv(state, world, start, h)
      modifies state
      ensures LoopInv(state, world, start, h)
      ensures (p.RanNode? && !p.raised) || EndedHere(state.nodes, start, Ending(p))
      ensures p.RanNode? ==>
        PendingIn(executor.graph.nodes, state.nodes) < PendingIn(executor.graph.nodes, old(state.nodes))
      ensures state.status == if p.RanNode? && p.raised then Broken else old(state.status)
    {
      ghost var before, was := state.nodes, state.history;
      p := Pass(state, world);
      if p.NoneIsReady? {
        StuckOnFailure(executor.graph, state.nodes);
      }
      if p.RanNode? {
        AfterNode(state, world, p.id, p.raised, before, was, start, h);
      }
    }

    /**
     The inner loop terminates; what it did solves the dataflow equations as far as it got; and each way
     of ending has its reason: "Workflow stuck" a failed node that blocks, an exception from preparing an
     input a merge that raises, an exception from a node a failure that is not tolerated.
     */
    method ExecuteWithConverters(state: WorkflowState, world: World) returns (o: LoopOutcome)
      requires Ready(state) && Quiet(state.nodes)
      modifies state
      ensures LoopInv(state, world, old(state.nodes), old(state.history))
      ensures EndedHere(state.nodes, old(state.nodes), o)
      ensures o.Completes? ==> state.status.Succeeded?
      ensures !o.Completes? && !old(state.status.Succeeded?) ==> !state.status.Succeeded?
    {
      ghost var start, h := state.nodes, state.history;
      if state.status.Fresh? {
        state.SetStatus(InProgress);
      }
      while true
        invariant LoopInv(state, world, start, h)
        invariant !old(state.status.Succeeded?) ==> !state.status.Succeeded?
        decreases PendingIn(executor.graph.nodes, state.nodes)
      {
        var p := TakeTurn(state, world, start, h);
        if !(p.RanNode? && !p.raised) {
          if p.GraphDone? {
            state.SetStatus(Succeeded);
          } else if p.NoneIsReady? {
            state.SetStatus(Broken);
          }
          return Ending(p);
        }
      }
    }

    /** Initial inputs go to the nodes the state does not know yet; known nodes keep their records. */
    method InitializeNodes(ids: seq<Id>, inputs: map<Id, Value>, state: WorkflowState)
      requires state.Valid() && Quiet(state.nodes) && forall v :: v in ids ==> v in inputs
      modifies state
      ensures state.Valid() && Quiet(state.nodes)
      ensures state.status == old(state.status) && state.history == old(state.history)
      ensures forall v :: v in state.nodes <==> v in old(state.nodes) || v in ids
      ensures forall v :: v in state.nodes ==> state.nodes[v] == SeedWith(old(state.nodes), inputs, v)
    {
      var i := 0;
      while i < |ids|
        invariant 0 <= i <= |ids|
        invariant state.Valid() && Quiet(state.nodes)
        invariant state.status == old(state.status) && state.history == old(state.history)
        invariant forall v :: v in state.nodes <==> v in old(state.nodes) || v in ids[..i]
        invariant forall v :: v in state.nodes ==> state.nodes[v] == SeedWith(old(state.nodes), inputs, v)
      {
        var v := ids[i];
        assert ids[..i + 1] == ids[..i] + [v];
        if v !in state.nodes {
          var _ := state.InitializeNode(v, inputs[v]);
        }
        i := i + 1;
      }
      assert ids[..|ids|] == ids;
    }

    /** One round of `run`: build the graph, seed the state, execute; an exception while building escapes. */
    method RunRound(plan: Plan, registry: Registry, state: WorkflowState, world: World)
      returns (built: bool, o: LoopOutcome)
      requires state.Valid() && Legal(state.history) && Quiet(state.nodes) && !state.status.Succeeded?
      modifies this, executor, state
      ensures executor == old(executor)
      ensures state.Valid() && Legal(state.history) && Quiet(state.nodes)
      ensures built <==> Buildable(plan, registry)
      ensures !built ==> state.nodes == old(state.nodes) && state.history == old(state.history)
      ensures !built ==> !state.status.Succeeded?
      ensures built ==> RoundResult(plan, registry, world, o, old(state.nodes), state.nodes)
      ensures old(state.history) <= state.history
      ensures StartedUnder(state.history, |old(state.history)|, PlanEdges(plan.edges), PlanIds(plan.nodes))
      ensures built ==> (o.Completes? <==> state.status.Succeeded?)
    {
      var ok, graph, inputs, table := BuildGraph(plan, registry);
      converters := table;
      if !ok {
        return false, IsStuck;
      }
      executor.graph := graph;
      InputsCover(plan.nodes);
      InitializeNodes(graph.nodes, inputs, state);
      assert state.nodes == Seeded(old(state.nodes), plan);
      EdgesOver(graph.Net());
      o := ExecuteWithConverters(state, world);
      built := true;
    }

    /** One turn of the outer loop: ask for a plan, run its round. */
    method Replan(plans: seq<Option<Plan>>, i: nat, registry: Registry, world: World, state: WorkflowState,
                  ghost rounds: seq<Round>) returns (built: bool, completes: bool, ghost all: seq<Round>)
      requires state.Valid() && Legal(state.history) && Quiet(state.nodes) && !state.status.Succeeded?
      requires InRounds(rounds, plans, registry, world, state.history, state.nodes)
      requires NoneCompletes(rounds, |rounds|) && i == |rounds| < |plans|
      modifies this, executor, state
      ensures executor == old(executor)
      ensures state.Valid() && Legal(state.history) && Quiet(state.nodes)
      ensures InRounds(all, plans, registry, world, state.history, state.nodes)
      ensures NoneCompletes(all, i) && |all| == if built then i + 1 else i
      ensures built <==> plans[i].Some? && Buildable(plans[i].value, registry)
      ensures built ==> (completes <==> all[i].o.Completes?)
      ensures built && completes <==> state.status.Succeeded?
      ensures built && !completes ==> NoneCompletes(all, |all|)
    {
      all := rounds;
      if plans[i].None? {
        return false, false, all;
      }
      ghost var before, h := state.nodes, state.history;
      var o;
      built, o := RunRound(plans[i].value, registry, state, world);
      completes := o.Completes?;
      if built {
        all := RoundDone(rounds, plans, registry, world, o, before, h, state.nodes, state.history);
      }
    }

    /**
     Any number of replans over one state, cut off after the given plans.  Whatever the plans, no
     node is started twice, statuses move only pending -> running -> completed or failed, and every
     start happened in a round whose own graph contains the node, with all its parents in that graph
     completed.  The rounds chain up: each solves its plan's dataflow equations as far as it got.
     */
    method Run(plans: seq<Option<Plan>>, registry: Registry, world: World)
      returns (r: RunOutcome, state: WorkflowState, ghost rounds: seq<Round>)
      modifies this, executor
      ensures fresh(state) && state.Valid() && Legal(state.history) && Quiet(state.nodes)
      ensures NoDup(state.executionOrder) && forall v :: v in state.nodes ==> state.nodes[v].attempts <= 1
      ensures InRounds(rounds, plans, registry, world, state.history, state.nodes)
      ensures |rounds| == RoundsBuilt(r, plans) <= |plans|
      ensures r.Returns? ==> NoneCompletes(rounds, r.round) && rounds[r.round].o.Completes?
      ensures !r.Returns? ==> NoneCompletes(rounds, |rounds|)
      ensures r.Escaped? ==> r.round < |plans| && (plans[r.round].None? || !Buildable(plans[r.round].value, registry))
      ensures r.Returns? <==> state.status.Succeeded?
    {
      state := new WorkflowState();
      rounds := [];
      r := Unfinished;
      var i := 0;
      while i < |plans|
        invariant 0 <= i <= |plans| && |rounds| == i
        invariant fresh(state) && executor == old(executor)
        invariant state.Valid() && Legal(state.history) && Quiet(state.nodes) && !state.status.Succeeded?
        invariant InRounds(rounds, plans, registry, world, state.history, state.nodes)
        invariant NoneCompletes(rounds, |rounds|)
      {
        var built, completes;
        built, completes, rounds := Replan(plans, i, registry, world, state, rounds);
        if !built {
          r := Escaped(i);
          break;
        }
        if completes {
          r := Returns(i);
          break;
        }
        i := i + 1;
      }
      EachRunOnce(state);
    }
  }
}
