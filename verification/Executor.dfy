/** `WorkflowExecutor`: pick the first ready node of the topological order, run it, repeat. */
module Executor {
  import opened Basics
  import opened Digraph
  import opened Kahn
  import opened WorkflowStates
  import opened WorkflowGraphs
  import opened ModuleRuns
  import opened Dataflow

  datatype Outcome = Finished | Stuck | NodeRaised(id: Id) | UnknownNode

  // ---------------------------------------------------------------- what a run should do

  /** Some proper ancestor of `v` is in `failing`. */
  ghost predicate Blocked(r: Rel, failing: set<Id>, v: Id) {
    exists u :: u in failing && Before(r, u, v)
  }

  /** The entries of `topo` with no failing proper ancestor, in the order of `topo`. */
  ghost function Unblocked(topo: seq<Id>, r: Rel, failing: set<Id>): seq<Id> {
    if topo == [] then []
    else
      var n := |topo| - 1;
      Unblocked(topo[..n], r, failing) + (if Blocked(r, failing, topo[n]) then [] else [topo[n]])
  }

  lemma {:induction false} UnblockedMembers(topo: seq<Id>, r: Rel, failing: set<Id>, v: Id)
    ensures v in Unblocked(topo, r, failing) <==> v in topo && !Blocked(r, failing, v)
  {
    if topo != [] {
      var n := |topo| - 1;
      UnblockedMembers(topo[..n], r, failing, v);
      assert topo == topo[..n] + [topo[n]];
    }
  }

  lemma {:induction false} UnblockedSkip(topo: seq<Id>, r: Rel, failing: set<Id>, k: nat, j: nat)
    requires k <= j <= |topo|
    requires forall i :: k <= i < j ==> Blocked(r, failing, topo[i])
    ensures Unblocked(topo[..j], r, failing) == Unblocked(topo[..k], r, failing)
    decreases j
  {
    if k < j {
      assert topo[..j][..j - 1] == topo[..j - 1];
      UnblockedSkip(topo, r, failing, k, j - 1);
    }
  }

  lemma UnblockedNext(topo: seq<Id>, r: Rel, failing: set<Id>, j: nat)
    requires j < |topo| && !Blocked(r, failing, topo[j])
    ensures Unblocked(topo[..j + 1], r, failing) == Unblocked(topo[..j], r, failing) + [topo[j]]
  {
    assert topo[..j + 1][..j] == topo[..j];
  }

  lemma {:induction false} NothingBlocked(topo: seq<Id>, r: Rel)
    ensures Unblocked(topo, r, {}) == topo
  {
    if topo != [] {
      NothingBlocked(topo[..|topo| - 1], r);
    }
  }

  lemma BlockedByParent(r: Rel, failing: set<Id>, p: Id, v: Id)
    requires Edge(r, p, v) && (p in failing || Blocked(r, failing, p))
    ensures Blocked(r, failing, v)
  {
    BeforeEdge(r, p, v);
    if p !in failing {
      var u :| u in failing && Before(r, u, p);
      BeforeTrans(r, u, p, v);
    }
  }

  lemma BlockingParent(r: Rel, failing: set<Id>, v: Id) returns (p: Id)
    requires Blocked(r, failing, v)
    ensures Edge(r, p, v) && (p in failing || Blocked(r, failing, p))
  {
    var u :| u in failing && Before(r, u, v);
    p := LastParent(r, u, v);
  }

  /** A blocked node has a proper ancestor that was actually run and failed, not merely one that would. */
  lemma {:induction false} BlockedByRunFailure(topo: seq<Id>, nodes: set<Id>, r: Rel, failing: set<Id>, v: Id, i: nat)
    requires Topological(r, nodes, topo) && Over(r, nodes)
    requires i < |topo| && topo[i] in failing && Before(r, topo[i], v)
    ensures exists u :: u in Unblocked(topo, r, failing) && u in failing && Before(r, u, v)
    decreases i
  {
    UnblockedMembers(topo, r, failing, topo[i]);
    if Blocked(r, failing, topo[i]) {
      var w :| w in failing && Before(r, w, topo[i]);
      BeforeOver(r, nodes, w, topo[i]);
      assert w in Elems(topo);
      var j :| 0 <= j < |topo| && topo[j] == w;
      TopologicalForward(r, nodes, topo, j, i);
      BeforeTrans(r, w, topo[i], v);
      BlockedByRunFailure(topo, nodes, r, failing, v, j);
    } else {
      assert topo[i] in topo;
    }
  }

  // ---------------------------------------------------------------- a run in progress

  ghost function ExpectedStatus(done: seq<Id>, failing: set<Id>, v: Id): NodeStatus {
    if v !in done then Pending else if v in failing then Failed else Completed
  }

  /** Run and good is completed, run and bad is failed, not run is pending. */
  ghost predicate StatusesMatch(topo: seq<Id>, failing: set<Id>, records: Records, done: seq<Id>) {
    forall v {:trigger StatusMatches(failing, records, done, v)} :: v in topo ==>
      StatusMatches(failing, records, done, v)
  }

  ghost predicate StatusMatches(failing: set<Id>, records: Records, done: seq<Id>, v: Id) {
    v in records && records[v].status == ExpectedStatus(done, failing, v)
  }

  /** After the first `k` places of `topo`: exactly the unblocked ones were run, in order. */
  ghost predicate InStep(topo: seq<Id>, k: nat, r: Rel, failing: set<Id>, records: Records, done: seq<Id>) {
    && k <= |topo|
    && done == Unblocked(topo[..k], r, failing)
    && StatusesMatch(topo, failing, records, done)
  }

  /** A ready node lies ahead of position `k` and has no failing ancestor. */
  lemma ReadyIsAhead(topo: seq<Id>, k: nat, r: Rel, failing: set<Id>, records: Records, done: seq<Id>,
                     nodes: set<Id>, reverse: SetMap, j: nat)
    requires InStep(topo, k, r, failing, records, done) && Topological(r, nodes, topo) && Over(r, nodes)
    requires forall p, v {:trigger Edge(r, p, v)} :: Edge(r, p, v) ==> p in Kids(reverse, v)
    requires j < |topo| && IsReady(reverse, records, topo[j])
    ensures k <= j && !Blocked(r, failing, topo[j]) && topo[j] !in done
  {
    var v := topo[j];
    assert v in topo && StatusMatches(failing, records, done, v);
    if Blocked(r, failing, v) {
      var p := BlockingParent(r, failing, v);
      assert p in topo && StatusMatches(failing, records, done, p);
      UnblockedMembers(topo[..k], r, failing, p);
      assert false;
    }
    UnblockedMembers(topo[..k], r, failing, v);
    assert v !in topo[..k];
  }

  /** The first unblocked node from position `k` on is ready. */
  lemma NextUnblockedIsReady(topo: seq<Id>, k: nat, r: Rel, failing: set<Id>, records: Records, done: seq<Id>,
                             nodes: set<Id>, reverse: SetMap, j: nat)
    requires InStep(topo, k, r, failing, records, done) && Topological(r, nodes, topo) && Over(r, nodes)
    requires forall p, v {:trigger p in Kids(reverse, v)} :: p in Kids(reverse, v) ==> Edge(r, p, v)
    requires k <= j < |topo| && !Blocked(r, failing, topo[j])
    requires forall i :: k <= i < j ==> Blocked(r, failing, topo[i])
    ensures IsReady(reverse, records, topo[j])
  {
    var v := topo[j];
    UnblockedMembers(topo[..k], r, failing, v);
    assert v !in topo[..k] && StatusMatches(failing, records, done, v);
    forall p | p in Kids(reverse, v) ensures p in records && records[p].status == Completed {
      assert Edge(r, p, v);
      assert p in topo && StatusMatches(failing, records, done, p);
      var i :| 0 <= i < |topo| && topo[i] == p;
      assert Edge(r, topo[i], topo[j]);
      if p in failing || Blocked(r, failing, p) {
        BlockedByParent(r, failing, p, v);
      }
      assert i < k;
      assert p == topo[..k][i];
      UnblockedMembers(topo[..k], r, failing, p);
    }
  }

  lemma Advance(topo: seq<Id>, k: nat, r: Rel, failing: set<Id>, records: Records, done: seq<Id>,
                nodes: set<Id>, reverse: SetMap, j: nat)
    requires InStep(topo, k, r, failing, records, done) && Topological(r, nodes, topo) && Over(r, nodes)
    requires forall p, v {:trigger Edge(r, p, v)} {:trigger p in Kids(reverse, v)} ::
      Edge(r, p, v) <==> p in Kids(reverse, v)
    requires j < |topo| && IsReady(reverse, records, topo[j])
    requires forall i :: 0 <= i < j ==> !IsReady(reverse, records, topo[i])
    ensures k <= j && topo[j] !in done
    ensures Unblocked(topo[..j + 1], r, failing) == done + [topo[j]]
  {
    ReadyIsAhead(topo, k, r, failing, records, done, nodes, reverse, j);
    AllBlockedBetween(topo, k, r, failing, records, done, nodes, reverse, k, j);
    UnblockedSkip(topo, r, failing, k, j);
    UnblockedNext(topo, r, failing, j);
  }

  lemma {:induction false} AllBlockedBetween(topo: seq<Id>, k: nat, r: Rel, failing: set<Id>, records: Records,
                                             done: seq<Id>, nodes: set<Id>, reverse: SetMap, i: nat, j: nat)
    requires InStep(topo, k, r, failing, records, done) && Topological(r, nodes, topo) && Over(r, nodes)
    requires forall p, v {:trigger p in Kids(reverse, v)} :: p in Kids(reverse, v) ==> Edge(r, p, v)
    requires k <= i <= j <= |topo|
    requires forall m :: 0 <= m < j ==> !IsReady(reverse, records, topo[m])
    requires forall m :: k <= m < i ==> Blocked(r, failing, topo[m])
    ensures forall m :: k <= m < j ==> Blocked(r, failing, topo[m])
    decreases j - i
  {
    if i < j {
      if !Blocked(r, failing, topo[i]) {
        NextUnblockedIsReady(topo, k, r, failing, records, done, nodes, reverse, i);
      }
      AllBlockedBetween(topo, k, r, failing, records, done, nodes, reverse, i + 1, j);
    }
  }

  /** When nothing is ready any more, exactly the unblocked nodes have been run. */
  lemma NoneReady(topo: seq<Id>, k: nat, r: Rel, failing: set<Id>, records: Records, done: seq<Id>,
                  nodes: set<Id>, reverse: SetMap)
    requires InStep(topo, k, r, failing, records, done) && Topological(r, nodes, topo) && Over(r, nodes)
    requires forall p, v {:trigger p in Kids(reverse, v)} :: p in Kids(reverse, v) ==> Edge(r, p, v)
    requires forall i :: 0 <= i < |topo| ==> !IsReady(reverse, records, topo[i])
    ensures done == Unblocked(topo, r, failing)
  {
    AllBlockedBetween(topo, k, r, failing, records, done, nodes, reverse, k, |topo|);
    UnblockedSkip(topo, r, failing, k, |topo|);
    assert topo[..|topo|] == topo;
  }

  /** When every node is completed, nothing was failing and the whole order was run. */
  lemma AllDone(topo: seq<Id>, k: nat, r: Rel, failing: set<Id>, records: Records, done: seq<Id>)
    requires InStep(topo, k, r, failing, records, done) && NoDup(topo) && failing <= Elems(topo)
    requires forall v :: v in topo ==> v in records && records[v].status == Completed
    ensures failing == {} && done == topo
  {
    forall v | v in topo ensures v in done && v !in failing {
      assert StatusMatches(failing, records, done, v);
    }
    if k < |topo| {
      assert topo[k] in topo;
      UnblockedMembers(topo[..k], r, failing, topo[k]);
      assert false;
    }
    assert topo[..k] == topo;
    assert failing == {};
    NothingBlocked(topo, r);
  }

  /**
   What `execute` must do on a fresh state, for the fixed order `topo`: run everything when nothing
   fails; run exactly the nodes with no failing proper ancestor when all failures are tolerated;
   and stop at the first failure that is not.
   */
  ghost predicate Refines(topo: seq<Id>, r: Rel, failing: set<Id>, tolerated: set<Id>, outcome: Outcome,
                          records: Records, done: seq<Id>)
  {
    && StatusesMatch(topo, failing, records, done)
    && match outcome
    case Finished => failing == {} && done == topo
    case Stuck =>
      && failing != {}
      && done == Unblocked(topo, r, failing)
      && forall v :: v in done && v in failing ==> v in tolerated
    case NodeRaised(id) =>
      && id in failing && id !in tolerated
      && (exists j :: 0 <= j < |topo| && topo[j] == id && !Blocked(r, failing, id)
                      && done == Unblocked(topo[..j + 1], r, failing))
      && forall v :: v in done && v in failing && v != id ==> v in tolerated
    case UnknownNode => false
  }

  /** Nodes whose module fails on the empty input that `execute` gives every node. */
  ghost function FailingIds(nodes: seq<Id>, modules: map<Id, Module>, world: World): set<Id>
    requires Elems(nodes) <= modules.Keys
  {
    set v | v in nodes && !CanSucceed(modules[v], v, EMPTY_DICT, world)
  }

  ghost function ToleratedIds(nodes: seq<Id>, modules: map<Id, Module>): set<Id>
    requires Elems(nodes) <= modules.Keys
  {
    set v | v in nodes && Tolerates(modules[v], EMPTY_DICT)
  }

  ghost predicate InputsEmpty(topo: seq<Id>, records: Records) {
    forall v :: v in topo ==> v in records && records[v].input == EMPTY_DICT
  }

  ghost predicate Context(topo: seq<Id>, r: Rel, nodes: set<Id>, reverse: SetMap, failing: set<Id>) {
    && Topological(r, nodes, topo) && Over(r, nodes) && failing <= nodes
    && forall p, v {:trigger Edge(r, p, v)} {:trigger p in Kids(reverse, v)} :: Edge(r, p, v) <==> p in Kids(reverse, v)
  }

  /** One round takes `InStep` from position `k` to just past the node that was run. */
  lemma RoundKeepsStep(topo: seq<Id>, k: nat, r: Rel, nodes: set<Id>, reverse: SetMap, failing: set<Id>,
                       before: Records, after: Records, done: seq<Id>, id: Id) returns (j: nat)
    requires Context(topo, r, nodes, reverse, failing) && InStep(topo, k, r, failing, before, done)
    requires IsFirstReady(topo, reverse, before, id)
    requires id in after && after[id].status == if id in failing then Failed else Completed
    requires after.Keys == before.Keys && forall v :: v in before && v != id ==> after[v] == before[v]
    ensures 0 < j <= |topo| && topo[j - 1] == id && !Blocked(r, failing, id)
    ensures InStep(topo, j, r, failing, after, done + [id])
  {
    var i :| 0 <= i < |topo| && topo[i] == id && IsReady(reverse, before, id)
             && forall m :: 0 <= m < i ==> !IsReady(reverse, before, topo[m]);
    Advance(topo, k, r, failing, before, done, nodes, reverse, i);
    ReadyIsAhead(topo, k, r, failing, before, done, nodes, reverse, i);
    j := i + 1;
    forall v | v in topo ensures StatusMatches(failing, after, done + [id], v) {
      assert StatusMatches(failing, before, done, v);
    }
  }

  ghost predicate Midway(topo: seq<Id>, k: nat, r: Rel, failing: set<Id>, tolerated: set<Id>,
                         records: Records, done: seq<Id>) {
    && InStep(topo, k, r, failing, records, done)
    && InputsEmpty(topo, records)
    && forall v :: v in done && v in failing ==> v in tolerated
  }

  lemma FreshStart(topo: seq<Id>, r: Rel, failing: set<Id>, tolerated: set<Id>, records: Records)
    requires forall v :: v in topo ==> v in records && records[v] == Seed(map[], v)
    ensures Midway(topo, 0, r, failing, tolerated, records, [])
  {
    assert topo[..0] == [];
    forall v | v in topo ensures StatusMatches(failing, records, [], v) {
    }
  }

  lemma FinishRefines(topo: seq<Id>, k: nat, r: Rel, failing: set<Id>, tolerated: set<Id>, nodes: seq<Id>,
                      reverse: SetMap, records: Records, done: seq<Id>)
    requires Context(topo, r, Elems(nodes), reverse, failing)
    requires Midway(topo, k, r, failing, tolerated, records, done) && AllCompleted(nodes, records)
    ensures Refines(topo, r, failing, tolerated, Finished, records, done)
  {
    forall v | v in topo ensures records[v].status == Completed {
      assert v in Elems(topo);
    }
    AllDone(topo, k, r, failing, records, done);
  }

  lemma StuckRefines(topo: seq<Id>, k: nat, r: Rel, failing: set<Id>, tolerated: set<Id>, nodes: seq<Id>,
                     reverse: SetMap, records: Records, done: seq<Id>)
    requires Context(topo, r, Elems(nodes), reverse, failing)
    requires Midway(topo, k, r, failing, tolerated, records, done) && !AllCompleted(nodes, records)
    requires ReadyAmong(nodes, reverse, records) == []
    ensures Refines(topo, r, failing, tolerated, Stuck, records, done)
  {
    forall i | 0 <= i < |topo| ensures !IsReady(reverse, records, topo[i]) {
      assert topo[i] in Elems(topo);
      assert topo[i] !in ReadyAmong(nodes, reverse, records);
    }
    NoneReady(topo, k, r, failing, records, done, Elems(nodes), reverse);
    if failing == {} {
      NothingBlocked(topo, r);
      forall v | v in nodes ensures v in records && records[v].status == Completed {
        assert v in Elems(topo) && StatusMatches(failing, records, done, v);
      }
    }
  }

  lemma RoundRefines(topo: seq<Id>, k: nat, r: Rel, nodes: seq<Id>, modules: map<Id, Module>, world: World,
                     reverse: SetMap, before: Records, after: Records, done: seq<Id>, id: Id, raised: bool)
    returns (j: nat)
    requires Elems(nodes) <= modules.Keys && id in nodes
    requires Context(topo, r, Elems(nodes), reverse, FailingIds(nodes, modules, world))
    requires Midway(topo, k, r, FailingIds(nodes, modules, world), ToleratedIds(nodes, modules), before, done)
    requires IsFirstReady(topo, reverse, before, id)
    requires NodeRan(modules[id], id, world, before, after, raised)
    ensures var failing, tolerated := FailingIds(nodes, modules, world), ToleratedIds(nodes, modules);
      if raised then Refines(topo, r, failing, tolerated, NodeRaised(id), after, done + [id])
      else Midway(topo, j, r, failing, tolerated, after, done + [id])
  {
    var failing := FailingIds(nodes, modules, world);
    assert id in topo;
    assert before[id].input == EMPTY_DICT;
    assert id in failing <==> !CanSucceed(modules[id], id, EMPTY_DICT, world);
    j := RoundKeepsStep(topo, k, r, Elems(nodes), reverse, failing, before, after, done, id);
    if raised {
      assert topo[..j - 1 + 1] == topo[..j];
    }
  }

  datatype PassResult = UnknownId | AllComplete | NothingReady | Ran(id: Id, raised: bool)

  ghost predicate PassSpec(topo: seq<Id>, nodes: seq<Id>, modules: map<Id, Module>, reverse: SetMap, world: World,
                           p: PassResult, before: Records, after: Records)
  {
    match p
    case UnknownId => after == before && !AllKnown(nodes, before)
    case AllComplete => after == before && AllCompleted(nodes, before)
    case NothingReady =>
      && after == before && AllKnown(nodes, before) && !AllCompleted(nodes, before)
      && ReadyAmong(nodes, reverse, before) == []
    case Ran(id, raised) =>
      && id in nodes && id in modules
      && IsFirstReady(topo, reverse, before, id)
      && NodeRan(modules[id], id, world, before, after, raised)
  }

  function Reported(p: PassResult): Outcome {
    match p
    case UnknownId => UnknownNode
    case AllComplete => Finished
    case NothingReady => Stuck
    case Ran(id, _) => NodeRaised(id)
  }

  /** A pass either leaves the run midway or stops it with the outcome it should have. */
  ghost predicate Passed(topo: seq<Id>, j: nat, r: Rel, failing: set<Id>, tolerated: set<Id>, p: PassResult,
                         after: Records, done: seq<Id>)
  {
    if p.Ran? && !p.raised then Midway(topo, j, r, failing, tolerated, after, done)
    else Refines(topo, r, failing, tolerated, Reported(p), after, done)
  }

  lemma PassRefines(topo: seq<Id>, k: nat, r: Rel, nodes: seq<Id>, modules: map<Id, Module>, world: World,
                    reverse: SetMap, p: PassResult, before: Records, after: Records, done: seq<Id>, done': seq<Id>)
    returns (j: nat)
    requires Elems(nodes) <= modules.Keys
    requires Context(topo, r, Elems(nodes), reverse, FailingIds(nodes, modules, world))
    requires Midway(topo, k, r, FailingIds(nodes, modules, world), ToleratedIds(nodes, modules), before, done)
    requires PassSpec(topo, nodes, modules, reverse, world, p, before, after)
    requires done' == done + (if p.Ran? then [p.id] else [])
    ensures Passed(topo, j, r, FailingIds(nodes, modules, world), ToleratedIds(nodes, modules), p, after, done')
  {
    var failing, tolerated := FailingIds(nodes, modules, world), ToleratedIds(nodes, modules);
    j := k;
    assert done + [] == done;
    assert AllKnown(nodes, before) by {
      forall v | v in nodes ensures v in before {
        assert v in Elems(topo) && StatusMatches(failing, before, done, v);
      }
    }
    match p
    case UnknownId => assert false;
    case AllComplete => FinishRefines(topo, k, r, failing, tolerated, nodes, reverse, before, done);
    case NothingReady => StuckRefines(topo, k, r, failing, tolerated, nodes, reverse, before, done);
    case Ran(id, raised) =>
      j := RoundRefines(topo, k, r, nodes, modules, world, reverse, before, after, done, id, raised);
  }

  // ---------------------------------------------------------------- a run from any records

  /** What a run that began with `start` may have made of node `v`. */
  ghost predicate NodeRanFrom(v: Id, nodes: seq<Id>, r: Rel, modules: map<Id, Module>, world: World,
                              start: Records, records: Records)
    requires v in start && v in records
  {
    if v in nodes && start[v].status == Pending && records[v].status != Pending then
      && v in modules && records[v].input == start[v].input
      && (forall p :: p in ParentIds(r, nodes, v) ==> p in records && records[p].status == Completed)
      && (if CanSucceed(modules[v], v, start[v].input, world) then
            && records[v].status == Completed
            && exists k: nat :: FirstGood(v, start[v].input, world, k)
                                && records[v].output == Some(world(v, k, start[v].input).v)
          else records[v].status == Failed)
    else
      records[v] == start[v]
  }

  /** Pending nodes of the graph were run after all their parents were completed, or left; all else is untouched. */
  ghost predicate RanFrom(nodes: seq<Id>, r: Rel, modules: map<Id, Module>, world: World,
                          start: Records, records: Records)
  {
    start.Keys == records.Keys && forall v :: v in start ==> NodeRanFrom(v, nodes, r, modules, world, start, records)
  }

  /** Nodes that stop whatever depends on them: failed, or left running by someone else. */
  ghost function HaltedIds(nodes: seq<Id>, records: Records): set<Id> {
    set v | v in nodes && v in records && (records[v].status == Failed || records[v].status == Running)
  }

  /** Some node is halted, and every pending node has a halted proper ancestor. */
  ghost predicate StuckOn(nodes: seq<Id>, r: Rel, records: Records, halted: set<Id>) {
    && AllKnown(nodes, records) && halted != {}
    && forall v :: v in nodes && records[v].status == Pending ==> Blocked(r, halted, v)
  }

  /** When nothing is ready, every pending node is blocked by a halted one. */
  lemma {:induction false} NotReadyIsBlocked(nodes: seq<Id>, r: Rel, reverse: SetMap, records: Records, v: Id)
    requires Acyclic(r) && Over(r, Elems(nodes)) && AllKnown(nodes, records)
    requires forall p, v {:trigger p in Kids(reverse, v)} :: p in Kids(reverse, v) ==> Edge(r, p, v)
    requires ReadyAmong(nodes, reverse, records) == [] && v in nodes && records[v].status == Pending
    ensures Blocked(r, HaltedIds(nodes, records), v)
    decreases |Ancestors(r, Elems(nodes), v)|
  {
    assert v !in ReadyAmong(nodes, reverse, records);
    var p :| p in Kids(reverse, v) && !(p in records && records[p].status == Completed);
    assert Edge(r, p, v) && p in Elems(nodes);
    if records[p].status == Pending {
      FewerAncestors(r, Elems(nodes), p, v);
      NotReadyIsBlocked(nodes, r, reverse, records, p);
    }
    BlockedByParent(r, HaltedIds(nodes, records), p, v);
  }

  lemma NoneReadyIsStuck(nodes: seq<Id>, r: Rel, reverse: SetMap, records: Records)
    requires Acyclic(r) && Over(r, Elems(nodes)) && AllKnown(nodes, records) && !AllCompleted(nodes, records)
    requires forall p, v {:trigger p in Kids(reverse, v)} :: p in Kids(reverse, v) ==> Edge(r, p, v)
    requires ReadyAmong(nodes, reverse, records) == []
    ensures StuckOn(nodes, r, records, HaltedIds(nodes, records))
  {
    forall v | v in nodes && records[v].status == Pending ensures Blocked(r, HaltedIds(nodes, records), v) {
      NotReadyIsBlocked(nodes, r, reverse, records, v);
    }
    var v :| v in nodes && records[v].status != Completed;
    assert v in HaltedIds(nodes, records) || Blocked(r, HaltedIds(nodes, records), v);
  }

  /** The reason behind each outcome of a run that began with `start`. */
  ghost predicate OutcomeFits(nodes: seq<Id>, r: Rel, modules: map<Id, Module>, start: Records, records: Records,
                              o: Outcome)
  {
    match o
    case Finished => AllCompleted(nodes, records)
    case Stuck => StuckOn(nodes, r, records, HaltedIds(nodes, records))
    case NodeRaised(id) =>
      && id in nodes && id in modules && id in start && id in records
      && start[id].status == Pending && records[id].status == Failed && !Tolerates(modules[id], start[id].input)
    case UnknownNode => !AllKnown(nodes, start)
  }

  /** What `execute` starts from: in a fresh workflow, with an empty-dict input for each node not known yet. */
  ghost function StartRecords(nodes: seq<Id>, status: RunStatus, records: Records): Records {
    if status.Fresh? then map v | v in records.Keys + Elems(nodes) :: Seed(records, v) else records
  }

  lemma PassRanFrom(topo: seq<Id>, nodes: seq<Id>, r: Rel, modules: map<Id, Module>, reverse: SetMap, world: World,
                    start: Records, before: Records, after: Records, p: PassResult)
    requires RanFrom(nodes, r, modules, world, start, before)
    requires PassSpec(topo, nodes, modules, reverse, world, p, before, after) && p.Ran?
    requires forall p, v {:trigger Edge(r, p, v)} :: Edge(r, p, v) ==> p in Kids(reverse, v)
    ensures RanFrom(nodes, r, modules, world, start, after)
    ensures p.raised ==> OutcomeFits(nodes, r, modules, start, after, Reported(p))
  {
    assert NodeRanFrom(p.id, nodes, r, modules, world, start, before);
    forall v | v in start ensures NodeRanFrom(v, nodes, r, modules, world, start, after) {
      assert NodeRanFrom(v, nodes, r, modules, world, start, before);
      if v == p.id {
        assert IsReady(reverse, before, v);
        assert forall q :: q in ParentIds(r, nodes, v) ==> q in Kids(reverse, v);
      }
    }
  }

  /**
   From any records that know the graph: the run finishes exactly if every node of the graph is
   completed already, or pending with a module that can succeed on the input it has.
   */
  lemma FinishesExactly(nodes: seq<Id>, r: Rel, modules: map<Id, Module>, world: World, start: Records,
                        records: Records, o: Outcome)
    requires AllKnown(nodes, start) && Elems(nodes) <= modules.Keys
    requires RanFrom(nodes, r, modules, world, start, records) && OutcomeFits(nodes, r, modules, start, records, o)
    ensures o.Finished? <==> forall v :: v in nodes ==> WillComplete(modules, world, start, v)
  {
    forall v | v in nodes
      ensures v in start && NodeRanFrom(v, nodes, r, modules, world, start, records)
    {
    }
  }

  ghost predicate WillComplete(modules: map<Id, Module>, world: World, start: Records, v: Id) {
    && v in start && v in modules
    && (start[v].status == Completed
        || (start[v].status == Pending && CanSucceed(modules[v], v, start[v].input, world)))
  }

  // ---------------------------------------------------------------- the class

  ghost predicate IsFirstReady(topo: seq<Id>, reverse: SetMap, records: Records, id: Id) {
    exists j :: 0 <= j < |topo| && topo[j] == id && IsReady(reverse, records, id)
                && forall i :: 0 <= i < j ==> !IsReady(reverse, records, topo[i])
  }

  ghost predicate IsSelected(topo: seq<Id>, ready: seq<Id>, id: Id) {
    exists j :: 0 <= j < |topo| && topo[j] == id && id in ready && forall i :: 0 <= i < j ==> topo[i] !in ready
  }

  lemma SelectedIsFirst(topo: seq<Id>, nodes: seq<Id>, reverse: SetMap, records: Records, ready: seq<Id>, id: Id)
    requires Elems(topo) == Elems(nodes) && ready == ReadyAmong(nodes, reverse, records)
    requires ready != [] && ((exists v :: v in topo && v in ready) ==> IsSelected(topo, ready, id))
    ensures IsFirstReady(topo, reverse, records, id)
    ensures id in nodes
  {
    assert ready[0] in ready && ready[0] in Elems(nodes);
    assert ready[0] in topo;
    var j :| 0 <= j < |topo| && topo[j] == id && id in ready && forall i :: 0 <= i < j ==> topo[i] !in ready;
    forall i | 0 <= i < j ensures !IsReady(reverse, records, topo[i]) {
      assert topo[i] in Elems(topo);
    }
  }

  ghost predicate ParentsCompleted(r: Rel, history: seq<Event>, id: Id) {
    forall p {:trigger Edge(r, p, id)} :: Edge(r, p, id) ==> StatusAfter(history, p) == Completed
  }

  /**
   The only record that changes is that of `id`: completed with the first good output, or failed;
   the exception escapes exactly when the failure is not tolerated.
   */
  ghost predicate NodeRan(m: Module, id: Id, world: World, before: Records, after: Records, raised: bool) {
    && id in before && after.Keys == before.Keys
    && (forall v :: v in before && v != id ==> after[v] == before[v])
    && var input := before[id].input;
    && after[id].input == input
    && (raised <==> !CanSucceed(m, id, input, world) && !Tolerates(m, input))
    && (CanSucceed(m, id, input, world) ==>
          && after[id].status == Completed
          && exists k: nat :: FirstGood(id, input, world, k) && after[id].output == Some(world(id, k, input).v))
    && (!CanSucceed(m, id, input, world) ==> after[id].status == Failed && after[id].output == before[id].output)
  }

  lemma RanWell(m: Module, id: Id, world: World, before: Records, after: Records, k: nat)
    requires id in before && CanSucceed(m, id, before[id].input, world)
    requires FirstGood(id, before[id].input, world, k)
    requires after == before[id := before[id].(status := Completed, attempts := before[id].attempts + 1,
                                               output := Some(world(id, k, before[id].input).v))]
    ensures NodeRan(m, id, world, before, after, false)
  {
  }

  lemma RanBadly(m: Module, id: Id, world: World, before: Records, after: Records)
    requires id in before && !CanSucceed(m, id, before[id].input, world)
    requires after == before[id := before[id].(status := Failed, attempts := before[id].attempts + 1, hasError := true)]
    ensures NodeRan(m, id, world, before, after, !Tolerates(m, before[id].input))
  {
  }

  /** The existing record of `v`, or a new pending one with an empty-dict input. */
  ghost function Seed(records: Records, v: Id): NodeRecord {
    if v in records then records[v] else NodeRecord(Pending, EMPTY_DICT, None, false, 0)
  }

  ghost function PendingIn(nodes: seq<Id>, records: Records): set<Id> {
    set v | v in nodes && v in records && records[v].status == Pending
  }

  lemma PendingShrinks(m: Module, nodes: seq<Id>, id: Id, world: World, before: Records, after: Records, raised: bool)
    requires NodeRan(m, id, world, before, after, raised) && id in nodes && before[id].status == Pending
    ensures PendingIn(nodes, after) < PendingIn(nodes, before)
  {
    assert id in PendingIn(nodes, before) && id !in PendingIn(nodes, after);
  }

  /** A ready node may legally be started. */
  lemma ReadyMayStart(nodes: seq<Id>, adjacency: SetMap, reverse: SetMap, state: WorkflowState, id: Id)
    requires Coherent(nodes, adjacency, reverse) && state.Valid()
    requires id in nodes && IsReady(reverse, state.nodes, id)
    ensures StatusAfter(state.history, id) == Pending
    ensures ParentsCompleted(Edges(adjacency), state.history, id)
  {
    assert Recorded(state.nodes, state.executionOrder, state.history, id);
    forall p {:trigger Edge(Edges(adjacency), p, id)} | Edge(Edges(adjacency), p, id)
      ensures StatusAfter(state.history, p) == Completed
    {
      assert id in Kids(adjacency, p) && p in Kids(reverse, id);
      assert Recorded(state.nodes, state.executionOrder, state.history, p);
    }
  }

  /** Mark running, run the module, mark the result. */
  method RunNode(m: Module, id: Id, ghost parents: set<Id>, state: WorkflowState, world: World) returns (raised: bool)
    requires state.Valid() && id in state.nodes
    modifies state
    ensures state.Valid()
    ensures NodeRan(m, id, world, old(state.nodes), state.nodes, raised)
    ensures state.executionOrder == old(state.executionOrder) + [id]
    ensures state.status == if raised then Broken else old(state.status)
    ensures state.history == old(state.history) + [Started(id, parents)]
                             + [if state.nodes[id].status == Completed then Done(id) else Broke(id)]
  {
    var input := state.nodes[id].input;
    ghost var before := state.nodes;
    var _ := state.MarkNodeRunning(id, parents);
    var result, calls := Execute(m, id, input, world);
    if result.Success? {
      var _ := state.MarkNodeCompleted(id, result.output);
      RanWell(m, id, world, before, state.nodes, calls - 1);
      raised := false;
    } else {
      var _ := state.MarkNodeFailed(id);
      RanBadly(m, id, world, before, state.nodes);
      raised := result.Raised?;
      if raised {
        state.SetStatus(Broken);
      }
    }
  }

  lemma GraphContext(graph: WorkflowGraph, failing: set<Id>)
    requires graph.Valid() && failing <= Elems(graph.nodes)
    ensures Context(Order(graph.Net()), graph.EdgeSet(), Elems(graph.nodes), graph.reverse, failing)
  {
    OrderCorrect(graph.Net());
    EdgesOver(graph.Net());
    var r := graph.EdgeSet();
    forall p, v {:trigger Edge(r, p, v)} {:trigger p in Kids(graph.reverse, v)}
      ensures Edge(r, p, v) <==> p in Kids(graph.reverse, v)
    {
      assert v in Kids(graph.adjacency, p) <==> p in Kids(graph.reverse, v);
    }
  }

  /** A state that knows no node has an empty execution order. */
  lemma NothingStarted(state: WorkflowState)
    requires state.Valid() && state.nodes == map[]
    ensures state.executionOrder == []
  {
    forall v ensures v !in state.executionOrder {
      assert Recorded(state.nodes, state.executionOrder, state.history, v);
    }
    NoMembers(state.executionOrder);
  }

  class WorkflowExecutor {
    var graph: WorkflowGraph

    constructor (graph: WorkflowGraph)
      ensures this.graph == graph
    {
      this.graph := graph;
    }

    ghost predicate Ready(state: WorkflowState) reads this, graph, state {
      graph.Valid() && state.Valid() && Legal(state.history)
    }

    /** Runs one pending node whose parents are all completed. */
    method ExecuteNode(id: Id, state: WorkflowState, world: World) returns (raised: bool)
      requires Ready(state) && id in graph.nodes && id in state.nodes
      requires StatusAfter(state.history, id) == Pending && ParentsCompleted(graph.EdgeSet(), state.history, id)
      modifies state
      ensures Ready(state)
      ensures NodeRan(graph.modules[id], id, world, old(state.nodes), state.nodes, raised)
      ensures state.executionOrder == old(state.executionOrder) + [id]
      ensures state.status == if raised then Broken else old(state.status)
      ensures state.history == old(state.history) + [Started(id, ParentIds(graph.EdgeSet(), graph.nodes, id))]
                               + [if state.nodes[id].status == Completed then Done(id) else Broke(id)]
    {
      ghost var parents := ParentIds(graph.EdgeSet(), graph.nodes, id);
      ghost var h := state.history;
      raised := RunNode(graph.modules[id], id, parents, state, world);
      AppendRun(h, id, parents, if state.nodes[id].status == Completed then Done(id) else Broke(id));
    }

    /** The first entry of the (recomputed) topological order that is ready, else the first ready node. */
    method SelectNextNode(ready: seq<Id>) returns (id: Id)
      requires graph.Valid() && ready != []
      ensures id in ready
      ensures (exists v :: v in Order(graph.Net()) && v in ready) ==> IsSelected(Order(graph.Net()), ready, id)
    {
      var r := graph.GetTopologicalOrder();
      var topo := r.value;
      var i := 0;
      while i < |topo|
        invariant 0 <= i <= |topo|
        invariant forall m :: 0 <= m < i ==> topo[m] !in ready
      {
        if topo[i] in ready {
          return topo[i];
        }
        i := i + 1;
      }
      return ready[0];
    }

    /** `_initialize_state`: an empty-dict input for every graph node the state does not know yet. */
    method InitializeState(state: WorkflowState)
      requires Ready(state)
      modifies state
      ensures Ready(state)
      ensures state.status == old(state.status) && state.executionOrder == old(state.executionOrder)
      ensures state.history == old(state.history)
      ensures forall v :: v in state.nodes <==> v in old(state.nodes) || v in graph.nodes
      ensures forall v :: v in state.nodes ==> state.nodes[v] == Seed(old(state.nodes), v)
    {
      var i := 0;
      while i < |graph.nodes|
        invariant 0 <= i <= |graph.nodes|
        invariant Ready(state)
        invariant state.status == old(state.status) && state.executionOrder == old(state.executionOrder)
        invariant state.history == old(state.history)
        invariant forall v :: v in state.nodes <==> v in old(state.nodes) || v in graph.nodes[..i]
        invariant forall v :: v in state.nodes ==> state.nodes[v] == Seed(old(state.nodes), v)
      {
        var v := graph.nodes[i];
        assert graph.nodes[..i + 1] == graph.nodes[..i] + [v];
        if v !in state.nodes {
          var _ := state.InitializeNode(v, EMPTY_DICT);
        }
        i := i + 1;
      }
      assert graph.nodes[..|graph.nodes|] == graph.nodes;
    }

    method SelectFirstReady(ready: seq<Id>, state: WorkflowState) returns (id: Id)
      requires graph.Valid() && ready == ReadyAmong(graph.nodes, graph.reverse, state.nodes) && ready != []
      ensures id in graph.nodes && IsReady(graph.reverse, state.nodes, id)
      ensures IsFirstReady(Order(graph.Net()), graph.reverse, state.nodes, id)
    {
      id := SelectNextNode(ready);
      OrderCorrect(graph.Net());
      SelectedIsFirst(Order(graph.Net()), graph.nodes, graph.reverse, state.nodes, ready, id);
    }

    method RunReady(id: Id, state: WorkflowState, world: World) returns (raised: bool)
      requires Ready(state) && id in graph.nodes && IsReady(graph.reverse, state.nodes, id)
      modifies state
      ensures Ready(state)
      ensures NodeRan(graph.modules[id], id, world, old(state.nodes), state.nodes, raised)
      ensures state.executionOrder == old(state.executionOrder) + [id]
      ensures state.status == if raised then Broken else old(state.status)
      ensures old(state.history) <= state.history
      ensures PendingIn(graph.nodes, state.nodes) < PendingIn(graph.nodes, old(state.nodes))
    {
      ghost var before := state.nodes;
      ReadyMayStart(graph.nodes, graph.adjacency, graph.reverse, state, id);
      raised := ExecuteNode(id, state, world);
      PendingShrinks(graph.modules[id], graph.nodes, id, world, before, state.nodes, raised);
    }

    /** One pass of the `while True` body, up to the decision to stop. */
    method Pass(state: WorkflowState, world: World) returns (p: PassResult)
      requires Ready(state)
      modifies state
      ensures Ready(state) && old(state.history) <= state.history
      ensures PassSpec(Order(graph.Net()), graph.nodes, graph.modules, graph.reverse, world, p, old(state.nodes),
        state.nodes)
      ensures state.executionOrder == old(state.executionOrder) + (if p.Ran? then [p.id] else [])
      ensures state.status == if p.Ran? && p.raised then Broken else old(state.status)
      ensures p.Ran? ==> PendingIn(graph.nodes, state.nodes) < PendingIn(graph.nodes, old(state.nodes))
    {
      var complete := graph.IsComplete(state);
      if complete.None? {
        return UnknownId;
      }
      if complete.value {
        return AllComplete;
      }
      var ready := graph.GetReadyNodes(state);
      if ready.None? {
        return UnknownId;
      }
      if ready.value == [] {
        return NothingReady;
      }
      var id := SelectFirstReady(ready.value, state);
      var raised := RunReady(id, state, world);
      return Ran(id, raised);
    }

    /** What `execute` does before its loop. */
    method Begin(state: WorkflowState, ghost topo: seq<Id>, ghost failing: set<Id>, ghost tolerated: set<Id>)
      requires Ready(state) && Context(topo, graph.EdgeSet(), Elems(graph.nodes), graph.reverse, failing)
      modifies state
      ensures Ready(state) && state.history == old(state.history) && state.status.InProgress?
      ensures state.nodes == StartRecords(graph.nodes, old(state.status), old(state.nodes))
      ensures old(state.status.Fresh? && state.nodes == map[]) ==>
        Midway(topo, 0, graph.EdgeSet(), failing, tolerated, state.nodes, state.executionOrder)
    {
      ghost var isFresh := state.status.Fresh? && state.nodes == map[];
      if isFresh {
        NothingStarted(state);
      }
      if state.status.Fresh? {
        InitializeState(state);
      }
      if isFresh {
        assert forall v :: v in topo ==> v in Elems(topo);
        FreshStart(topo, graph.EdgeSet(), failing, tolerated, state.nodes);
      }
      state.SetStatus(InProgress);
    }

    /**
     Terminates on every state.  From any records it runs pending graph nodes only, and each outcome has
     its reason; on a fresh state it does exactly what `Refines` says.
     */
    method Execute(state: WorkflowState, world: World) returns (outcome: Outcome)
      requires Ready(state)
      modifies state
      ensures Ready(state) && old(state.history) <= state.history
      ensures old(state.status.Fresh? && state.nodes == map[]) ==>
        Refined(outcome, state, world)
      ensures Keeps(world, StartRecords(graph.nodes, old(state.status), old(state.nodes)), state.nodes)
      ensures Fits(StartRecords(graph.nodes, old(state.status), old(state.nodes)), state.nodes, outcome)
      ensures outcome.Finished? <==> state.status.Succeeded?
    {
      ghost var isFresh := state.status.Fresh? && state.nodes == map[];
      ghost var topo, failing := Order(graph.Net()), FailingIds(graph.nodes, graph.modules, world);
      ghost var k := 0;
      GraphContext(graph, failing);
      Begin(state, topo, failing, ToleratedIds(graph.nodes, graph.modules));
      ghost var start := state.nodes;
      while true
        invariant Ready(state) && old(state.history) <= state.history
        invariant state.status.InProgress?
        invariant Keeps(world, start, state.nodes)
        invariant isFresh ==> OnTrack(k, state, world)
        decreases PendingIn(graph.nodes, state.nodes)
      {
        var p;
        ghost var before := state.nodes;
        p, k := TrackedPass(state, world, isFresh, k);
        PassFits(world, start, before, state.nodes, p);
        if !(p.Ran? && !p.raised) {
          return Reported(p);
        }
      }
    }

    ghost predicate Keeps(world: World, start: Records, records: Records)
      reads this, graph
    {
      RanFrom(graph.nodes, graph.EdgeSet(), graph.modules, world, start, records)
    }

    ghost predicate Fits(start: Records, records: Records, o: Outcome)
      reads this, graph
    {
      OutcomeFits(graph.nodes, graph.EdgeSet(), graph.modules, start, records, o)
    }

    /** A pass keeps what the run did so far, and when it ends the run its outcome has a reason. */
    lemma PassFits(world: World, start: Records, before: Records, after: Records, p: PassResult)
      requires graph.Valid() && Keeps(world, start, before)
      requires PassSpec(Order(graph.Net()), graph.nodes, graph.modules, graph.reverse, world, p, before, after)
      ensures Keeps(world, start, after)
      ensures (p.Ran? && !p.raised) || Fits(start, after, Reported(p))
    {
      GraphContext(graph, {});
      EdgesOver(graph.Net());
      if p.Ran? {
        PassRanFrom(Order(graph.Net()), graph.nodes, graph.EdgeSet(), graph.modules, graph.reverse, world,
                    start, before, after, p);
      }
      if p.NothingReady? {
        NoneReadyIsStuck(graph.nodes, graph.EdgeSet(), graph.reverse, after);
      }
    }

    /** A fresh run has got to position `k` of the topological order, as it should. */
    ghost predicate OnTrack(k: nat, state: WorkflowState, world: World)
      requires graph.Valid()
      reads this, graph, state
    {
      Midway(Order(graph.Net()), k, graph.EdgeSet(), FailingIds(graph.nodes, graph.modules, world),
             ToleratedIds(graph.nodes, graph.modules), state.nodes, state.executionOrder)
    }

    ghost predicate Refined(outcome: Outcome, state: WorkflowState, world: World)
      requires graph.Valid()
      reads this, graph, state
    {
      Refines(Order(graph.Net()), graph.EdgeSet(), FailingIds(graph.nodes, graph.modules, world),
              ToleratedIds(graph.nodes, graph.modules), outcome, state.nodes, state.executionOrder)
    }

    /** One pass of the loop body, with the workflow status it sets when it ends the loop. */
    method TrackedPass(state: WorkflowState, world: World, ghost isFresh: bool, ghost k: nat)
      returns (p: PassResult, ghost k': nat)
      requires Ready(state) && (isFresh ==> OnTrack(k, state, world))
      modifies state
      ensures Ready(state) && old(state.history) <= state.history
      ensures isFresh ==>
        Passed(Order(graph.Net()), k', graph.EdgeSet(), FailingIds(graph.nodes, graph.modules, world),
               ToleratedIds(graph.nodes, graph.modules), p, state.nodes, state.executionOrder)
      ensures state.status == match p
                              case AllComplete => Succeeded
                              case NothingReady => Broken
                              case UnknownId => old(state.status)
                              case Ran(_, raised) => if raised then Broken else old(state.status)
      ensures PassSpec(Order(graph.Net()), graph.nodes, graph.modules, graph.reverse, world, p, old(state.nodes),
        state.nodes)
      ensures p.Ran? ==> PendingIn(graph.nodes, state.nodes) < PendingIn(graph.nodes, old(state.nodes))
    {
      ghost var before, done := state.nodes, state.executionOrder;
      ghost var topo, r := Order(graph.Net()), graph.EdgeSet();
      ghost var nodes, modules, reverse := graph.nodes, graph.modules, graph.reverse;
      k' := k;
      p := Pass(state, world);
      if p.AllComplete? {
        state.SetStatus(Succeeded);
      } else if p.NothingReady? {
        state.SetStatus(Broken);
      }
      if isFresh {
        GraphContext(graph, FailingIds(nodes, modules, world));
        k' := PassRefines(topo, k, r, nodes, modules, world, reverse, p, before, state.nodes, done,
          state.executionOrder);
      }
    }
  }
}
