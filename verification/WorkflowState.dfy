/** The per-node status machine shared by the executor, the controller and every replan. */
module WorkflowStates {
  import opened Basics

  datatype NodeStatus = Pending | Running | Completed | Failed

  /** "initialized", "running", "completed" and "failed" for the workflow as a whole. */
  datatype RunStatus = Fresh | InProgress | Succeeded | Broken

  datatype NodeRecord = NodeRecord(
    status: NodeStatus, input: Value, output: Option<Value>, hasError: bool, attempts: nat)

  type Records = map<Id, NodeRecord>

  // ---------------------------------------------------------------- histories

  /** A status change, with the parents the graph in force demanded when the node was started. */
  datatype Event =
    | Started(id: Id, parents: set<Id>)
    | Done(id: Id)
    | Broke(id: Id)

  ghost function StatusAfter(history: seq<Event>, id: Id): NodeStatus {
    if history == [] then Pending
    else
      var e := history[|history| - 1];
      if e.id != id then StatusAfter(history[..|history| - 1], id)
      else match e case Started(_, _) => Running case Done(_) => Completed case Broke(_) => Failed
  }

  ghost function StartedIds(history: seq<Event>): seq<Id> {
    if history == [] then []
    else
      var e := history[|history| - 1];
      StartedIds(history[..|history| - 1]) + (if e.Started? then [e.id] else [])
  }

  ghost predicate LegalNext(history: seq<Event>, e: Event) {
    match e
    case Started(id, parents) =>
      && StatusAfter(history, id) == Pending
      && forall p :: p in parents ==> StatusAfter(history, p) == Completed
    case Done(id) => StatusAfter(history, id) == Running
    case Broke(id) => StatusAfter(history, id) == Running || StatusAfter(history, id) == Failed
  }

  /** Every event was allowed by the events before it. */
  ghost predicate Legal(history: seq<Event>) {
    forall i {:trigger LegalNext(history[..i], history[i])} :: 0 <= i < |history| ==>
      LegalNext(history[..i], history[i])
  }

  lemma AppendEvent(history: seq<Event>, e: Event)
    ensures StartedIds(history + [e]) == StartedIds(history) + (if e.Started? then [e.id] else [])
    ensures forall id :: id != e.id ==> StatusAfter(history + [e], id) == StatusAfter(history, id)
    ensures StatusAfter(history + [e], e.id)
         == match e case Started(_, _) => Running case Done(_) => Completed case Broke(_) => Failed
  {
    assert (history + [e])[..|history|] == history;
  }

  lemma AppendLegal(history: seq<Event>, e: Event)
    requires Legal(history) && LegalNext(history, e)
    ensures Legal(history + [e])
  {
    var h := history + [e];
    forall i {:trigger LegalNext(h[..i], h[i])} | 0 <= i < |h| ensures LegalNext(h[..i], h[i]) {
      if i < |history| {
        assert LegalNext(history[..i], history[i]);
        assert h[..i] == history[..i];
      } else {
        assert h[..i] == history;
      }
    }
  }

  /** Starting a ready node and then finishing it, well or badly, is legal. */
  lemma AppendRun(history: seq<Event>, id: Id, parents: set<Id>, last: Event)
    requires Legal(history) && LegalNext(history, Started(id, parents))
    requires last == Done(id) || last == Broke(id)
    ensures Legal(history + [Started(id, parents)] + [last])
    ensures StatusAfter(history + [Started(id, parents)] + [last], id) == if last.Done? then Completed else Failed
    ensures forall v :: v != id ==> StatusAfter(history + [Started(id, parents)] + [last], v) == StatusAfter(history, v)
    ensures StartedIds(history + [Started(id, parents)] + [last]) == StartedIds(history) + [id]
  {
    AppendLegal(history, Started(id, parents));
    AppendEvent(history, Started(id, parents));
    AppendLegal(history + [Started(id, parents)], last);
    AppendEvent(history + [Started(id, parents)], last);
  }

  lemma LegalPrefix(history: seq<Event>, i: nat)
    requires Legal(history) && i <= |history|
    ensures Legal(history[..i])
  {
    var h := history[..i];
    forall k {:trigger LegalNext(h[..k], h[k])} | 0 <= k < i ensures LegalNext(h[..k], h[k]) {
      assert LegalNext(history[..k], history[k]);
      assert history[..i][..k] == history[..k];
    }
  }

  /** A node that was never started is pending, and conversely. */
  lemma {:induction false} PendingMeansUnstarted(history: seq<Event>, id: Id)
    requires Legal(history)
    ensures StatusAfter(history, id) == Pending <==> id !in StartedIds(history)
  {
    if history == [] {
    } else {
      var n := |history| - 1;
      LegalPrefix(history, n);
      PendingMeansUnstarted(history[..n], id);
      assert LegalNext(history[..n], history[n]);
    }
  }

  /** No node is ever started twice. */
  lemma {:induction false} StartedOnce(history: seq<Event>)
    requires Legal(history)
    ensures NoDup(StartedIds(history))
  {
    if history == [] {
    } else {
      var n := |history| - 1;
      LegalPrefix(history, n);
      StartedOnce(history[..n]);
      assert LegalNext(history[..n], history[n]);
      PendingMeansUnstarted(history[..n], history[n].id);
    }
  }

  /** `completed` and `failed` are final, however many plans follow. */
  lemma {:induction false} EndedIsFinal(history: seq<Event>, i: nat, id: Id)
    requires Legal(history) && i <= |history|
    requires StatusAfter(history[..i], id) == Completed || StatusAfter(history[..i], id) == Failed
    ensures StatusAfter(history, id) == StatusAfter(history[..i], id)
  {
    if i == |history| {
      assert history[..i] == history;
    } else {
      var n := |history| - 1;
      LegalPrefix(history, n);
      assert history[..n][..i] == history[..i];
      EndedIsFinal(history[..n], i, id);
      assert LegalNext(history[..n], history[n]);
    }
  }

  /** In a legal history each started node had every required parent completed then, and for good. */
  lemma ParentsCompletedAtStart(history: seq<Event>, i: nat, p: Id)
    requires Legal(history) && i < |history| && history[i].Started? && p in history[i].parents
    ensures StatusAfter(history[..i], p) == Completed
    ensures StatusAfter(history, p) == Completed
  {
    assert LegalNext(history[..i], history[i]);
    EndedIsFinal(history, i, p);
  }

  ghost function Occurrences(ids: seq<Id>, id: Id): nat {
    multiset(ids)[id]
  }

  ghost predicate Recorded(nodes: Records, executionOrder: seq<Id>, history: seq<Event>, id: Id) {
    if id in nodes then
      nodes[id].status == StatusAfter(history, id) && nodes[id].attempts == Occurrences(executionOrder, id)
    else
      StatusAfter(history, id) == Pending && id !in executionOrder
  }

  // ---------------------------------------------------------------- the class

  class WorkflowState {
    var status: RunStatus
    var nodes: Records
    var executionOrder: seq<Id>
    ghost var history: seq<Event>

    /** The records, the execution order and the recorded history tell the same story. */
    ghost predicate Valid() reads this {
      && executionOrder == StartedIds(history)
      && forall id {:trigger Recorded(nodes, executionOrder, history, id)} ::
          Recorded(nodes, executionOrder, history, id)
    }

    constructor ()
      ensures Valid() && status == Fresh && nodes == map[] && executionOrder == [] && history == []
    {
      status := Fresh;
      nodes := map[];
      executionOrder := [];
      history := [];
    }

    method SetStatus(s: RunStatus)
      requires Valid()
      modifies this`status
      ensures Valid() && status == s
    {
      status := s;
    }

    /** Refuses (ValueError) a node that is already there. */
    method InitializeNode(id: Id, input: Value) returns (ok: bool)
      requires Valid()
      modifies this`nodes
      ensures Valid()
      ensures ok <==> id !in old(nodes)
      ensures nodes == if ok then old(nodes)[id := NodeRecord(Pending, input, None, false, 0)] else old(nodes)
    {
      if id in nodes {
        return false;
      }
      nodes := nodes[id := NodeRecord(Pending, input, None, false, 0)];
      forall v ensures Recorded(nodes, executionOrder, history, v) {
        assert Recorded(old(nodes), executionOrder, history, v);
      }
      return true;
    }

    method SetInput(id: Id, input: Value)
      requires Valid() && id in nodes
      modifies this`nodes
      ensures Valid()
      ensures nodes == old(nodes)[id := old(nodes)[id].(input := input)]
    {
      nodes := nodes[id := nodes[id].(input := input)];
      forall v ensures Recorded(nodes, executionOrder, history, v) {
        assert Recorded(old(nodes), executionOrder, history, v);
      }
    }

    /** The three `mark_node_*` methods raise on an unknown id and change nothing then. */
    method MarkNodeRunning(id: Id, ghost parents: set<Id>) returns (ok: bool)
      requires Valid()
      modifies this`nodes, this`executionOrder, this`history
      ensures Valid()
      ensures ok <==> id in old(nodes)
      ensures !ok ==> nodes == old(nodes) && executionOrder == old(executionOrder) && history == old(history)
      ensures ok ==> nodes == old(nodes)[id :=
        old(nodes)[id].(status := Running, attempts := old(nodes)[id].attempts + 1)]
      ensures ok ==> executionOrder == old(executionOrder) + [id]
      ensures ok ==> history == old(history) + [Started(id, parents)]
    {
      if id !in nodes {
        return false;
      }
      AppendEvent(history, Started(id, parents));
      nodes := nodes[id := nodes[id].(status := Running, attempts := nodes[id].attempts + 1)];
      executionOrder := executionOrder + [id];
      history := history + [Started(id, parents)];
      forall v ensures Recorded(nodes, executionOrder, history, v) {
        assert Recorded(old(nodes), old(executionOrder), old(history), v);
      }
      return true;
    }

    method MarkNodeCompleted(id: Id, output: Value) returns (ok: bool)
      requires Valid()
      modifies this`nodes, this`history
      ensures Valid()
      ensures ok <==> id in old(nodes)
      ensures !ok ==> nodes == old(nodes) && history == old(history)
      ensures ok ==> nodes == old(nodes)[id := old(nodes)[id].(status := Completed, output := Some(output))]
      ensures ok ==> history == old(history) + [Done(id)]
    {
      if id !in nodes {
        return false;
      }
      AppendEvent(history, Done(id));
      nodes := nodes[id := nodes[id].(status := Completed, output := Some(output))];
      history := history + [Done(id)];
      forall v ensures Recorded(nodes, executionOrder, history, v) {
        assert Recorded(old(nodes), old(executionOrder), old(history), v);
      }
      return true;
    }

    method MarkNodeFailed(id: Id) returns (ok: bool)
      requires Valid()
      modifies this`nodes, this`history
      ensures Valid()
      ensures ok <==> id in old(nodes)
      ensures !ok ==> nodes == old(nodes) && history == old(history)
      ensures ok ==> nodes == old(nodes)[id := old(nodes)[id].(status := Failed, hasError := true)]
      ensures ok ==> history == old(history) + [Broke(id)]
    {
      if id !in nodes {
        return false;
      }
      AppendEvent(history, Broke(id));
      nodes := nodes[id := nodes[id].(status := Failed, hasError := true)];
      history := history + [Broke(id)];
      forall v ensures Recorded(nodes, executionOrder, history, v) {
        assert Recorded(old(nodes), old(executionOrder), old(history), v);
      }
      return true;
    }
  }

  /**
   What a legal history means for the records: every node was attempted at most once, pending is
   exactly "not yet started", and the execution order names nobody twice.
   */
  lemma LegalRecords(nodes: Records, executionOrder: seq<Id>, history: seq<Event>, id: Id)
    requires Legal(history) && executionOrder == StartedIds(history) && id in nodes
    requires Recorded(nodes, executionOrder, history, id)
    ensures NoDup(executionOrder)
    ensures nodes[id].attempts == if id in executionOrder then 1 else 0
    ensures nodes[id].status == Pending <==> nodes[id].attempts == 0
  {
    StartedOnce(history);
    PendingMeansUnstarted(history, id);
    OccursOnce(executionOrder, id);
  }

  lemma {:induction false} OccursOnce(ids: seq<Id>, id: Id)
    requires NoDup(ids)
    ensures Occurrences(ids, id) == if id in ids then 1 else 0
  {
    if ids == [] {
    } else {
      assert ids == [ids[0]] + ids[1..];
      OccursOnce(ids[1..], id);
    }
  }
}
