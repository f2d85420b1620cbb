/** Dynamic execution: a router, which may answer anything, decides batch by batch what runs. */
module DynamicRuns {
  import opened Basics

  const NODE_ID := Id("nodeID")
  const INPUT := Id("input")

  /** The k-th router call; and the run of a node, by its position in the history. */
  type RouterFn = nat -> Attempt
  type NodeFn = (nat, Id, Value) -> Attempt

  datatype Parsed = Steps(items: seq<Value>) | Terminal(d: map<Id, Value>) | BadReply

  datatype Outcome =
    | ReturnsDict(d: map<Id, Value>)
    | ReturnsOutputs
    | RouterFailed
    | InvalidBatch
    | NodeFailed(id: Id)
    | CutOff

  // ---------------------------------------------------------------- reading router replies

  const STEP_KEYS: seq<Id> := [Id("next_steps"), Id("steps"), Id("nodes"), Id("data"), Id("result")]

  /** The first of `keys` under which `m` holds a list. */
  function FirstList(m: map<Id, Value>, keys: seq<Id>): (r: Option<seq<Value>>)
    ensures r.Some? <==> exists k :: k in keys && k in m && m[k].List?
    ensures r.Some? ==> exists k :: k in keys && k in m && m[k] == List(r.value)
  {
    if keys == [] then None
    else if keys[0] in m && m[keys[0]].List? then Some(m[keys[0]].items)
    else FirstList(m, keys[1..])
  }

  /**
   `_call_router`: None means no steps; a dict with several keys is a final answer; a dict with one
   recognised key holding a list is that list; an empty dict means no steps; a list is itself.
   */
  function Parse(v: Value): Parsed {
    match v
    case Null => Steps([])
    case List(items) => Steps(items)
    case Dict(m) =>
      if |m| > 1 then Terminal(m)
      else
        var found := FirstList(m, STEP_KEYS);
        if found.Some? then Steps(found.value)
        else if m == map[] then Steps([])
        else BadReply
    case _ => BadReply
  }

  /** The keys under which a router may wrap its list of steps. */
  ghost predicate IsStepKey(k: Id) {
    || k.name == "next_steps" || k.name == "steps" || k.name == "nodes" || k.name == "data" || k.name == "result"
  }

  /** The reply carries this list of steps, bare or as the only entry of a dict, under a recognised key. */
  ghost predicate Carries(v: Value, steps: seq<Value>) {
    v == List(steps) || exists k :: IsStepKey(k) && v == Dict(map[k := List(steps)])
  }

  /** The reply says that nothing is left to run: None, an empty dict, or an empty list of steps. */
  ghost predicate SaysDone(v: Value) {
    v == Null || v == Dict(map[]) || Carries(v, [])
  }

  ghost predicate IsFinalAnswer(v: Value, d: map<Id, Value>) {
    v == Dict(d) && |d| > 1
  }

  /** Neither steps, nor an end, nor a final answer. */
  ghost predicate Unreadable(v: Value) {
    && !SaysDone(v) && (forall steps :: !Carries(v, steps)) && forall d :: !IsFinalAnswer(v, d)
  }

  /** What a reply means, case by case, in terms of the reply itself. */
  lemma ParseMeaning(v: Value)
    ensures forall steps :: steps != [] ==> (Parse(v) == Steps(steps) <==> Carries(v, steps))
    ensures Parse(v) == Steps([]) <==> SaysDone(v)
    ensures forall d :: Parse(v) == Terminal(d) <==> IsFinalAnswer(v, d)
    ensures Parse(v).BadReply? <==> Unreadable(v)
  {
    StepKeys();
    if v.Dict? && |v.entries| <= 1 && v.entries != map[] {
      var k :| k in v.entries;
      SingleEntry(v.entries, k);
      forall key, steps | v == Dict(map[key := List(steps)]) ensures key == k && v.entries[k] == List(steps) {
        assert key in map[key := List(steps)];
      }
    }
    if v.Dict? {
      forall key, steps | v == Dict(map[key := List(steps)]) ensures |v.entries| == 1 {
      }
    }
  }

  lemma StepKeys()
    ensures forall k :: k in STEP_KEYS <==> IsStepKey(k)
  {
    forall k | IsStepKey(k) ensures k in STEP_KEYS {
      assert k == Id(k.name);
      assert STEP_KEYS[0] in STEP_KEYS && STEP_KEYS[1] in STEP_KEYS && STEP_KEYS[2] in STEP_KEYS
             && STEP_KEYS[3] in STEP_KEYS && STEP_KEYS[4] in STEP_KEYS;
    }
  }

  lemma SingleEntry(m: map<Id, Value>, k: Id)
    requires |m| <= 1 && k in m
    ensures m == map[k := m[k]]
  {
    assert |m.Keys| == |m|;
    SubsetSize({k}, m.Keys);
  }

  /** The step asks for the node with this id. */
  ghost predicate Names(step: Value, id: Id) {
    step.Dict? && Id("nodeID") in step.entries && step.entries[Id("nodeID")] == Str(id.name)
  }

  /** The step asks to run node `id` on `input`: an empty dict when it gives none, wrapped when it is not a dict. */
  ghost predicate Asks(step: Value, id: Id, input: Value) {
    && Names(step, id)
    && (Id("input") !in step.entries ==> input == Dict(map[]))
    && (Id("input") in step.entries ==>
          var x := step.entries[Id("input")];
          input == if x.Dict? then x else Dict(map[Id("data") := x]))
  }

  /** `_validate_router_response` accepts a step exactly if it names a known node other than the router. */
  ghost predicate ValidStep(step: Value, nodes: set<Id>, router: Id) {
    exists id :: Names(step, id) && id.name != "" && id in nodes && id != router
  }

  ghost predicate ValidBatch(steps: seq<Value>, nodes: set<Id>, router: Id) {
    forall i :: 0 <= i < |steps| ==> ValidStep(steps[i], nodes, router)
  }

  method ValidateStep(step: Value, nodes: set<Id>, router: Id) returns (ok: bool)
    ensures ok <==> ValidStep(step, nodes, router)
  {
    if !step.Dict? || NODE_ID !in step.entries || !step.entries[NODE_ID].Str? || step.entries[NODE_ID].s == "" {
      return false;
    }
    var id := Id(step.entries[NODE_ID].s);
    if id !in nodes || id == router {
      return false;
    }
    assert Names(step, id);
    return true;
  }

  method ValidateBatch(steps: seq<Value>, nodes: set<Id>, router: Id) returns (ok: bool)
    ensures ok <==> ValidBatch(steps, nodes, router)
  {
    var i := 0;
    while i < |steps|
      invariant 0 <= i <= |steps| && ValidBatch(steps[..i], nodes, router)
    {
      var valid := ValidateStep(steps[i], nodes, router);
      if !valid {
        return false;
      }
      assert steps[..i + 1] == steps[..i] + [steps[i]];
      i := i + 1;
    }
    assert steps[..i] == steps;
    return true;
  }

  /** What a valid step asks for. */
  method ReadStep(step: Value, ghost nodes: set<Id>, ghost router: Id) returns (id: Id, input: Value)
    requires ValidStep(step, nodes, router)
    ensures Asks(step, id, input) && id in nodes && id != router
  {
    id := Id(step.entries[NODE_ID].s);
    ghost var named :| Names(step, named) && named.name != "" && named in nodes && named != router;
    assert named == id;
    input := if INPUT in step.entries then step.entries[INPUT] else EMPTY_DICT;
    if !input.Dict? {
      input := Wrap(input);
    }
  }

  // ---------------------------------------------------------------- what a run has done

  ghost function Flatten(batches: seq<seq<Value>>): seq<Value> {
    if batches == [] then [] else Flatten(batches[..|batches| - 1]) + batches[|batches| - 1]
  }

  /** The most recent value stored for each id. */
  ghost function Latest(history: seq<Id>, values: seq<Value>): map<Id, Value>
    requires |history| == |values|
  {
    if history == [] then map[]
    else
      var n := |history| - 1;
      Latest(history[..n], values[..n])[history[n] := values[n]]
  }

  /** `outputs` has a key exactly for each id that ran, holding the result of its last run. */
  lemma {:induction false} LatestExact(history: seq<Id>, values: seq<Value>, v: Id)
    requires |history| == |values|
    ensures v in Latest(history, values) <==> v in history
    ensures v in history ==>
      exists i :: 0 <= i < |history| && history[i] == v && Latest(history, values)[v] == values[i]
                  && forall j :: i < j < |history| ==> history[j] != v
  {
    if history == [] {
    } else {
      var n := |history| - 1;
      LatestExact(history[..n], values[..n], v);
      if history[n] == v {
        assert Latest(history, values)[v] == values[n];
      } else if v in history {
        assert v in history[..n];
        var i :| 0 <= i < n && history[..n][i] == v && Latest(history[..n], values[..n])[v] == values[..n][i]
                 && forall j :: i < j < n ==> history[..n][j] != v;
        assert history[i] == v && values[i] == values[..n][i];
        forall j | i < j < |history| ensures history[j] != v {
          if j < n {
            assert history[..n][j] == history[j];
          }
        }
      }
    }
  }

  /** What a node's answer leaves in `outputs`: the answer, or an empty dict for None. */
  ghost predicate Leaves(answer: Attempt, value: Value) {
    answer.Returned? && value == if answer.v == Null then Dict(map[]) else answer.v
  }

  /** Step `i` of the plan ran at position `i`, on its own input. */
  ghost predicate RanAs(step: Value, i: nat, run: NodeFn, id: Id, value: Value) {
    exists input :: Asks(step, id, input) && Leaves(run(i, id, input), value)
  }

  /** The history is exactly the first steps of `plan`, each run on its own input. */
  ghost predicate Follows(plan: seq<Value>, run: NodeFn, history: seq<Id>, values: seq<Value>) {
    && |history| == |values| <= |plan|
    && forall i :: 0 <= i < |history| ==> RanAs(plan[i], i, run, history[i], values[i])
  }

  /** Batch `k` is the k-th router reply, it is not empty, and all of it is valid. */
  ghost predicate FromRouter(batches: seq<seq<Value>>, ask: RouterFn, nodes: set<Id>, router: Id) {
    forall k :: 0 <= k < |batches| ==> IsReply(batches[k], k, ask, nodes, router)
  }

  ghost predicate IsReply(b: seq<Value>, k: nat, ask: RouterFn, nodes: set<Id>, router: Id) {
    ask(k).Returned? && Carries(ask(k).v, b) && b != [] && ValidBatch(b, nodes, router)
  }

  /** How the reply after the executed batches ended the run. */
  ghost predicate Explains(o: Outcome, batches: seq<seq<Value>>, ask: RouterFn, nodes: set<Id>, router: Id,
                           limit: nat)
  {
    var k := |batches|;
    match o
    case CutOff => k == limit
    case RouterFailed => ask(k).Threw? || Unreadable(ask(k).v)
    case ReturnsDict(d) => ask(k).Returned? && IsFinalAnswer(ask(k).v, d)
    case ReturnsOutputs => ask(k).Returned? && SaysDone(ask(k).v)
    case InvalidBatch =>
      ask(k).Returned? && exists steps :: steps != [] && Carries(ask(k).v, steps) && !ValidBatch(steps, nodes, router)
    case NodeFailed(_) => k > 0
  }

  lemma OneStep(plan: seq<Value>, run: NodeFn, history: seq<Id>, values: seq<Value>, id: Id, value: Value)
    requires Follows(plan, run, history, values) && |history| < |plan|
    requires RanAs(plan[|history|], |history|, run, id, value)
    ensures Follows(plan, run, history + [id], values + [value])
    ensures Latest(history + [id], values + [value]) == Latest(history, values)[id := value]
  {
    assert (history + [id])[..|history|] == history && (values + [value])[..|values|] == values;
  }

  lemma FollowsLonger(plan: seq<Value>, more: seq<Value>, run: NodeFn, history: seq<Id>, values: seq<Value>)
    requires Follows(plan, run, history, values)
    ensures Follows(plan + more, run, history, values)
  {
  }

  // ---------------------------------------------------------------- the loops

  method RunBatch(steps: seq<Value>, nodes: set<Id>, router: Id, run: NodeFn, ghost earlier: seq<Value>,
                  history: seq<Id>, values: seq<Value>, outputs: map<Id, Value>)
    returns (failed: Option<Id>, history': seq<Id>, values': seq<Value>, outputs': map<Id, Value>)
    requires ValidBatch(steps, nodes, router)
    requires Follows(earlier, run, history, values) && |history| == |earlier|
    requires outputs == Latest(history, values)
    ensures Follows(earlier + steps, run, history', values') && outputs' == Latest(history', values')
    ensures history <= history'
    ensures failed.None? <==> |history'| == |earlier + steps|
    ensures failed.Some? ==> FailedAt(earlier + steps, |history'|, run, failed.value)
  {
    failed, history', values', outputs' := None, history, values, outputs;
    ghost var plan := earlier + steps;
    FollowsLonger(earlier, steps, run, history, values);
    var i := 0;
    while i < |steps|
      invariant 0 <= i <= |steps| && failed.None?
      invariant |history'| == |earlier| + i
      invariant Follows(plan, run, history', values') && outputs' == Latest(history', values')
      invariant history <= history'
    {
      var step := steps[i];
      assert plan[|history'|] == step && ValidStep(step, nodes, router);
      var id, input := ReadStep(step, nodes, router);
      var reply := run(|history'|, id, input);
      if reply.Threw? {
        return Some(id), history', values', outputs';
      }
      var result := OutputOf(reply.v);
      assert Leaves(run(|history'|, id, input), result);
      OneStep(plan, run, history', values', id, result);
      outputs' := outputs'[id := result];
      history' := history' + [id];
      values' := values' + [result];
      i := i + 1;
    }
  }

  /** Step `i` of the plan is the one whose run raised. */
  ghost predicate FailedAt(plan: seq<Value>, i: nat, run: NodeFn, id: Id) {
    i < |plan| && exists input :: Asks(plan[i], id, input) && run(i, id, input).Threw?
  }

  lemma FlattenSnoc(batches: seq<seq<Value>>, b: seq<Value>)
    ensures Flatten(batches + [b]) == Flatten(batches) + b
  {
    assert (batches + [b])[..|batches|] == batches;
  }

  lemma BatchesSnoc(batches: seq<seq<Value>>, b: seq<Value>, ask: RouterFn, nodes: set<Id>, router: Id)
    requires FromRouter(batches, ask, nodes, router)
    requires IsReply(b, |batches|, ask, nodes, router)
    ensures FromRouter(batches + [b], ask, nodes, router)
  {
  }

  /** What ran is the concatenation of the executed batches; a failing node cuts the last one short. */
  ghost predicate RanBatches(o: Outcome, batches: seq<seq<Value>>, run: NodeFn, history: seq<Id>, values: seq<Value>) {
    && Follows(Flatten(batches), run, history, values)
    && (!o.NodeFailed? ==> |history| == |Flatten(batches)|)
    && (o.NodeFailed? ==> batches != [] && |Flatten(batches[..|batches| - 1])| <= |history|)
    && (o.NodeFailed? ==> FailedAt(Flatten(batches), |history|, run, o.id))
  }

  /**
   A run of batches: each is a whole valid router reply, what ran is their concatenation, `outputs`
   keeps the latest result of each id that ran, and the next reply explains how the run ended.
   */
  ghost predicate RunsBatches(o: Outcome, history: seq<Id>, outputs: map<Id, Value>, batches: seq<seq<Value>>,
                              values: seq<Value>, nodes: set<Id>, router: Id, ask: RouterFn, run: NodeFn, limit: nat)
  {
    && FromRouter(batches, ask, nodes, router) && |batches| <= limit
    && RanBatches(o, batches, run, history, values)
    && |history| == |values| && outputs == Latest(history, values)
    && Explains(o, batches, ask, nodes, router, limit)
  }

  ghost predicate DynamicResult(o: Outcome, history: seq<Id>, outputs: map<Id, Value>,
                                nodes: set<Id>, router: Id, ask: RouterFn, run: NodeFn, limit: nat)
  {
    exists batches, values :: RunsBatches(o, history, outputs, batches, values, nodes, router, ask, run, limit)
  }

  /** `_execute_dynamic` against any router, cut off after `limit` batches (the code itself sets no bound). */
  method ExecuteDynamic(nodes: set<Id>, router: Id, ask: RouterFn, run: NodeFn, limit: nat)
    returns (o: Outcome, history: seq<Id>, outputs: map<Id, Value>)
    ensures DynamicResult(o, history, outputs, nodes, router, ask, run, limit)
  {
    ghost var batches: seq<seq<Value>> := [];
    var values: seq<Value> := [];
    o, history, outputs := CutOff, [], map[];
    var k := 0;
    while k < limit
      invariant 0 <= k <= limit && |batches| == k && o.CutOff?
      invariant FromRouter(batches, ask, nodes, router)
      invariant Follows(Flatten(batches), run, history, values) && |history| == |Flatten(batches)|
      invariant outputs == Latest(history, values)
    {
      var reply := ask(k);
      var parsed := if reply.Threw? then BadReply else Parse(reply.v);
      if reply.Returned? {
        ParseMeaning(reply.v);
      }
      if parsed.BadReply? {
        o := RouterFailed;
        break;
      }
      if parsed.Terminal? {
        o := ReturnsDict(parsed.d);
        break;
      }
      if parsed.items == [] {
        o := ReturnsOutputs;
        break;
      }
      var ok := ValidateBatch(parsed.items, nodes, router);
      if !ok {
        o := InvalidBatch;
        break;
      }
      ghost var plan, earlier := Flatten(batches), batches;
      FlattenSnoc(batches, parsed.items);
      BatchesSnoc(batches, parsed.items, ask, nodes, router);
      batches := batches + [parsed.items];
      assert batches[..|batches| - 1] == earlier;
      var failed;
      failed, history, values, outputs := RunBatch(parsed.items, nodes, router, run, plan, history, values, outputs);
      if failed.Some? {
        o := NodeFailed(failed.value);
        break;
      }
      k := k + 1;
    }
    assert RunsBatches(o, history, outputs, batches, values, nodes, router, ask, run, limit);
  }

  lemma {:induction false} FlattenValid(batches: seq<seq<Value>>, ask: RouterFn, nodes: set<Id>, router: Id, i: nat)
    requires FromRouter(batches, ask, nodes, router) && i < |Flatten(batches)|
    ensures ValidStep(Flatten(batches)[i], nodes, router)
  {
    if batches == [] {
    } else {
      var n := |batches| - 1;
      var front := batches[..n];
      assert FromRouter(front, ask, nodes, router) by {
        assert forall k :: 0 <= k < n ==> front[k] == batches[k];
      }
      if i < |Flatten(front)| {
        FlattenValid(front, ask, nodes, router, i);
      } else {
        assert Flatten(batches)[i] == batches[n][i - |Flatten(front)|];
        assert IsReply(batches[n], n, ask, nodes, router);
      }
    }
  }

  /** The router never runs as a step, every id in the history is a known node, and `outputs` has exactly those keys. */
  lemma DynamicSafety(o: Outcome, history: seq<Id>, outputs: map<Id, Value>, nodes: set<Id>, router: Id,
                      ask: RouterFn, run: NodeFn, limit: nat)
    requires DynamicResult(o, history, outputs, nodes, router, ask, run, limit)
    ensures router !in history && Elems(history) <= nodes
    ensures outputs.Keys == Elems(history)
  {
    var batches, values :| RunsBatches(o, history, outputs, batches, values, nodes, router, ask, run, limit);
    forall i | 0 <= i < |history| ensures history[i] in nodes && history[i] != router {
      FlattenValid(batches, ask, nodes, router, i);
      assert RanAs(Flatten(batches)[i], i, run, history[i], values[i]);
      var id :| Names(Flatten(batches)[i], id) && id in nodes && id != router;
      assert history[i] == Id(id.name);
    }
    forall v ensures v in outputs <==> v in history {
      LatestExact(history, values, v);
    }
  }
}
