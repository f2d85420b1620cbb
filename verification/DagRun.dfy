/**
 What running a DAG of nodes means.  `NodeMeaning` is a recursive evaluator that follows parents;
 `Along` is the sequential loop along an order.  The loop agrees with the evaluator for every
 topological order, and its outputs are the unique solution of the dataflow equations.
 */
module DagRuns {
  import opened Basics
  import opened Digraph

  datatype Error =
    | SpecError
    | CycleError(ids: seq<Id>)
    | NodeError(id: Id)
    | OutputsMissing(id: Id)

  datatype Result<T> = Ok(value: T) | Fail(error: Error)

  /** Nodes, edges, and for each node its parents in order, repeated as often as the edge is. */
  datatype Dag = Dag(nodes: set<Id>, edges: Rel, parents: map<Id, seq<Id>>)

  /** What running a node on an input gives. */
  type Step = (Id, Value) -> Result<Value>

  ghost predicate IsDag(g: Dag) {
    && Over(g.edges, g.nodes) && Acyclic(g.edges)
    && g.parents.Keys == g.nodes
    && forall v, p {:trigger Edge(g.edges, p, v)} {:trigger p in g.parents[v]} :: v in g.nodes ==>
        (p in g.parents[v] <==> Edge(g.edges, p, v))
  }

  /** No parents: the initial input.  One: its output.  Several: the list of their outputs. */
  function Resolve(values: seq<Value>, input: Value): Value {
    if |values| == 0 then input else if |values| == 1 then values[0] else List(values)
  }

  function Gather(ps: seq<Id>, outputs: map<Id, Value>): seq<Value>
    requires forall p :: p in ps ==> p in outputs
  {
    seq(|ps|, i requires 0 <= i < |ps| => outputs[ps[i]])
  }

  // ---------------------------------------------------------------- the evaluator

  ghost function Rank(g: Dag, v: Id): nat {
    |Ancestors(g.edges, g.nodes, v)|
  }

  lemma ParentRank(g: Dag, p: Id, v: Id)
    requires IsDag(g) && v in g.nodes && p in g.parents[v]
    ensures p in g.nodes && Rank(g, p) < Rank(g, v)
  {
    assert Edge(g.edges, p, v);
    FewerAncestors(g.edges, g.nodes, p, v);
  }

  ghost function ParentsMeaning(g: Dag, v: Id, ps: seq<Id>, input: Value, step: Step): Result<seq<Value>>
    requires IsDag(g) && v in g.nodes && forall p :: p in ps ==> p in g.parents[v]
    decreases Rank(g, v), |ps|
  {
    if ps == [] then Ok([])
    else
      ParentRank(g, ps[0], v);
      match NodeMeaning(g, ps[0], input, step)
      case Fail(e) => Fail(e)
      case Ok(x) =>
        match ParentsMeaning(g, v, ps[1..], input, step)
        case Fail(e) => Fail(e)
        case Ok(xs) => Ok([x] + xs)
  }

  ghost function NodeMeaning(g: Dag, v: Id, input: Value, step: Step): Result<Value>
    requires IsDag(g) && v in g.nodes
    decreases Rank(g, v), |g.parents[v]| + 1
  {
    match ParentsMeaning(g, v, g.parents[v], input, step)
    case Fail(e) => Fail(e)
    case Ok(values) => step(v, Resolve(values, input))
  }

  /** The error of the first failing node of `order`, if any fails. */
  ghost function FirstFailure(g: Dag, order: seq<Id>, input: Value, step: Step): Option<Error>
    requires IsDag(g) && forall v :: v in order ==> v in g.nodes
    decreases |order|
  {
    if order == [] then None
    else
      match NodeMeaning(g, order[0], input, step)
      case Fail(e) => Some(e)
      case Ok(_) => FirstFailure(g, order[1..], input, step)
  }

  ghost function ValueOf(r: Result<Value>): Value {
    match r case Ok(x) => x case Fail(_) => Null
  }

  ghost function AllMeanings(g: Dag, input: Value, step: Step): map<Id, Value>
    requires IsDag(g)
  {
    map v | v in g.nodes :: ValueOf(NodeMeaning(g, v, input, step))
  }

  // ---------------------------------------------------------------- the loop

  /** The rest of the execution loop over `order`, with the outputs so far. */
  ghost function Along(g: Dag, order: seq<Id>, outputs: map<Id, Value>, input: Value, step: Step)
    : Result<map<Id, Value>>
    requires forall v :: v in order ==> v in g.parents
    decreases |order|
  {
    if order == [] then Ok(outputs)
    else
      var v := order[0];
      if exists p :: p in g.parents[v] && p !in outputs then Fail(OutputsMissing(v))
      else
        match step(v, Resolve(Gather(g.parents[v], outputs), input))
        case Fail(e) => Fail(e)
        case Ok(x) => Along(g, order[1..], outputs[v := x], input, step)
  }

  /** `outputs` holds the meaning of each of its nodes. */
  ghost predicate Faithful(g: Dag, outputs: map<Id, Value>, input: Value, step: Step)
    requires IsDag(g)
  {
    forall u :: u in outputs ==> u in g.nodes && NodeMeaning(g, u, input, step) == Ok(outputs[u])
  }

  lemma {:induction false} GatherIsMeaning(g: Dag, v: Id, ps: seq<Id>, outputs: map<Id, Value>, input: Value,
                                           step: Step)
    requires IsDag(g) && Faithful(g, outputs, input, step) && v in g.nodes
    requires forall p :: p in ps ==> p in g.parents[v] && p in outputs
    ensures ParentsMeaning(g, v, ps, input, step) == Ok(Gather(ps, outputs))
    decreases |ps|
  {
    if ps == [] {
    } else {
      GatherIsMeaning(g, v, ps[1..], outputs, input, step);
      assert Gather(ps, outputs) == [outputs[ps[0]]] + Gather(ps[1..], outputs);
    }
  }

  lemma NextIsMeaning(g: Dag, v: Id, outputs: map<Id, Value>, input: Value, step: Step)
    requires IsDag(g) && Faithful(g, outputs, input, step) && v in g.nodes
    requires forall p :: p in g.parents[v] ==> p in outputs
    ensures step(v, Resolve(Gather(g.parents[v], outputs), input)) == NodeMeaning(g, v, input, step)
  {
    GatherIsMeaning(g, v, g.parents[v], outputs, input, step);
  }

  lemma ParentsEarlier(g: Dag, order: seq<Id>, i: nat)
    requires IsDag(g) && Topological(g.edges, g.nodes, order) && i < |order|
    ensures order[i] in g.nodes
    ensures forall p :: p in g.parents[order[i]] ==> p in order[..i]
  {
    TopologicalIsClosed(g.edges, g.nodes, order);
    assert order[i] in Elems(order);
    forall p | p in g.parents[order[i]] ensures p in order[..i] {
      assert Edge(g.edges, p, order[i]);
    }
  }

  lemma OrderKnown(g: Dag, order: seq<Id>, i: nat)
    requires Elems(order) == g.nodes && i <= |order|
    ensures forall v :: v in order[i..] ==> v in g.nodes
  {
    assert forall v :: v in order[i..] ==> v in Elems(order);
  }

  lemma FaithfulIsAll(g: Dag, outputs: map<Id, Value>, input: Value, step: Step)
    requires IsDag(g) && outputs.Keys == g.nodes && Faithful(g, outputs, input, step)
    ensures outputs == AllMeanings(g, input, step)
  {
  }

  /** One turn of the loop stores the meaning of the next node, or raises its error. */
  lemma OneMore(g: Dag, v: Id, rest: seq<Id>, outputs: map<Id, Value>, input: Value, step: Step)
    requires IsDag(g) && Faithful(g, outputs, input, step)
    requires forall u :: u in [v] + rest ==> u in g.nodes
    requires forall p :: p in g.parents[v] ==> p in outputs
    ensures v in g.nodes && forall u :: u in rest ==> u in g.nodes
    ensures match NodeMeaning(g, v, input, step)
            case Fail(e) => Along(g, [v] + rest, outputs, input, step) == Fail(e)
            case Ok(x) =>
              && Along(g, [v] + rest, outputs, input, step) == Along(g, rest, outputs[v := x], input, step)
              && Faithful(g, outputs[v := x], input, step)
    ensures FirstFailure(g, [v] + rest, input, step)
         == match NodeMeaning(g, v, input, step) case Fail(e) => Some(e) case Ok(_) =>
              FirstFailure(g, rest, input, step)
  {
    assert v in [v] + rest && forall u :: u in rest ==> u in [v] + rest;
    assert ([v] + rest)[0] == v && ([v] + rest)[1..] == rest;
    NextIsMeaning(g, v, outputs, input, step);
  }

  lemma KeysNext(order: seq<Id>, i: nat, outputs: map<Id, Value>, x: Value)
    requires i < |order| && outputs.Keys == Elems(order[..i])
    ensures forall p :: p in order[..i] ==> p in outputs
    ensures outputs[order[i] := x].Keys == Elems(order[..i + 1])
  {
    assert order[..i + 1] == order[..i] + [order[i]];
    assert Elems(order[..i + 1]) == Elems(order[..i]) + {order[i]};
    assert forall p :: p in order[..i] ==> p in Elems(order[..i]);
  }

  /**
   Along any topological order the run raises the error of the first failing node of that order, and
   otherwise returns exactly the meanings.
   */
  lemma {:induction false} AlongIsMeaning(g: Dag, order: seq<Id>, i: nat, outputs: map<Id, Value>, input: Value,
                                          step: Step)
    requires IsDag(g) && Topological(g.edges, g.nodes, order) && i <= |order|
    requires outputs.Keys == Elems(order[..i]) && Faithful(g, outputs, input, step)
    ensures forall v :: v in order[i..] ==> v in g.nodes
    ensures Along(g, order[i..], outputs, input, step)
         == match FirstFailure(g, order[i..], input, step)
            case Some(e) => Fail(e)
            case None => Ok(AllMeanings(g, input, step))
    decreases |order| - i
  {
    OrderKnown(g, order, i);
    if i == |order| {
      assert order[..i] == order;
      FaithfulIsAll(g, outputs, input, step);
    } else {
      var v := order[i];
      assert order[i..] == [v] + order[i + 1..];
      ParentsEarlier(g, order, i);
      var x := NodeMeaning(g, v, input, step);
      KeysNext(order, i, outputs, ValueOf(x));
      OneMore(g, v, order[i + 1..], outputs, input, step);
      if x.Ok? {
        AlongIsMeaning(g, order, i + 1, outputs[v := x.value], input, step);
      }
    }
  }

  /** Running some node of the graph raises `e`. */
  ghost predicate RaisedByStep(e: Error, g: Dag, step: Step) {
    exists v, x :: v in g.nodes && step(v, x) == Fail(e)
  }

  lemma {:induction false} ErrorFromStep(g: Dag, v: Id, input: Value, step: Step)
    requires IsDag(g) && v in g.nodes
    ensures var r := NodeMeaning(g, v, input, step); r.Fail? ==> RaisedByStep(r.error, g, step)
    decreases Rank(g, v), |g.parents[v]| + 1
  {
    ParentsErrorFromStep(g, v, g.parents[v], input, step);
  }

  lemma {:induction false} ParentsErrorFromStep(g: Dag, v: Id, ps: seq<Id>, input: Value, step: Step)
    requires IsDag(g) && v in g.nodes && forall p :: p in ps ==> p in g.parents[v]
    ensures var r := ParentsMeaning(g, v, ps, input, step); r.Fail? ==> RaisedByStep(r.error, g, step)
    decreases Rank(g, v), |ps|
  {
    if ps != [] {
      ParentRank(g, ps[0], v);
      ErrorFromStep(g, ps[0], input, step);
      ParentsErrorFromStep(g, v, ps[1..], input, step);
    }
  }

  lemma {:induction false} FailureFromStep(g: Dag, order: seq<Id>, input: Value, step: Step)
    requires IsDag(g) && forall v :: v in order ==> v in g.nodes
    ensures var e := FirstFailure(g, order, input, step); e.Some? ==> RaisedByStep(e.value, g, step)
    decreases |order|
  {
    if order != [] {
      ErrorFromStep(g, order[0], input, step);
      FailureFromStep(g, order[1..], input, step);
    }
  }

  /** No missing-output error: whatever the loop raises along a topological order, some node raised it. */
  lemma OutputsAreThere(g: Dag, order: seq<Id>, input: Value, step: Step)
    requires IsDag(g) && Topological(g.edges, g.nodes, order)
    ensures forall v :: v in order ==> v in g.nodes
    ensures var r := Along(g, order, map[], input, step); r.Fail? ==> RaisedByStep(r.error, g, step)
  {
    assert order[0..] == order && order[..0] == [];
    OrderKnown(g, order, 0);
    AlongIsMeaning(g, order, 0, map[], input, step);
    FailureFromStep(g, order, input, step);
  }

  lemma {:induction false} NoFailure(g: Dag, order: seq<Id>, input: Value, step: Step)
    requires IsDag(g) && forall v :: v in order ==> v in g.nodes
    ensures FirstFailure(g, order, input, step).None? <==> forall v :: v in order ==> NodeMeaning(g, v, input, step).Ok?
    decreases |order|
  {
    if order == [] {
    } else {
      NoFailure(g, order[1..], input, step);
      assert order[0] in order;
      if NodeMeaning(g, order[0], input, step).Ok? {
        forall v ensures v in order <==> v == order[0] || v in order[1..] {
        }
      }
    }
  }

  /** Every topological order gives the same outcome: the same map, or a failure for both. */
  lemma OrderDoesNotMatter(g: Dag, a: seq<Id>, b: seq<Id>, input: Value, step: Step)
    requires IsDag(g) && Topological(g.edges, g.nodes, a) && Topological(g.edges, g.nodes, b)
    ensures forall v :: v in a || v in b ==> v in g.nodes
    ensures var x, y := Along(g, a, map[], input, step), Along(g, b, map[], input, step);
            (x.Ok? <==> y.Ok?) && (x.Ok? ==> x == y)
  {
    assert a[0..] == a && b[0..] == b && a[..0] == [] && b[..0] == [];
    OrderKnown(g, a, 0);
    OrderKnown(g, b, 0);
    AlongIsMeaning(g, a, 0, map[], input, step);
    AlongIsMeaning(g, b, 0, map[], input, step);
    NoFailure(g, a, input, step);
    NoFailure(g, b, input, step);
    assert forall v :: v in a <==> v in Elems(a);
    assert forall v :: v in b <==> v in Elems(b);
  }

  // ---------------------------------------------------------------- dataflow equations

  ghost predicate Solves(g: Dag, out: map<Id, Value>, v: Id, input: Value, step: Step) {
    && v in out && v in g.parents
    && (forall p :: p in g.parents[v] ==> p in out)
    && step(v, Resolve(Gather(g.parents[v], out), input)) == Ok(out[v])
  }

  /** `out` gives every node what it answers on its parents' values in `out`. */
  ghost predicate IsSolution(g: Dag, out: map<Id, Value>, input: Value, step: Step) {
    out.Keys == g.nodes && forall v :: v in out ==> Solves(g, out, v, input, step)
  }

  lemma {:induction false} SolutionIsMeaning(g: Dag, out: map<Id, Value>, v: Id, input: Value, step: Step)
    requires IsDag(g) && IsSolution(g, out, input, step) && v in out
    ensures NodeMeaning(g, v, input, step) == Ok(out[v])
    decreases Rank(g, v)
  {
    assert Solves(g, out, v, input, step);
    var known := map p | p in g.parents[v] :: out[p];
    forall p | p in known ensures p in g.nodes && NodeMeaning(g, p, input, step) == Ok(known[p]) {
      ParentRank(g, p, v);
      SolutionIsMeaning(g, out, p, input, step);
    }
    NextIsMeaning(g, v, known, input, step);
    assert Gather(g.parents[v], known) == Gather(g.parents[v], out);
  }

  /** The meanings, when no node fails, are the one and only solution of the dataflow equations. */
  lemma UniqueSolution(g: Dag, out: map<Id, Value>, input: Value, step: Step)
    requires IsDag(g)
    ensures IsSolution(g, out, input, step) <==> out.Keys == g.nodes && Faithful(g, out, input, step)
  {
    if IsSolution(g, out, input, step) {
      forall v | v in out ensures NodeMeaning(g, v, input, step) == Ok(out[v]) {
        SolutionIsMeaning(g, out, v, input, step);
      }
    }
    if out.Keys == g.nodes && Faithful(g, out, input, step) {
      forall v | v in out ensures Solves(g, out, v, input, step) {
        forall p | p in g.parents[v] ensures p in out {
          ParentRank(g, p, v);
        }
        NextIsMeaning(g, v, out, input, step);
      }
    }
  }

  /** No node fails exactly when all meanings are outputs. */
  lemma NoFailureIsFaithful(g: Dag, order: seq<Id>, input: Value, step: Step)
    requires IsDag(g) && Elems(order) == g.nodes && forall v :: v in order ==> v in g.nodes
    ensures FirstFailure(g, order, input, step).None? <==> Faithful(g, AllMeanings(g, input, step), input, step)
  {
    NoFailure(g, order, input, step);
    assert forall v :: v in order <==> v in g.nodes by {
      assert forall v :: v in order <==> v in Elems(order);
    }
    forall v | v in g.nodes
      ensures NodeMeaning(g, v, input, step).Ok?
         <==> NodeMeaning(g, v, input, step) == Ok(AllMeanings(g, input, step)[v])
    {
    }
  }

  lemma SolutionIsAll(g: Dag, out: map<Id, Value>, input: Value, step: Step)
    requires IsDag(g)
    ensures IsSolution(g, out, input, step)
       <==> out == AllMeanings(g, input, step) && Faithful(g, AllMeanings(g, input, step), input, step)
  {
    UniqueSolution(g, out, input, step);
    if out.Keys == g.nodes && Faithful(g, out, input, step) {
      FaithfulIsAll(g, out, input, step);
    }
  }

  /** A node's meaning depends on `step` only through the nodes of the graph. */
  lemma {:induction false} StepExtensional(g: Dag, v: Id, input: Value, one: Step, two: Step)
    requires IsDag(g) && v in g.nodes
    requires forall u, x :: u in g.nodes ==> one(u, x) == two(u, x)
    ensures NodeMeaning(g, v, input, one) == NodeMeaning(g, v, input, two)
    decreases Rank(g, v), |g.parents[v]| + 1
  {
    ParentsExtensional(g, v, g.parents[v], input, one, two);
  }

  lemma {:induction false} ParentsExtensional(g: Dag, v: Id, ps: seq<Id>, input: Value, one: Step, two: Step)
    requires IsDag(g) && v in g.nodes && forall p :: p in ps ==> p in g.parents[v]
    requires forall u, x :: u in g.nodes ==> one(u, x) == two(u, x)
    ensures ParentsMeaning(g, v, ps, input, one) == ParentsMeaning(g, v, ps, input, two)
    decreases Rank(g, v), |ps|
  {
    if ps == [] {
    } else {
      ParentRank(g, ps[0], v);
      StepExtensional(g, ps[0], input, one, two);
      ParentsExtensional(g, v, ps[1..], input, one, two);
    }
  }

  lemma {:induction false} FailureExtensional(g: Dag, order: seq<Id>, input: Value, one: Step, two: Step)
    requires IsDag(g) && forall v :: v in order ==> v in g.nodes
    requires forall u, x :: u in g.nodes ==> one(u, x) == two(u, x)
    ensures FirstFailure(g, order, input, one) == FirstFailure(g, order, input, two)
    decreases |order|
  {
    if order == [] {
    } else {
      StepExtensional(g, order[0], input, one, two);
      FailureExtensional(g, order[1..], input, one, two);
    }
  }

  lemma RunExtensional(g: Dag, order: seq<Id>, input: Value, one: Step, two: Step)
    requires IsDag(g) && forall v :: v in order ==> v in g.nodes
    requires forall u, x :: u in g.nodes ==> one(u, x) == two(u, x)
    ensures FirstFailure(g, order, input, one) == FirstFailure(g, order, input, two)
    ensures AllMeanings(g, input, one) == AllMeanings(g, input, two)
  {
    FailureExtensional(g, order, input, one, two);
    forall v | v in g.nodes ensures NodeMeaning(g, v, input, one) == NodeMeaning(g, v, input, two) {
      StepExtensional(g, v, input, one, two);
    }
  }
}
