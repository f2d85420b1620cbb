/**
 Kahn's algorithm as a function of an ordered multigraph.  Both workflow engines run this loop:
 `WorkflowGraph.GetTopologicalOrder` and `StaticSpecs.TopologicalSort` use `RunQueue`, whose loop is
 proved equal to `Run` below.
 */
module Kahn {
  import opened Basics
  import opened Digraph

  type Degrees = map<Id, int>

  /** Nodes in the order the dictionary lists them, and each node's children in iteration order. */
  datatype Network = Network(nodes: seq<Id>, succ: map<Id, seq<Id>>)

  function Kids(succ: map<Id, seq<Id>>, u: Id): seq<Id> {
    if u in succ then succ[u] else []
  }

  ghost predicate WellFormed(g: Network) {
    && NoDup(g.nodes)
    && (forall u, v {:trigger v in Kids(g.succ, u)} :: v in Kids(g.succ, u) ==> u in g.nodes && v in g.nodes)
  }

  ghost function Edges(succ: map<Id, seq<Id>>): (r: Rel)
    ensures forall u, v {:trigger Edge(r, u, v)} {:trigger v in Kids(succ, u)} :: Edge(r, u, v) <==> v in Kids(succ, u)
  {
    set u, v | u in succ && v in succ[u] :: (u, v)
  }

  lemma EdgesOver(g: Network)
    requires WellFormed(g)
    ensures Over(Edges(g.succ), Elems(g.nodes))
  {
    forall u, v | Edge(Edges(g.succ), u, v) ensures u in g.nodes && v in g.nodes {
      assert v in Kids(g.succ, u);
    }
  }

  // ---------------------------------------------------------------- in-degrees, with multiplicity

  ghost function Times(succ: map<Id, seq<Id>>, u: Id, v: Id): nat {
    multiset(Kids(succ, u))[v]
  }

  /** Number of edges into `v` from `from`, counting a child listed twice as two edges. */
  ghost function Load(succ: map<Id, seq<Id>>, from: set<Id>, v: Id): nat {
    if from == {} then 0
    else var u := Pick(from); Times(succ, u, v) + Load(succ, from - {u}, v)
  }

  lemma {:induction false} LoadRemove(succ: map<Id, seq<Id>>, from: set<Id>, u: Id, v: Id)
    requires u in from
    ensures Load(succ, from, v) == Times(succ, u, v) + Load(succ, from - {u}, v)
    decreases |from|
  {
    var x := Pick(from);
    if x == u {
    } else {
      LoadRemove(succ, from - {x}, u, v);
      LoadRemove(succ, from - {u}, x, v);
      assert from - {x} - {u} == from - {u} - {x};
    }
  }

  lemma {:induction false} LoadZero(succ: map<Id, seq<Id>>, from: set<Id>, v: Id)
    ensures Load(succ, from, v) == 0 <==> forall u :: u in from ==> !Edge(Edges(succ), u, v)
    decreases |from|
  {
    if from == {} {
    } else {
      var u := Pick(from);
      LoadZero(succ, from - {u}, v);
    }
  }

  // ---------------------------------------------------------------- one pop

  /** The inner loop: decrement each listed child, append it when its degree reaches zero. */
  function Relax(deg: Degrees, queue: seq<Id>, kids: seq<Id>): (Degrees, seq<Id>)
    requires forall c :: c in kids ==> c in deg
    decreases |kids|
  {
    if kids == [] then (deg, queue)
    else
      var d := deg[kids[0]] - 1;
      Relax(deg[kids[0] := d], if d == 0 then queue + [kids[0]] else queue, kids[1..])
  }

  lemma CountHead(kids: seq<Id>, c: Id)
    requires kids != []
    ensures multiset(kids)[c] == (if c == kids[0] then 1 else 0) + multiset(kids[1..])[c]
    ensures c in kids <==> c == kids[0] || c in kids[1..]
    ensures c in kids[1..] <==> multiset(kids[1..])[c] > 0
  {
    assert kids == [kids[0]] + kids[1..];
    assert c in multiset(kids[1..]) <==> c in kids[1..];
  }

  ghost predicate Enough(deg: Degrees, kids: seq<Id>) {
    forall c :: c in kids ==> c in deg && deg[c] >= multiset(kids)[c]
  }

  lemma EnoughTail(deg: Degrees, kids: seq<Id>)
    requires kids != [] && Enough(deg, kids)
    ensures Enough(deg[kids[0] := deg[kids[0]] - 1], kids[1..])
  {
    forall c | c in kids[1..] ensures c in deg && deg[c := deg[c]][c] >= multiset(kids)[c] {
      CountHead(kids, c);
    }
    forall c | c in kids[1..] ensures multiset(kids)[c] == (if c == kids[0] then 1 else 0) + multiset(kids[1..])[c] {
      CountHead(kids, c);
    }
  }

  lemma {:induction false} RelaxDegrees(deg: Degrees, queue: seq<Id>, kids: seq<Id>)
    requires forall c :: c in kids ==> c in deg
    ensures Relax(deg, queue, kids).0.Keys == deg.Keys
    ensures forall c :: c in deg ==> Relax(deg, queue, kids).0[c] == deg[c] - multiset(kids)[c]
    decreases |kids|
  {
    if kids == [] {
    } else {
      var k := kids[0];
      var deg' := deg[k := deg[k] - 1];
      var queue' := if deg[k] - 1 == 0 then queue + [k] else queue;
      RelaxDegrees(deg', queue', kids[1..]);
      forall c | c in deg ensures Relax(deg, queue, kids).0[c] == deg[c] - multiset(kids)[c] {
        CountHead(kids, c);
      }
    }
  }

  /** `c` is a child whose remaining degree is exactly the number of edges now being removed. */
  ghost predicate Hit(deg: Degrees, kids: seq<Id>, c: Id) {
    c in kids && c in deg && deg[c] == multiset(kids)[c]
  }

  lemma HitStep(deg: Degrees, kids: seq<Id>, c: Id)
    requires kids != [] && Enough(deg, kids)
    ensures var k := kids[0];
            var deg' := deg[k := deg[k] - 1];
            && (Hit(deg, kids, c) <==> (c == k && deg[k] == 1) || Hit(deg', kids[1..], c))
            && !(c == k && deg[k] == 1 && Hit(deg', kids[1..], c))
  {
    CountHead(kids, c);
    CountHead(kids, kids[0]);
  }

  /** A child is appended exactly once, by the decrement that uses up its last edge. */
  lemma {:induction false} RelaxQueue(deg: Degrees, queue: seq<Id>, kids: seq<Id>)
    returns (added: seq<Id>)
    requires Enough(deg, kids)
    ensures Relax(deg, queue, kids).1 == queue + added
    ensures NoDup(added)
    ensures forall c :: c in added <==> Hit(deg, kids, c)
    decreases |kids|
  {
    if kids == [] {
      added := [];
    } else {
      var k := kids[0];
      var d := deg[k] - 1;
      EnoughTail(deg, kids);
      var later := RelaxQueue(deg[k := d], if d == 0 then queue + [k] else queue, kids[1..]);
      var head := if d == 0 then [k] else [];
      added := head + later;
      forall c ensures c in head + later <==> Hit(deg, kids, c) {
        HitStep(deg, kids, c);
      }
      HitStep(deg, kids, k);
      NoDupJoin(head, later);
      assert (queue + head) + later == queue + added;
      assert queue + [] == queue;
    }
  }

  // ---------------------------------------------------------------- the outer loop

  ghost function Left(g: Network, order: seq<Id>): set<Id> {
    Elems(g.nodes) - Elems(order)
  }

  /** `in_degree[v]` counts the edges into `v` from nodes not yet ordered. */
  ghost predicate Tracked(g: Network, deg: Degrees, queue: seq<Id>, order: seq<Id>, v: Id) {
    && v in deg
    && deg[v] == Load(g.succ, Left(g, order), v)
    && (deg[v] == 0 <==> v in order + queue)
  }

  /** What holds of `in_degree`, `queue` and `order` whenever the loop test is evaluated. */
  ghost predicate Inv(g: Network, deg: Degrees, queue: seq<Id>, order: seq<Id>) {
    && WellFormed(g)
    && deg.Keys == Elems(g.nodes)
    && NoDup(order + queue)
    && Elems(order + queue) <= Elems(g.nodes)
    && (forall v {:trigger Tracked(g, deg, queue, order, v)} :: v in deg ==> Tracked(g, deg, queue, order, v))
    && Closed(Edges(g.succ), order)
  }

  lemma KidsKnown(g: Network, u: Id)
    requires WellFormed(g)
    ensures forall c :: c in Kids(g.succ, u) ==> c in g.nodes
  {
  }

  lemma StepDegrees(g: Network, deg: Degrees, queue: seq<Id>, order: seq<Id>, v: Id)
    requires Inv(g, deg, queue, order) && queue != [] && v in deg
    ensures deg[v] == Times(g.succ, queue[0], v) + Load(g.succ, Left(g, order + [queue[0]]), v)
  {
    var u := queue[0];
    NoDupApart(order, queue);
    assert Tracked(g, deg, queue, order, v);
    assert Left(g, order + [u]) == Left(g, order) - {u};
    assert u in order + queue;
    LoadRemove(g.succ, Left(g, order), u, v);
  }

  lemma StepClosed(g: Network, deg: Degrees, queue: seq<Id>, order: seq<Id>)
    requires Inv(g, deg, queue, order) && queue != []
    ensures Closed(Edges(g.succ), order + [queue[0]])
  {
    var u := queue[0];
    var r := Edges(g.succ);
    assert u in order + queue && Tracked(g, deg, queue, order, u);
    LoadZero(g.succ, Left(g, order), u);
    EdgesOver(g);
    forall i, w | 0 <= i < |order + [u]| && Edge(r, w, (order + [u])[i])
      ensures w in (order + [u])[..i]
    {
      assert (order + [u])[..i] == order[..i];
      if i == |order| {
        assert order[..i] == order;
      }
    }
  }

  lemma StepShrinks(g: Network, deg: Degrees, queue: seq<Id>, order: seq<Id>)
    requires Inv(g, deg, queue, order) && queue != []
    ensures Left(g, order + [queue[0]]) < Left(g, order)
    ensures Enough(deg, Kids(g.succ, queue[0]))
  {
    NoDupApart(order, queue);
    assert queue[0] in order + queue;
    assert queue[0] in Left(g, order) && queue[0] !in Left(g, order + [queue[0]]);
    KidsKnown(g, queue[0]);
    forall c | c in Kids(g.succ, queue[0]) ensures deg[c] >= Times(g.succ, queue[0], c) {
      StepDegrees(g, deg, queue, order, c);
    }
  }

  /** After the pop, zero degree again means ordered or queued. */
  lemma StepZeros(g: Network, deg: Degrees, queue: seq<Id>, order: seq<Id>, added: seq<Id>, v: Id)
    requires Inv(g, deg, queue, order) && queue != [] && v in deg
    requires forall c :: c in added <==> Hit(deg, Kids(g.succ, queue[0]), c)
    ensures deg[v] - Times(g.succ, queue[0], v) == 0 <==> v in (order + queue) + added
    ensures v in order + queue ==> v !in added
  {
    assert Tracked(g, deg, queue, order, v);
    StepDegrees(g, deg, queue, order, v);
    assert v in Kids(g.succ, queue[0]) <==> v in multiset(Kids(g.succ, queue[0]));
  }

  lemma StepDistinct(g: Network, deg: Degrees, queue: seq<Id>, order: seq<Id>, added: seq<Id>)
    requires Inv(g, deg, queue, order) && queue != [] && NoDup(added)
    requires forall c :: c in added <==> Hit(deg, Kids(g.succ, queue[0]), c)
    ensures NoDup((order + queue) + added)
    ensures Elems((order + queue) + added) <= Elems(g.nodes)
  {
    forall v | v in added ensures v !in order + queue && v in g.nodes {
      StepZeros(g, deg, queue, order, added, v);
    }
    NoDupJoin(order + queue, added);
  }

  lemma StepTracked(g: Network, deg: Degrees, queue: seq<Id>, order: seq<Id>, added: seq<Id>, v: Id)
    requires Inv(g, deg, queue, order) && queue != [] && v in deg
    requires forall c :: c in added <==> Hit(deg, Kids(g.succ, queue[0]), c)
    requires forall c :: c in Kids(g.succ, queue[0]) ==> c in deg
    requires Relax(deg, queue[1..], Kids(g.succ, queue[0])).1 == queue[1..] + added
    ensures var (deg', queue') := Relax(deg, queue[1..], Kids(g.succ, queue[0]));
            Tracked(g, deg', queue', order + [queue[0]], v)
  {
    RelaxDegrees(deg, queue[1..], Kids(g.succ, queue[0]));
    StepDegrees(g, deg, queue, order, v);
    StepZeros(g, deg, queue, order, added, v);
    MoveHead(order, queue, added);
  }

  lemma StepInv(g: Network, deg: Degrees, queue: seq<Id>, order: seq<Id>)
    requires Inv(g, deg, queue, order) && queue != []
    ensures Enough(deg, Kids(g.succ, queue[0]))
    ensures var (deg', queue') := Relax(deg, queue[1..], Kids(g.succ, queue[0]));
            Inv(g, deg', queue', order + [queue[0]])
    ensures Left(g, order + [queue[0]]) < Left(g, order)
  {
    var u, kids := queue[0], Kids(g.succ, queue[0]);
    StepShrinks(g, deg, queue, order);
    RelaxDegrees(deg, queue[1..], kids);
    var added := RelaxQueue(deg, queue[1..], kids);
    var (deg', queue') := Relax(deg, queue[1..], kids);
    forall v | v in deg' ensures Tracked(g, deg', queue', order + [u], v) {
      StepTracked(g, deg, queue, order, added, v);
    }
    StepDistinct(g, deg, queue, order, added);
    StepClosed(g, deg, queue, order);
    MoveHead(order, queue, added);
  }

  ghost function Drain(g: Network, deg: Degrees, queue: seq<Id>, order: seq<Id>): (Degrees, seq<Id>)
    requires Inv(g, deg, queue, order)
    decreases Left(g, order)
  {
    if queue == [] then (deg, order)
    else
      StepInv(g, deg, queue, order);
      var (deg', queue') := Relax(deg, queue[1..], Kids(g.succ, queue[0]));
      Drain(g, deg', queue', order + [queue[0]])
  }

  lemma {:induction false} DrainInv(g: Network, deg: Degrees, queue: seq<Id>, order: seq<Id>)
    requires Inv(g, deg, queue, order)
    ensures var (deg', order') := Drain(g, deg, queue, order); Inv(g, deg', [], order')
    decreases Left(g, order)
  {
    if queue != [] {
      StepInv(g, deg, queue, order);
      var (deg', queue') := Relax(deg, queue[1..], Kids(g.succ, queue[0]));
      DrainInv(g, deg', queue', order + [queue[0]]);
    }
  }

  // ---------------------------------------------------------------- the whole run

  ghost function InDegrees(g: Network): Degrees {
    map v | v in g.nodes :: Load(g.succ, Elems(g.nodes), v)
  }

  /** The nodes without incoming edges, in the order of the table: what the queue starts with. */
  function Zeros(nodes: seq<Id>, deg: Degrees): seq<Id>
    requires forall v :: v in nodes ==> v in deg
  {
    if nodes == [] then []
    else (if deg[nodes[0]] == 0 then [nodes[0]] else []) + Zeros(nodes[1..], deg)
  }

  lemma {:induction false} ZerosExact(nodes: seq<Id>, deg: Degrees)
    requires NoDup(nodes) && forall v :: v in nodes ==> v in deg
    ensures NoDup(Zeros(nodes, deg))
    ensures forall v :: v in Zeros(nodes, deg) <==> v in nodes && deg[v] == 0
  {
    if nodes != [] {
      ZerosExact(nodes[1..], deg);
      assert nodes == [nodes[0]] + nodes[1..];
    }
  }

  lemma InitInv(g: Network)
    requires WellFormed(g)
    ensures Inv(g, InDegrees(g), Zeros(g.nodes, InDegrees(g)), [])
  {
    var deg := InDegrees(g);
    ZerosExact(g.nodes, deg);
    assert [] + Zeros(g.nodes, deg) == Zeros(g.nodes, deg);
    assert Left(g, []) == Elems(g.nodes);
  }

  ghost function Run(g: Network): (Degrees, seq<Id>)
    requires WellFormed(g)
  {
    InitInv(g);
    Drain(g, InDegrees(g), Zeros(g.nodes, InDegrees(g)), [])
  }

  ghost function Order(g: Network): seq<Id>
    requires WellFormed(g)
  {
    Run(g).1
  }

  // ---------------------------------------------------------------- the imperative loops

  method RelaxChildren(inDegree: Degrees, queue: seq<Id>, children: seq<Id>)
    returns (inDegree': Degrees, queue': seq<Id>)
    requires forall c :: c in children ==> c in inDegree
    ensures (inDegree', queue') == Relax(inDegree, queue, children)
  {
    inDegree', queue' := inDegree, queue;
    var i := 0;
    while i < |children|
      invariant 0 <= i <= |children|
      invariant forall c :: c in children[i..] ==> c in inDegree'
      invariant Relax(inDegree', queue', children[i..]) == Relax(inDegree, queue, children)
    {
      var child := children[i];
      assert children[i..][0] == child && children[i..][1..] == children[i + 1..];
      inDegree' := inDegree'[child := inDegree'[child] - 1];
      if inDegree'[child] == 0 {
        queue' := queue' + [child];
      }
      i := i + 1;
    }
  }

  /** The `while queue` loop of both engines, from a correct table of in-degrees. */
  method RunQueue(g: Network, inDegree: Degrees) returns (inDegree': Degrees, order: seq<Id>)
    requires WellFormed(g) && inDegree == InDegrees(g)
    ensures (inDegree', order) == Run(g)
  {
    var queue := Zeros(g.nodes, inDegree);
    inDegree', order := inDegree, [];
    InitInv(g);
    while queue != []
      invariant Inv(g, inDegree', queue, order)
      invariant Drain(g, inDegree', queue, order) == Run(g)
      decreases Left(g, order)
    {
      StepInv(g, inDegree', queue, order);
      var node := queue[0];
      inDegree', queue := RelaxChildren(inDegree', queue[1..], Kids(g.succ, node));
      order := order + [node];
    }
  }

  // ---------------------------------------------------------------- what the run means

  /**
   The nodes Kahn's loop leaves out are those with a positive final in-degree, and they are exactly
   the nodes on a cycle or downstream of one.
   */
  lemma LeftoverExact(g: Network, v: Id)
    requires WellFormed(g) && v in g.nodes
    ensures v in Run(g).0
    ensures v !in Order(g) <==> Run(g).0[v] > 0
    ensures v !in Order(g) <==> FedByCycle(Edges(g.succ), v)
  {
    InitInv(g);
    DrainInv(g, InDegrees(g), Zeros(g.nodes, InDegrees(g)), []);
    var (deg, order) := Run(g);
    var r := Edges(g.succ);
    assert order + [] == order;
    EdgesOver(g);
    assert Tracked(g, deg, [], order, v);
    if v in order {
      ClosedAvoidsCycles(r, order, v);
    } else {
      forall w | w in Left(g, order) ensures HasParentIn(r, Left(g, order), w) {
        assert Tracked(g, deg, [], order, w);
        LoadZero(g.succ, Left(g, order), w);
      }
      NoSourceMeansCycle(r, Elems(g.nodes), Left(g, order), v);
    }
  }

  lemma OrderShape(g: Network)
    requires WellFormed(g)
    ensures NoDup(Order(g)) && Elems(Order(g)) <= Elems(g.nodes)
    ensures Closed(Edges(g.succ), Order(g))
    ensures |Order(g)| == |g.nodes| <==> Elems(Order(g)) == Elems(g.nodes)
  {
    InitInv(g);
    DrainInv(g, InDegrees(g), Zeros(g.nodes, InDegrees(g)), []);
    assert Order(g) + [] == Order(g);
    NoDupSize(g.nodes);
    FullCover(Order(g), Elems(g.nodes));
  }

  lemma OrderComplete(g: Network)
    requires WellFormed(g)
    ensures Elems(Order(g)) == Elems(g.nodes) <==> Acyclic(Edges(g.succ))
  {
    EdgesOver(g);
    OrderShape(g);
    AcyclicIsUnfed(Edges(g.succ), Elems(g.nodes));
    forall v | v in g.nodes
      ensures v !in Order(g) <==> FedByCycle(Edges(g.succ), v)
    {
      LeftoverExact(g, v);
    }
    if Elems(Order(g)) != Elems(g.nodes) {
      var v :| v in Elems(g.nodes) && v !in Elems(Order(g));
    }
  }

  /** The order is complete exactly when the graph is acyclic, and then every edge points forward. */
  lemma OrderCorrect(g: Network)
    requires WellFormed(g)
    ensures |Order(g)| == |g.nodes| <==> Acyclic(Edges(g.succ))
    ensures Acyclic(Edges(g.succ)) <==> Topological(Edges(g.succ), Elems(g.nodes), Order(g))
  {
    OrderShape(g);
    OrderComplete(g);
    if Acyclic(Edges(g.succ)) {
      ClosedIsTopological(Edges(g.succ), Elems(g.nodes), Order(g));
    }
  }

  // ---------------------------------------------------------------- first in, first out

  /** The nodes that no edge enters, in table order. */
  ghost function Sources(nodes: seq<Id>, r: Rel): seq<Id> {
    if nodes == [] then []
    else (if exists u :: Edge(r, u, nodes[0]) then [] else [nodes[0]]) + Sources(nodes[1..], r)
  }

  /** The last parent of `u` in `order`, if it has one, does not come after the last parent of `v`. */
  ghost predicate NotAfter(r: Rel, order: seq<Id>, u: Id, v: Id) {
    forall a :: 0 <= a < |order| && Edge(r, order[a], u) ==> HasParentFrom(r, order, a, v)
  }

  ghost predicate HasParentFrom(r: Rel, order: seq<Id>, a: int, v: Id) {
    exists b :: a <= b < |order| && 0 <= b && Edge(r, order[b], v)
  }

  ghost predicate Fifo(r: Rel, order: seq<Id>, line: seq<Id>) {
    forall i, j :: 0 <= i < j < |line| ==> NotAfter(r, order, line[i], line[j])
  }

  /** All parents of an ordered or queued node have been ordered. */
  lemma NoParentLeft(g: Network, deg: Degrees, queue: seq<Id>, order: seq<Id>, u: Id, v: Id)
    requires Inv(g, deg, queue, order) && v in order + queue && u in Left(g, order)
    ensures !Edge(Edges(g.succ), u, v)
  {
    assert Tracked(g, deg, queue, order, v);
    LoadZero(g.succ, Left(g, order), v);
  }

  lemma NotAfterStays(r: Rel, order: seq<Id>, n: Id, u: Id, v: Id)
    requires NotAfter(r, order, u, v) && !Edge(r, n, u)
    ensures NotAfter(r, order + [n], u, v)
  {
    var longer := order + [n];
    forall a | 0 <= a < |longer| && Edge(r, longer[a], u) ensures HasParentFrom(r, longer, a, v) {
      assert longer[a] == order[a];
      assert HasParentFrom(r, order, a, v);
      var b :| a <= b < |order| && 0 <= b && Edge(r, order[b], v);
      assert longer[b] == order[b];
    }
  }

  lemma ChildOfLast(r: Rel, order: seq<Id>, n: Id, u: Id, v: Id)
    requires Edge(r, n, v)
    ensures NotAfter(r, order + [n], u, v)
  {
    var longer := order + [n];
    forall a | 0 <= a < |longer| && Edge(r, longer[a], u) ensures HasParentFrom(r, longer, a, v) {
      assert longer[|order|] == n;
    }
  }

  lemma StepFifo(g: Network, deg: Degrees, queue: seq<Id>, order: seq<Id>, added: seq<Id>)
    requires Inv(g, deg, queue, order) && queue != [] && Fifo(Edges(g.succ), order, order + queue)
    requires forall c :: c in added ==> c in Kids(g.succ, queue[0])
    ensures Fifo(Edges(g.succ), order + [queue[0]], (order + queue) + added)
  {
    var r, n, line := Edges(g.succ), queue[0], order + queue;
    NoDupApart(order, queue);
    assert n in line && n in Left(g, order);
    forall i, j | 0 <= i < j < |line + added| ensures NotAfter(r, order + [n], (line + added)[i], (line + added)[j]) {
      if j < |line| {
        NoParentLeft(g, deg, queue, order, n, line[i]);
        NotAfterStays(r, order, n, line[i], line[j]);
      } else {
        assert (line + added)[j] == added[j - |line|];
        ChildOfLast(r, order, n, (line + added)[i], (line + added)[j]);
      }
    }
  }

  lemma {:induction false} DrainFifo(g: Network, deg: Degrees, queue: seq<Id>, order: seq<Id>)
    requires Inv(g, deg, queue, order) && Fifo(Edges(g.succ), order, order + queue)
    ensures order + queue <= Drain(g, deg, queue, order).1
    ensures Fifo(Edges(g.succ), Drain(g, deg, queue, order).1, Drain(g, deg, queue, order).1)
    decreases Left(g, order)
  {
    if queue == [] {
      assert order + queue == order;
    } else {
      StepInv(g, deg, queue, order);
      var added := RelaxQueue(deg, queue[1..], Kids(g.succ, queue[0]));
      var (deg', queue') := Relax(deg, queue[1..], Kids(g.succ, queue[0]));
      StepFifo(g, deg, queue, order, added);
      MoveHead(order, queue, added);
      assert order + [queue[0]] + queue' == (order + queue) + added;
      DrainFifo(g, deg', queue', order + [queue[0]]);
    }
  }

  lemma {:induction false} ZerosAreSources(g: Network, nodes: seq<Id>)
    requires WellFormed(g) && forall v :: v in nodes ==> v in g.nodes
    ensures Zeros(nodes, InDegrees(g)) == Sources(nodes, Edges(g.succ))
  {
    if nodes != [] {
      LoadZero(g.succ, Elems(g.nodes), nodes[0]);
      EdgesOver(g);
      ZerosAreSources(g, nodes[1..]);
    }
  }

  /**
   The order is first in, first out: it begins with the sources in table order, and of two nodes the
   one whose last parent comes first comes first.
   */
  lemma OrderIsFifo(g: Network)
    requires WellFormed(g)
    ensures Sources(g.nodes, Edges(g.succ)) <= Order(g)
    ensures Fifo(Edges(g.succ), Order(g), Order(g))
  {
    var none: seq<Id> := [];
    InitInv(g);
    ZerosAreSources(g, g.nodes);
    assert none + Zeros(g.nodes, InDegrees(g)) == Zeros(g.nodes, InDegrees(g));
    DrainFifo(g, InDegrees(g), Zeros(g.nodes, InDegrees(g)), none);
  }
}
