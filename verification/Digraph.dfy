/** Reachability and cycles in a finite directed graph, given as its set of edges. */
module Digraph {
  import opened Basics

  type Rel = set<(Id, Id)>

  ghost predicate Edge(r: Rel, u: Id, v: Id) {
    (u, v) in r
  }

  /** There is a walk of exactly `n` edges from `u` to `v`. */
  ghost predicate Steps(r: Rel, n: nat, u: Id, v: Id) {
    if n == 0 then u == v
    else exists w :: Edge(r, u, w) && Steps(r, n - 1, w, v)
  }

  /** `u` is a proper ancestor of `v`: a walk of at least one edge leads from `u` to `v`. */
  ghost predicate Before(r: Rel, u: Id, v: Id) {
    exists n: nat :: n > 0 && Steps(r, n, u, v)
  }

  ghost predicate Reaches(r: Rel, u: Id, v: Id) {
    u == v || Before(r, u, v)
  }

  /** No closed walk. */
  ghost predicate Acyclic(r: Rel) {
    forall v :: !Before(r, v, v)
  }

  /** `v` lies on a cycle or downstream of one. */
  ghost predicate FedByCycle(r: Rel, v: Id) {
    exists c :: Before(r, c, c) && Reaches(r, c, v)
  }

  ghost predicate Over(r: Rel, nodes: set<Id>) {
    forall u, v {:trigger Edge(r, u, v)} :: Edge(r, u, v) ==> u in nodes && v in nodes
  }

  /** Every entry of `order` comes after all of its predecessors. */
  ghost predicate Closed(r: Rel, order: seq<Id>) {
    forall i, u {:trigger Edge(r, u, order[i])} :: 0 <= i < |order| && Edge(r, u, order[i]) ==> u in order[..i]
  }

  /** `order` lists exactly `nodes`, once each, and every edge points forward. */
  ghost predicate Topological(r: Rel, nodes: set<Id>, order: seq<Id>) {
    && NoDup(order)
    && Elems(order) == nodes
    && forall i, j {:trigger Edge(r, order[i], order[j])} ::
        0 <= i < |order| && 0 <= j < |order| && Edge(r, order[i], order[j]) ==> i < j
  }

  lemma {:induction false} StepsConcat(r: Rel, m: nat, n: nat, u: Id, v: Id, w: Id)
    requires Steps(r, m, u, v) && Steps(r, n, v, w)
    ensures Steps(r, m + n, u, w)
  {
    if m == 0 {
    } else {
      var x :| Edge(r, u, x) && Steps(r, m - 1, x, v);
      StepsConcat(r, m - 1, n, x, v, w);
      assert Steps(r, m + n - 1, x, w);
    }
  }

  lemma BeforeEdge(r: Rel, u: Id, v: Id)
    requires Edge(r, u, v)
    ensures Before(r, u, v)
  {
    assert Steps(r, 0, v, v);
    assert Steps(r, 1, u, v);
  }

  lemma BeforeTrans(r: Rel, u: Id, v: Id, w: Id)
    requires Before(r, u, v) && Before(r, v, w)
    ensures Before(r, u, w)
  {
    var m: nat :| m > 0 && Steps(r, m, u, v);
    var n: nat :| n > 0 && Steps(r, n, v, w);
    StepsConcat(r, m, n, u, v, w);
  }

  lemma BeforeThenEdge(r: Rel, u: Id, v: Id, w: Id)
    requires Reaches(r, u, v) && Edge(r, v, w)
    ensures Before(r, u, w)
  {
    BeforeEdge(r, v, w);
    if u != v {
      BeforeTrans(r, u, v, w);
    }
  }

  lemma ReachesTrans(r: Rel, u: Id, v: Id, w: Id)
    requires Reaches(r, u, v) && Reaches(r, v, w)
    ensures Reaches(r, u, w)
  {
    if u != v && v != w {
      BeforeTrans(r, u, v, w);
    }
  }

  /** Peels the last edge off a walk. */
  lemma {:induction false} LastEdge(r: Rel, n: nat, u: Id, w: Id) returns (p: Id)
    requires n > 0 && Steps(r, n, u, w)
    ensures Edge(r, p, w) && Reaches(r, u, p) && Steps(r, n - 1, u, p)
  {
    var x :| Edge(r, u, x) && Steps(r, n - 1, x, w);
    if n == 1 {
      p := u;
    } else {
      p := LastEdge(r, n - 1, x, w);
      assert Steps(r, n - 1, u, p);
    }
  }

  lemma LastParent(r: Rel, u: Id, w: Id) returns (p: Id)
    requires Before(r, u, w)
    ensures Edge(r, p, w) && Reaches(r, u, p)
  {
    var n: nat :| n > 0 && Steps(r, n, u, w);
    p := LastEdge(r, n, u, w);
  }

  lemma {:induction false} StepsMono(r: Rel, q: Rel, n: nat, u: Id, v: Id)
    requires r <= q && Steps(r, n, u, v)
    ensures Steps(q, n, u, v)
  {
    if n == 0 {
    } else {
      var w :| Edge(r, u, w) && Steps(r, n - 1, w, v);
      StepsMono(r, q, n - 1, w, v);
      assert Edge(q, u, w);
    }
  }

  lemma BeforeMono(r: Rel, q: Rel, u: Id, v: Id)
    requires r <= q && Before(r, u, v)
    ensures Before(q, u, v)
  {
    var n: nat :| n > 0 && Steps(r, n, u, v);
    StepsMono(r, q, n, u, v);
  }

  /** Deleting edges cannot create a cycle. */
  lemma AcyclicMono(r: Rel, q: Rel)
    requires r <= q && Acyclic(q)
    ensures Acyclic(r)
  {
    forall v | Before(r, v, v) ensures false {
      BeforeMono(r, q, v, v);
    }
  }

  lemma BeforeOver(r: Rel, nodes: set<Id>, u: Id, v: Id)
    requires Over(r, nodes) && Before(r, u, v)
    ensures u in nodes && v in nodes
  {
    var p := LastParent(r, u, v);
    var n: nat :| n > 0 && Steps(r, n, u, v);
    assert exists w :: Edge(r, u, w) && Steps(r, n - 1, w, v);
  }

  // ---------------------------------------------------------------- one more edge

  /** A walk in `r` plus one edge either avoids that edge or enters and leaves through it. */
  lemma {:induction false} SplitAtEdge(r: Rel, a: Id, b: Id, n: nat, u: Id, v: Id)
    requires n > 0 && Steps(r + {(a, b)}, n, u, v)
    ensures Before(r, u, v) || (Reaches(r, u, a) && Reaches(r, b, v))
  {
    var q := r + {(a, b)};
    var w :| Edge(q, u, w) && Steps(q, n - 1, w, v);
    if n > 1 {
      SplitAtEdge(r, a, b, n - 1, w, v);
    }
    if Edge(r, u, w) {
      BeforeEdge(r, u, w);
      if Before(r, w, v) { BeforeTrans(r, u, w, v); }
      if Reaches(r, w, a) { ReachesTrans(r, u, w, a); }
    }
  }

  /** Adding `a -> b` to an acyclic graph closes a cycle exactly when `b` already reached `a`. */
  lemma EdgeClosesCycle(r: Rel, a: Id, b: Id)
    requires Acyclic(r)
    ensures Acyclic(r + {(a, b)}) <==> !Reaches(r, b, a)
  {
    var q := r + {(a, b)};
    if Reaches(r, b, a) {
      BeforeEdge(q, a, b);
      if a != b {
        BeforeMono(r, q, b, a);
        BeforeTrans(q, a, b, a);
      }
    } else {
      forall v | Before(q, v, v) ensures false {
        var n: nat :| n > 0 && Steps(q, n, v, v);
        SplitAtEdge(r, a, b, n, v, v);
        ReachesTrans(r, b, v, a);
      }
    }
  }

  // ---------------------------------------------------------------- orders and cycles

  lemma {:induction false} WalkGoesForward(r: Rel, order: seq<Id>, n: nat, i: nat, j: nat)
    requires n > 0 && NoDup(order) && Closed(r, order)
    requires i < |order| && j < |order| && Steps(r, n, order[i], order[j])
    ensures i < j
  {
    var p := LastEdge(r, n, order[i], order[j]);
    assert p in order[..j];
    var k :| 0 <= k < j && order[..j][k] == p;
    assert order[k] == p;
    if n > 1 {
      WalkGoesForward(r, order, n - 1, i, k);
    }
  }

  /** Whatever lies upstream of an entry of a closed order was listed before it. */
  lemma {:induction false} ClosedUpstream(r: Rel, order: seq<Id>, n: nat, u: Id, j: nat)
    requires n > 0 && Closed(r, order) && j < |order| && Steps(r, n, u, order[j])
    ensures u in order[..j]
  {
    var p := LastEdge(r, n, u, order[j]);
    assert p in order[..j];
    var k :| 0 <= k < j && order[..j][k] == p;
    assert order[k] == p;
    if n > 1 {
      ClosedUpstream(r, order, n - 1, u, k);
      assert order[..k] <= order[..j];
    }
  }

  lemma TopologicalIsClosed(r: Rel, nodes: set<Id>, order: seq<Id>)
    requires Topological(r, nodes, order) && Over(r, nodes)
    ensures Closed(r, order)
  {
    forall i, u | 0 <= i < |order| && Edge(r, u, order[i]) ensures u in order[..i] {
      assert u in nodes;
      assert u in order;
      var k :| 0 <= k < |order| && order[k] == u;
      assert order[..i][k] == u;
    }
  }

  lemma ClosedIsTopological(r: Rel, nodes: set<Id>, order: seq<Id>)
    requires NoDup(order) && Elems(order) == nodes && Closed(r, order)
    ensures Topological(r, nodes, order)
  {
    forall i, j | 0 <= i < |order| && 0 <= j < |order| && Edge(r, order[i], order[j]) ensures i < j {
      var k :| 0 <= k < j && order[..j][k] == order[i];
      assert order[k] == order[i];
    }
  }

  lemma TopologicalForward(r: Rel, nodes: set<Id>, order: seq<Id>, i: nat, j: nat)
    requires Topological(r, nodes, order) && Over(r, nodes)
    requires i < |order| && j < |order| && Before(r, order[i], order[j])
    ensures i < j
  {
    TopologicalIsClosed(r, nodes, order);
    var n: nat :| n > 0 && Steps(r, n, order[i], order[j]);
    WalkGoesForward(r, order, n, i, j);
  }

  ghost function Ancestors(r: Rel, nodes: set<Id>, v: Id): set<Id> {
    set u | u in nodes && Before(r, u, v)
  }

  /** In an acyclic graph a parent has strictly fewer proper ancestors than its child. */
  lemma FewerAncestors(r: Rel, nodes: set<Id>, p: Id, v: Id)
    requires Over(r, nodes) && Edge(r, p, v) && !Before(r, p, p)
    ensures Ancestors(r, nodes, p) < Ancestors(r, nodes, v)
    ensures |Ancestors(r, nodes, p)| < |Ancestors(r, nodes, v)|
  {
    var a, b := Ancestors(r, nodes, p), Ancestors(r, nodes, v);
    BeforeEdge(r, p, v);
    assert p in b && p !in a;
    forall u | u in a ensures u in b {
      BeforeTrans(r, u, p, v);
    }
    SubsetSize(a, b);
  }

  ghost predicate HasParentIn(r: Rel, rest: set<Id>, v: Id) {
    exists u {:trigger Edge(r, u, v)} :: u in rest && Edge(r, u, v)
  }

  ghost predicate Sourceless(r: Rel, rest: set<Id>) {
    forall v {:trigger HasParentIn(r, rest, v)} :: v in rest ==> HasParentIn(r, rest, v)
  }

  /** If every member of a finite set has a predecessor in the set, each member is fed by a cycle. */
  lemma {:induction false} NoSourceMeansCycle(r: Rel, nodes: set<Id>, rest: set<Id>, v: Id)
    requires Over(r, nodes) && v in rest
    requires Sourceless(r, rest)
    ensures FedByCycle(r, v)
    decreases |Ancestors(r, nodes, v)|
  {
    assert HasParentIn(r, rest, v);
    var p :| p in rest && Edge(r, p, v);
    BeforeEdge(r, p, v);
    if Before(r, p, p) {
    } else {
      FewerAncestors(r, nodes, p, v);
      NoSourceMeansCycle(r, nodes, rest, p);
      var c :| Before(r, c, c) && Reaches(r, c, p);
      BeforeThenEdge(r, c, p, v);
    }
  }

  /** Nothing fed by a cycle can stand in a closed order. */
  lemma ClosedAvoidsCycles(r: Rel, order: seq<Id>, v: Id)
    requires NoDup(order) && Closed(r, order) && v in order
    ensures !FedByCycle(r, v)
  {
    forall c | Before(r, c, c) && Reaches(r, c, v) ensures false {
      var j :| 0 <= j < |order| && order[j] == v;
      if c != v {
        var n: nat :| n > 0 && Steps(r, n, c, v);
        ClosedUpstream(r, order, n, c, j);
      }
      assert c in order;
      var i :| 0 <= i < |order| && order[i] == c;
      var m: nat :| m > 0 && Steps(r, m, c, c);
      WalkGoesForward(r, order, m, i, i);
    }
  }

  /** A finite graph is acyclic exactly when nothing in it is fed by a cycle. */
  lemma AcyclicIsUnfed(r: Rel, nodes: set<Id>)
    requires Over(r, nodes)
    ensures Acyclic(r) <==> forall v :: v in nodes ==> !FedByCycle(r, v)
  {
    if !Acyclic(r) {
      var v :| Before(r, v, v);
      BeforeOver(r, nodes, v, v);
      assert FedByCycle(r, v);
    }
  }
}
