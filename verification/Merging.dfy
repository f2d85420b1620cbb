/** `_prepare_node_input`: converting the parents' outputs and merging them key by key. */
module Merging {
  import opened Basics
  import opened WorkflowStates

  type Converter = Value -> Attempt
  type Converters = map<(Id, Id), Converter>

  /** The input of a node, or an exception: a converter threw or did not return a dict. */
  datatype Prepared = Input(v: Value) | Raises

  function Convert(converters: Converters, p: Id, id: Id, output: Value): Attempt {
    if (p, id) in converters then converters[(p, id)](output) else Returned(output)
  }

  /** `aggregated_input` after the parents in `order`, in that order; a parent without output is skipped. */
  function Merge(order: seq<Id>, id: Id, records: Records, converters: Converters): (r: Prepared)
    requires forall p :: p in order ==> p in records
    ensures r.Input? ==> r.v.Dict?
  {
    if order == [] then Input(EMPTY_DICT)
    else
      var n := |order| - 1;
      var p := order[n];
      match Merge(order[..n], id, records, converters)
      case Raises => Raises
      case Input(acc) =>
        if records[p].output.None? then Input(acc)
        else
          var t := Convert(converters, p, id, records[p].output.value);
          if t.Returned? && t.v.Dict? then Input(Dict(acc.entries + t.v.entries)) else Raises
  }

  /** A node without parents keeps the input it was `given`. */
  function Prepare(order: seq<Id>, id: Id, given: Value, records: Records, converters: Converters): Prepared
    requires forall p :: p in order ==> p in records
  {
    if order == [] then Input(given) else Merge(order, id, records, converters)
  }

  // ---------------------------------------------------------------- what a merge means

  /** What the edge makes of the parent's output: its converter's answer, or the output itself. */
  ghost predicate Converts(converters: Converters, p: Id, id: Id, output: Value, t: Attempt) {
    if (p, id) in converters then t == converters[(p, id)](output) else t == Returned(output)
  }

  /** Parent `p` has an output, and its edge to `id` makes a dict of it. */
  ghost predicate HasDict(p: Id, id: Id, records: Records, converters: Converters) {
    && p in records && records[p].output.Some?
    && exists d :: Converts(converters, p, id, records[p].output.value, Returned(Dict(d)))
  }

  /** Parent `p` has an output, but its edge to `id` throws on it or makes something else than a dict of it. */
  ghost predicate IsBad(p: Id, id: Id, records: Records, converters: Converters) {
    p in records && records[p].output.Some? && !HasDict(p, id, records, converters)
  }

  /** The dict that parent `p` contributes to `id`. */
  ghost function Share(p: Id, id: Id, records: Records, converters: Converters): (d: map<Id, Value>)
    requires HasDict(p, id, records, converters)
    ensures Converts(converters, p, id, records[p].output.value, Returned(Dict(d)))
  {
    var d :| Converts(converters, p, id, records[p].output.value, Returned(Dict(d)));
    d
  }

  lemma ShareIs(p: Id, id: Id, records: Records, converters: Converters)
    requires p in records && records[p].output.Some?
    ensures var t := Convert(converters, p, id, records[p].output.value);
      && Converts(converters, p, id, records[p].output.value, t)
      && (HasDict(p, id, records, converters) <==> t.Returned? && t.v.Dict?)
      && (HasDict(p, id, records, converters) ==> Share(p, id, records, converters) == t.v.entries)
  {
    var t := Convert(converters, p, id, records[p].output.value);
    if t.Returned? && t.v.Dict? {
      assert t == Returned(Dict(t.v.entries));
    }
  }

  ghost predicate Contributes(p: Id, id: Id, records: Records, converters: Converters, k: Id) {
    HasDict(p, id, records, converters) && k in Share(p, id, records, converters)
  }

  /** Place `i` of the order is the last that contributes the key. */
  ghost predicate LastShare(order: seq<Id>, i: int, id: Id, records: Records, converters: Converters, k: Id) {
    && 0 <= i < |order| && Contributes(order[i], id, records, converters, k)
    && forall j :: i < j < |order| ==> !Contributes(order[j], id, records, converters, k)
  }

  /** Exactly the contributed keys are in `d`, each with the value of the last parent that contributes it. */
  ghost predicate IsMerged(d: map<Id, Value>, order: seq<Id>, id: Id, records: Records, converters: Converters) {
    forall k :: KeyMerged(d, order, id, records, converters, k)
  }

  ghost predicate KeyMerged(d: map<Id, Value>, order: seq<Id>, id: Id, records: Records, converters: Converters,
                            k: Id)
  {
    && (k in d <==> exists i :: LastShare(order, i, id, records, converters, k))
    && forall i :: LastShare(order, i, id, records, converters, k) ==>
         k in d && d[k] == Share(order[i], id, records, converters)[k]
  }

  lemma LastShareStep(order: seq<Id>, id: Id, records: Records, converters: Converters, k: Id)
    requires order != []
    ensures var n := |order| - 1;
      forall i :: LastShare(order, i, id, records, converters, k)
        <==> (if Contributes(order[n], id, records, converters, k) then i == n
              else LastShare(order[..n], i, id, records, converters, k))
  {
    var n := |order| - 1;
    var front := order[..n];
    assert forall j :: 0 <= j < n ==> front[j] == order[j];
  }

  /** The merge raises exactly when some parent's converted output threw or is not a dict. */
  lemma {:induction false} MergeRaises(order: seq<Id>, id: Id, records: Records, converters: Converters)
    requires forall p :: p in order ==> p in records
    ensures Merge(order, id, records, converters).Raises?
       <==> exists p :: p in order && IsBad(p, id, records, converters)
  {
    if order != [] {
      var n := |order| - 1;
      var front, last := order[..n], order[n];
      MergeRaises(front, id, records, converters);
      assert order == front + [last];
      if p :| p in front && IsBad(p, id, records, converters) {
        assert p in order;
      } else {
        if records[last].output.Some? {
          ShareIs(last, id, records, converters);
        }
        assert forall p :: p in order && IsBad(p, id, records, converters) ==> p == last;
        assert last in order;
      }
    }
  }

  /**
   A key is merged exactly if some parent contributes it, and carries the value of the last parent, in
   merge order, that does.  A parent contributes what its converter makes of its output, or the output
   itself where the edge has no converter; a parent without output contributes nothing.
   */
  lemma {:induction false} LastContributorWins(order: seq<Id>, id: Id, records: Records, converters: Converters, k: Id)
    requires forall p :: p in order ==> p in records
    requires Merge(order, id, records, converters).Input?
    ensures KeyMerged(Merge(order, id, records, converters).v.entries, order, id, records, converters, k)
  {
    if order != [] {
      var n := |order| - 1;
      LastContributorWins(order[..n], id, records, converters, k);
      LastShareStep(order, id, records, converters, k);
      if records[order[n]].output.Some? {
        ShareIs(order[n], id, records, converters);
      }
      if Contributes(order[n], id, records, converters, k) {
        assert LastShare(order, n, id, records, converters, k);
      }
    }
  }

  /** No parents: the given input.  Otherwise an exception, exactly if some parent is bad, or the merged dict. */
  lemma PrepareMeaning(order: seq<Id>, id: Id, given: Value, records: Records, converters: Converters)
    requires forall p :: p in order ==> p in records
    ensures var r := Prepare(order, id, given, records, converters);
      && (order == [] ==> r == Input(given))
      && (order != [] ==> (r.Raises? <==> exists p :: p in order && IsBad(p, id, records, converters)))
      && (order != [] && r.Input? ==> r.v.Dict? && IsMerged(r.v.entries, order, id, records, converters))
  {
    MergeRaises(order, id, records, converters);
    if Merge(order, id, records, converters).Input? {
      forall k ensures KeyMerged(Merge(order, id, records, converters).v.entries, order, id, records, converters, k) {
        LastContributorWins(order, id, records, converters, k);
      }
    }
  }

  /** One parent with a converter: the input is what the converter returns. */
  lemma ConverterApplied(p: Id, id: Id, given: Value, records: Records, converters: Converters, d: map<Id, Value>)
    requires p in records && records[p].output.Some? && (p, id) in converters
    requires converters[(p, id)](records[p].output.value) == Returned(Dict(d))
    ensures Prepare([p], id, given, records, converters) == Input(Dict(d))
  {
    var none: seq<Id> := [];
    assert [p][..0] == none;
    assert Merge(none, id, records, converters) == Input(Dict(map[]));
    assert map[] + d == d;
  }

  // ---------------------------------------------------------------- the loop

  method PrepareNodeInput(parents: seq<Id>, id: Id, given: Value, records: Records, converters: Converters)
    returns (r: Prepared)
    requires forall p :: p in parents ==> p in records
    ensures r == Prepare(parents, id, given, records, converters)
    ensures parents == [] ==> r == Input(given)
    ensures parents != [] ==> (r.Raises? <==> exists p :: p in parents && IsBad(p, id, records, converters))
    ensures parents != [] && r.Input? ==> r.v.Dict? && IsMerged(r.v.entries, parents, id, records, converters)
  {
    PrepareMeaning(parents, id, given, records, converters);
    if |parents| == 0 {
      return Input(given);
    }
    var aggregated: map<Id, Value> := map[];
    var i := 0;
    while i < |parents|
      invariant 0 <= i <= |parents|
      invariant Merge(parents[..i], id, records, converters) == Input(Dict(aggregated))
    {
      var p := parents[i];
      assert parents[..i + 1][..i] == parents[..i];
      if records[p].output.Some? {
        var t := Convert(converters, p, id, records[p].output.value);
        if !(t.Returned? && t.v.Dict?) {
          RaisesStays(parents, i + 1, id, records, converters);
          return Raises;
        }
        aggregated := aggregated + t.v.entries;
      }
      i := i + 1;
    }
    assert parents[..i] == parents;
    return Input(Dict(aggregated));
  }

  lemma {:induction false} RaisesStays(order: seq<Id>, i: nat, id: Id, records: Records, converters: Converters)
    requires forall p :: p in order ==> p in records
    requires i <= |order| && Merge(order[..i], id, records, converters).Raises?
    ensures Merge(order, id, records, converters).Raises?
  {
    if i == |order| {
      assert order[..i] == order;
    } else {
      var n := |order| - 1;
      assert order[..n][..i] == order[..i];
      RaisesStays(order[..n], i, id, records, converters);
    }
  }

  // ---------------------------------------------------------------- order independence

  /** Any two parents that contribute a key contribute the same value for it. */
  ghost predicate SharesAgree(parents: set<Id>, id: Id, records: Records, converters: Converters) {
    && (forall p :: p in parents ==> HasDict(p, id, records, converters))
    && forall p, q, k | p in parents && q in parents && k in Share(p, id, records, converters)
                        && k in Share(q, id, records, converters) ::
         Share(p, id, records, converters)[k] == Share(q, id, records, converters)[k]
  }

  /** `d` is the union of the parents' contributions. */
  ghost predicate IsUnion(d: map<Id, Value>, parents: set<Id>, id: Id, records: Records, converters: Converters)
    requires forall p :: p in parents ==> HasDict(p, id, records, converters)
  {
    && (forall k :: k in d ==> exists p :: p in parents && k in Share(p, id, records, converters))
    && (forall p, k :: p in parents && k in Share(p, id, records, converters) ==>
          k in d && d[k] == Share(p, id, records, converters)[k])
  }

  lemma {:induction false} MergeIsUnion(order: seq<Id>, id: Id, records: Records, converters: Converters)
    requires SharesAgree(Elems(order), id, records, converters)
    ensures forall p :: p in order ==> p in records
    ensures Merge(order, id, records, converters).Input?
    ensures IsUnion(Merge(order, id, records, converters).v.entries, Elems(order), id, records, converters)
  {
    if order == [] {
    } else {
      var n := |order| - 1;
      var p := order[n];
      assert order == order[..n] + [p];
      assert Elems(order) == Elems(order[..n]) + {p};
      assert forall q :: q in Elems(order) ==> HasDict(q, id, records, converters);
      assert HasDict(p, id, records, converters);
      ShareIs(p, id, records, converters);
      MergeIsUnion(order[..n], id, records, converters);
      UnionStep(Merge(order[..n], id, records, converters).v.entries, Elems(order[..n]), p, id, records, converters);
    }
  }

  lemma UnionStep(d: map<Id, Value>, parents: set<Id>, p: Id, id: Id, records: Records, converters: Converters)
    requires SharesAgree(parents + {p}, id, records, converters)
    requires forall q :: q in parents ==> HasDict(q, id, records, converters)
    requires IsUnion(d, parents, id, records, converters) && HasDict(p, id, records, converters)
    ensures IsUnion(d + Share(p, id, records, converters), parents + {p}, id, records, converters)
  {
    var all := parents + {p};
    var d' := d + Share(p, id, records, converters);
    assert p in all;
    forall k | k in d' ensures exists q :: q in all && k in Share(q, id, records, converters) {
      if k in d {
        var q :| q in parents && k in Share(q, id, records, converters);
        assert q in all;
      }
    }
  }

  /** Two unions of contributions that coincide parent by parent are the same dict. */
  lemma UnionsEqual(d: map<Id, Value>, e: map<Id, Value>, parents: set<Id>, id: Id,
                    one: Records, two: Records, converters: Converters)
    requires forall p :: p in parents ==> HasDict(p, id, one, converters) && HasDict(p, id, two, converters)
    requires forall p :: p in parents ==> Share(p, id, one, converters) == Share(p, id, two, converters)
    requires IsUnion(d, parents, id, one, converters) && IsUnion(e, parents, id, two, converters)
    ensures d == e
  {
    UnionWithin(d, e, parents, id, one, two, converters);
    UnionWithin(e, d, parents, id, two, one, converters);
    assert d.Keys == e.Keys;
  }

  lemma UnionWithin(d: map<Id, Value>, e: map<Id, Value>, parents: set<Id>, id: Id,
                    one: Records, two: Records, converters: Converters)
    requires forall p :: p in parents ==> HasDict(p, id, one, converters) && HasDict(p, id, two, converters)
    requires forall p :: p in parents ==> Share(p, id, one, converters) == Share(p, id, two, converters)
    requires IsUnion(d, parents, id, one, converters) && IsUnion(e, parents, id, two, converters)
    ensures forall k :: k in d ==> k in e && e[k] == d[k]
  {
    forall k | k in d ensures k in e && e[k] == d[k] {
      var p :| p in parents && k in Share(p, id, one, converters);
      assert k in Share(p, id, two, converters);
    }
  }

  /** What a merge reads: the outputs of the listed parents only. */
  lemma {:induction false} MergeReads(order: seq<Id>, id: Id, one: Records, two: Records, converters: Converters)
    requires forall p :: p in order ==> p in one && p in two && one[p].output == two[p].output
    ensures Merge(order, id, one, converters) == Merge(order, id, two, converters)
  {
    if order != [] {
      MergeReads(order[..|order| - 1], id, one, two, converters);
    }
  }
}
