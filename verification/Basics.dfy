/** Shared vocabulary: identifiers, JSON-like values, and facts about duplicate-free sequences. */
module Basics {

  datatype Option<+T> = None | Some(value: T)

  /** A string used as a name or a dict key: compared and looked up, nothing else. */
  datatype Id = Id(name: string)

  /** The values that flow between nodes: what Python's `json` module produces, with exact numbers. */
  datatype Value =
    | Null
    | Bool(b: bool)
    | Num(n: real)
    | Str(s: string)
    | List(items: seq<Value>)
    | Dict(entries: map<Id, Value>)

  const EMPTY_DICT: Value := Dict(map[])

  /** What one call into user code does. */
  datatype Attempt = Returned(v: Value) | Threw

  const DATA := Id("data")

  /** Nodes take dicts: any other value is put under the key "data". */
  function Wrap(v: Value): (d: Value)
    ensures d.Dict? && (v.Dict? ==> d == v)
  {
    if v.Dict? then v else Dict(map[DATA := v])
  }

  /** A node that answers None has an empty dict as its output. */
  function OutputOf(v: Value): Value {
    if v.Null? then EMPTY_DICT else v
  }

  ghost predicate NoDup<T>(s: seq<T>) {
    forall i, j :: 0 <= i < j < |s| ==> s[i] != s[j]
  }

  ghost function Elems<T>(s: seq<T>): set<T> {
    set x | x in s
  }

  ghost function Pick<T>(s: set<T>): T
    requires s != {}
  {
    var x :| x in s; x
  }

  /** A duplicate-free sequence has as many entries as distinct elements. */
  lemma {:induction false} NoDupSize<T>(s: seq<T>)
    requires NoDup(s)
    ensures |Elems(s)| == |s|
  {
    if s == [] {
    } else {
      NoDupSize(s[1..]);
      assert Elems(s) == {s[0]} + Elems(s[1..]);
      assert s[0] !in s[1..];
    }
  }

  /** A duplicate-free sequence over a finite set lists all of it exactly when the sizes agree. */
  lemma FullCover<T>(s: seq<T>, universe: set<T>)
    requires NoDup(s) && Elems(s) <= universe
    ensures |s| <= |universe|
    ensures |s| == |universe| <==> Elems(s) == universe
  {
    NoDupSize(s);
    SubsetSize(Elems(s), universe);
  }

  lemma SubsetSize<T>(a: set<T>, b: set<T>)
    requires a <= b
    ensures |a| <= |b|
    ensures |a| == |b| <==> a == b
  {
    assert b == a + (b - a);
    assert |b| == |a| + |b - a|;
  }

  lemma NoDupApart<T>(a: seq<T>, b: seq<T>)
    requires NoDup(a + b)
    ensures NoDup(a) && NoDup(b)
    ensures forall x :: x in b ==> x !in a
  {
    var s := a + b;
    assert forall i :: 0 <= i < |a| ==> s[i] == a[i];
    assert forall j :: 0 <= j < |b| ==> s[|a| + j] == b[j];
    forall i, j | 0 <= i < |a| && 0 <= j < |b| ensures a[i] != b[j] {
      assert s[i] != s[|a| + j];
    }
    forall i, j | 0 <= i < j < |b| ensures b[i] != b[j] {
      assert s[|a| + i] != s[|a| + j];
    }
  }

  lemma NoDupJoin<T>(a: seq<T>, b: seq<T>)
    requires NoDup(a) && NoDup(b)
    requires forall x :: x in b ==> x !in a
    ensures NoDup(a + b)
  {
    var s := a + b;
    forall i, j | 0 <= i < j < |s| ensures s[i] != s[j] {
      if j < |a| {
        assert s[i] == a[i] && s[j] == a[j];
      } else if i < |a| {
        assert s[i] == a[i] && s[j] == b[j - |a|];
        assert b[j - |a|] in b && a[i] in a;
      } else {
        assert s[i] == b[i - |a|] && s[j] == b[j - |a|];
      }
    }
  }

  lemma MoveHead<T>(a: seq<T>, b: seq<T>, c: seq<T>)
    requires b != []
    ensures a + [b[0]] + (b[1..] + c) == (a + b) + c
  {
  }

  lemma NoDupAppend<T>(s: seq<T>, x: T)
    requires NoDup(s) && x !in s
    ensures NoDup(s + [x])
  {
  }

  function Without<T(==)>(s: seq<T>, x: T): seq<T> {
    if s == [] then [] else (if s[0] == x then [] else [s[0]]) + Without(s[1..], x)
  }

  lemma {:induction false} WithoutExact<T>(s: seq<T>, x: T)
    requires NoDup(s)
    ensures NoDup(Without(s, x))
    ensures forall y :: y in Without(s, x) <==> y in s && y != x
  {
    if s == [] {
    } else {
      assert s == [s[0]] + s[1..];
      WithoutExact(s[1..], x);
      NoDupJoin(if s[0] == x then [] else [s[0]], Without(s[1..], x));
    }
  }

  lemma {:induction false} WithoutAbsent<T>(s: seq<T>, x: T)
    requires x !in s
    ensures Without(s, x) == s
  {
    if s != [] {
      WithoutAbsent(s[1..], x);
      assert [s[0]] + s[1..] == s;
    }
  }

  /** Removing keeps the other elements in their order. */
  lemma {:induction false} WithoutKeepsOrder<T>(a: seq<T>, x: T, b: seq<T>)
    requires x !in a && x !in b
    ensures Without(a + [x] + b, x) == a + b
  {
    var s := a + [x] + b;
    if a == [] {
      assert s[0] == x && s[1..] == b && a + b == b;
      WithoutAbsent(b, x);
    } else {
      WithoutKeepsOrder(a[1..], x, b);
      assert s[0] == a[0] && s[1..] == a[1..] + [x] + b;
      assert [a[0]] + (a[1..] + b) == a + b;
    }
  }

  lemma NoMembers<T>(s: seq<T>)
    ensures (forall x :: x !in s) ==> s == []
  {
    if s != [] {
      assert s[0] in s;
    }
  }
}
