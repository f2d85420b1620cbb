/** The presence table of `PeersManager`: which meshes each known agent was last seen joining. */
module Presence {
  import opened Basics

  /** A join or remove announcement, as received on a mesh. */
  datatype Event = Join(subject: Id, data: Value, mesh: Id) | Remove(subject: Id, mesh: Id)

  datatype Entry = Entry(data: Value, meshIds: seq<Id>)

  type Table = map<Id, Entry>

  function Lists(agents: Table, subject: Id): seq<Id> {
    if subject in agents then agents[subject].meshIds else []
  }

  /** The JSON values that count as false where a condition is expected. */
  ghost predicate Falsy(v: Value) {
    v == Null || v == Bool(false) || v == Num(0.0) || v == Str("") || v == List([]) || v == Dict(map[])
  }

  predicate Truthy(v: Value)
    ensures Truthy(v) <==> !Falsy(v)
  {
    match v
    case Null => false
    case Bool(b) => b
    case Num(n) => n != 0.0
    case Str(s) => s != ""
    case List(items) => items != []
    case Dict(entries) => entries != map[]
  }

  /** The last event about this subject on this mesh was a join. */
  ghost predicate LastWasJoin(log: seq<Event>, subject: Id, mesh: Id) {
    if log == [] then false
    else
      var e := log[|log| - 1];
      if e.subject == subject && e.mesh == mesh then e.Join?
      else LastWasJoin(log[..|log| - 1], subject, mesh)
  }

  lemma LastWasJoinSnoc(log: seq<Event>, e: Event, subject: Id, mesh: Id)
    ensures LastWasJoin(log + [e], subject, mesh)
        <==> if e.subject == subject && e.mesh == mesh then e.Join? else LastWasJoin(log, subject, mesh)
  {
    assert (log + [e])[..|log|] == log;
  }

  ghost predicate SeenSomewhere(log: seq<Event>, subject: Id) {
    exists mesh :: LastWasJoin(log, subject, mesh)
  }

  lemma SeenThere(log: seq<Event>, subject: Id, mesh: Id)
    requires LastWasJoin(log, subject, mesh)
    ensures SeenSomewhere(log, subject)
  {
  }

  ghost predicate RowOk(agents: Table, self: Id, log: seq<Event>, subject: Id) {
    && NoDup(Lists(agents, subject))
    && (subject in agents ==> agents[subject].meshIds != [])
    && forall mesh :: mesh in Lists(agents, subject) <==>
        subject != self && subject != Id("") && LastWasJoin(log, subject, mesh)
  }

  /** Only the row of the event's subject can change. */
  lemma OtherRows(before: Table, after: Table, self: Id, log: seq<Event>, e: Event, subject: Id)
    requires RowOk(before, self, log, subject)
    requires subject != e.subject || subject == self || subject == Id("")
    requires (subject in after <==> subject in before) && (subject in before ==> after[subject] == before[subject])
    ensures RowOk(after, self, log + [e], subject)
  {
    forall mesh
      ensures mesh in Lists(after, subject) <==>
        subject != self && subject != Id("") && LastWasJoin(log + [e], subject, mesh)
    {
      LastWasJoinSnoc(log, e, subject, mesh);
    }
  }

  /** The subject's own row, once its list has gained or lost the event's mesh. */
  lemma OwnRow(before: Table, after: Table, self: Id, log: seq<Event>, e: Event)
    requires RowOk(before, self, log, e.subject) && e.subject != self && e.subject != Id("")
    requires NoDup(Lists(after, e.subject)) && (e.subject in after ==> after[e.subject].meshIds != [])
    requires forall m :: m in Lists(after, e.subject) <==>
      if m == e.mesh then e.Join? else m in Lists(before, e.subject)
    ensures RowOk(after, self, log + [e], e.subject)
  {
    forall mesh ensures mesh in Lists(after, e.subject) <==> LastWasJoin(log + [e], e.subject, mesh) {
      LastWasJoinSnoc(log, e, e.subject, mesh);
    }
  }

  class PeerTable {
    const self: Id
    var agents: Table
    ghost var log: seq<Event>

    /**
     After any sequence of announcements: a mesh is listed for a subject exactly when the last event
     for the pair was a join; lists have no duplicates and are never empty; the agent itself and the
     empty subject id are never listed.
     */
    ghost predicate Valid() reads this {
      forall s {:trigger RowOk(agents, self, log, s)} :: RowOk(agents, self, log, s)
    }

    constructor (self: Id)
      ensures Valid() && this.self == self && agents == map[] && log == []
    {
      this.self := self;
      agents := map[];
      log := [];
    }

    method Register(subject: Id, data: Value, mesh: Id)
      modifies this`agents
      ensures subject in agents
      ensures forall s :: s != subject ==>
        (s in agents <==> s in old(agents)) && (s in old(agents) ==> agents[s] == old(agents)[s])
      ensures Lists(agents, subject) == if mesh in old(Lists(agents, subject)) then old(Lists(agents, subject))
                                        else old(Lists(agents, subject)) + [mesh]
      ensures agents[subject].data
           == if subject in old(agents) && Falsy(data) then old(agents)[subject].data else data
    {
      if subject !in agents {
        agents := agents[subject := Entry(data, [mesh])];
        return;
      }
      var entry := agents[subject];
      agents := agents[subject := Entry(if Truthy(data) then data else entry.data,
                                        if mesh in entry.meshIds then entry.meshIds else entry.meshIds + [mesh])];
    }

    method Unregister(subject: Id, mesh: Id)
      modifies this`agents
      ensures forall s :: s != subject ==>
        (s in agents <==> s in old(agents)) && (s in old(agents) ==> agents[s] == old(agents)[s])
      ensures Lists(agents, subject) == Without(old(Lists(agents, subject)), mesh)
      ensures subject in agents ==>
        subject in old(agents) && agents[subject].meshIds != [] && agents[subject].data == old(agents)[subject].data
    {
      if subject !in agents {
        return;
      }
      var entry := agents[subject];
      var rest := Without(entry.meshIds, mesh);
      agents := if rest == [] then agents - {subject} else agents[subject := Entry(entry.data, rest)];
    }

    /** The presence branch of the message callback. */
    method OnPresence(e: Event)
      requires Valid()
      modifies this
      ensures Valid() && log == old(log) + [e]
      ensures forall s :: s != e.subject ==>
        (s in agents <==> s in old(agents)) && (s in old(agents) ==> agents[s] == old(agents)[s])
      ensures e.subject == self || e.subject == Id("") ==> agents == old(agents)
      ensures e.Join? && e.subject != self && e.subject != Id("") ==> e.subject in agents
      ensures e.Join? && e.subject in agents && e.subject != self && e.subject != Id("") ==>
        agents[e.subject].data
        == (if e.subject in old(agents) && Falsy(e.data) then old(agents)[e.subject].data else e.data)
      ensures e.Remove? && e.subject in agents ==>
        e.subject in old(agents) && agents[e.subject].data == old(agents)[e.subject].data
    {
      ghost var before, l := agents, log;
      assert RowOk(before, self, l, e.subject);
      if e.subject != Id("") && e.subject != self {
        if e.Join? {
          Register(e.subject, e.data, e.mesh);
        } else {
          WithoutExact(Lists(agents, e.subject), e.mesh);
          Unregister(e.subject, e.mesh);
        }
        OwnRow(before, agents, self, l, e);
      }
      log := log + [e];
      forall s ensures RowOk(agents, self, log, s) {
        assert RowOk(before, self, l, s);
        if s != e.subject || s == self || s == Id("") {
          OtherRows(before, agents, self, l, e, s);
        }
      }
    }

    /** Where to send: the meshes the subject was last seen on, or every registered mesh when there is none. */
    method TargetMeshIds(subject: Id, meshes: seq<Id>) returns (targets: seq<Id>)
      requires Valid()
      ensures var known := subject != self && subject != Id("") && SeenSomewhere(log, subject);
        && (!known ==> targets == meshes)
        && (known ==> NoDup(targets) && forall m :: m in targets <==> LastWasJoin(log, subject, m))
    {
      assert RowOk(agents, self, log, subject);
      if subject in agents && agents[subject].meshIds != [] {
        assert agents[subject].meshIds[0] in Lists(agents, subject);
        var m := agents[subject].meshIds[0];
        SeenThere(log, subject, m);
        return agents[subject].meshIds;
      }
      return meshes;
    }
  }
}
