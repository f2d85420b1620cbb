/**
 `send_and_wait` and the reply part of the message callback, as a state machine on one event loop.
 A step is what runs between two awaits.
 */
module RequestReply {
  import opened Basics

  datatype Future = Waiting | Resolved(payload: Value) | Cancelled

  datatype Status = InFlight | Answered(payload: Value, ended: nat) | Raised

  /** One call: its internal task id, the number of replies received before it began, and how it ended. */
  datatype Call = Call(tid: Id, began: nat, status: Status)

  datatype Reply = Reply(tid: Id, payload: Value)

  datatype State = State(pending: map<Id, nat>, futures: map<nat, Future>, calls: map<nat, Call>, log: seq<Reply>)

  datatype Step =
    | Begin(c: nat, tid: Id)
    | Receive(reply: Reply)
    | TimeOut(c: nat)
    | Abort(c: nat)
    | Finish(c: nat)

  const START := State(map[], map[], map[], [])

  predicate Running(s: State, c: nat) {
    c in s.calls && s.calls[c].status.InFlight?
  }

  function End(s: State, c: nat, status: Status): State
    requires c in s.calls
  {
    s.(pending := s.pending - {s.calls[c].tid}, calls := s.calls[c := s.calls[c].(status := status)])
  }

  /**
   Begin: refuse an id that is already pending, else create and register the future.
   Receive: resolve the future registered under the reply's id, unless it is already done.
   TimeOut: `wait_for` cancels a future that is not done.  Abort: the send fails or the task is cancelled.
   Finish: the caller resumes on a done future; the `finally` block removes the id.
   */
  function Next(s: State, step: Step): Option<State> {
    match step
    case Begin(c, tid) =>
      if c in s.calls then None
      else if tid in s.pending then Some(s.(calls := s.calls[c := Call(tid, |s.log|, Raised)]))
      else Some(s.(pending := s.pending[tid := c], futures := s.futures[c := Waiting],
                   calls := s.calls[c := Call(tid, |s.log|, InFlight)]))
    case Receive(r) =>
      var t := s.(log := s.log + [r]);
      if r.tid in s.pending && s.pending[r.tid] in s.futures && s.futures[s.pending[r.tid]].Waiting? then
        Some(t.(futures := s.futures[s.pending[r.tid] := Resolved(r.payload)]))
      else Some(t)
    case TimeOut(c) =>
      if !Running(s, c) || c !in s.futures || !s.futures[c].Waiting? then None
      else Some(s.(futures := s.futures[c := Cancelled]))
    case Abort(c) =>
      if !Running(s, c) then None else Some(End(s, c, Raised))
    case Finish(c) =>
      if !Running(s, c) || c !in s.futures || s.futures[c].Waiting? then None
      else if s.futures[c].Resolved? then Some(End(s, c, Answered(s.futures[c].payload, |s.log|)))
      else Some(End(s, c, Raised))
  }

  function Run(s: State, steps: seq<Step>): Option<State> {
    if steps == [] then Some(s)
    else match Run(s, steps[..|steps| - 1])
      case None => None
      case Some(t) => Next(t, steps[|steps| - 1])
  }

  // ---------------------------------------------------------------- the invariant

  /** The first reply for `tid` at or after position `from`. */
  ghost function FirstReply(log: seq<Reply>, from: nat, tid: Id): Option<Value> {
    if |log| <= from then None
    else
      var n := |log| - 1;
      match FirstReply(log[..n], from, tid)
      case Some(p) => Some(p)
      case None => if log[n].tid == tid then Some(log[n].payload) else None
  }

  lemma FirstReplySnoc(log: seq<Reply>, from: nat, tid: Id, r: Reply)
    requires from <= |log|
    ensures FirstReply(log + [r], from, tid)
         == match FirstReply(log, from, tid)
            case Some(p) => Some(p)
            case None => if r.tid == tid then Some(r.payload) else None
  {
    assert (log + [r])[..|log|] == log;
  }

  ghost predicate CallOk(s: State, c: nat, call: Call) {
    && call.began <= |s.log|
    && match call.status
       case InFlight =>
         && call.tid in s.pending && s.pending[call.tid] == c && c in s.futures
         && (s.futures[c].Waiting? ==> FirstReply(s.log, call.began, call.tid) == None)
         && (s.futures[c].Resolved? ==> FirstReply(s.log, call.began, call.tid) == Some(s.futures[c].payload))
       case Answered(p, ended) =>
         call.began <= ended <= |s.log| && FirstReply(s.log[..ended], call.began, call.tid) == Some(p)
       case Raised => true
  }

  ghost predicate PendingOk(s: State, tid: Id) {
    tid in s.pending ==> Running(s, s.pending[tid]) && s.calls[s.pending[tid]].tid == tid
  }

  ghost predicate Inv(s: State) {
    && (forall c {:trigger s.calls[c]} :: c in s.calls ==> CallOk(s, c, s.calls[c]))
    && (forall tid {:trigger PendingOk(s, tid)} :: PendingOk(s, tid))
    && s.futures.Keys <= s.calls.Keys
  }

  lemma CallStays(s: State, t: State, c: nat, call: Call)
    requires CallOk(s, c, call) && t.log == s.log
    requires call.status.InFlight? ==> call.tid in t.pending && t.pending[call.tid] == c && c in t.futures
    requires call.status.InFlight? ==> t.futures[c] == s.futures[c] || t.futures[c] == Cancelled
    ensures CallOk(t, c, call)
  {
  }

  lemma BeginKeepsInv(s: State, c: nat, tid: Id)
    requires Inv(s) && Next(s, Begin(c, tid)).Some?
    ensures Inv(Next(s, Begin(c, tid)).value)
  {
    var t := Next(s, Begin(c, tid)).value;
    forall d {:trigger t.calls[d]} | d in t.calls ensures CallOk(t, d, t.calls[d]) {
      if d != c {
        assert CallOk(s, d, s.calls[d]);
        CallStays(s, t, d, s.calls[d]);
      }
    }
    forall x {:trigger PendingOk(t, x)} ensures PendingOk(t, x) {
      assert PendingOk(s, x);
    }
  }

  lemma ReceiveKeepsCall(s: State, r: Reply, c: nat)
    requires Inv(s) && c in s.calls
    ensures CallOk(Next(s, Receive(r)).value, c, s.calls[c])
  {
    var call := s.calls[c];
    assert CallOk(s, c, call);
    assert PendingOk(s, r.tid);
    FirstReplySnoc(s.log, call.began, call.tid, r);
    if call.status.Answered? {
      assert (s.log + [r])[..call.status.ended] == s.log[..call.status.ended];
    }
  }

  lemma ReceiveKeepsInv(s: State, r: Reply)
    requires Inv(s)
    ensures Next(s, Receive(r)).Some? && Inv(Next(s, Receive(r)).value)
  {
    var t := Next(s, Receive(r)).value;
    forall d {:trigger t.calls[d]} | d in t.calls ensures CallOk(t, d, t.calls[d]) {
      ReceiveKeepsCall(s, r, d);
    }
    forall x {:trigger PendingOk(t, x)} ensures PendingOk(t, x) {
      assert PendingOk(s, x);
    }
    assert PendingOk(s, r.tid);
  }

  lemma TimeOutKeepsInv(s: State, c: nat)
    requires Inv(s) && Next(s, TimeOut(c)).Some?
    ensures Inv(Next(s, TimeOut(c)).value)
  {
    var t := Next(s, TimeOut(c)).value;
    forall d {:trigger t.calls[d]} | d in t.calls ensures CallOk(t, d, t.calls[d]) {
      CallStays(s, t, d, s.calls[d]);
    }
    forall x {:trigger PendingOk(t, x)} ensures PendingOk(t, x) {
      assert PendingOk(s, x);
    }
  }

  lemma EndKeepsInv(s: State, c: nat, status: Status)
    requires Inv(s) && Running(s, c) && !status.InFlight?
    requires CallOk(s, c, s.calls[c].(status := status))
    ensures Inv(End(s, c, status))
  {
    var t := End(s, c, status);
    forall d {:trigger t.calls[d]} | d in t.calls ensures CallOk(t, d, t.calls[d]) {
      if d != c {
        assert CallOk(s, d, s.calls[d]) && CallOk(s, c, s.calls[c]);
        CallStays(s, t, d, s.calls[d]);
      }
    }
    forall x {:trigger PendingOk(t, x)} ensures PendingOk(t, x) {
      assert PendingOk(s, x) && CallOk(s, c, s.calls[c]);
    }
  }

  lemma NextKeepsInv(s: State, step: Step)
    requires Inv(s) && Next(s, step).Some?
    ensures Inv(Next(s, step).value)
  {
    match step
    case Begin(c, tid) => BeginKeepsInv(s, c, tid);
    case Receive(r) => ReceiveKeepsInv(s, r);
    case TimeOut(c) => TimeOutKeepsInv(s, c);
    case Abort(c) => EndKeepsInv(s, c, Raised);
    case Finish(c) =>
      assert s.log[..|s.log|] == s.log;
      if s.futures[c].Resolved? {
        EndKeepsInv(s, c, Answered(s.futures[c].payload, |s.log|));
      } else {
        EndKeepsInv(s, c, Raised);
      }
  }

  lemma {:induction false} RunKeepsInv(steps: seq<Step>)
    requires Run(START, steps).Some?
    ensures Inv(Run(START, steps).value)
  {
    if steps == [] {
      forall tid ensures PendingOk(START, tid) {
      }
    } else {
      RunKeepsInv(steps[..|steps| - 1]);
      NextKeepsInv(Run(START, steps[..|steps| - 1]).value, steps[|steps| - 1]);
    }
  }

  // ---------------------------------------------------------------- guarantees

  /** In every interleaving the pending ids are exactly those of the calls in flight, one call per id. */
  lemma PendingIsInFlight(steps: seq<Step>, tid: Id)
    requires Run(START, steps).Some?
    ensures var s := Run(START, steps).value;
      && (tid in s.pending <==> exists c :: Running(s, c) && s.calls[c].tid == tid)
      && (forall c, d :: Running(s, c) && Running(s, d) && s.calls[c].tid == tid && s.calls[d].tid == tid ==> c == d)
  {
    RunKeepsInv(steps);
    var s := Run(START, steps).value;
    assert PendingOk(s, tid);
    forall c | Running(s, c) && s.calls[c].tid == tid ensures tid in s.pending && s.pending[tid] == c {
      assert CallOk(s, c, s.calls[c]);
    }
  }

  /** A call that returns gets the first reply carrying its own id that arrived while it was pending. */
  lemma ReturnsFirstReply(steps: seq<Step>, c: nat)
    requires Run(START, steps).Some?
    requires c in Run(START, steps).value.calls && Run(START, steps).value.calls[c].status.Answered?
    ensures var s := Run(START, steps).value;
            var call := s.calls[c];
            && call.began <= call.status.ended <= |s.log|
            && FirstReply(s.log[..call.status.ended], call.began, call.tid) == Some(call.status.payload)
  {
    RunKeepsInv(steps);
    assert CallOk(Run(START, steps).value, c, Run(START, steps).value.calls[c]);
  }

  /** A done future never changes, and neither does the outcome of a call that has ended. */
  lemma DoneIsFinal(steps: seq<Step>, step: Step, c: nat)
    requires Run(START, steps).Some? && Next(Run(START, steps).value, step).Some?
    ensures var s, t := Run(START, steps).value, Next(Run(START, steps).value, step).value;
      && (c in s.futures && !s.futures[c].Waiting? ==> c in t.futures && t.futures[c] == s.futures[c])
      && (c in s.calls && !s.calls[c].status.InFlight? ==> c in t.calls && t.calls[c] == s.calls[c])
  {
    RunKeepsInv(steps);
  }

  /** A call whose reply has come can finish, and then returns that reply. */
  lemma ReplyIsReturned(steps: seq<Step>, c: nat)
    requires Run(START, steps).Some? && Running(Run(START, steps).value, c)
    requires var s := Run(START, steps).value; c in s.futures && s.futures[c].Resolved?
    ensures var s := Run(START, steps).value;
            var t := Run(START, steps + [Finish(c)]);
      && t.Some? && c in t.value.calls
      && t.value.calls[c] == s.calls[c].(status := Answered(s.futures[c].payload, |s.log|))
  {
    RunSnoc(steps, Finish(c));
  }

  lemma RunSnoc(steps: seq<Step>, step: Step)
    requires Run(START, steps).Some?
    ensures Run(START, steps + [step]) == Next(Run(START, steps).value, step)
  {
    assert (steps + [step])[..|steps|] == steps;
  }

  /** When steps are possible: any fresh call, any message, and each way out of a call that is still in flight. */
  lemma WhatIsPossible(steps: seq<Step>, c: nat, tid: Id, r: Reply)
    requires Run(START, steps).Some?
    ensures var s := Run(START, steps).value;
      && (Run(START, steps + [Begin(c, tid)]).Some? <==> c !in s.calls)
      && Run(START, steps + [Receive(r)]).Some?
      && (Run(START, steps + [Abort(c)]).Some? <==> c in s.calls && s.calls[c].status == InFlight)
      && (Run(START, steps + [TimeOut(c)]).Some?
          <==> c in s.calls && s.calls[c].status == InFlight && c in s.futures && s.futures[c] == Waiting)
      && (Run(START, steps + [Finish(c)]).Some?
          <==> c in s.calls && s.calls[c].status == InFlight && c in s.futures && s.futures[c] != Waiting)
  {
    RunKeepsInv(steps);
    RunSnoc(steps, Begin(c, tid));
    RunSnoc(steps, Receive(r));
    RunSnoc(steps, Abort(c));
    RunSnoc(steps, TimeOut(c));
    RunSnoc(steps, Finish(c));
  }

  /** A new call is refused exactly if its id is pending; otherwise it is in flight, waiting, under its own id. */
  lemma BeginsInFlight(steps: seq<Step>, c: nat, tid: Id)
    requires Run(START, steps).Some? && c !in Run(START, steps).value.calls
    ensures var s := Run(START, steps).value;
            var t := Run(START, steps + [Begin(c, tid)]);
      && t.Some? && c in t.value.calls && t.value.calls[c].tid == tid && t.value.calls[c].began == |s.log|
      && t.value.calls[c].status == (if tid in s.pending then Raised else InFlight)
      && (tid !in s.pending ==> t.value.pending == s.pending[tid := c] && t.value.futures == s.futures[c := Waiting])
  {
    RunSnoc(steps, Begin(c, tid));
  }

  /** Every message is logged, and the first one with a waiting call's id resolves that call's future. */
  lemma ReplyResolves(steps: seq<Step>, c: nat, r: Reply)
    requires Run(START, steps).Some? && Running(Run(START, steps).value, c)
    requires var s := Run(START, steps).value; c in s.futures && s.futures[c] == Waiting && s.calls[c].tid == r.tid
    ensures var s := Run(START, steps).value;
            var t := Run(START, steps + [Receive(r)]);
      t.Some? && t.value.log == s.log + [r] && t.value.futures == s.futures[c := Resolved(r.payload)]
  {
    RunKeepsInv(steps);
    RunSnoc(steps, Receive(r));
    var s := Run(START, steps).value;
    assert CallOk(s, c, s.calls[c]);
  }

  // ---------------------------------------------------------------- why a call raises

  /** Step `i` of the run can make call `c` raise: an abort, a timeout, or a begin that found its id pending. */
  ghost predicate Spoils(steps: seq<Step>, i: nat, c: nat) {
    && i < |steps|
    && (|| steps[i] == Abort(c)
        || steps[i] == TimeOut(c)
        || (steps[i].Begin? && steps[i].c == c && Run(START, steps[..i]).Some?
            && steps[i].tid in Run(START, steps[..i]).value.pending))
  }

  lemma SpoilsLater(steps: seq<Step>, i: nat, c: nat)
    requires steps != [] && Spoils(steps[..|steps| - 1], i, c)
    ensures Spoils(steps, i, c)
  {
    assert steps[..|steps| - 1][..i] == steps[..i];
  }

  /** A call raises, and a future is cancelled, only if the run contains a step that spoils the call. */
  lemma {:induction false} RaisedHasReason(steps: seq<Step>, c: nat)
    requires Run(START, steps).Some?
    ensures var s := Run(START, steps).value;
      (c in s.calls && s.calls[c].status == Raised) || (c in s.futures && s.futures[c] == Cancelled) ==>
        exists i: nat :: Spoils(steps, i, c)
  {
    if steps != [] {
      var n := |steps| - 1;
      var before := Run(START, steps[..n]).value;
      RaisedHasReason(steps[..n], c);
      if i: nat :| Spoils(steps[..n], i, c) {
        SpoilsLater(steps, i, c);
      } else if steps[n] == Abort(c) || steps[n] == TimeOut(c) || (steps[n].Begin? && steps[n].c == c) {
        if !steps[n].Begin? || steps[n].tid in before.pending {
          assert Spoils(steps, n, c);
        }
      }
    }
  }
}
