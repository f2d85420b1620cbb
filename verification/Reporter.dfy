/**
 `OutputReporter` as a state machine: any number of producers, one worker and one stopper take turns
 in any order on a shared queue.  Each step is one operation that the queue or the event makes atomic.
 */
module Reporter {
  import opened Basics

  datatype Entry = Item(v: Value) | Sentinel

  datatype Worker =
    | Idle
    | Sending(item: Value, sends: seq<bool>)
    | Sent(item: Value, sends: seq<bool>)
    | SawSentinel
    | Exited

  /** `drain` is remembered so that a finished stop can be told apart. */
  datatype Stopper = Quiet | Emptying | Holding(e: Entry) | Closing(drain: bool) | Joining(drain: bool)

  datatype Taker = ByWorker | ByStopper
  datatype Get = Get(e: Entry, who: Taker)
  datatype Report = Report(item: Value, sends: seq<bool>)

  /**
   The queue, the stop event, the unfinished-task counter, the producers that have passed the stop
   check but not yet put their item, and three logs: every put, every get, every processed item.
   */
  datatype State = State(
    capacity: int, attempts: nat,
    queue: seq<Entry>, stopped: bool, unfinished: int, waiting: map<nat, Value>,
    worker: Worker, stopper: Stopper,
    puts: seq<Entry>, gets: seq<Get>, processed: seq<Report>)

  datatype Step =
    | Check(p: nat, item: Value)
    | Put(p: nat)
    | Reject(p: nat)
    | Stop(drain: bool)
    | Take
    | Release
    | FoundEmpty
    | PutSentinel
    | WorkerGet
    | WorkerSend(success: bool)
    | WorkerDone
    | WorkerExit

  function Start(capacity: int, retryAttempts: int): State {
    State(capacity, if retryAttempts < 1 then 1 else retryAttempts, [], false, 0, map[], Idle, Quiet, [], [], [])
  }

  predicate HasRoom(s: State) {
    s.capacity <= 0 || |s.queue| < s.capacity
  }

  function Enqueue(s: State, e: Entry): State {
    s.(queue := s.queue + [e], puts := s.puts + [e], unfinished := s.unfinished + 1)
  }

  function Dequeue(s: State, who: Taker): State
    requires s.queue != []
  {
    s.(queue := s.queue[1..], gets := s.gets + [Get(s.queue[0], who)])
  }

  /** The effect of a step, or None where it is not enabled. */
  function Next(s: State, step: Step): Option<State> {
    match step
    case Check(p, item) =>
      if p in s.waiting then None
      else if s.stopped then Some(s)
      else Some(s.(waiting := s.waiting[p := item]))
    case Put(p) =>
      if p !in s.waiting || !HasRoom(s) then None
      else Some(Enqueue(s, Item(s.waiting[p])).(waiting := s.waiting - {p}))
    case Reject(p) =>
      if p !in s.waiting || HasRoom(s) then None else Some(s.(waiting := s.waiting - {p}))
    case Stop(drain) =>
      if !s.stopper.Quiet? then None
      else Some(s.(stopped := true, stopper := if drain then Closing(true) else Emptying))
    case Take =>
      if !s.stopper.Emptying? || s.queue == [] then None
      else Some(Dequeue(s, ByStopper).(stopper := Holding(s.queue[0])))
    case Release =>
      if !s.stopper.Holding? then None else Some(s.(stopper := Emptying, unfinished := s.unfinished - 1))
    case FoundEmpty =>
      if !s.stopper.Emptying? || s.queue != [] then None else Some(s.(stopper := Closing(false)))
    case PutSentinel =>
      if !s.stopper.Closing? || !HasRoom(s) then None
      else Some(Enqueue(s, Sentinel).(stopper := Joining(s.stopper.drain)))
    case WorkerGet =>
      if !s.worker.Idle? || s.queue == [] then None
      else
        Some(Dequeue(s, ByWorker).(worker := if s.queue[0].Sentinel? then SawSentinel else Sending(s.queue[0].v, [])))
    case WorkerSend(success) =>
      if !s.worker.Sending? then None
      else
        var sends := s.worker.sends + [success];
        Some(s.(worker := if success || |sends| >= s.attempts then Sent(s.worker.item, sends)
                          else Sending(s.worker.item, sends)))
    case WorkerDone =>
      if !s.worker.Sent? then None
      else
        Some(s.(worker := Idle, unfinished := s.unfinished - 1,
                processed := s.processed + [Report(s.worker.item, s.worker.sends)]))
    case WorkerExit =>
      if !s.worker.SawSentinel? then None else Some(s.(worker := Exited, unfinished := s.unfinished - 1))
  }

  /** Any interleaving: any sequence of enabled steps. */
  function Run(s: State, steps: seq<Step>): Option<State> {
    if steps == [] then Some(s)
    else match Run(s, steps[..|steps| - 1])
      case None => None
      case Some(t) => Next(t, steps[|steps| - 1])
  }

  // ---------------------------------------------------------------- the invariant

  /** One to `attempts` sends, stopping at the first success and giving up only when all were used. */
  predicate ProperSends(sends: seq<bool>, attempts: nat) {
    && 1 <= |sends| <= attempts
    && (forall i :: 0 <= i < |sends| - 1 ==> !sends[i])
    && (sends[|sends| - 1] || |sends| == attempts)
  }

  ghost function Entries(gets: seq<Get>): seq<Entry> {
    seq(|gets|, i requires 0 <= i < |gets| => gets[i].e)
  }

  ghost function Taken(gets: seq<Get>, who: Taker): seq<Entry> {
    if gets == [] then []
    else
      var n := |gets| - 1;
      Taken(gets[..n], who) + (if gets[n].who == who then [gets[n].e] else [])
  }

  ghost function Reported(processed: seq<Report>): seq<Entry> {
    seq(|processed|, i requires 0 <= i < |processed| => Item(processed[i].item))
  }

  /** What the worker has taken beyond the items it has finished. */
  ghost function InHand(w: Worker): seq<Entry> {
    match w
    case Idle => []
    case Sending(item, _) => [Item(item)]
    case Sent(item, _) => [Item(item)]
    case SawSentinel => [Sentinel]
    case Exited => [Sentinel]
  }

  ghost function Busy(w: Worker, st: Stopper): nat {
    (if w.Sending? || w.Sent? || w.SawSentinel? then 1 else 0) + (if st.Holding? then 1 else 0)
  }

  /** Conservation and FIFO: what was put is what was taken, in order, followed by the queue. */
  ghost predicate LogsAgree(puts: seq<Entry>, gets: seq<Get>, queue: seq<Entry>, processed: seq<Report>, w: Worker) {
    && puts == Entries(gets) + queue
    && Taken(gets, ByWorker) == Reported(processed) + InHand(w)
  }

  ghost predicate SendsOk(attempts: nat, processed: seq<Report>, w: Worker) {
    && attempts >= 1
    && (forall i :: 0 <= i < |processed| ==> ProperSends(processed[i].sends, attempts))
    && match w
       case Sending(_, sends) => |sends| < attempts && forall i :: 0 <= i < |sends| ==> !sends[i]
       case Sent(_, sends) => ProperSends(sends, attempts)
       case _ => true
  }

  /** One sentinel, put last by the stopper; and only a non-draining stopper takes entries itself. */
  ghost predicate StopOk(stopped: bool, st: Stopper, puts: seq<Entry>, gets: seq<Get>) {
    && (stopped <==> !st.Quiet?)
    && multiset(puts)[Sentinel] == (if st.Joining? then 1 else 0)
    && (st.Quiet? || st == Closing(true) || st == Joining(true) ==> OnlyWorker(gets))
    && (st.Holding? ==> st.e != Sentinel)
    && Sentinel !in Taken(gets, ByStopper)
  }

  ghost predicate OnlyWorker(gets: seq<Get>) {
    forall i :: 0 <= i < |gets| ==> gets[i].who == ByWorker
  }

  ghost predicate Inv(s: State) {
    && LogsAgree(s.puts, s.gets, s.queue, s.processed, s.worker)
    && s.unfinished == |s.queue| + Busy(s.worker, s.stopper)
    && SendsOk(s.attempts, s.processed, s.worker)
    && StopOk(s.stopped, s.stopper, s.puts, s.gets)
    && (s.capacity > 0 ==> |s.queue| <= s.capacity)
  }

  lemma TakenSnoc(gets: seq<Get>, g: Get, who: Taker)
    ensures Taken(gets + [g], who) == Taken(gets, who) + (if g.who == who then [g.e] else [])
    ensures Entries(gets + [g]) == Entries(gets) + [g.e]
  {
    assert (gets + [g])[..|gets|] == gets;
  }

  lemma PutLogs(puts: seq<Entry>, gets: seq<Get>, queue: seq<Entry>, processed: seq<Report>, w: Worker, e: Entry)
    requires LogsAgree(puts, gets, queue, processed, w)
    ensures LogsAgree(puts + [e], gets, queue + [e], processed, w)
  {
    assert puts + [e] == Entries(gets) + (queue + [e]);
  }

  lemma WorkerGetLogs(puts: seq<Entry>, gets: seq<Get>, queue: seq<Entry>, processed: seq<Report>, w: Worker)
    requires LogsAgree(puts, gets, queue, processed, Idle) && queue != [] && InHand(w) == [queue[0]]
    ensures LogsAgree(puts, gets + [Get(queue[0], ByWorker)], queue[1..], processed, w)
    ensures OnlyWorker(gets) ==> OnlyWorker(gets + [Get(queue[0], ByWorker)])
    ensures Taken(gets + [Get(queue[0], ByWorker)], ByStopper) == Taken(gets, ByStopper)
  {
    TakenSnoc(gets, Get(queue[0], ByWorker), ByWorker);
    TakenSnoc(gets, Get(queue[0], ByWorker), ByStopper);
    assert queue == [queue[0]] + queue[1..];
  }

  lemma HeadIsItem(puts: seq<Entry>, gets: seq<Get>, queue: seq<Entry>)
    requires puts == Entries(gets) + queue && queue != [] && multiset(puts)[Sentinel] == 0
    ensures queue[0] != Sentinel
  {
    assert puts[|gets|] == queue[0];
    assert puts[|gets|] in multiset(puts);
  }

  lemma StopperGetLogs(puts: seq<Entry>, gets: seq<Get>, queue: seq<Entry>, processed: seq<Report>, w: Worker)
    requires LogsAgree(puts, gets, queue, processed, w) && queue != []
    ensures LogsAgree(puts, gets + [Get(queue[0], ByStopper)], queue[1..], processed, w)
  {
    TakenSnoc(gets, Get(queue[0], ByStopper), ByWorker);
    assert queue == [queue[0]] + queue[1..];
  }

  lemma StopperTakesItems(puts: seq<Entry>, gets: seq<Get>, queue: seq<Entry>)
    requires puts == Entries(gets) + queue && queue != [] && multiset(puts)[Sentinel] == 0
    requires Sentinel !in Taken(gets, ByStopper)
    ensures queue[0] != Sentinel && Sentinel !in Taken(gets + [Get(queue[0], ByStopper)], ByStopper)
  {
    TakenSnoc(gets, Get(queue[0], ByStopper), ByStopper);
    HeadIsItem(puts, gets, queue);
  }

  lemma DoneLogs(puts: seq<Entry>, gets: seq<Get>, queue: seq<Entry>, processed: seq<Report>, r: Report)
    requires LogsAgree(puts, gets, queue, processed, Sent(r.item, r.sends))
    ensures LogsAgree(puts, gets, queue, processed + [r], Idle)
  {
    assert Reported(processed + [r]) == Reported(processed) + [Item(r.item)];
  }

  predicate IsProducerStep(step: Step) {
    step.Check? || step.Put? || step.Reject?
  }

  predicate IsStopperStep(step: Step) {
    step.Stop? || step.Take? || step.Release? || step.FoundEmpty? || step.PutSentinel?
  }

  lemma ProducerKeepsInv(s: State, step: Step)
    requires Inv(s) && IsProducerStep(step) && Next(s, step).Some?
    ensures Inv(Next(s, step).value)
  {
    if step.Put? {
      PutLogs(s.puts, s.gets, s.queue, s.processed, s.worker, Item(s.waiting[step.p]));
    }
  }

  lemma StopperKeepsInv(s: State, step: Step)
    requires Inv(s) && IsStopperStep(step) && Next(s, step).Some?
    ensures Inv(Next(s, step).value)
  {
    if step.PutSentinel? {
      PutLogs(s.puts, s.gets, s.queue, s.processed, s.worker, Sentinel);
    }
    if step.Take? {
      StopperGetLogs(s.puts, s.gets, s.queue, s.processed, s.worker);
      StopperTakesItems(s.puts, s.gets, s.queue);
    }
  }

  lemma WorkerGetKeepsInv(s: State)
    requires Inv(s) && Next(s, WorkerGet).Some?
    ensures Inv(Next(s, WorkerGet).value)
  {
    WorkerGetLogs(s.puts, s.gets, s.queue, s.processed, Next(s, WorkerGet).value.worker);
  }

  lemma WorkerSendKeepsInv(s: State, success: bool)
    requires Inv(s) && Next(s, WorkerSend(success)).Some?
    ensures Inv(Next(s, WorkerSend(success)).value)
  {
  }

  lemma WorkerEndKeepsInv(s: State, step: Step)
    requires Inv(s) && (step.WorkerDone? || step.WorkerExit?) && Next(s, step).Some?
    ensures Inv(Next(s, step).value)
  {
    if step.WorkerDone? {
      DoneLogs(s.puts, s.gets, s.queue, s.processed, Report(s.worker.item, s.worker.sends));
    }
  }

  lemma NextKeepsInv(s: State, step: Step)
    requires Inv(s) && Next(s, step).Some?
    ensures Inv(Next(s, step).value)
  {
    if IsProducerStep(step) {
      ProducerKeepsInv(s, step);
    } else if IsStopperStep(step) {
      StopperKeepsInv(s, step);
    } else if step.WorkerGet? {
      WorkerGetKeepsInv(s);
    } else if step.WorkerSend? {
      WorkerSendKeepsInv(s, step.success);
    } else {
      WorkerEndKeepsInv(s, step);
    }
  }

  /** The invariant holds in every state of every interleaving. */
  lemma {:induction false} RunKeepsInv(capacity: int, retryAttempts: int, steps: seq<Step>)
    requires Run(Start(capacity, retryAttempts), steps).Some?
    ensures Inv(Run(Start(capacity, retryAttempts), steps).value)
  {
    if steps == [] {
    } else {
      RunKeepsInv(capacity, retryAttempts, steps[..|steps| - 1]);
      NextKeepsInv(Run(Start(capacity, retryAttempts), steps[..|steps| - 1]).value, steps[|steps| - 1]);
    }
  }

  // ---------------------------------------------------------------- what a run guarantees

  lemma {:induction false} TakenPartition(gets: seq<Get>)
    ensures multiset(Entries(gets)) == multiset(Taken(gets, ByWorker)) + multiset(Taken(gets, ByStopper))
  {
    if gets == [] {
    } else {
      var n := |gets| - 1;
      assert gets == gets[..n] + [gets[n]];
      TakenPartition(gets[..n]);
      TakenSnoc(gets[..n], gets[n], ByWorker);
      TakenSnoc(gets[..n], gets[n], ByStopper);
    }
  }

  /** A reporter keeps the configuration it was created with; less than one attempt counts as one. */
  lemma {:induction false} Configured(capacity: int, retryAttempts: int, steps: seq<Step>)
    requires Run(Start(capacity, retryAttempts), steps).Some?
    ensures var s := Run(Start(capacity, retryAttempts), steps).value;
      s.capacity == capacity && s.attempts == if retryAttempts < 1 then 1 else retryAttempts
  {
    if steps != [] {
      Configured(capacity, retryAttempts, steps[..|steps| - 1]);
    }
  }

  /**
   Conservation in every reachable state: each accepted entry is, exactly once, processed, in the
   worker's hands, discarded by the stopper, or queued; the unfinished count is what it should be; each
   processed item had one to `retryAttempts` sends; and a bounded queue stays within its bound.
   */
  lemma Conservation(capacity: int, retryAttempts: int, steps: seq<Step>)
    requires Run(Start(capacity, retryAttempts), steps).Some?
    ensures var s := Run(Start(capacity, retryAttempts), steps).value;
      && multiset(s.puts) == multiset(Reported(s.processed)) + multiset(InHand(s.worker))
                             + multiset(Taken(s.gets, ByStopper)) + multiset(s.queue)
      && s.unfinished == |s.queue| + Busy(s.worker, s.stopper)
      && (forall i :: 0 <= i < |s.processed| ==>
            ProperSends(s.processed[i].sends, if retryAttempts < 1 then 1 else retryAttempts))
      && (capacity > 0 ==> |s.queue| <= capacity)
  {
    Configured(capacity, retryAttempts, steps);
    RunKeepsInv(capacity, retryAttempts, steps);
    TakenPartition(Run(Start(capacity, retryAttempts), steps).value.gets);
  }

  /**
   When the worker has exited after a draining stop, the items processed are exactly those put
   ahead of the sentinel, in that order and once each; anything put behind it is still queued.
   */
  lemma DrainProcessesAllAhead(capacity: int, retryAttempts: int, steps: seq<Step>)
    requires Run(Start(capacity, retryAttempts), steps).Some?
    requires var s := Run(Start(capacity, retryAttempts), steps).value; s.worker.Exited? && s.stopper == Joining(true)
    ensures var s := Run(Start(capacity, retryAttempts), steps).value;
      && s.puts == Reported(s.processed) + [Sentinel] + s.queue
      && Sentinel !in s.queue
  {
    RunKeepsInv(capacity, retryAttempts, steps);
    var s := Run(Start(capacity, retryAttempts), steps).value;
    AllByWorker(s.gets);
    assert multiset(s.puts) == multiset(Reported(s.processed)) + multiset{Sentinel} + multiset(s.queue);
  }

  /**
   When the worker has exited after any stop, draining or not: the entries taken are the items it
   processed, the items the stopper discarded, and the one sentinel.  So everything put ahead of the
   sentinel was processed or discarded, and what is still queued was put behind it.
   */
  lemma StopSettlesAllAhead(capacity: int, retryAttempts: int, steps: seq<Step>)
    requires Run(Start(capacity, retryAttempts), steps).Some?
    requires Run(Start(capacity, retryAttempts), steps).value.worker.Exited?
    ensures var s := Run(Start(capacity, retryAttempts), steps).value;
      && s.stopper.Joining? && s.puts == Entries(s.gets) + s.queue && Sentinel !in s.queue
      && multiset(Entries(s.gets))
         == multiset(Reported(s.processed)) + multiset(Taken(s.gets, ByStopper)) + multiset{Sentinel}
      && Sentinel !in Taken(s.gets, ByStopper)
  {
    RunKeepsInv(capacity, retryAttempts, steps);
    var s := Run(Start(capacity, retryAttempts), steps).value;
    TakenPartition(s.gets);
    assert multiset(s.puts) == multiset(Entries(s.gets)) + multiset(s.queue);
    assert multiset(Taken(s.gets, ByWorker)) == multiset(Reported(s.processed)) + multiset{Sentinel};
  }

  lemma {:induction false} AllByWorker(gets: seq<Get>)
    requires OnlyWorker(gets)
    ensures Taken(gets, ByWorker) == Entries(gets)
  {
    if gets == [] {
    } else {
      var n := |gets| - 1;
      AllByWorker(gets[..n]);
      assert gets == gets[..n] + [gets[n]];
      TakenSnoc(gets[..n], gets[n], ByWorker);
    }
  }

  // ---------------------------------------------------------------- what producers and the stopper can do

  /** A submission: refused without effect after a stop; otherwise the item waits to be put. */
  lemma CheckDecides(s: State, p: nat, item: Value)
    ensures Next(s, Check(p, item)).Some? <==> p !in s.waiting
    ensures p !in s.waiting ==>
      Next(s, Check(p, item)).value == if s.stopped then s else s.(waiting := s.waiting[p := item])
  {
  }

  /**
   A waiting item is put at the end of the queue exactly when there is room, and given up exactly when
   there is none; a bound of zero or less means that there always is.
   */
  lemma PutOrReject(s: State, p: nat)
    ensures Next(s, Put(p)).Some? <==> p in s.waiting && (s.capacity <= 0 || |s.queue| < s.capacity)
    ensures Next(s, Reject(p)).Some? <==> p in s.waiting && 0 < s.capacity <= |s.queue|
    ensures Next(s, Put(p)).Some? ==>
      var t := Next(s, Put(p)).value;
      && t.queue == s.queue + [Item(s.waiting[p])] && t.puts == s.puts + [Item(s.waiting[p])]
      && t.waiting == s.waiting - {p}
    ensures Next(s, Reject(p)).Some? ==> Next(s, Reject(p)).value == s.(waiting := s.waiting - {p})
  {
  }

  /** A stop is called once; a draining one goes on to the sentinel, any other starts to empty the queue. */
  lemma StopBegins(s: State, drain: bool)
    ensures Next(s, Stop(drain)).Some? <==> s.stopper == Quiet
    ensures s.stopper == Quiet ==>
      Next(s, Stop(drain)).value == s.(stopped := true, stopper := if drain then Closing(true) else Emptying)
  {
  }

  /** Only an empty queue lets a stopper that empties it go on to the sentinel. */
  lemma EmptyBeforeSentinel(s: State, step: Step)
    requires Next(s, step).Some? && s.stopper == Emptying && Next(s, step).value.stopper.Closing?
    ensures s.queue == []
  {
  }

  /** Left alone, a stopper that empties the queue discards exactly what is in it, and goes on. */
  lemma {:induction false} StopperEmpties(s: State) returns (steps: seq<Step>)
    requires s.stopper == Emptying
    ensures Run(s, steps).Some?
    ensures var t := Run(s, steps).value;
      && t.stopper == Closing(false) && t.queue == [] && t.unfinished == s.unfinished - |s.queue|
      && Taken(t.gets, ByStopper) == Taken(s.gets, ByStopper) + s.queue
      && t.processed == s.processed && t.puts == s.puts && t.waiting == s.waiting
    decreases |s.queue|
  {
    if s.queue == [] {
      RunOne(s, FoundEmpty);
      assert Taken(s.gets, ByStopper) + s.queue == Taken(s.gets, ByStopper);
      steps := [FoundEmpty];
    } else {
      TakeOne(s);
      var b := Run(s, [Take, Release]).value;
      var rest := StopperEmpties(b);
      RunJoin(s, [Take, Release], rest);
      steps := [Take, Release] + rest;
    }
  }

  /** Taking one entry and acknowledging it. */
  lemma TakeOne(s: State)
    requires s.stopper == Emptying && s.queue != []
    ensures Run(s, [Take, Release]).Some?
    ensures var t := Run(s, [Take, Release]).value;
      && t.stopper == Emptying && t.queue == s.queue[1..] && t.unfinished == s.unfinished - 1
      && Taken(t.gets, ByStopper) + t.queue == Taken(s.gets, ByStopper) + s.queue
      && t.processed == s.processed && t.puts == s.puts && t.waiting == s.waiting
  {
    RunTwo(s, Take, Release);
    TakenSnoc(s.gets, Get(s.queue[0], ByStopper), ByStopper);
    assert Taken(s.gets, ByStopper) + [s.queue[0]] + s.queue[1..] == Taken(s.gets, ByStopper) + s.queue;
  }

  // ---------------------------------------------------------------- a stop always completes

  ghost function WorkerWork(w: Worker, attempts: nat): int {
    match w
    case Idle => 0
    case Sending(_, sends) => attempts - |sends| + 1
    case Sent(_, _) => 1
    case SawSentinel => 1
    case Exited => 0
  }

  ghost function StopperWork(st: Stopper, item: int): int {
    match st
    case Quiet => 0
    case Emptying => item + 3
    case Holding(_) => item + 4
    case Closing(_) => item + 1
    case Joining(_) => 0
  }

  ghost function Times(n: nat, weight: int): int {
    n * weight
  }

  /** An upper bound on the steps left once a stop has been requested. */
  ghost function Work(s: State): int {
    var item := s.attempts + 3;
    Times(|s.waiting|, item + 1) + Times(|s.queue|, item)
    + WorkerWork(s.worker, s.attempts) + StopperWork(s.stopper, item)
  }

  lemma TimesNext(n: nat, weight: int)
    ensures Times(n + 1, weight) == Times(n, weight) + weight
  {
  }

  lemma WaitingShrinks(s: State, p: nat)
    requires p in s.waiting
    ensures |s.waiting - {p}| == |s.waiting| - 1
  {
    assert (s.waiting - {p}).Keys == s.waiting.Keys - {p};
    assert |s.waiting.Keys| == |s.waiting| && |(s.waiting - {p}).Keys| == |s.waiting - {p}|;
  }

  lemma ProducerUsesWork(s: State, step: Step)
    requires (step.Put? || step.Reject?) && Next(s, step).Some?
    ensures Work(Next(s, step).value) < Work(s)
  {
    var t := Next(s, step).value;
    WaitingShrinks(s, step.p);
    TimesNext(|t.waiting|, s.attempts + 4);
    if step.Put? {
      TimesNext(|s.queue|, s.attempts + 3);
    }
  }

  lemma StopperUsesWork(s: State, step: Step)
    requires IsStopperStep(step) && !step.Stop? && Next(s, step).Some?
    ensures Work(Next(s, step).value) < Work(s)
  {
    var t := Next(s, step).value;
    if step.PutSentinel? {
      TimesNext(|s.queue|, s.attempts + 3);
    }
    if step.Take? {
      TimesNext(|t.queue|, s.attempts + 3);
    }
  }

  lemma WorkerUsesWork(s: State, step: Step)
    requires Inv(s) && !IsStopperStep(step) && !IsProducerStep(step) && Next(s, step).Some?
    ensures Work(Next(s, step).value) < Work(s)
  {
    var t := Next(s, step).value;
    if step.WorkerGet? {
      TimesNext(|t.queue|, s.attempts + 3);
    }
  }

  /** After a stop, every step but a (refused) submission uses up work, of which there is never less than none. */
  lemma StepUsesWork(s: State, step: Step)
    requires Inv(s) && s.stopped && Next(s, step).Some? && !step.Check?
    ensures 0 <= Work(Next(s, step).value) < Work(s)
  {
    NextKeepsInv(s, step);
    if IsStopperStep(step) {
      StopperUsesWork(s, step);
    } else if IsProducerStep(step) {
      ProducerUsesWork(s, step);
    } else {
      WorkerUsesWork(s, step);
    }
    WorkNatural(Next(s, step).value);
  }

  lemma WorkNatural(s: State)
    requires Inv(s)
    ensures Work(s) >= 0
  {
    assert Times(|s.waiting|, s.attempts + 4) >= 0 && Times(|s.queue|, s.attempts + 3) >= 0;
  }

  /** After a stop, some worker or stopper step is enabled until the worker has exited. */
  lemma NoDeadlock(s: State)
    requires Inv(s) && s.stopped && !s.worker.Exited?
    ensures exists step :: !IsProducerStep(step) && Next(s, step).Some?
  {
    match s.worker
    case Sending(_, _) => assert Next(s, WorkerSend(true)).Some? && !IsProducerStep(WorkerSend(true));
    case Sent(_, _) => assert Next(s, WorkerDone).Some? && !IsProducerStep(WorkerDone);
    case SawSentinel => assert Next(s, WorkerExit).Some? && !IsProducerStep(WorkerExit);
    case Idle =>
      if s.queue != [] {
        assert Next(s, WorkerGet).Some? && !IsProducerStep(WorkerGet);
      } else {
        IdleStopCanMove(s);
      }
  }

  lemma IdleStopCanMove(s: State)
    requires Inv(s) && s.stopped && s.worker.Idle? && s.queue == []
    ensures exists step :: !IsProducerStep(step) && Next(s, step).Some?
  {
    TakenPartition(s.gets);
    assert s.puts == Entries(s.gets);
    assert Sentinel !in multiset(Taken(s.gets, ByStopper)) && Sentinel !in multiset(Taken(s.gets, ByWorker));
    assert !s.stopper.Joining?;
    match s.stopper
    case Emptying => assert Next(s, FoundEmpty).Some? && !IsProducerStep(FoundEmpty);
    case Holding(_) => assert Next(s, Release).Some? && !IsProducerStep(Release);
    case Closing(_) => assert Next(s, PutSentinel).Some? && !IsProducerStep(PutSentinel);
  }

  predicate IsCheck(step: Step) {
    step.Check?
  }

  /** The steps of a run, not counting submissions, which after a stop are all refused. */
  ghost function Moves(steps: seq<Step>): nat {
    if steps == [] then 0
    else Moves(steps[..|steps| - 1]) + (if IsCheck(steps[|steps| - 1]) then 0 else 1)
  }

  /**
   A stop completes: from a stopped state at most `Work(s)` steps besides refused submissions can
   follow, and a run that no worker or stopper step can continue has let the worker exit.
   */
  lemma {:induction false} StopCompletes(s: State, steps: seq<Step>)
    requires Inv(s) && s.stopped && Run(s, steps).Some?
    ensures var t := Run(s, steps).value;
      && Inv(t) && t.stopped && 0 <= Work(t) && Moves(steps) + Work(t) <= Work(s)
      && (OnlyProducersMove(t) ==> t.worker.Exited?)
  {
    if steps == [] {
      WorkNatural(s);
    } else {
      var n := |steps| - 1;
      StopCompletes(s, steps[..n]);
      OneMoreMove(Run(s, steps[..n]).value, steps[n]);
    }
    if OnlyProducersMove(Run(s, steps).value) {
      ExitedWhenDone(Run(s, steps).value);
    }
  }

  lemma OneMoreMove(s: State, step: Step)
    requires Inv(s) && s.stopped && Work(s) >= 0 && Next(s, step).Some?
    ensures var t := Next(s, step).value;
      Inv(t) && t.stopped && 0 <= Work(t) && Work(t) + (if IsCheck(step) then 0 else 1) <= Work(s)
  {
    NextKeepsInv(s, step);
    if !IsCheck(step) {
      StepUsesWork(s, step);
    }
  }

  ghost predicate OnlyProducersMove(s: State) {
    forall step :: Next(s, step).Some? ==> IsProducerStep(step)
  }

  lemma ExitedWhenDone(s: State)
    requires Inv(s) && s.stopped && OnlyProducersMove(s)
    ensures s.worker.Exited?
  {
    if !s.worker.Exited? {
      NoDeadlock(s);
    }
  }

  // ---------------------------------------------------------------- when a draining stop loses nothing

  lemma {:induction false} RunJoin(s: State, a: seq<Step>, b: seq<Step>)
    ensures Run(s, a + b) == match Run(s, a) case None => None case Some(t) => Run(t, b)
    decreases |b|
  {
    if b == [] {
      assert a + b == a;
    } else {
      var n := |b| - 1;
      assert (a + b)[..|a + b| - 1] == a + b[..n];
      RunJoin(s, a, b[..n]);
    }
  }

  /** A draining stop with no producer between its check and its put; the sentinel stays the last entry put. */
  ghost predicate Draining(s: State) {
    && s.stopped && s.waiting == map[]
    && (s.stopper == Closing(true) || (s.stopper == Joining(true) && s.puts != [] && s.puts[|s.puts| - 1] == Sentinel))
  }

  lemma {:induction false} DrainingRun(s: State, steps: seq<Step>)
    requires Draining(s) && Run(s, steps).Some?
    ensures Draining(Run(s, steps).value)
  {
    if steps != [] {
      DrainingRun(s, steps[..|steps| - 1]);
    }
  }

  /** Before the sentinel is put, the worker cannot have seen it. */
  lemma NotYetSeen(s: State)
    requires Inv(s) && !s.stopper.Joining?
    ensures !s.worker.SawSentinel? && !s.worker.Exited? && Sentinel !in s.queue
  {
    TakenPartition(s.gets);
    assert multiset(s.puts) == multiset(Entries(s.gets)) + multiset(s.queue);
    assert Sentinel !in multiset(Taken(s.gets, ByWorker)) && Sentinel !in multiset(s.queue);
    assert Sentinel in InHand(SawSentinel) && Sentinel in InHand(Exited);
    assert forall e :: e in InHand(s.worker) ==> e in Taken(s.gets, ByWorker);
  }

  /** If no producer is between its check and its put, a draining stop processes every accepted item. */
  lemma DrainWithNoneWaiting(capacity: int, retryAttempts: int, before: seq<Step>, after: seq<Step>)
    requires Run(Start(capacity, retryAttempts), before).Some?
    requires var s := Run(Start(capacity, retryAttempts), before).value;
      && s.stopper.Quiet? && s.waiting == map[] && Run(s, [Stop(true)] + after).Some?
      && Run(s, [Stop(true)] + after).value.worker.Exited?
    ensures var t := Run(Run(Start(capacity, retryAttempts), before).value, [Stop(true)] + after).value;
      t.queue == [] && t.puts == Reported(t.processed) + [Sentinel]
  {
    var s := Run(Start(capacity, retryAttempts), before).value;
    var stop := [Stop(true)];
    var t := Run(s, stop + after).value;
    RunJoin(Start(capacity, retryAttempts), before, stop + after);
    RunKeepsInv(capacity, retryAttempts, before + (stop + after));
    RunJoin(s, stop, after);
    RunOne(s, Stop(true));
    DrainingRun(Next(s, Stop(true)).value, after);
    if t.stopper == Closing(true) {
      NotYetSeen(t);
    }
    DrainProcessesAllAhead(capacity, retryAttempts, before + (stop + after));
    assert t.puts == Reported(t.processed) + [Sentinel] + t.queue;
  }

  lemma RunOne(s: State, step: Step)
    ensures Run(s, [step]) == Next(s, step)
  {
    assert [step][..0] == [];
    assert Run(s, []) == Some(s);
  }

  lemma WorkerAdvances(s: State) returns (step: Step)
    requires Inv(s) && !s.stopper.Joining? && !(s.worker.Idle? && s.queue == [])
    ensures Next(s, step).Some?
    ensures var t := Next(s, step).value;
      && Inv(t) && t.waiting == s.waiting && t.stopper == s.stopper
      && (|t.queue| < |s.queue| || (|t.queue| == |s.queue| && Stage(t.worker) < Stage(s.worker)))
  {
    NotYetSeen(s);
    step := match s.worker
      case Sending(_, _) => WorkerSend(true)
      case Sent(_, _) => WorkerDone
      case _ => WorkerGet;
    NextKeepsInv(s, step);
  }

  /** The worker, left alone, finishes what it has and empties a queue without sentinel. */
  lemma {:induction false} WorkerEmpties(s: State) returns (steps: seq<Step>)
    requires Inv(s) && !s.stopper.Joining?
    ensures Run(s, steps).Some?
    ensures var t := Run(s, steps).value;
      Inv(t) && t.worker.Idle? && t.queue == [] && t.waiting == s.waiting && t.stopper == s.stopper
    decreases |s.queue|, Stage(s.worker)
  {
    if s.worker.Idle? && s.queue == [] {
      steps := [];
    } else {
      var step := WorkerAdvances(s);
      var rest := WorkerEmpties(Next(s, step).value);
      RunOne(s, step);
      RunJoin(s, [step], rest);
      steps := [step] + rest;
    }
  }

  ghost function Stage(w: Worker): nat {
    match w case Sending(_, _) => 2 case Sent(_, _) => 1 case _ => 0
  }

  /** A producer between its check and its put can put its item behind the sentinel, where it stays. */
  lemma WaitingItemCanStrand(s: State, p: nat) returns (after: seq<Step>)
    requires Inv(s) && s.stopper.Quiet? && p in s.waiting
    ensures Run(s, [Stop(true)] + after).Some?
    ensures var t := Run(s, [Stop(true)] + after).value; t.worker.Exited? && t.queue == [Item(s.waiting[p])]
  {
    var a := Next(s, Stop(true)).value;
    NextKeepsInv(s, Stop(true));
    var steps := WorkerEmpties(a);
    var b := Run(a, steps).value;
    SentinelTaken(b);
    PutTooLate(Run(b, [PutSentinel, WorkerGet]).value, p);
    RunOne(s, Stop(true));
    RunJoin(b, [PutSentinel, WorkerGet], [Put(p), WorkerExit]);
    var tail := [PutSentinel, WorkerGet] + [Put(p), WorkerExit];
    RunJoin(a, steps, tail);
    after := steps + tail;
    RunJoin(s, [Stop(true)], after);
  }

  lemma RunTwo(s: State, first: Step, second: Step)
    requires Next(s, first).Some?
    ensures Run(s, [first, second]) == Next(Next(s, first).value, second)
  {
    assert [first, second][..1] == [first];
    RunOne(s, first);
  }

  lemma SentinelTaken(s: State)
    requires s.stopper == Closing(true) && s.worker.Idle? && s.queue == []
    ensures var t := Run(s, [PutSentinel, WorkerGet]);
      t.Some? && t.value.worker.SawSentinel? && t.value.queue == [] && t.value.waiting == s.waiting
  {
    RunTwo(s, PutSentinel, WorkerGet);
    var a := Next(s, PutSentinel).value;
    assert a.queue == [Sentinel] && a.queue[1..] == [];
  }

  lemma PutTooLate(s: State, p: nat)
    requires s.worker.SawSentinel? && s.queue == [] && p in s.waiting
    ensures var t := Run(s, [Put(p), WorkerExit]);
      t.Some? && t.value.worker.Exited? && t.value.queue == [Item(s.waiting[p])]
  {
    RunTwo(s, Put(p), WorkerExit);
    assert Next(s, Put(p)).value.queue == [Item(s.waiting[p])];
  }

  /** After a draining stop in state `s`, the worker can exit only with an empty queue. */
  ghost predicate LosesNothing(s: State) {
    forall after :: Run(s, [Stop(true)] + after).Some? && Run(s, [Stop(true)] + after).value.worker.Exited?
      ==> Run(s, [Stop(true)] + after).value.queue == []
  }

  /** A draining stop is safe exactly when no producer is between its check and its put. */
  lemma DrainSafeExactly(capacity: int, retryAttempts: int, before: seq<Step>)
    requires Run(Start(capacity, retryAttempts), before).Some?
    requires Run(Start(capacity, retryAttempts), before).value.stopper.Quiet?
    ensures var s := Run(Start(capacity, retryAttempts), before).value;
      LosesNothing(s) <==> s.waiting == map[]
  {
    var s := Run(Start(capacity, retryAttempts), before).value;
    RunKeepsInv(capacity, retryAttempts, before);
    if s.waiting == map[] {
      forall after | Run(s, [Stop(true)] + after).Some? && Run(s, [Stop(true)] + after).value.worker.Exited?
        ensures Run(s, [Stop(true)] + after).value.queue == []
      {
        DrainWithNoneWaiting(capacity, retryAttempts, before, after);
      }
    } else {
      var p :| p in s.waiting;
      var after := WaitingItemCanStrand(s, p);
      assert !LosesNothing(s);
    }
  }

  /**
   A producer that passed the stop check before the stop can still put its item behind the
   sentinel: the item is accepted, the worker exits, and it is never processed.
   */
  lemma LateItemIsStranded(v: Value)
    ensures var steps := [Check(0, v), Stop(true), PutSentinel, Put(0), WorkerGet, WorkerExit];
      var end := Run(Start(0, 3), steps);
      && end.Some? && end.value.worker.Exited? && end.value.stopper == Joining(true)
      && end.value.queue == [Item(v)] && end.value.processed == [] && end.value.unfinished == 1
  {
    LateRun(v);
  }

  lemma LateRun(v: Value)
    ensures Run(Start(0, 3), [Check(0, v), Stop(true), PutSentinel, Put(0), WorkerGet, WorkerExit])
         == Some(LateState(v, 6))
  {
    var all := [Check(0, v), Stop(true), PutSentinel, Put(0), WorkerGet, WorkerExit];
    LateStop(v);
    LatePuts(v);
    LateExit(v);
    assert all[..0] == [] && Run(LateState(v, 0), all[..0]) == Some(LateState(v, 0));
    RunNext(LateState(v, 0), all, 0, LateState(v, 0), LateState(v, 1));
    RunNext(LateState(v, 0), all, 1, LateState(v, 1), LateState(v, 2));
    RunNext(LateState(v, 0), all, 2, LateState(v, 2), LateState(v, 3));
    RunNext(LateState(v, 0), all, 3, LateState(v, 3), LateState(v, 4));
    RunNext(LateState(v, 0), all, 4, LateState(v, 4), LateState(v, 5));
    RunNext(LateState(v, 0), all, 5, LateState(v, 5), LateState(v, 6));
    assert all[..6] == all;
  }

  ghost function LateState(v: Value, k: nat): State {
    if k <= 1 then State(0, 3, [], false, 0, if k == 0 then map[] else map[0 := v], Idle, Quiet, [], [], [])
    else if k == 2 then State(0, 3, [], true, 0, map[0 := v], Idle, Closing(true), [], [], [])
    else if k == 3 then State(0, 3, [Sentinel], true, 1, map[0 := v], Idle, Joining(true), [Sentinel], [], [])
    else if k == 4 then
      State(0, 3, [Sentinel, Item(v)], true, 2, map[], Idle, Joining(true), [Sentinel, Item(v)], [], [])
    else State(0, 3, [Item(v)], true, if k == 5 then 2 else 1, map[], if k == 5 then SawSentinel else Exited,
               Joining(true), [Sentinel, Item(v)], [Get(Sentinel, ByWorker)], [])
  }

  lemma LateStop(v: Value)
    ensures Start(0, 3) == LateState(v, 0)
    ensures Next(LateState(v, 0), Check(0, v)) == Some(LateState(v, 1))
    ensures Next(LateState(v, 1), Stop(true)) == Some(LateState(v, 2))
  {
  }

  lemma LatePuts(v: Value)
    ensures Next(LateState(v, 2), PutSentinel) == Some(LateState(v, 3))
    ensures Next(LateState(v, 3), Put(0)) == Some(LateState(v, 4))
  {
    var noEntry: seq<Entry> := [];
    assert noEntry + [Sentinel] == [Sentinel] && [Sentinel] + [Item(v)] == [Sentinel, Item(v)];
    assert LateState(v, 3).waiting - {0} == map[];
  }

  lemma LateExit(v: Value)
    ensures Next(LateState(v, 4), WorkerGet) == Some(LateState(v, 5))
    ensures Next(LateState(v, 5), WorkerExit) == Some(LateState(v, 6))
  {
    var noGet: seq<Get> := [];
    assert noGet + [Get(Sentinel, ByWorker)] == [Get(Sentinel, ByWorker)];
    assert [Sentinel, Item(v)][1..] == [Item(v)];
  }

  lemma RunNext(s: State, steps: seq<Step>, i: nat, a: State, b: State)
    requires i < |steps| && Run(s, steps[..i]) == Some(a) && Next(a, steps[i]) == Some(b)
    ensures Run(s, steps[..i + 1]) == Some(b)
  {
    assert steps[..i + 1][..i] == steps[..i];
  }

  // ---------------------------------------------------------------- the retry loop

  /** What one call of `set_job_result` gives: a truthy success flag, a refusal, or an exception. */
  datatype Response = Accepted | Refused | Error

  /** `_process_item`: the sends it makes are proper, and they report the responses in order. */
  method ProcessItem(respond: nat -> Response, attempts: nat) returns (sends: seq<bool>)
    requires attempts >= 1
    ensures ProperSends(sends, attempts)
    ensures forall i :: 0 <= i < |sends| ==> (sends[i] <==> respond(i).Accepted?)
  {
    sends := [];
    var attempt := 1;
    while attempt <= attempts
      invariant 1 <= attempt <= attempts && |sends| == attempt - 1
      invariant forall i :: 0 <= i < |sends| ==> !sends[i] && !respond(i).Accepted?
    {
      var response := respond(attempt - 1);
      sends := sends + [response.Accepted?];
      if response.Accepted? || attempt == attempts {
        return;
      }
      attempt := attempt + 1;
    }
  }
}
