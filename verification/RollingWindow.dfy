/** `_RollingWindow`: a deque of time-stamped samples, evicted lazily from the left. */
module RollingWindows {

  datatype Sample = Sample(time: real, value: real)

  /** The samples not older than `cutoff`, in order: the plain filter the deque stands for. */
  ghost function Live(history: seq<Sample>, cutoff: real): seq<Sample> {
    if history == [] then []
    else (if history[0].time >= cutoff then [history[0]] else []) + Live(history[1..], cutoff)
  }

  ghost predicate Sorted(history: seq<Sample>) {
    forall i, j :: 0 <= i < j < |history| ==> history[i].time <= history[j].time
  }

  function Sum(samples: seq<Sample>): real {
    if samples == [] then 0.0 else samples[0].value + Sum(samples[1..])
  }

  lemma {:induction false} AllLive(history: seq<Sample>, cutoff: real)
    requires forall i :: 0 <= i < |history| ==> history[i].time >= cutoff
    ensures Live(history, cutoff) == history
  {
    if history == [] {
    } else {
      AllLive(history[1..], cutoff);
    }
  }

  lemma {:induction false} SumBounds(samples: seq<Sample>, lo: real, hi: real)
    requires forall i :: 0 <= i < |samples| ==> lo <= samples[i].value <= hi
    ensures lo * (|samples| as real) <= Sum(samples) <= hi * (|samples| as real)
  {
    if samples == [] {
    } else {
      SumBounds(samples[1..], lo, hi);
      var n := |samples[1..]| as real;
      assert |samples| as real == n + 1.0;
      assert lo * (n + 1.0) == lo * n + lo && hi * (n + 1.0) == hi * n + hi;
    }
  }

  function Mean(samples: seq<Sample>): real {
    if samples == [] then 0.0 else Sum(samples) / (|samples| as real)
  }

  /** The mean lies between any bounds of the samples. */
  lemma MeanBounds(samples: seq<Sample>, lo: real, hi: real)
    requires samples != [] && forall i :: 0 <= i < |samples| ==> lo <= samples[i].value <= hi
    ensures lo <= Mean(samples) <= hi
  {
    SumBounds(samples, lo, hi);
    var n := |samples| as real;
    Quotient(Sum(samples), n, lo, hi);
  }

  lemma {:induction false} SumJoin(a: seq<Sample>, b: seq<Sample>)
    ensures Sum(a + b) == Sum(a) + Sum(b)
  {
    if a == [] {
      assert a + b == b;
    } else {
      assert (a + b)[0] == a[0] && (a + b)[1..] == a[1..] + b;
      SumJoin(a[1..], b);
    }
  }

  lemma MeanTimes(samples: seq<Sample>)
    ensures Mean(samples) * (|samples| as real) == Sum(samples)
  {
  }

  /** The mean is the value of a single sample, and mean times count adds up over the parts of a sequence. */
  lemma MeanAddsUp(a: seq<Sample>, b: seq<Sample>, s: Sample)
    ensures Mean([s]) == s.value && Mean([]) == 0.0
    ensures Mean(a + b) * (|a + b| as real) == Mean(a) * (|a| as real) + Mean(b) * (|b| as real)
  {
    OneValue(s);
    SumJoin(a, b);
    MeanTimes(a);
    MeanTimes(b);
    MeanTimes(a + b);
  }

  lemma OneValue(s: Sample)
    ensures Mean([s]) == s.value
  {
    assert [s][1..] == [] && Sum([s]) == s.value;
  }

  lemma Quotient(x: real, n: real, lo: real, hi: real)
    requires n > 0.0 && lo * n <= x <= hi * n
    ensures lo <= x / n <= hi
  {
    var q := x / n;
    assert q * n == x;
  }

  // ---------------------------------------------------------------- what a sequence of calls leaves

  /** A call, with the reading of the clock it made before it got the lock. */
  datatype Call = Recorded(now: real, value: real) | Averaged(now: real)

  /** Every sample ever recorded. */
  ghost function History(calls: seq<Call>): seq<Sample> {
    if calls == [] then [] else History(Before(calls)) + NewSample(Last(calls))
  }

  ghost function NewSample(c: Call): seq<Sample> {
    if c.Recorded? then [Sample(c.now, c.value)] else []
  }

  ghost function Last(calls: seq<Call>): Call
    requires calls != []
  {
    calls[|calls| - 1]
  }

  ghost function Before(calls: seq<Call>): seq<Call>
    requires calls != []
  {
    calls[..|calls| - 1]
  }

  /** Eviction from the left stops at the first sample that has not expired. */
  ghost function DropExpired(samples: seq<Sample>, cutoff: real): seq<Sample> {
    if samples != [] && samples[0].time < cutoff then DropExpired(samples[1..], cutoff) else samples
  }

  /** The deque after the calls, which got the lock in this order. */
  ghost function Deque(calls: seq<Call>, window: real): seq<Sample> {
    if calls == [] then []
    else DropExpired(Deque(Before(calls), window) + NewSample(Last(calls)), Last(calls).now - window)
  }

  lemma AfterCall(calls: seq<Call>, c: Call, window: real)
    ensures Deque(calls + [c], window) == DropExpired(Deque(calls, window) + NewSample(c), c.now - window)
    ensures History(calls + [c]) == History(calls) + NewSample(c)
    ensures Evicted(calls + [c], window)
         == Evicted(calls, window) + Dropped(Deque(calls, window) + NewSample(c), c.now - window)
  {
    assert Before(calls + [c]) == calls && Last(calls + [c]) == c;
  }

  lemma DequeAfter(calls: seq<Call>, c: Call, window: real)
    ensures Deque(calls + [c], window) == DropExpired(Deque(calls, window) + NewSample(c), c.now - window)
  {
    AfterCall(calls, c, window);
  }

  /** Every clock reading made the cutoff at most `cutoff`. */
  ghost predicate CutoffsUpTo(calls: seq<Call>, window: real, cutoff: real) {
    forall j :: 0 <= j < |calls| ==> calls[j].now - window <= cutoff
  }

  /** Some call's reading had made `s` expire. */
  ghost predicate Expired(s: Sample, calls: seq<Call>, window: real) {
    exists j :: 0 <= j < |calls| && s.time < calls[j].now - window
  }

  ghost predicate AllExpired(evicted: seq<Sample>, calls: seq<Call>, window: real) {
    forall i :: 0 <= i < |evicted| ==> Expired(evicted[i], calls, window)
  }

  /** What eviction takes away. */
  ghost function Dropped(samples: seq<Sample>, cutoff: real): seq<Sample> {
    if samples != [] && samples[0].time < cutoff then [samples[0]] + Dropped(samples[1..], cutoff) else []
  }

  lemma {:induction false} DropSplits(samples: seq<Sample>, cutoff: real)
    ensures Dropped(samples, cutoff) + DropExpired(samples, cutoff) == samples
    ensures forall i :: 0 <= i < |Dropped(samples, cutoff)| ==> Dropped(samples, cutoff)[i].time < cutoff
  {
    if samples != [] && samples[0].time < cutoff {
      DropSplits(samples[1..], cutoff);
      JoinAssociates([samples[0]], Dropped(samples[1..], cutoff), DropExpired(samples[1..], cutoff));
    }
  }

  /** The samples evicted so far. */
  ghost function Evicted(calls: seq<Call>, window: real): seq<Sample> {
    if calls == [] then []
    else
      var found := Deque(Before(calls), window) + NewSample(Last(calls));
      Evicted(Before(calls), window) + Dropped(found, Last(calls).now - window)
  }

  lemma JoinAssociates(a: seq<Sample>, b: seq<Sample>, c: seq<Sample>)
    ensures a + b + c == a + (b + c)
  {
  }

  lemma ExpiredLater(gone: seq<Sample>, more: seq<Sample>, calls: seq<Call>, c: Call, window: real)
    requires AllExpired(gone, calls, window) && forall i :: 0 <= i < |more| ==> more[i].time < c.now - window
    ensures AllExpired(gone + more, calls + [c], window)
  {
    var longer := calls + [c];
    assert longer[|calls|] == c;
    forall i | 0 <= i < |gone + more| ensures Expired((gone + more)[i], longer, window) {
      if i < |gone| {
        assert Expired(gone[i], calls, window);
        var j :| 0 <= j < |calls| && gone[i].time < calls[j].now - window;
        assert longer[j] == calls[j];
      } else {
        assert (gone + more)[i] == more[i - |gone|];
      }
    }
  }

  /** What was evicted, followed by the deque, is the full history. */
  lemma {:induction false} EvictedThenDeque(calls: seq<Call>, window: real)
    ensures History(calls) == Evicted(calls, window) + Deque(calls, window)
  {
    if calls != [] {
      var front, c := Before(calls), Last(calls);
      EvictedThenDeque(front, window);
      Reassemble(History(front), Evicted(front, window), Deque(front, window), NewSample(c), c.now - window);
    }
  }

  lemma Reassemble(history: seq<Sample>, gone: seq<Sample>, deque: seq<Sample>, more: seq<Sample>, cutoff: real)
    requires history == gone + deque
    ensures history + more == gone + Dropped(deque + more, cutoff) + DropExpired(deque + more, cutoff)
  {
    DropSplits(deque + more, cutoff);
    JoinAssociates(gone, deque, more);
    JoinAssociates(gone, Dropped(deque + more, cutoff), DropExpired(deque + more, cutoff));
  }

  /** No sample is evicted before a clock reading that a call really made has expired it. */
  lemma {:induction false} EvictedHadExpired(calls: seq<Call>, window: real)
    ensures AllExpired(Evicted(calls, window), calls, window)
  {
    if calls != [] {
      EvictedHadExpired(Before(calls), window);
      NextEvictedExpired(Before(calls), Last(calls), window);
      assert Before(calls) + [Last(calls)] == calls;
    }
  }

  lemma NextEvictedExpired(calls: seq<Call>, c: Call, window: real)
    requires AllExpired(Evicted(calls, window), calls, window)
    ensures AllExpired(Evicted(calls + [c], window), calls + [c], window)
  {
    var found := Deque(calls, window) + NewSample(c);
    AfterCall(calls, c, window);
    DropSplits(found, c.now - window);
    ExpiredLater(Evicted(calls, window), Dropped(found, c.now - window), calls, c, window);
  }

  // ---------------------------------------------------------------- against the filtered history

  lemma {:induction false} LiveJoin(a: seq<Sample>, b: seq<Sample>, cutoff: real)
    ensures Live(a + b, cutoff) == Live(a, cutoff) + Live(b, cutoff)
  {
    if a == [] {
      assert a + b == b;
    } else {
      LiveJoin(a[1..], b, cutoff);
      assert (a + b)[0] == a[0] && (a + b)[1..] == a[1..] + b;
      JoinAssociates(if a[0].time >= cutoff then [a[0]] else [], Live(a[1..], cutoff), Live(b, cutoff));
    }
  }

  lemma {:induction false} NoneLive(samples: seq<Sample>, cutoff: real)
    ensures Live(samples, cutoff) == [] <==> forall i :: 0 <= i < |samples| ==> samples[i].time < cutoff
  {
    if samples != [] {
      NoneLive(samples[1..], cutoff);
      if forall i :: 0 <= i < |samples[1..]| ==> samples[1..][i].time < cutoff {
        assert forall i :: 1 <= i < |samples| ==> samples[i] == samples[1..][i - 1];
      }
    }
  }

  lemma {:induction false} LiveOnly(samples: seq<Sample>, cutoff: real)
    ensures forall i :: 0 <= i < |Live(samples, cutoff)| ==> Live(samples, cutoff)[i].time >= cutoff
  {
    if samples != [] {
      LiveOnly(samples[1..], cutoff);
    }
  }

  lemma DropKeepsLive(samples: seq<Sample>, cutoff: real)
    ensures Live(DropExpired(samples, cutoff), cutoff) == Live(samples, cutoff)
  {
    DropSplits(samples, cutoff);
    LiveJoin(Dropped(samples, cutoff), DropExpired(samples, cutoff), cutoff);
    NoneLive(Dropped(samples, cutoff), cutoff);
  }

  /**
   Whatever the order of the clock readings: as long as no reading was greater than the cutoff allows,
   the live samples of the deque are exactly the live samples of the full history, in order.
   */
  lemma NothingLiveIsLost(calls: seq<Call>, window: real, cutoff: real)
    requires CutoffsUpTo(calls, window, cutoff)
    ensures Live(Deque(calls, window), cutoff) == Live(History(calls), cutoff)
  {
    EvictedHadExpired(calls, window);
    EvictedThenDeque(calls, window);
    var gone := Evicted(calls, window);
    forall i | 0 <= i < |gone| ensures gone[i].time < cutoff {
      assert Expired(gone[i], calls, window);
    }
    LiveJoin(gone, Deque(calls, window), cutoff);
    NoneLive(gone, cutoff);
  }

  /** An expired sample sits behind a live one, where eviction from the left does not reach it. */
  ghost predicate Hides(samples: seq<Sample>, cutoff: real) {
    exists i, j :: 0 <= i < j < |samples| && samples[i].time >= cutoff > samples[j].time
  }

  lemma HidesBehindExpired(samples: seq<Sample>, cutoff: real)
    requires samples != [] && samples[0].time < cutoff
    ensures Hides(samples, cutoff) <==> Hides(samples[1..], cutoff)
  {
    var rest := samples[1..];
    if Hides(samples, cutoff) {
      var i, j :| 0 <= i < j < |samples| && samples[i].time >= cutoff > samples[j].time;
      assert rest[i - 1].time >= cutoff > rest[j - 1].time;
    }
    if Hides(rest, cutoff) {
      var i, j :| 0 <= i < j < |rest| && rest[i].time >= cutoff > rest[j].time;
      assert samples[i + 1].time >= cutoff > samples[j + 1].time;
    }
  }

  lemma HidesBehindLive(samples: seq<Sample>, cutoff: real)
    requires samples != [] && samples[0].time >= cutoff
    ensures !Hides(samples, cutoff) <==> forall j :: 0 <= j < |samples| ==> samples[j].time >= cutoff
  {
    if j :| 0 <= j < |samples| && samples[j].time < cutoff {
      assert samples[0].time >= cutoff > samples[j].time;
    }
  }

  lemma {:induction false} DropIsFilter(samples: seq<Sample>, cutoff: real)
    ensures DropExpired(samples, cutoff) == Live(samples, cutoff) <==> !Hides(samples, cutoff)
  {
    if samples == [] {
    } else if samples[0].time < cutoff {
      DropIsFilter(samples[1..], cutoff);
      HidesBehindExpired(samples, cutoff);
    } else {
      LiveOnly(samples, cutoff);
      HidesBehindLive(samples, cutoff);
      if !Hides(samples, cutoff) {
        AllLive(samples, cutoff);
      }
    }
  }

  lemma ExactSplit(gone: seq<Sample>, found: seq<Sample>, cutoff: real)
    ensures DropExpired(found, cutoff) == Live(gone + found, cutoff)
       <==> !Hides(found, cutoff) && Live(gone, cutoff) == []
  {
    var kept := DropExpired(found, cutoff);
    LiveJoin(gone, found, cutoff);
    DropIsFilter(found, cutoff);
    if kept == Live(gone + found, cutoff) {
      LiveOnly(gone + found, cutoff);
      AllLive(kept, cutoff);
      DropKeepsLive(found, cutoff);
      assert |kept| == |Live(gone, cutoff)| + |kept|;
    }
  }

  /** The deque is the plain filter of everything ever recorded. */
  ghost predicate IsFilter(samples: seq<Sample>, calls: seq<Call>, cutoff: real) {
    samples == Live(History(calls), cutoff)
  }

  /** Neither hides what the eviction finds an expired sample, nor would an evicted one be live again. */
  ghost predicate FilterLeft(found: seq<Sample>, before: seq<Call>, window: real, cutoff: real) {
    !Hides(found, cutoff) && Live(Evicted(before, window), cutoff) == []
  }

  /**
   Exactly when a call leaves the filtered full history: no expired sample hides behind a live one in
   what the eviction finds, and no sample evicted before is live again by this call's reading.
   */
  lemma ExactWhen(before: seq<Call>, c: Call, window: real, found: seq<Sample>)
    requires found == Deque(before, window) + NewSample(c)
    ensures IsFilter(DropExpired(found, c.now - window), before + [c], c.now - window)
       <==> FilterLeft(found, before, window, c.now - window)
  {
    HistorySplit(before, c, window);
    ExactSplit(Evicted(before, window), found, c.now - window);
  }

  lemma HistorySplit(before: seq<Call>, c: Call, window: real)
    ensures History(before + [c]) == Evicted(before, window) + (Deque(before, window) + NewSample(c))
  {
    AfterCall(before, c, window);
    EvictedThenDeque(before, window);
    JoinAssociates(Evicted(before, window), Deque(before, window), NewSample(c));
  }

  /** The reading `now` is at least as great as every earlier one. */
  ghost predicate Latest(before: seq<Call>, now: real) {
    forall i :: 0 <= i < |before| ==> before[i].now <= now
  }

  ghost predicate InOrder(calls: seq<Call>) {
    forall i, j :: 0 <= i <= j < |calls| ==> calls[i].now <= calls[j].now
  }

  /** For a call whose reading is the greatest so far, only what the eviction finds decides. */
  lemma ExactWhenLatest(before: seq<Call>, c: Call, window: real, found: seq<Sample>)
    requires found == Deque(before, window) + NewSample(c) && Latest(before, c.now)
    ensures IsFilter(DropExpired(found, c.now - window), before + [c], c.now - window)
       <==> !Hides(found, c.now - window)
  {
    EvictedStayExpired(before, window, c.now);
    ExactWhen(before, c, window, found);
  }

  lemma EvictedStayExpired(calls: seq<Call>, window: real, now: real)
    requires Latest(calls, now)
    ensures Live(Evicted(calls, window), now - window) == []
  {
    var gone := Evicted(calls, window);
    EvictedHadExpired(calls, window);
    forall i | 0 <= i < |gone| ensures gone[i].time < now - window {
      assert Expired(gone[i], calls, window);
    }
    NoneLive(gone, now - window);
  }

  lemma {:induction false} HistorySorted(calls: seq<Call>)
    requires InOrder(calls)
    ensures Sorted(History(calls))
    ensures forall i :: 0 <= i < |History(calls)| ==> History(calls)[i].time <= Last(calls).now
  {
    if calls != [] {
      HistorySorted(Before(calls));
      assert forall i :: 0 <= i < |calls| ==> calls[i].now <= Last(calls).now;
      if Before(calls) != [] {
        assert Last(Before(calls)) == calls[|calls| - 2];
      }
    }
  }

  /** With readings in lock order, every call leaves exactly the filtered full history. */
  lemma ExactInOrder(before: seq<Call>, c: Call, window: real, found: seq<Sample>)
    requires found == Deque(before, window) + NewSample(c)
    ensures InOrder(before + [c]) ==> IsFilter(DropExpired(found, c.now - window), before + [c], c.now - window)
  {
    if InOrder(before + [c]) {
      LastIsLatest(before, c);
      ExactWhenLatest(before, c, window, found);
      HistorySorted(before + [c]);
      HistorySplit(before, c, window);
      NothingHides(Evicted(before, window), found, c.now - window);
    }
  }

  lemma LastIsLatest(before: seq<Call>, c: Call)
    requires InOrder(before + [c])
    ensures Latest(before, c.now)
  {
    var calls := before + [c];
    forall i | 0 <= i < |before| ensures before[i].now <= c.now {
      assert calls[i].now <= calls[|before|].now;
    }
  }

  lemma NothingHides(gone: seq<Sample>, found: seq<Sample>, cutoff: real)
    requires Sorted(gone + found)
    ensures !Hides(found, cutoff)
  {
    var history := gone + found;
    forall i, j | 0 <= i < j < |found| ensures found[i].time <= found[j].time {
      assert history[|gone| + i] == found[i] && history[|gone| + j] == found[j];
    }
  }

  /** A call that finds nothing expired at the left end evicts nothing. */
  lemma NothingDropped(calls: seq<Call>, c: Call, window: real, found: seq<Sample>, history: seq<Sample>)
    requires found == Deque(calls, window) + NewSample(c) && history == History(calls) + NewSample(c)
    requires found == [] || found[0].time >= c.now - window
    ensures Deque(calls + [c], window) == found && History(calls + [c]) == history
  {
    AfterCall(calls, c, window);
  }

  lemma FirstCall(now: real, x: real, window: real)
    requires window >= 0.0
    ensures Deque([Recorded(now, x)], window) == History([Recorded(now, x)]) == [Sample(now, x)]
  {
    var none: seq<Call> := [];
    assert none + [Recorded(now, x)] == [Recorded(now, x)];
    NothingDropped(none, Recorded(now, x), window, [Sample(now, x)], [Sample(now, x)]);
  }

  lemma TwoCalls(x: real, y: real)
    ensures var calls := [Recorded(10.0, x), Recorded(0.0, y)];
      Deque(calls, 10.0) == History(calls) == [Sample(10.0, x), Sample(0.0, y)]
  {
    var both := [Sample(10.0, x), Sample(0.0, y)];
    FirstCall(10.0, x, 10.0);
    assert [Recorded(10.0, x)] + [Recorded(0.0, y)] == [Recorded(10.0, x), Recorded(0.0, y)];
    NothingDropped([Recorded(10.0, x)], Recorded(0.0, y), 10.0, both, both);
  }

  lemma MeansOfTwo(s: Sample, t: Sample, cutoff: real)
    requires s.time >= cutoff > t.time
    ensures Mean([s, t]) == (s.value + t.value) / 2.0
    ensures Live([s, t], cutoff) == [s] && Mean([s]) == s.value
  {
    NoneLive([t], cutoff);
    assert [t][1..] == [] && Sum([t]) == t.value;
    assert [s, t][1..] == [t] && Sum([s, t]) == s.value + t.value && [s] + Live([t], cutoff) == [s];
    assert [s][1..] == [] && Sum([s]) == s.value;
  }

  /** Readings out of lock order: an expired sample hides, and the average is not that of the live samples. */
  lemma HiddenSampleCounts(x: real, y: real)
    ensures var calls := [Recorded(10.0, x), Recorded(0.0, y), Averaged(15.0)];
      && Deque(calls, 10.0) == [Sample(10.0, x), Sample(0.0, y)] && Mean(Deque(calls, 10.0)) == (x + y) / 2.0
      && Live(History(calls), 5.0) == [Sample(10.0, x)] && Mean(Live(History(calls), 5.0)) == x
  {
    var before, both := [Recorded(10.0, x), Recorded(0.0, y)], [Sample(10.0, x), Sample(0.0, y)];
    TwoCalls(x, y);
    NothingDropped(before, Averaged(15.0), 10.0, both, both);
    assert before + [Averaged(15.0)] == [Recorded(10.0, x), Recorded(0.0, y), Averaged(15.0)];
    MeansOfTwo(Sample(10.0, x), Sample(0.0, y), 5.0);
  }

  lemma LateReadingEvicts(x: real)
    ensures var calls := [Recorded(0.0, x), Averaged(20.0)];
      Deque(calls, 10.0) == [] && History(calls) == [Sample(0.0, x)]
  {
    var one := [Sample(0.0, x)];
    FirstCall(0.0, x, 10.0);
    AfterCall([Recorded(0.0, x)], Averaged(20.0), 10.0);
    assert [Recorded(0.0, x)] + [Averaged(20.0)] == [Recorded(0.0, x), Averaged(20.0)];
    assert one + [] == one && one[1..] == [];
  }

  lemma EvictedStaysAway(calls: seq<Call>, s: Sample, now: real, window: real)
    requires Deque(calls, window) == [] && History(calls) == [s] && s.time >= now - window
    ensures Deque(calls + [Averaged(now)], window) == []
    ensures Live(History(calls + [Averaged(now)]), now - window) == [s]
  {
    var none: seq<Sample> := [];
    assert none + NewSample(Averaged(now)) == none && [s] + NewSample(Averaged(now)) == [s];
    NothingDropped(calls, Averaged(now), window, none, [s]);
    AllLive([s], now - window);
  }

  /** A late reading can evict what an earlier reading, used afterwards, would still have counted. */
  lemma EvictedSampleMisses(x: real)
    ensures var calls := [Recorded(0.0, x), Averaged(20.0), Averaged(5.0)];
      Deque(calls, 10.0) == [] && Live(History(calls), -5.0) == [Sample(0.0, x)]
  {
    var before := [Recorded(0.0, x), Averaged(20.0)];
    LateReadingEvicts(x);
    EvictedStaysAway(before, Sample(0.0, x), 5.0, 10.0);
    assert before + [Averaged(5.0)] == [Recorded(0.0, x), Averaged(20.0), Averaged(5.0)];
  }

  /** What one more call leaves, for the eviction of `found` to `left`. */
  lemma Settle(before: seq<Call>, c: Call, window: real, found: seq<Sample>, left: seq<Sample>, cutoff: real)
    requires found == Deque(before, window) + NewSample(c)
    requires cutoff == c.now - window && left == DropExpired(found, cutoff)
    ensures left == Deque(before + [c], window)
    ensures IsFilter(left, before + [c], cutoff) <==> FilterLeft(found, before, window, cutoff)
    ensures InOrder(before + [c]) ==> IsFilter(left, before + [c], cutoff)
  {
    assert left == Deque(before + [c], window) by {
      DequeAfter(before, c, window);
    }
    assert IsFilter(left, before + [c], cutoff) <==> FilterLeft(found, before, window, cutoff) by {
      ExactWhen(before, c, window, found);
    }
    ExactInOrder(before, c, window, found);
  }

  // ---------------------------------------------------------------- the class

  method MeanOf(samples: seq<Sample>) returns (avg: real)
    ensures avg == Mean(samples)
  {
    if samples == [] {
      return 0.0;
    }
    return Sum(samples) / (|samples| as real);
  }

  class RollingWindow {
    const window: real
    var samples: seq<Sample>
    /** The calls so far, in the order in which they got the lock. */
    ghost var calls: seq<Call>

    ghost predicate Valid() reads this {
      samples == Deque(calls, window)
    }

    constructor (window: real)
      ensures Valid() && calls == [] && this.window == window
    {
      this.window := window;
      samples := [];
      calls := [];
    }

    method Evict(now: real)
      modifies this`samples
      ensures samples == DropExpired(old(samples), now - window)
      ensures Live(samples, now - window) == Live(old(samples), now - window)
      ensures samples == [] || samples[0].time >= now - window
    {
      var cutoff := now - window;
      while samples != [] && samples[0].time < cutoff
        invariant DropExpired(samples, cutoff) == DropExpired(old(samples), cutoff)
        decreases |samples|
      {
        samples := samples[1..];
      }
      DropKeepsLive(old(samples), cutoff);
    }

    method Record(now: real, value: real)
      requires Valid()
      modifies this`samples, this`calls
      ensures Valid() && calls == old(calls) + [Recorded(now, value)]
      ensures IsFilter(samples, calls, now - window)
         <==> FilterLeft(old(samples) + [Sample(now, value)], old(calls), window, now - window)
      ensures InOrder(calls) ==> IsFilter(samples, calls, now - window)
    {
      samples := samples + [Sample(now, value)];
      Evict(now);
      calls := calls + [Recorded(now, value)];
      Settle(old(calls), Recorded(now, value), window, old(samples) + [Sample(now, value)], samples, now - window);
    }

    /** The mean of the deque, or 0 when it is empty. */
    method Average(now: real) returns (avg: real)
      requires Valid()
      modifies this`samples, this`calls
      ensures Valid() && calls == old(calls) + [Averaged(now)] && avg == Mean(samples)
      ensures IsFilter(samples, calls, now - window) <==> FilterLeft(old(samples), old(calls), window, now - window)
      ensures InOrder(calls) ==> IsFilter(samples, calls, now - window)
    {
      Evict(now);
      calls := calls + [Averaged(now)];
      assert NewSample(Averaged(now)) == [] && old(samples) + [] == old(samples);
      Settle(old(calls), Averaged(now), window, old(samples), samples, now - window);
      avg := MeanOf(samples);
    }
  }
}
