/**
 The sliding-window rate limiter of the run router. Times are reals; the clock reading of a call is a parameter
 of the call. The limiter keeps, per key, a deque from which expired events have been popped; what it promises
 is about all events ever recorded, so the proofs compare it with a limiter that keeps its whole history.
 */
module RateLimiter {
  import opened Common

  datatype Event = Event(time: real, id: Option<string>)

  datatype Decision = Decision(allowed: bool, retryAfter: real, remaining: nat)

  // ---------------------------------------------------------------- one call on one key

  /** The first position, from `from` on, of an event that has not expired. */
  function FirstLive(queue: seq<Event>, cutoff: real, from: nat): (n: nat)
    requires from <= |queue|
    ensures from <= n <= |queue|
    ensures forall i | from <= i < n :: queue[i].time <= cutoff
    ensures n < |queue| ==> queue[n].time > cutoff
    decreases |queue| - from
  {
    if from < |queue| && queue[from].time <= cutoff then FirstLive(queue, cutoff, from + 1) else from
  }

  /** How many events at the front of the deque have expired. */
  function Expired(queue: seq<Event>, cutoff: real): nat { FirstLive(queue, cutoff, 0) }

  /** The deque after the expired events at its front have been popped. */
  function Prune(queue: seq<Event>, cutoff: real): seq<Event> { queue[Expired(queue, cutoff)..] }

  predicate HasId(queue: seq<Event>, id: Option<string>) {
    id.Some? && exists i | 0 <= i < |queue| :: queue[i].id == id
  }

  function Spare(limit: int, used: nat): nat {
    if limit > used then limit - used else 0
  }

  /** Whether a call that finds the events `live` in its window appends an event of its own. */
  predicate Records(live: seq<Event>, limit: int, id: Option<string>) {
    limit > 0 && !HasId(live, id) && |live| < limit
  }

  /** The answer to a call that finds the events `live` in its window. */
  function Answer(live: seq<Event>, now: real, limit: int, window: real, id: Option<string>): Decision {
    if limit <= 0 then Decision(true, 0.0, 0)
    else if HasId(live, id) then Decision(true, 0.0, Spare(limit, |live|))
    else if |live| >= limit then
      var wait := window - (now - live[0].time);
      Decision(false, if wait > 0.0 then wait else 0.0, 0)
    else Decision(true, 0.0, Spare(limit, |live| + 1))
  }

  /** `events`, with the event of a call at the end if the call records one. */
  function Append(events: seq<Event>, records: bool, now: real, id: Option<string>): seq<Event> {
    if records then events + [Event(now, id)] else events
  }

  /** The deque a call leaves behind. */
  function Kept(queue: seq<Event>, now: real, limit: int, window: real, id: Option<string>): seq<Event> {
    if limit <= 0 then queue else
      var live := Prune(queue, now - window);
      Append(live, Records(live, limit, id), now, id)
  }

  class SlidingWindowRateLimiter {
    var events: map<string, seq<Event>>

    ghost function Queue(key: string): seq<Event>
      reads this
    {
      if key in events then events[key] else []
    }

    constructor ()
      ensures forall key :: Queue(key) == []
    {
      events := map[];
    }

    /** Pops the expired events off the front of a deque. */
    static method PopExpired(queue: seq<Event>, cutoff: real) returns (live: seq<Event>)
      ensures live == Prune(queue, cutoff)
    {
      live := queue;
      ghost var popped := 0;
      while live != [] && live[0].time <= cutoff
        invariant popped <= |queue| && live == queue[popped..]
        invariant Expired(queue, cutoff) == FirstLive(queue, cutoff, popped)
      {
        DropDrop(queue, popped, 1);
        live, popped := live[1..], popped + 1;
      }
    }

    method Allow(key: string, now: real, limit: int, window: real, id: Option<string>) returns (decision: Decision)
      modifies this
      ensures decision == Answer(Prune(old(Queue(key)), now - window), now, limit, window, id)
      ensures Queue(key) == Kept(old(Queue(key)), now, limit, window, id)
      ensures forall other | other != key :: Queue(other) == old(Queue(other))
      ensures limit > 0 && decision.allowed && |Queue(key)| <= limit ==> |Queue(key)| + decision.remaining == limit
      ensures limit > 0 && decision.allowed && |Queue(key)| > limit ==> decision.remaining == 0
      ensures !decision.allowed ==> decision.remaining == 0 && |Queue(key)| >= limit > 0
    {
      hide Prune, HasId;
      if limit <= 0 {
        return Decision(true, 0.0, 0);
      }
      var cutoff := now - window;
      var queue := if key in events then events[key] else [];
      queue := PopExpired(queue, cutoff);
      events := events[key := queue];
      if HasId(queue, id) {
        return Decision(true, 0.0, Spare(limit, |queue|));
      }
      if |queue| >= limit {
        var wait := window - (now - queue[0].time);
        return Decision(false, if wait > 0.0 then wait else 0.0, 0);
      }
      queue := queue + [Event(now, id)];
      events := events[key := queue];
      return Decision(true, 0.0, Spare(limit, |queue|));
    }
  }

  // ---------------------------------------------------------------- runs of calls on one key

  datatype Call = Call(now: real, id: Option<string>)

  /** The deque after a run of calls with one limit and one window. */
  function QueueAfter(calls: seq<Call>, limit: int, window: real): seq<Event> {
    if calls == [] then []
    else
      var last := calls[|calls| - 1];
      Kept(QueueAfter(calls[..|calls| - 1], limit, window), last.now, limit, window, last.id)
  }

  /** The events of a history that have not expired at `now`. */
  function Live(history: seq<Event>, now: real, window: real): seq<Event> {
    if history == [] then []
    else
      var last := history[|history| - 1];
      var earlier := Live(history[..|history| - 1], now, window);
      if last.time > now - window then earlier + [last] else earlier
  }

  /** The reference limiter: it never forgets an event and looks through all of them at each call. */
  function HistoryAfter(calls: seq<Call>, limit: int, window: real): seq<Event> {
    if calls == [] then []
    else
      var last := calls[|calls| - 1];
      var history := HistoryAfter(calls[..|calls| - 1], limit, window);
      Append(history, Records(Live(history, last.now, window), limit, last.id), last.now, last.id)
  }

  /** Every event the limiter itself has recorded during a run, popped or not. */
  function Recorded(calls: seq<Call>, limit: int, window: real): seq<Event> {
    if calls == [] then []
    else
      var n := |calls| - 1;
      var live := Prune(QueueAfter(calls[..n], limit, window), calls[n].now - window);
      Append(Recorded(calls[..n], limit, window), Records(live, limit, calls[n].id), calls[n].now, calls[n].id)
  }

  ghost predicate Ordered(calls: seq<Call>) {
    forall i, j | 0 <= i < j < |calls| :: calls[i].now <= calls[j].now
  }

  /** `now` is not before any of the calls. */
  ghost predicate Follows(calls: seq<Call>, now: real) {
    forall i | 0 <= i < |calls| :: calls[i].now <= now
  }

  ghost predicate SortedUpTo(history: seq<Event>, now: real) {
    && (forall i, j | 0 <= i < j < |history| :: history[i].time <= history[j].time)
    && (forall i | 0 <= i < |history| :: history[i].time <= now)
  }

  lemma {:induction false} HistoryIsSorted(calls: seq<Call>, limit: int, window: real, now: real)
    requires Ordered(calls) && Follows(calls, now)
    ensures SortedUpTo(HistoryAfter(calls, limit, window), now)
  {
    if calls != [] {
      var n := |calls| - 1;
      HistoryIsSorted(calls[..n], limit, window, calls[n].now);
    }
  }

  /** In a sorted history the live events are what follows the expired ones. */
  lemma {:induction false} LiveIsSuffix(history: seq<Event>, now: real, window: real)
    requires SortedUpTo(history, now)
    ensures Live(history, now, window) == Prune(history, now - window)
  {
    hide Prune;
    if history == [] {
      PruneNothing(now - window);
    } else {
      LiveIsSuffix(history[..|history| - 1], now, window);
      PruneSnoc(history, now - window);
    }
  }

  lemma PruneNothing(cutoff: real)
    ensures Prune([], cutoff) == []
  {
  }

  lemma PruneSnoc(queue: seq<Event>, cutoff: real)
    requires queue != [] && forall i | 0 <= i < |queue| - 1 :: queue[i].time <= queue[|queue| - 1].time
    ensures var n := |queue| - 1;
      Prune(queue, cutoff) == if queue[n].time > cutoff then Prune(queue[..n], cutoff) + [queue[n]]
                              else Prune(queue[..n], cutoff)
  {
    var n := |queue| - 1;
    var e := Expired(queue[..n], cutoff);
    if queue[n].time > cutoff {
      ExpiredIs(queue, cutoff, e);
      SplitLast(queue);
      DropAppend(queue[..n], [queue[n]], e);
    } else {
      if e < n { assert false; }
      ExpiredIs(queue, cutoff, n + 1);
    }
  }

  lemma ExpiredIs(queue: seq<Event>, cutoff: real, n: nat)
    requires n <= |queue|
    requires forall i | 0 <= i < n :: queue[i].time <= cutoff
    requires n < |queue| ==> queue[n].time > cutoff
    ensures Expired(queue, cutoff) == n
  {
  }

  /** `queue` is `history` without some of its leading events, all of them expired at `cutoff`. */
  ghost predicate PoppedFrom(queue: seq<Event>, history: seq<Event>, cutoff: real) {
    exists p: nat :: PoppedBy(queue, history, cutoff, p)
  }

  ghost predicate PoppedBy(queue: seq<Event>, history: seq<Event>, cutoff: real, p: nat) {
    p <= |history| && queue == history[p..] && forall i | 0 <= i < p :: history[i].time <= cutoff
  }

  /** Popping more of such a deque leaves the live events of the history. */
  lemma PruneIsLive(queue: seq<Event>, history: seq<Event>, now: real, window: real)
    requires PoppedFrom(queue, history, now - window) && SortedUpTo(history, now)
    ensures Prune(queue, now - window) == Live(history, now, window)
  {
    var cutoff := now - window;
    var p: nat :| PoppedBy(queue, history, cutoff, p);
    var e := Expired(queue, cutoff);
    forall i | 0 <= i < p + e
      ensures history[i].time <= cutoff
    {
      if i >= p { assert queue[i - p] == history[i]; }
    }
    ExpiredIs(history, cutoff, p + e);
    LiveIsSuffix(history, now, window);
    DropDrop(history, p, e);
  }

  lemma {:induction false} QueueIsPoppedHistory(calls: seq<Call>, limit: int, window: real, now: real)
    requires Ordered(calls) && Follows(calls, now)
    ensures PoppedFrom(QueueAfter(calls, limit, window), HistoryAfter(calls, limit, window), now - window)
  {
    if calls == [] {
      assert PoppedBy([], [], now - window, 0);
    } else {
      var n := |calls| - 1;
      var last := calls[n];
      QueueIsPoppedHistory(calls[..n], limit, window, last.now);
      HistoryIsSorted(calls[..n], limit, window, last.now);
      KeptIsPopped(QueueAfter(calls[..n], limit, window), HistoryAfter(calls[..n], limit, window),
                   last, limit, window, now);
    }
  }

  lemma KeptIsPopped(queue: seq<Event>, history: seq<Event>, call: Call, limit: int, window: real, now: real)
    requires PoppedFrom(queue, history, call.now - window) && SortedUpTo(history, call.now) && call.now <= now
    ensures PoppedFrom(Kept(queue, call.now, limit, window, call.id),
                       Append(history, Records(Live(history, call.now, window), limit, call.id), call.now, call.id),
                       now - window)
  {
    hide PoppedFrom, Live, SortedUpTo, Prune, HasId;
    if limit <= 0 {
      PoppedLater(queue, history, call.now - window, now - window);
    } else {
      var live, records := Live(history, call.now, window), Records(Live(history, call.now, window), limit, call.id);
      PruneIsLive(queue, history, call.now, window);
      assert Kept(queue, call.now, limit, window, call.id) == Append(live, records, call.now, call.id);
      LiveIsPopped(history, call, window, now, records);
    }
  }

  lemma LiveIsPopped(history: seq<Event>, call: Call, window: real, now: real, records: bool)
    requires SortedUpTo(history, call.now) && call.now <= now
    ensures PoppedFrom(Append(Live(history, call.now, window), records, call.now, call.id),
                       Append(history, records, call.now, call.id), now - window)
  {
    LiveIsSuffix(history, call.now, window);
    PoppedGrows(Live(history, call.now, window), history, call.now - window, now - window,
                Expired(history, call.now - window), records, call);
  }

  lemma PoppedLater(queue: seq<Event>, history: seq<Event>, before: real, cutoff: real)
    requires PoppedFrom(queue, history, before) && before <= cutoff
    ensures PoppedFrom(queue, history, cutoff)
  {
    var p: nat :| PoppedBy(queue, history, before, p);
    assert PoppedBy(queue, history, cutoff, p);
  }

  lemma PoppedGrows(queue: seq<Event>, history: seq<Event>, before: real, cutoff: real, p: nat,
                    records: bool, call: Call)
    requires PoppedBy(queue, history, before, p) && before <= cutoff
    ensures PoppedFrom(Append(queue, records, call.now, call.id), Append(history, records, call.now, call.id), cutoff)
  {
    DropAppend(history, [Event(call.now, call.id)], p);
    assert PoppedBy(Append(queue, records, call.now, call.id), Append(history, records, call.now, call.id), cutoff, p);
  }

  /**
   Popping loses nothing: after any run with a non-decreasing clock, the next call finds in the deque exactly the
   live part of the full history, so it answers and records just as the reference limiter does.
   */
  lemma DequeRefinesHistory(calls: seq<Call>, limit: int, window: real, call: Call)
    requires Ordered(calls) && Follows(calls, call.now)
    ensures Prune(QueueAfter(calls, limit, window), call.now - window)
         == Live(HistoryAfter(calls, limit, window), call.now, window)
  {
    QueueIsPoppedHistory(calls, limit, window, call.now);
    HistoryIsSorted(calls, limit, window, call.now);
    PruneIsLive(QueueAfter(calls, limit, window), HistoryAfter(calls, limit, window), call.now, window);
  }

  lemma {:induction false} RecordedIsHistory(calls: seq<Call>, limit: int, window: real)
    requires Ordered(calls)
    ensures Recorded(calls, limit, window) == HistoryAfter(calls, limit, window)
  {
    hide *;
    if calls == [] {
      NothingYet(limit, window);
    } else {
      var front, last := calls[..|calls| - 1], calls[|calls| - 1];
      FrontIsOrdered(calls);
      RecordedIsHistory(front, limit, window);
      DequeRefinesHistory(front, limit, window, last);
      BothGrow(calls, limit, window);
    }
  }

  lemma NothingYet(limit: int, window: real)
    ensures Recorded([], limit, window) == HistoryAfter([], limit, window) == []
  {
  }

  lemma FrontIsOrdered(calls: seq<Call>)
    requires calls != [] && Ordered(calls)
    ensures Ordered(calls[..|calls| - 1]) && Follows(calls[..|calls| - 1], calls[|calls| - 1].now)
  {
  }

  lemma BothGrow(calls: seq<Call>, limit: int, window: real)
    requires calls != []
    ensures var front, last := calls[..|calls| - 1], calls[|calls| - 1];
      var live := Prune(QueueAfter(front, limit, window), last.now - window);
      var history := HistoryAfter(front, limit, window);
      && Recorded(calls, limit, window)
         == Append(Recorded(front, limit, window), Records(live, limit, last.id), last.now, last.id)
      && HistoryAfter(calls, limit, window)
         == Append(history, Records(Live(history, last.now, window), limit, last.id), last.now, last.id)
  {
  }

  // ---------------------------------------------------------------- the window bound

  /** Event `i + limit` comes at least a window after event `i`, and so does a repetition of its id. */
  ghost predicate Spaced(history: seq<Event>, limit: int, window: real) {
    && (limit > 0 ==> forall i, j | 0 <= i && j == i + limit < |history| ::
          history[j].time >= history[i].time + window)
    && (forall i, j | 0 <= i < j < |history| && history[i].id.Some? && history[i].id == history[j].id ::
          history[j].time >= history[i].time + window)
  }

  lemma RecordKeepsSpaced(history: seq<Event>, now: real, limit: int, window: real, id: Option<string>)
    requires Spaced(history, limit, window) && SortedUpTo(history, now)
    requires Records(Live(history, now, window), limit, id)
    ensures Spaced(history + [Event(now, id)], limit, window)
  {
    LiveIsSuffix(history, now, window);
    var n, popped, grown := |history|, Expired(history, now - window), history + [Event(now, id)];
    var live := history[popped..];
    forall i | popped <= i < n && id.Some?
      ensures history[i].id != id
    {
      assert live[i - popped] == history[i];
    }
  }

  lemma {:induction false} HistoryIsSpaced(calls: seq<Call>, limit: int, window: real)
    requires Ordered(calls)
    ensures Spaced(HistoryAfter(calls, limit, window), limit, window)
  {
    if calls != [] {
      var n := |calls| - 1;
      HistoryIsSpaced(calls[..n], limit, window);
      HistoryIsSorted(calls[..n], limit, window, calls[n].now);
      var history := HistoryAfter(calls[..n], limit, window);
      if Records(Live(history, calls[n].now, window), limit, calls[n].id) {
        RecordKeepsSpaced(history, calls[n].now, limit, window, calls[n].id);
      }
    }
  }

  predicate InInterval(e: Event, from: real, to: real) { from < e.time <= to }

  predicate InLeftClosed(e: Event, from: real, to: real) { from <= e.time < to }

  lemma {:induction false} CountInSpan(history: seq<Event>, p: Event -> bool, lo: nat, hi: nat)
    requires lo <= hi
    requires forall i | 0 <= i < |history| && p(history[i]) :: lo <= i < hi
    ensures Count(history, p) <= hi - lo
  {
    if history != [] {
      var n := |history| - 1;
      assert forall i | 0 <= i < n :: history[..n][i] == history[i];
      CountInSpan(history[..n], p, lo, if p(history[n]) then n else hi);
    }
  }

  /** The first and the last event that satisfy `p`. */
  lemma {:induction false} Span(history: seq<Event>, p: Event -> bool, k: nat) returns (lo: nat, hi: nat)
    requires k < |history| && p(history[k])
    ensures lo <= hi < |history| && p(history[lo]) && p(history[hi])
    ensures forall i | 0 <= i < |history| && p(history[i]) :: lo <= i <= hi
  {
    lo, hi := k, k;
    var i := 0;
    while i < |history|
      invariant i <= |history| && lo <= hi < |history| && p(history[lo]) && p(history[hi])
      invariant forall j | 0 <= j < i && p(history[j]) :: lo <= j <= hi
    {
      if p(history[i]) {
        lo, hi := if i < lo then i else lo, if i > hi then i else hi;
      }
      i := i + 1;
    }
  }

  lemma FarApart(history: seq<Event>, lo: nat, hi: nat, limit: nat, window: real)
    requires limit > 0 && Spaced(history, limit, window) && lo + limit <= hi < |history|
    requires forall i, j | 0 <= i < j < |history| :: history[i].time <= history[j].time
    ensures history[hi].time >= history[lo].time + window
  {
    var j := lo + limit;
    assert history[j].time >= history[lo].time + window;
  }

  /** Events that are all less than a window apart from each other are at most `limit` many. */
  lemma FewTogether(history: seq<Event>, p: Event -> bool, limit: nat, window: real)
    requires limit > 0 && Spaced(history, limit, window)
    requires forall i, j | 0 <= i < j < |history| :: history[i].time <= history[j].time
    requires forall i, j | 0 <= i < j < |history| && p(history[i]) && p(history[j]) ::
      history[j].time < history[i].time + window
    ensures Count(history, p) <= limit
  {
    CountBounds(history, p);
    if k: nat :| k < |history| && p(history[k]) {
      var lo, hi := Span(history, p, k);
      CountInSpan(history, p, lo, hi + 1);
      if hi - lo >= limit {
        FarApart(history, lo, hi, limit, window);
        assert false;
      }
    }
  }

  /** The limit holds for every window of time, wherever it is placed and whichever of its ends counts. */
  lemma WindowBound(calls: seq<Call>, limit: nat, window: real, from: real)
    requires limit > 0 && Ordered(calls)
    ensures var history := Recorded(calls, limit, window);
      && Count(history, e => InInterval(e, from, from + window)) <= limit
      && Count(history, e => InLeftClosed(e, from, from + window)) <= limit
  {
    RecordedIsHistory(calls, limit, window);
    HistoryIsSpaced(calls, limit, window);
    if calls != [] { HistoryIsSorted(calls, limit, window, calls[|calls| - 1].now); }
    var history := HistoryAfter(calls, limit, window);
    FewTogether(history, e => InInterval(e, from, from + window), limit, window);
    FewTogether(history, e => InLeftClosed(e, from, from + window), limit, window);
  }

  ghost predicate DistinctIds(queue: seq<Event>) {
    forall i, j | 0 <= i < j < |queue| && queue[i].id.Some? :: queue[i].id != queue[j].id
  }

  lemma PruneKeepsDistinct(queue: seq<Event>, cutoff: real)
    requires DistinctIds(queue)
    ensures DistinctIds(Prune(queue, cutoff))
  {
    var e := Expired(queue, cutoff);
    var pruned := queue[e..];
    forall i, j | 0 <= i < j < |pruned| && pruned[i].id.Some?
      ensures pruned[i].id != pruned[j].id
    {
      assert pruned[i] == queue[e + i] && pruned[j] == queue[e + j];
    }
  }

  lemma AppendKeepsDistinct(live: seq<Event>, now: real, id: Option<string>)
    requires DistinctIds(live) && !HasId(live, id)
    ensures DistinctIds(live + [Event(now, id)])
  {
    forall i, j | 0 <= i < j < |live| + 1 && (live + [Event(now, id)])[i].id.Some?
      ensures (live + [Event(now, id)])[i].id != (live + [Event(now, id)])[j].id
    {
      assert (live + [Event(now, id)])[i] == live[i];
    }
  }

  lemma NoIdsAreDistinct()
    ensures DistinctIds([])
  {
  }

  /** In the deque no id occurs twice, whatever the clock does. */
  lemma {:induction false} DequeIdsAreDistinct(calls: seq<Call>, limit: int, window: real)
    ensures DistinctIds(QueueAfter(calls, limit, window))
    ensures forall cutoff: real :: DistinctIds(Prune(QueueAfter(calls, limit, window), cutoff))
  {
    hide Prune, DistinctIds, HasId;
    if calls == [] {
      NoIdsAreDistinct();
    } else {
      var n := |calls| - 1;
      DequeIdsAreDistinct(calls[..n], limit, window);
      var live := Prune(QueueAfter(calls[..n], limit, window), calls[n].now - window);
      if Records(live, limit, calls[n].id) { AppendKeepsDistinct(live, calls[n].now, calls[n].id); }
    }
    forall cutoff: real
      ensures DistinctIds(Prune(QueueAfter(calls, limit, window), cutoff))
    {
      PruneKeepsDistinct(QueueAfter(calls, limit, window), cutoff);
    }
  }

  // ---------------------------------------------------------------- clocks that go backward

  /** From one call to the next the clock goes back by no more than `tolerance`. */
  ghost predicate StepsBackAtMost(calls: seq<Call>, tolerance: real) {
    forall i, j | 0 <= i && j == i + 1 < |calls| :: calls[i].now - tolerance <= calls[j].now
  }

  function Within(from: real, to: real): Event -> bool { e => InInterval(e, from, to) }

  /** Among the recorded events at most `limit` lie in the window that begins after `from`. */
  ghost predicate BoundHolds(calls: seq<Call>, limit: nat, window: real, from: real) {
    Count(Recorded(calls, limit, window), Within(from, from + window)) <= limit
  }

  lemma {:induction false} NoStepBackIsOrdered(calls: seq<Call>, i: nat, j: nat)
    requires StepsBackAtMost(calls, 0.0) && i < j < |calls|
    ensures calls[i].now <= calls[j].now
  {
    if i + 1 < j { NoStepBackIsOrdered(calls, i, j - 1); }
    var k := j - 1;
    assert calls[k].now - 0.0 <= calls[j].now;
  }

  /** Under a limit of one, each recorded event comes a window after the one before, under every clock. */
  lemma {:induction false} OneAtATime(calls: seq<Call>, window: real)
    requires window > 0.0
    ensures var recorded, queue := Recorded(calls, 1, window), QueueAfter(calls, 1, window);
      && (forall i, j | 0 <= i < j < |recorded| :: recorded[j].time >= recorded[i].time + window)
      && queue == (if recorded == [] then [] else [recorded[|recorded| - 1]])
  {
    if calls != [] {
      var n := |calls| - 1;
      OneAtATime(calls[..n], window);
      var queue, cutoff := QueueAfter(calls[..n], 1, window), calls[n].now - window;
      ExpiredIs(queue, cutoff, if queue != [] && queue[0].time <= cutoff then 1 else 0);
    }
  }

  lemma {:induction false} AllAreSatisfied(events: seq<Event>, p: Event -> bool)
    requires forall i | 0 <= i < |events| :: p(events[i])
    ensures Count(events, p) == |events|
  {
    CountBounds(events, p);
  }

  /** `n` calls without id at one moment. */
  function Burst(now: real, n: nat): seq<Call> { if n == 0 then [] else Burst(now, n - 1) + [Call(now, None)] }

  lemma {:induction false} BurstShape(now: real, n: nat)
    ensures |Burst(now, n)| == n && forall i | 0 <= i < n :: Burst(now, n)[i] == Call(now, None)
  {
    if n > 0 { BurstShape(now, n - 1); }
  }

  /** The events of such a burst. */
  function Copies(now: real, n: nat): seq<Event> { seq(n, i => Event(now, None)) }

  lemma CopiesGrow(now: real, n: nat)
    ensures Copies(now, n + 1) == Copies(now, n) + [Event(now, None)] && |Copies(now, n)| == n
    ensures forall i | 0 <= i < n :: Copies(now, n)[i] == Event(now, None)
  {
  }

  lemma NothingIsRecorded(limit: nat, window: real)
    ensures Recorded([], limit, window) == Copies(0.0, 0) && QueueAfter([], limit, window) == Copies(0.0, 0)
  {
  }

  lemma BurstGrows(calls: seq<Call>, n: nat, limit: nat, window: real)
    requires n < limit && window > 0.0
    requires Recorded(calls, limit, window) == Copies(0.0, n) && QueueAfter(calls, limit, window) == Copies(0.0, n)
    ensures var more := calls + [Call(0.0, None)];
      Recorded(more, limit, window) == Copies(0.0, n + 1) && QueueAfter(more, limit, window) == Copies(0.0, n + 1)
  {
    CopiesGrow(0.0, n);
    hide Recorded, QueueAfter, Copies;
    KeepingCall(calls, Call(0.0, None), limit, window);
  }

  lemma {:induction false} BurstIsRecorded(n: nat, limit: nat, window: real)
    requires n <= limit && window > 0.0
    ensures Recorded(Burst(0.0, n), limit, window) == Copies(0.0, n)
    ensures QueueAfter(Burst(0.0, n), limit, window) == Copies(0.0, n)
  {
    hide Recorded, QueueAfter, Copies;
    if n == 0 {
      NothingIsRecorded(limit, window);
    } else {
      BurstIsRecorded(n - 1, limit, window);
      BurstGrows(Burst(0.0, n - 1), n - 1, limit, window);
    }
  }

  lemma KeepingCall(calls: seq<Call>, call: Call, limit: nat, window: real)
    requires var queue := QueueAfter(calls, limit, window);
      |queue| < limit && (queue != [] ==> queue[0].time > call.now - window) && call.id.None?
    ensures QueueAfter(calls + [call], limit, window) == QueueAfter(calls, limit, window) + [Event(call.now, None)]
    ensures Recorded(calls + [call], limit, window) == Recorded(calls, limit, window) + [Event(call.now, None)]
  {
    ExpiredIs(QueueAfter(calls, limit, window), call.now - window, 0);
    RunGrows(calls, call, limit, window);
  }

  lemma FlushingCall(calls: seq<Call>, call: Call, limit: nat, window: real)
    requires limit > 0 && forall e | e in QueueAfter(calls, limit, window) :: e.time <= call.now - window
    requires call.id.None?
    ensures QueueAfter(calls + [call], limit, window) == [Event(call.now, None)]
    ensures Recorded(calls + [call], limit, window) == Recorded(calls, limit, window) + [Event(call.now, None)]
  {
    var queue := QueueAfter(calls, limit, window);
    ExpiredIs(queue, call.now - window, |queue|);
    RunGrows(calls, call, limit, window);
  }

  /** A full burst, one call a window later, and one a step before that. */
  function StepBackRun(limit: nat, window: real, back: real): seq<Call> {
    Burst(0.0, limit) + [Call(window, None)] + [Call(window - back, None)]
  }

  lemma StepBackIsRecorded(limit: nat, window: real, back: real)
    requires limit >= 2 && 0.0 < back < window
    ensures Recorded(StepBackRun(limit, window, back), limit, window)
         == Recorded(Burst(0.0, limit), limit, window) + [Event(window, None)] + [Event(window - back, None)]
  {
    BurstIsRecorded(limit, limit, window);
    CopiesGrow(0.0, limit);
    hide Recorded, QueueAfter, Copies, Burst;
    FlushingCall(Burst(0.0, limit), Call(window, None), limit, window);
    KeepingCall(Burst(0.0, limit) + [Call(window, None)], Call(window - back, None), limit, window);
  }

  lemma StepBackSize(limit: nat, window: real, back: real)
    requires limit >= 2 && 0.0 < back < window
    ensures StepsBackAtMost(StepBackRun(limit, window, back), back)
  {
    BurstShape(0.0, limit);
    hide Burst;
    var burst, run := Burst(0.0, limit), StepBackRun(limit, window, back);
    assert |run| == limit + 2 && run[limit] == Call(window, None) && run[limit + 1] == Call(window - back, None);
    forall i, j | 0 <= i && j == i + 1 < |run|
      ensures run[i].now - back <= run[j].now
    {
      assert i < limit ==> run[i] == burst[i];
      assert j < limit ==> run[j] == burst[j];
    }
  }

  lemma CountSnoc(events: seq<Event>, p: Event -> bool, e: Event)
    ensures Count(events + [e], p) == Count(events, p) + (if p(e) then 1 else 0)
  {
    TakeAppend(events, [e]);
  }

  /**
   For every limit of two or more, every window and every single step back shorter than it, the run above records more
   events in one window than the limit allows.
   */
  lemma BackwardClockBreaksTheBound(limit: nat, window: real, back: real)
    requires limit >= 2 && 0.0 < back < window
    ensures StepsBackAtMost(StepBackRun(limit, window, back), back)
    ensures !BoundHolds(StepBackRun(limit, window, back), limit, window, -back)
  {
    BurstIsRecorded(limit, limit, window);
    CopiesGrow(0.0, limit);
    StepBackIsRecorded(limit, window, back);
    StepBackSize(limit, window, back);
    hide Burst, Recorded, QueueAfter, StepBackRun, StepsBackAtMost, Copies;
    var burst, p := Recorded(Burst(0.0, limit), limit, window), Within(-back, -back + window);
    AllAreSatisfied(burst, p);
    CountSnoc(burst, p, Event(window, None));
    CountSnoc(burst + [Event(window, None)], p, Event(window - back, None));
  }

  lemma OneEventPerWindow(calls: seq<Call>, window: real, from: real)
    requires window > 0.0
    ensures BoundHolds(calls, 1, window, from)
  {
    OneAtATime(calls, window);
    FewTogether(Recorded(calls, 1, window), Within(from, from + window), 1, window);
  }

  lemma OrderedKeepsBound(calls: seq<Call>, limit: nat, window: real, from: real)
    requires limit > 0 && StepsBackAtMost(calls, 0.0)
    ensures BoundHolds(calls, limit, window, from)
  {
    forall i: nat, j: nat | i < j < |calls|
      ensures calls[i].now <= calls[j].now
    {
      NoStepBackIsOrdered(calls, i, j);
    }
    RecordedIsHistory(calls, limit, window);
    HistoryIsSpaced(calls, limit, window);
    if calls != [] { HistoryIsSorted(calls, limit, window, calls[|calls| - 1].now); }
    FewTogether(HistoryAfter(calls, limit, window), Within(from, from + window), limit, window);
  }

  /**
   Exactly when the window bound can be relied on: a limiter whose clock may step back by up to `tolerance` keeps it on
   every run if and only if its limit is one or the clock never steps back.
   */
  lemma BoundHoldsExactlyWhen(limit: nat, window: real, tolerance: real)
    requires limit > 0 && window > 0.0 && tolerance >= 0.0
    ensures (forall calls, from: real | StepsBackAtMost(calls, tolerance) :: BoundHolds(calls, limit, window, from))
       <==> limit == 1 || tolerance == 0.0
  {
    if limit == 1 || tolerance == 0.0 {
      forall calls, from: real | StepsBackAtMost(calls, tolerance)
        ensures BoundHolds(calls, limit, window, from)
      {
        if limit == 1 {
          OneEventPerWindow(calls, window, from);
        } else {
          OrderedKeepsBound(calls, limit, window, from);
        }
      }
    } else {
      var back := if tolerance < window then tolerance else window / 2.0;
      BackwardClockBreaksTheBound(limit, window, back);
    }
  }

  // ---------------------------------------------------------------- how long to wait after a denial

  lemma {:induction false} QueueIsBounded(calls: seq<Call>, limit: int, window: real)
    requires limit > 0
    ensures |QueueAfter(calls, limit, window)| <= limit
  {
    if calls != [] { QueueIsBounded(calls[..|calls| - 1], limit, window); }
  }

  /** What a call is answered after a run. */
  function AnswerAfter(calls: seq<Call>, limit: int, window: real, call: Call): Decision {
    Answer(Prune(QueueAfter(calls, limit, window), call.now - window), call.now, limit, window, call.id)
  }

  lemma PruneIsSuffix(queue: seq<Event>, cutoff: real)
    ensures |Prune(queue, cutoff)| <= |queue| && FrontIsLive(Prune(queue, cutoff), cutoff)
  {
  }

  lemma PruneFull(live: seq<Event>, cutoff: real)
    requires live != []
    ensures live[0].time > cutoff ==> Prune(live, cutoff) == live
    ensures live[0].time <= cutoff ==> |Prune(live, cutoff)| < |live|
  {
  }

  lemma PruneKeepsFresh(live: seq<Event>, cutoff: real, id: Option<string>)
    requires !HasId(live, id)
    ensures !HasId(Prune(live, cutoff), id)
  {
    var e := Expired(live, cutoff);
    assert forall i | 0 <= i < |live| - e :: live[e..][i] == live[e + i];
  }

  /** A full deque whose oldest event is still live neither changes nor lets anything be recorded. */
  lemma FullStaysFull(live: seq<Event>, call: Call, limit: int, window: real)
    requires 0 < limit <= |live| && live[0].time > call.now - window
    ensures Prune(live, call.now - window) == live
    ensures Kept(live, call.now, limit, window, call.id) == live
    ensures !Records(live, limit, call.id)
  {
    hide Prune, HasId;
    PruneFull(live, call.now - window);
    var pruned := Prune(live, call.now - window);
    assert Kept(live, call.now, limit, window, call.id)
        == Append(pruned, Records(pruned, limit, call.id), call.now, call.id);
  }

  lemma RunGrows(calls: seq<Call>, call: Call, limit: int, window: real)
    ensures var queue := QueueAfter(calls, limit, window);
      && QueueAfter(calls + [call], limit, window) == Kept(queue, call.now, limit, window, call.id)
      && Recorded(calls + [call], limit, window)
         == Append(Recorded(calls, limit, window), Records(Prune(queue, call.now - window), limit, call.id),
                   call.now, call.id)
  {
    TakeAppend(calls, [call]);
  }

  lemma {:induction false} StaysFull(calls: seq<Call>, denied: Call, more: seq<Call>, limit: int, window: real)
    requires limit > 0 && !AnswerAfter(calls, limit, window, denied).allowed
    requires forall c | c in more ::
      denied.now <= c.now < denied.now + AnswerAfter(calls, limit, window, denied).retryAfter
    ensures QueueAfter(calls + [denied] + more, limit, window)
         == Prune(QueueAfter(calls, limit, window), denied.now - window)
    ensures Recorded(calls + [denied] + more, limit, window) == Recorded(calls, limit, window)
  {
    var live := Prune(QueueAfter(calls, limit, window), denied.now - window);
    if more == [] {
      assert calls + [denied] + more == calls + [denied];
      RunGrows(calls, denied, limit, window);
    } else {
      var n := |more| - 1;
      var front, last := more[..n], more[n];
      StaysFull(calls, denied, front, limit, window);
      SplitLast(more);
      AppendAssociates(calls + [denied], front, [last]);
      RunGrows(calls + [denied] + front, last, limit, window);
      assert last in more;
      FullStaysFull(live, last, limit, window);
    }
  }

  /**
   The wait reported with a denial is exact. Whatever calls come in meanwhile, none of them records anything, and
   a later call with an id that is not in the window is allowed exactly from `denied.now + retryAfter` on.
   */
  lemma RetryAfterIsExact(calls: seq<Call>, denied: Call, more: seq<Call>, next: Call, limit: int, window: real)
    requires limit > 0 && !AnswerAfter(calls, limit, window, denied).allowed
    requires forall c | c in more ::
      denied.now <= c.now < denied.now + AnswerAfter(calls, limit, window, denied).retryAfter
    requires denied.now <= next.now
    requires !HasId(Prune(QueueAfter(calls, limit, window), denied.now - window), next.id)
    ensures var wait := AnswerAfter(calls, limit, window, denied).retryAfter;
      && wait > 0.0
      && Recorded(calls + [denied] + more, limit, window) == Recorded(calls, limit, window)
      && (AnswerAfter(calls + [denied] + more, limit, window, next).allowed <==> next.now >= denied.now + wait)
  {
    hide QueueAfter, Recorded, Prune, HasId;
    QueueIsBounded(calls, limit, window);
    StaysFull(calls, denied, more, limit, window);
    var live := Prune(QueueAfter(calls, limit, window), denied.now - window);
    PruneIsSuffix(QueueAfter(calls, limit, window), denied.now - window);
    PruneFull(live, next.now - window);
    PruneKeepsFresh(live, next.now - window, next.id);
  }

  function Ceil(r: real): int { -((-r).Floor) }

  /** The whole number of seconds the router reports. */
  function RouterWait(retryAfter: real): int {
    if Ceil(retryAfter) < 1 then 1 else Ceil(retryAfter)
  }

  /** Waiting as long as the router says is enough, and no smaller positive whole number of seconds always is. */
  lemma RouterWaitIsEnough(calls: seq<Call>, denied: Call, more: seq<Call>, next: Call, limit: int, window: real)
    requires limit > 0 && !AnswerAfter(calls, limit, window, denied).allowed
    requires forall c | c in more ::
      denied.now <= c.now < denied.now + AnswerAfter(calls, limit, window, denied).retryAfter
    requires !HasId(Prune(QueueAfter(calls, limit, window), denied.now - window), next.id)
    ensures var wait := RouterWait(AnswerAfter(calls, limit, window, denied).retryAfter);
      && (next.now >= denied.now + wait as real ==> AnswerAfter(calls + [denied] + more, limit, window, next).allowed)
      && (next.now == denied.now + (wait - 1) as real ==> wait > 1 ==>
            !AnswerAfter(calls + [denied] + more, limit, window, next).allowed)
  {
    var wait := AnswerAfter(calls, limit, window, denied).retryAfter;
    assert Ceil(wait) as real - 1.0 < wait <= Ceil(wait) as real;
    if next.now >= denied.now {
      RetryAfterIsExact(calls, denied, more, next, limit, window);
    } else {
      RetryAfterIsExact(calls, denied, more, Call(denied.now, None), limit, window);
    }
  }

  // ---------------------------------------------------------------- what an answer means

  lemma {:induction false} LiveIsCounted(history: seq<Event>, now: real, window: real)
    requires SortedUpTo(history, now)
    ensures |Live(history, now, window)| == Count(history, Within(now - window, now))
  {
    if history != [] {
      var n := |history| - 1;
      LiveIsCounted(history[..n], now, window);
    }
  }

  lemma {:induction false} LiveHolds(history: seq<Event>, now: real, window: real, e: Event)
    ensures e in Live(history, now, window) <==> e in history && e.time > now - window
  {
    if history != [] {
      SplitLast(history);
      LiveHolds(history[..|history| - 1], now, window, e);
    }
  }

  /** The id of the call is that of an event recorded less than a window ago. */
  ghost predicate Repeats(history: seq<Event>, call: Call, window: real) {
    call.id.Some? && exists i :: 0 <= i < |history| && history[i].id == call.id && history[i].time > call.now - window
  }

  lemma RepeatsMeansHasId(history: seq<Event>, call: Call, window: real)
    ensures HasId(Live(history, call.now, window), call.id) <==> Repeats(history, call, window)
  {
    var live := Live(history, call.now, window);
    if i :| 0 <= i < |live| && call.id.Some? && live[i].id == call.id {
      LiveHolds(history, call.now, window, live[i]);
      var j :| 0 <= j < |history| && history[j] == live[i];
      assert history[j].id == call.id;
    }
    if i :| 0 <= i < |history| && call.id.Some? && history[i].id == call.id && history[i].time > call.now - window {
      LiveHolds(history, call.now, window, history[i]);
      var j :| 0 <= j < |live| && live[j] == history[i];
      assert live[j].id == call.id;
    }
  }

  /** The answer in terms of the events `live` that the call finds, and what is recorded in consequence. */
  lemma AnswerInDeque(calls: seq<Call>, call: Call, limit: nat, window: real)
    requires limit > 0
    ensures var answer := AnswerAfter(calls, limit, window, call);
      var live := Prune(QueueAfter(calls, limit, window), call.now - window);
      && |live| <= limit
      && (answer.allowed <==> HasId(live, call.id) || |live| < limit)
      && (!answer.allowed ==> answer.remaining == 0)
      && (answer.allowed ==> |live| + (if HasId(live, call.id) then 0 else 1) + answer.remaining == limit)
      && (Records(live, limit, call.id) <==> answer.allowed && !HasId(live, call.id))
  {
    hide HasId, QueueAfter;
    QueueIsBounded(calls, limit, window);
  }

  /**
   A call is allowed exactly when it repeats the id of an event of the window or fewer than `limit` events lie in the
   window. If it is allowed, the events of the window, its own included, and what the answer calls remaining add up to
   the limit; if not, the window is full.
   */
  ghost predicate Fits(answer: Decision, calls: seq<Call>, call: Call, limit: nat, window: real) {
    var before, after := Recorded(calls, limit, window), Recorded(calls + [call], limit, window);
    var used := Within(call.now - window, call.now);
    && (answer.allowed <==> Repeats(before, call, window) || Count(before, used) < limit)
    && (answer.allowed ==> Count(after, used) + answer.remaining == limit)
    && (!answer.allowed ==> Count(before, used) == limit && answer.remaining == 0)
  }

  /** With a clock that does not go back, the answer to a call fits the events recorded within the window. */
  lemma AnswerIsExact(calls: seq<Call>, call: Call, limit: nat, window: real)
    requires limit > 0 && window > 0.0 && Ordered(calls) && Follows(calls, call.now)
    ensures Fits(AnswerAfter(calls, limit, window, call), calls, call, limit, window)
    ensures var before := Recorded(calls, limit, window);
      Recorded(calls + [call], limit, window)
      == (if AnswerAfter(calls, limit, window, call).allowed && !Repeats(before, call, window)
          then before + [Event(call.now, call.id)] else before)
  {
    hide Recorded, AnswerAfter, Repeats, Count, Within, Live, HasId, SortedUpTo, Ordered, Follows;
    var used, event := Within(call.now - window, call.now), Event(call.now, call.id);
    var before := Recorded(calls, limit, window);
    RecordedIsHistory(calls, limit, window);
    HistoryIsSorted(calls, limit, window, call.now);
    LiveIsCounted(before, call.now, window);
    RepeatsMeansHasId(before, call, window);
    AnswerInHistory(calls, call, limit, window);
    CountSnoc(before, used, event);
    OwnEventIsWithin(call, window);
  }

  lemma OwnEventIsWithin(call: Call, window: real)
    requires window > 0.0
    ensures Within(call.now - window, call.now)(Event(call.now, call.id))
  {
  }

  lemma AnswerInHistory(calls: seq<Call>, call: Call, limit: nat, window: real)
    requires limit > 0 && Ordered(calls) && Follows(calls, call.now)
    ensures var answer, before := AnswerAfter(calls, limit, window, call), Recorded(calls, limit, window);
      var live := Live(before, call.now, window);
      && |live| <= limit
      && (answer.allowed <==> HasId(live, call.id) || |live| < limit)
      && (!answer.allowed ==> answer.remaining == 0)
      && (answer.allowed ==> |live| + (if HasId(live, call.id) then 0 else 1) + answer.remaining == limit)
      && Recorded(calls + [call], limit, window)
         == (if answer.allowed && !HasId(live, call.id) then before + [Event(call.now, call.id)] else before)
  {
    hide Recorded, HistoryAfter, QueueAfter, Live, Prune, Records, HasId, AnswerAfter;
    RecordedIsHistory(calls, limit, window);
    DequeRefinesHistory(calls, limit, window, call);
    AnswerInDeque(calls, call, limit, window);
    RunGrows(calls, call, limit, window);
  }

  /** Nothing at the front of a deque has expired. */
  predicate FrontIsLive(queue: seq<Event>, cutoff: real) { queue != [] ==> queue[0].time > cutoff }

  lemma CallLeavesLiveFront(calls: seq<Call>, call: Call, limit: int, window: real)
    requires limit > 0 && window > 0.0
    ensures FrontIsLive(QueueAfter(calls + [call], limit, window), call.now - window)
  {
    RunGrows(calls, call, limit, window);
  }

  function Least(a: nat, b: nat): nat { if a < b then a else b }

  /** Of a burst on a deque that is live at its time, as many calls are recorded as there is room for. */
  lemma {:induction false} BurstFills(calls: seq<Call>, now: real, n: nat, limit: nat, window: real)
    requires limit > 0 && window > 0.0 && FrontIsLive(QueueAfter(calls, limit, window), now - window)
    requires |QueueAfter(calls, limit, window)| <= limit
    ensures var queue, run := QueueAfter(calls, limit, window), calls + Burst(now, n);
      var added := Copies(now, Least(n, limit - |queue|));
      && QueueAfter(run, limit, window) == queue + added
      && Recorded(run, limit, window) == Recorded(calls, limit, window) + added
  {
    hide QueueAfter, Recorded, Copies;
    if n == 0 {
      CopiesGrow(now, 0);
      assert calls + Burst(now, 0) == calls;
    } else {
      BurstFills(calls, now, n - 1, limit, window);
      AppendAssociates(calls, Burst(now, n - 1), [Call(now, None)]);
      BurstGoesOn(calls, now, n - 1, limit, window);
    }
  }

  /** One more call of the burst, recorded if there is room. */
  lemma BurstGoesOn(calls: seq<Call>, now: real, n: nat, limit: nat, window: real)
    requires limit > 0 && window > 0.0 && FrontIsLive(QueueAfter(calls, limit, window), now - window)
    requires var queue, run := QueueAfter(calls, limit, window), calls + Burst(now, n);
      && |queue| <= limit
      && QueueAfter(run, limit, window) == queue + Copies(now, Least(n, limit - |queue|))
      && Recorded(run, limit, window) == Recorded(calls, limit, window) + Copies(now, Least(n, limit - |queue|))
    ensures var queue, run := QueueAfter(calls, limit, window), calls + Burst(now, n) + [Call(now, None)];
      && QueueAfter(run, limit, window) == queue + Copies(now, Least(n + 1, limit - |queue|))
      && Recorded(run, limit, window) == Recorded(calls, limit, window) + Copies(now, Least(n + 1, limit - |queue|))
  {
    hide *;
    var queue, run := QueueAfter(calls, limit, window), calls + Burst(now, n);
    var room: nat := limit - |queue|;
    MoreCopies(now, n, room);
    var added, event := Copies(now, Least(n, room)), [Event(now, None)];
    if n < room {
      FrontStaysLive(queue, added, now, window);
      KeepingCall(run, Call(now, None), limit, window);
      AppendAssociates(queue, added, event);
      AppendAssociates(Recorded(calls, limit, window), added, event);
    } else {
      FrontStaysLive(queue, added, now, window);
      FullCall(run, Call(now, None), limit, window);
    }
  }

  lemma MoreCopies(now: real, n: nat, room: nat)
    ensures |Copies(now, Least(n, room))| == if n < room then n else room
    ensures Copies(now, Least(n + 1, room))
         == if n < room then Copies(now, Least(n, room)) + [Event(now, None)] else Copies(now, Least(n, room))
  {
    CopiesGrow(now, n);
  }

  lemma FrontStaysLive(queue: seq<Event>, added: seq<Event>, now: real, window: real)
    requires window > 0.0 && FrontIsLive(queue, now - window)
    requires exists n: nat :: added == Copies(now, n)
    ensures queue + added != [] ==> (queue + added)[0].time > now - window
  {
    var n: nat :| added == Copies(now, n);
    CopiesGrow(now, n);
  }

  /** A call without id on a full deque that is live at its time leaves everything as it is. */
  lemma FullCall(calls: seq<Call>, call: Call, limit: nat, window: real)
    requires var queue := QueueAfter(calls, limit, window); 0 < limit <= |queue| && queue[0].time > call.now - window
    ensures QueueAfter(calls + [call], limit, window) == QueueAfter(calls, limit, window)
    ensures Recorded(calls + [call], limit, window) == Recorded(calls, limit, window)
  {
    hide QueueAfter, Recorded, Prune, Records, Kept;
    RunGrows(calls, call, limit, window);
    FullStaysFull(QueueAfter(calls, limit, window), call, limit, window);
  }

  /**
   What `remaining` promises, whatever the clock did before: after an allowed call, a repeated id included, exactly so
   many further calls at the same moment are recorded, and of any burst of them the first so many are allowed.
   */
  lemma RemainingIsExact(calls: seq<Call>, call: Call, n: nat, limit: nat, window: real)
    requires limit > 0 && window > 0.0 && AnswerAfter(calls, limit, window, call).allowed
    ensures var remaining, run := AnswerAfter(calls, limit, window, call).remaining, calls + [call];
      && Recorded(run + Burst(call.now, n), limit, window)
         == Recorded(run, limit, window) + Copies(call.now, if n < remaining then n else remaining)
      && (AnswerAfter(run + Burst(call.now, n), limit, window, Call(call.now, None)).allowed <==> n < remaining)
  {
    hide *;
    var run := calls + [call];
    QueueIsBounded(run, limit, window);
    CallLeavesLiveFront(calls, call, limit, window);
    BurstFills(run, call.now, n, limit, window);
    RoomAfter(calls, call, limit, window);
    LeastIs(n, AnswerAfter(calls, limit, window, call).remaining);
    RoomAllows(run, call.now, n, limit, window);
  }

  lemma LeastIs(a: nat, b: nat)
    ensures Least(a, b) == if a < b then a else b
  {
  }

  lemma RoomAllows(calls: seq<Call>, now: real, n: nat, limit: nat, window: real)
    requires limit > 0 && window > 0.0 && FrontIsLive(QueueAfter(calls, limit, window), now - window)
    requires var queue := QueueAfter(calls, limit, window);
      && |queue| <= limit
      && QueueAfter(calls + Burst(now, n), limit, window) == queue + Copies(now, Least(n, limit - |queue|))
    ensures AnswerAfter(calls + Burst(now, n), limit, window, Call(now, None)).allowed
       <==> n < limit - |QueueAfter(calls, limit, window)|
  {
    hide QueueAfter, Recorded, Copies, Burst, AnswerAfter;
    var queue := QueueAfter(calls, limit, window);
    var added := Least(n, limit - |queue|);
    CopiesGrow(now, added);
    ExpiredIs(queue + Copies(now, added), now - window, 0);
    AnswerInDeque(calls + Burst(now, n), Call(now, None), limit, window);
  }

  lemma RoomAfter(calls: seq<Call>, call: Call, limit: nat, window: real)
    requires limit > 0 && AnswerAfter(calls, limit, window, call).allowed
    ensures |QueueAfter(calls + [call], limit, window)| + AnswerAfter(calls, limit, window, call).remaining == limit
  {
    hide QueueAfter, Recorded, Prune, HasId, AnswerAfter;
    AnswerInDeque(calls, call, limit, window);
    RunGrows(calls, call, limit, window);
  }

  /** Without a positive limit every call is allowed, none is recorded and nothing is reported as remaining. */
  lemma {:induction false} NoLimitRecordsNothing(calls: seq<Call>, call: Call, limit: int, window: real)
    requires limit <= 0
    ensures Recorded(calls, limit, window) == QueueAfter(calls, limit, window) == []
    ensures AnswerAfter(calls, limit, window, call) == Decision(true, 0.0, 0)
  {
    if calls != [] { NoLimitRecordsNothing(calls[..|calls| - 1], call, limit, window); }
  }

  // ---------------------------------------------------------------- one limiter serving many keys

  datatype Request = Request(key: string, call: Call)

  /** The calls of one key, in order. */
  function CallsOf(requests: seq<Request>, key: string): seq<Call> {
    if requests == [] then []
    else
      var last := requests[|requests| - 1];
      CallsOf(requests[..|requests| - 1], key) + (if last.key == key then [last.call] else [])
  }

  ghost predicate Arrivals(requests: seq<Request>) {
    forall i, j | 0 <= i < j < |requests| :: requests[i].call.now <= requests[j].call.now
  }

  lemma {:induction false} CallsOfOrdered(requests: seq<Request>, key: string, now: real)
    requires Arrivals(requests) && forall i | 0 <= i < |requests| :: requests[i].call.now <= now
    ensures Ordered(CallsOf(requests, key)) && Follows(CallsOf(requests, key), now)
  {
    if requests != [] {
      var n := |requests| - 1;
      CallsOfOrdered(requests[..n], key, requests[n].call.now);
    }
  }

  ghost function ReferenceAnswer(before: seq<Request>, request: Request, limit: int, window: real): Decision {
    var history := HistoryAfter(CallsOf(before, request.key), limit, window);
    Answer(Live(history, request.call.now, window), request.call.now, limit, window, request.call.id)
  }

  /** The limiter holds, for every key, what the calls of that key alone leave behind. */
  ghost predicate Tracks(limiter: SlidingWindowRateLimiter, seen: seq<Request>, limit: int, window: real)
    reads limiter
  {
    forall key :: limiter.Queue(key) == QueueAfter(CallsOf(seen, key), limit, window)
  }

  lemma NewLimiterTracks(limiter: SlidingWindowRateLimiter, limit: int, window: real)
    requires forall key :: limiter.Queue(key) == []
    ensures Tracks(limiter, [], limit, window)
  {
  }

  method ServeOne(limiter: SlidingWindowRateLimiter, ghost seen: seq<Request>, request: Request,
                  limit: int, window: real)
    returns (answer: Decision)
    requires Tracks(limiter, seen, limit, window) && Arrivals(seen + [request])
    modifies limiter
    ensures Tracks(limiter, seen + [request], limit, window)
    ensures answer == ReferenceAnswer(seen, request, limit, window)
  {
    hide QueueAfter, CallsOf, ReferenceAnswer, Arrivals;
    var Request(key, call) := request;
    AnswerRefines(seen, request, limit, window);
    answer := limiter.Allow(key, call.now, limit, window, call.id);
    forall k
      ensures limiter.Queue(k) == QueueAfter(CallsOf(seen + [request], k), limit, window)
    {
      KeyAfter(seen, request, limit, window, k);
    }
  }

  lemma KeyAfter(seen: seq<Request>, request: Request, limit: int, window: real, key: string)
    ensures QueueAfter(CallsOf(seen + [request], key), limit, window)
      == (var queue, call := QueueAfter(CallsOf(seen, key), limit, window), request.call;
          if request.key == key then Kept(queue, call.now, limit, window, call.id) else queue)
  {
    TakeAppend(seen, [request]);
    if request.key == key {
      RunGrows(CallsOf(seen, key), request.call, limit, window);
    } else {
      assert CallsOf(seen, key) + [] == CallsOf(seen, key);
    }
  }

  /** What the reference limiters, one per key, answer to a stream of requests. */
  ghost function ReferenceAnswers(requests: seq<Request>, limit: int, window: real): seq<Decision> {
    if requests == [] then []
    else
      var n := |requests| - 1;
      ReferenceAnswers(requests[..n], limit, window) + [ReferenceAnswer(requests[..n], requests[n], limit, window)]
  }

  lemma ServedAnswerFits(seen: seq<Request>, request: Request, limit: nat, window: real)
    requires limit > 0 && window > 0.0 && Arrivals(seen + [request])
    ensures Fits(ReferenceAnswer(seen, request, limit, window), CallsOf(seen, request.key), request.call, limit, window)
  {
    assert forall i | 0 <= i < |seen| :: seen[i] == (seen + [request])[i];
    assert (seen + [request])[|seen|] == request;
    CallsOfOrdered(seen, request.key, request.call.now);
    AnswerRefines(seen, request, limit, window);
    hide *;
    AnswerIsExact(CallsOf(seen, request.key), request.call, limit, window);
  }

  /**
   Serving any mix of keys, the answers are the ones the reference limiter of each key alone would give, and each of
   them fits the events recorded for its key within the window.
   */
  method Serve(requests: seq<Request>, limit: int, window: real) returns (answers: seq<Decision>)
    requires Arrivals(requests)
    ensures answers == ReferenceAnswers(requests, limit, window) && |answers| == |requests|
    ensures limit > 0 && window > 0.0 ==> forall k | 0 <= k < |requests| ::
      Fits(answers[k], CallsOf(requests[..k], requests[k].key), requests[k].call, limit, window)
  {
    hide Fits, QueueAfter, CallsOf, ReferenceAnswer, Tracks;
    var limiter := new SlidingWindowRateLimiter();
    NewLimiterTracks(limiter, limit, window);
    answers := [];
    ghost var seen := [];
    for i := 0 to |requests|
      invariant fresh(limiter) && seen == requests[..i]
      invariant Tracks(limiter, seen, limit, window)
      invariant answers == ReferenceAnswers(seen, limit, window) && |answers| == i
      invariant limit > 0 && window > 0.0 ==> forall k | 0 <= k < i ::
        Fits(answers[k], CallsOf(requests[..k], requests[k].key), requests[k].call, limit, window)
    {
      ghost var before := seen;
      seen := seen + [requests[i]];
      assert seen == requests[..i + 1];
      var answer := ServeOne(limiter, before, requests[i], limit, window);
      answers := answers + [answer];
      if limit > 0 && window > 0.0 { ServedAnswerFits(before, requests[i], limit, window); }
      TakeAppend(before, [requests[i]]);
    }
    assert requests[..|requests|] == requests;
  }

  lemma AnswerRefines(seen: seq<Request>, request: Request, limit: int, window: real)
    requires Arrivals(seen + [request])
    ensures AnswerAfter(CallsOf(seen, request.key), limit, window, request.call)
         == ReferenceAnswer(seen, request, limit, window)
  {
    assert forall i | 0 <= i < |seen| :: seen[i] == (seen + [request])[i];
    assert (seen + [request])[|seen|] == request;
    CallsOfOrdered(seen, request.key, request.call.now);
    DequeRefinesHistory(CallsOf(seen, request.key), limit, window, request.call);
  }
}
