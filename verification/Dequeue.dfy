/** The dequeue loop, which splits a long wait into retries of at most one second, and the fetch of
    several outputs, which carries the remaining timeout from one output to the next. What the
    queue answers to each attempt is a parameter. */
module Dequeue {
  /** The answer to one attempt: data, an empty queue after the wait, or another error. */
  datatype Answer = Received | QueueEmpty | Error(code: int)

  /** How a dequeue ended; `Waiting` is a loop whose answers have not all come yet. */
  datatype Outcome = Ended(answer: Answer) | Waiting

  /** The outcome, the wait of every attempt and the timeout left in the control block. */
  datatype Trace = Trace(outcome: Outcome, waits: seq<int>, carried: int)

  const RETRY_INTERVAL: int := 1000
  const NEVER_TIMEOUT: int := -1

  function WaitTime(total: int, left: int): int {
    if total == NEVER_TIMEOUT || left >= RETRY_INTERVAL then RETRY_INTERVAL else left
  }

  function LeftAfter(left: int, wait: int): int {
    if left >= wait then left - wait else left
  }

  /** The loop from the point where `left` milliseconds remain. The guard puts the total timeout
      back on every exit except a timeout, which leaves the last wait behind. */
  function Attempts(total: int, left: int, answers: seq<Answer>): (t: Trace)
  {
    if answers == [] then Trace(Waiting, [], total) else
    var wait := WaitTime(total, left);
    if answers[0] != QueueEmpty then Trace(Ended(answers[0]), [wait], total) else
    var left' := LeftAfter(left, wait);
    if total == NEVER_TIMEOUT || left' > 0
    then var rest := Attempts(total, left', answers[1..]); rest.(waits := [wait] + rest.waits)
    else Trace(Ended(QueueEmpty), [wait], wait)
  }

  method DoDequeue(total: int, answers: seq<Answer>) returns (t: Trace)
    ensures t == Attempts(total, total, answers)
  {
    var left, waits, next := total, [], 0;
    assert answers[0..] == answers;
    while next < |answers|
      invariant 0 <= next <= |answers|
      invariant Attempts(total, total, answers) ==
                var rest := Attempts(total, left, answers[next..]); rest.(waits := waits + rest.waits)
    {
      ghost var ahead := answers[next..];
      assert ahead[1..] == answers[next + 1..];
      var wait := if total == NEVER_TIMEOUT || left >= RETRY_INTERVAL then RETRY_INTERVAL else left;
      var answer := answers[next];
      next := next + 1;
      if answer != QueueEmpty {
        return Trace(Ended(answer), waits + [wait], total);
      }
      if left >= wait {
        left := left - wait;
      }
      if !(total == NEVER_TIMEOUT || left > 0) {
        return Trace(Ended(QueueEmpty), waits + [wait], wait);
      }
      ghost var rest := Attempts(total, left, answers[next..]);
      assert waits + ([wait] + rest.waits) == waits + [wait] + rest.waits;
      waits := waits + [wait];
    }
    return Trace(Waiting, waits, total);
  }

  // ----- One output -----

  function Sum(s: seq<int>): int {
    if s == [] then 0 else s[0] + Sum(s[1..])
  }

  /** The number of attempts a timeout allows: one even for no time at all. */
  function AttemptLimit(left: nat): (n: nat) {
    if left <= RETRY_INTERVAL then 1 else 1 + AttemptLimit(left - RETRY_INTERVAL)
  }

  /** The wait of the last attempt a timeout allows. */
  function LastWait(left: nat): (w: int) {
    if left == 0 then 0 else (left - 1) % RETRY_INTERVAL + 1
  }

  lemma {:induction false} AttemptLimitIsCeiling(left: nat)
    ensures AttemptLimit(left) == if left == 0 then 1 else (left + 999) / 1000
  {
    if left > RETRY_INTERVAL {
      AttemptLimitIsCeiling(left - RETRY_INTERVAL);
    }
  }

  ghost predicate AlwaysEmpty(answers: seq<Answer>, n: nat) {
    n <= |answers| && forall i :: 0 <= i < n ==> answers[i] == QueueEmpty
  }

  /** A queue that stays empty is tried the full number of times, and the waits add up to the
      timeout exactly; the last of them is what stays in the control block. */
  lemma {:induction false} EmptyQueueTiming(total: int, left: nat, answers: seq<Answer>)
    requires total != NEVER_TIMEOUT && AlwaysEmpty(answers, AttemptLimit(left))
    ensures var t := Attempts(total, left, answers);
            && t.outcome == Ended(QueueEmpty) && |t.waits| == AttemptLimit(left)
            && Sum(t.waits) == left && t.carried == LastWait(left)
  {
    if left > RETRY_INTERVAL {
      var rest := answers[1..];
      assert forall i :: 0 <= i < |rest| ==> rest[i] == answers[i + 1];
      EmptyQueueTiming(total, left - RETRY_INTERVAL, rest);
      var t := Attempts(total, left - RETRY_INTERVAL, rest);
      assert ([RETRY_INTERVAL] + t.waits)[1..] == t.waits;
    } else {
      assert Attempts(total, left, answers) == Trace(Ended(QueueEmpty), [left], left);
      assert Sum([left]) == left;
    }
  }

  /** The waits do not exceed what is left, the attempts do not exceed their limit, and the carried
      timeout has shrunk only by timing out. */
  ghost predicate Timed(total: int, left: nat, t: Trace) {
    && Sum(t.waits) <= left && |t.waits| <= AttemptLimit(left)
    && (forall i :: 0 <= i < |t.waits| ==> 0 <= t.waits[i] <= RETRY_INTERVAL)
    && (t.outcome == Ended(QueueEmpty) ==>
          && 0 <= t.carried <= RETRY_INTERVAL && t.carried <= total
          && t.carried == LastWait(left) && Sum(t.waits) == left)
    && (t.outcome != Ended(QueueEmpty) ==> t.carried == total)
  }

  lemma TimedCons(total: int, left: nat, t: Trace)
    requires left > RETRY_INTERVAL && Timed(total, left - RETRY_INTERVAL, t)
    ensures Timed(total, left, t.(waits := [RETRY_INTERVAL] + t.waits))
  {
    assert ([RETRY_INTERVAL] + t.waits)[1..] == t.waits;
    assert LastWait(left) == LastWait(left - RETRY_INTERVAL);
  }

  lemma TimedOnce(total: int, left: nat, answer: Answer)
    requires total != NEVER_TIMEOUT && left <= total && (answer == QueueEmpty ==> left <= RETRY_INTERVAL)
    ensures var wait := WaitTime(total, left);
            Timed(total, left, Trace(Ended(answer), [wait], if answer == QueueEmpty then wait else total))
  {
    var wait := WaitTime(total, left);
    assert Sum([wait]) == wait;
  }

  /** Whatever the queue answers: the waits never exceed the timeout, the attempts never exceed
      their limit, and the carried timeout shrinks only by timing out. */
  lemma {:induction false} AnyQueueTiming(total: int, left: nat, answers: seq<Answer>)
    requires total != NEVER_TIMEOUT && left <= total
    ensures Timed(total, left, Attempts(total, left, answers))
  {
    if answers != [] {
      hide Timed;
      if answers[0] == QueueEmpty && left > RETRY_INTERVAL {
        AnyQueueTiming(total, left - RETRY_INTERVAL, answers[1..]);
        TimedCons(total, left, Attempts(total, left - RETRY_INTERVAL, answers[1..]));
      } else {
        TimedOnce(total, left, answers[0]);
      }
    }
  }

  /** The loop ends with the first answer that is not an empty queue, provided that its attempt is within
      the limit or there is no timeout; each attempt before it has waited. */
  lemma {:induction false} EndsWithAnswer(total: int, left: int, answers: seq<Answer>, i: nat)
    requires i < |answers| && answers[i] != QueueEmpty && AlwaysEmpty(answers, i)
    requires total == -1 || (0 <= left <= total && i < AttemptLimit(left))
    ensures var t := Attempts(total, left, answers); t.outcome == Ended(answers[i]) && |t.waits| == i + 1 && t.carried == total
  {
    if i > 0 {
      var rest := answers[1..];
      assert forall j :: 0 <= j < |rest| ==> rest[j] == answers[j + 1];
      EndsWithAnswer(total, LeftAfter(left, WaitTime(total, left)), rest, i - 1);
    }
  }

  /** As long as all answers are empty queues and the limit is not reached, the loop goes on. */
  lemma {:induction false} KeepsWaiting(total: int, left: int, answers: seq<Answer>)
    requires AlwaysEmpty(answers, |answers|) && (total == -1 || (0 <= left <= total && |answers| < AttemptLimit(left)))
    ensures Attempts(total, left, answers).outcome == Waiting && |Attempts(total, left, answers).waits| == |answers|
  {
    if answers != [] {
      var rest := answers[1..];
      assert forall j :: 0 <= j < |rest| ==> rest[j] == answers[j + 1];
      KeepsWaiting(total, LeftAfter(left, WaitTime(total, left)), rest);
    }
  }

  /** Without a timeout the loop never gives up on an empty queue: it ends exactly at the first
      other answer, having waited one interval per attempt. */
  lemma {:induction false} NeverTimesOut(left: int, answers: seq<Answer>)
    ensures var t := Attempts(NEVER_TIMEOUT, left, answers);
            && t.carried == NEVER_TIMEOUT && t.outcome != Ended(QueueEmpty)
            && (forall i :: 0 <= i < |t.waits| ==> t.waits[i] == RETRY_INTERVAL)
            && (t.outcome == Waiting <==> AlwaysEmpty(answers, |answers|))
  {
    if answers != [] && answers[0] == QueueEmpty {
      var rest := answers[1..];
      NeverTimesOut(LeftAfter(left, RETRY_INTERVAL), rest);
      assert forall i :: 0 <= i < |rest| ==> rest[i] == answers[i + 1];
      assert forall i :: 1 <= i < |answers| ==> answers[i] == rest[i - 1];
    }
  }

  // ----- Several outputs -----

  /** The traces of the outputs in turn, each starting from the timeout the one before left. */
  function Fetch(timeout: int, outputs: seq<seq<Answer>>): (ts: seq<Trace>)
    ensures |ts| == |outputs|
    decreases |outputs|
  {
    if outputs == [] then []
    else var t := Attempts(timeout, timeout, outputs[0]); [t] + Fetch(t.carried, outputs[1..])
  }

  /** The fetch loop over the outputs; a timeout below -1 is refused. */
  method FetchData(timeout: int, outputs: seq<seq<Answer>>) returns (accepted: bool, ts: seq<Trace>)
    ensures accepted <==> timeout >= NEVER_TIMEOUT
    ensures accepted ==> ts == Fetch(timeout, outputs)
    ensures !accepted ==> ts == []
  {
    ts := [];
    if timeout < NEVER_TIMEOUT {
      return false, ts;
    }
    var control := timeout;
    assert outputs[0..] == outputs;
    for i := 0 to |outputs|
      invariant Fetch(timeout, outputs) == ts + Fetch(control, outputs[i..])
    {
      var t := DoDequeue(control, outputs[i]);
      assert outputs[i..][1..] == outputs[i + 1..];
      ts := ts + [t];
      control := t.carried;
    }
    accepted := true;
  }

  ghost predicate Shrinking(timeout: int, ts: seq<Trace>) {
    && (forall i :: 0 <= i < |ts| ==> 0 <= ts[i].carried <= timeout)
    && (forall i, j :: 0 <= i < j < |ts| ==> ts[j].carried <= ts[i].carried)
    && (forall i, j :: 0 <= i <= j < |ts| && ts[i].outcome == Ended(QueueEmpty) ==> ts[j].carried <= RETRY_INTERVAL)
  }

  lemma ShrinkingCons(timeout: int, t: Trace, rest: seq<Trace>)
    requires Shrinking(t.carried, rest) && 0 <= t.carried <= timeout
    requires t.outcome == Ended(QueueEmpty) ==> t.carried <= RETRY_INTERVAL
    ensures Shrinking(timeout, [t] + rest)
  {
    var ts := [t] + rest;
    assert forall i :: 1 <= i < |ts| ==> ts[i] == rest[i - 1];
  }

  /** Along the outputs the carried timeout never grows, and from the first timeout on it is at most
      one retry interval. */
  lemma {:induction false} CarriedTimeoutShrinks(timeout: nat, outputs: seq<seq<Answer>>)
    ensures Shrinking(timeout, Fetch(timeout, outputs))
    decreases |outputs|
  {
    hide Attempts, Sum, LastWait, AttemptLimit;
    if outputs == [] {
      assert Shrinking(timeout, []);
    } else {
      hide Shrinking;
      var t := Attempts(timeout, timeout, outputs[0]);
      AnyQueueTiming(timeout, timeout, outputs[0]);
      CarriedTimeoutShrinks(t.carried, outputs[1..]);
      ShrinkingCons(timeout, t, Fetch(t.carried, outputs[1..]));
    }
  }

  function TotalWait(ts: seq<Trace>): int {
    if ts == [] then 0 else Sum(ts[0].waits) + TotalWait(ts[1..])
  }

  /** When every output stays empty, the first one takes the whole timeout and each later one only
      the last wait of the first. */
  lemma {:induction false} AllEmptyTotalWait(timeout: nat, outputs: seq<seq<Answer>>)
    requires outputs != []
    requires forall i :: 0 <= i < |outputs| ==> AlwaysEmpty(outputs[i], AttemptLimit(timeout))
    ensures TotalWait(Fetch(timeout, outputs)) == timeout + (|outputs| - 1) * LastWait(timeout)
    decreases |outputs|
  {
    hide Attempts;
    var t, rest := Attempts(timeout, timeout, outputs[0]), outputs[1..];
    EmptyQueueTiming(timeout, timeout, outputs[0]);
    var ts := Fetch(timeout, outputs);
    assert ts[1..] == Fetch(t.carried, rest);
    if rest != [] {
      var w := LastWait(timeout);
      assert 0 <= w <= RETRY_INTERVAL && LastWait(w) == w;
      assert AttemptLimit(w) == 1 <= AttemptLimit(timeout);
      forall i | 0 <= i < |rest| ensures AlwaysEmpty(rest[i], AttemptLimit(w)) {
        assert AlwaysEmpty(outputs[i + 1], AttemptLimit(timeout));
      }
      AllEmptyTotalWait(w, rest);
      assert timeout + (w + (|rest| - 1) * w) == timeout + |rest| * w;
    } else {
      assert TotalWait(ts[1..]) == 0;
    }
  }
}
