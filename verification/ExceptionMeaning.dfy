/** What the exception handler stores, reports and hands out, in terms of the exceptions it was given, and
    what it does to the aligners. */
module ExceptionMeaning {
  import opened Ordered
  import EH = ExceptionHandler
  import AM = AlignerModel
  import MM = AlignerMeaning
  import EP = ExecutorProtocol

  // ----- Exceptions come through unchanged -----

  /** The exception was admitted by one of the steps. */
  ghost predicate Admitted(steps: seq<EH.Step>, exc: EH.Exception) {
    exists i :: 0 <= i < |steps| && steps[i] == EH.Admit(exc)
  }

  ghost predicate AllAdmitted(steps: seq<EH.Step>, s: EH.State) {
    && (forall k :: k in s.all ==> Admitted(steps, s.all[k]))
    && (!s.phase.Idle? ==> Admitted(steps, s.phase.exc))
  }

  lemma MoreAdmitted(steps: seq<EH.Step>, step: EH.Step, exc: EH.Exception)
    requires Admitted(steps, exc) || step == EH.Admit(exc)
    ensures Admitted(steps + [step], exc)
  {
    var more := steps + [step];
    if i :| 0 <= i < |steps| && steps[i] == EH.Admit(exc) {
      assert more[i] == EH.Admit(exc);
    } else {
      assert more[|steps|] == EH.Admit(exc);
    }
  }

  lemma StepAdmits(steps: seq<EH.Step>, s: EH.State, step: EH.Step)
    requires EH.Consistent(s) && EH.Enabled(s, step) && AllAdmitted(steps, s)
    ensures AllAdmitted(steps + [step], EH.Do(s, step).state)
    ensures forall i :: 0 <= i < |EH.Do(s, step).notes| ==> Admitted(steps + [step], EH.Do(s, step).notes[i].exc)
  {
    hide Admitted, EH.ModelIoIds, EH.FirstKey;
    var o := EH.Do(s, step);
    forall k | k in o.state.all ensures Admitted(steps + [step], o.state.all[k]) { MoreAdmitted(steps, step, o.state.all[k]); }
    if !o.state.phase.Idle? { MoreAdmitted(steps, step, o.state.phase.exc); }
    forall i | 0 <= i < |o.notes| ensures Admitted(steps + [step], o.notes[i].exc) { MoreAdmitted(steps, step, o.notes[i].exc); }
  }

  /** In every run each stored exception is one that was admitted, with its code, user context and all, and
      so is each one the executor has been told of. */
  lemma {:induction false} StoredWereAdmitted(steps: seq<EH.Step>)
    requires EH.Runs(steps)
    ensures AllAdmitted(steps, EH.Exec(steps))
    ensures steps != [] ==>
              forall i :: 0 <= i < |EH.LastOutcome(steps).notes| ==> Admitted(steps, EH.LastOutcome(steps).notes[i].exc)
  {
    hide EH.Do, EH.Consistent;
    if steps != [] {
      var front, last := steps[..|steps| - 1], steps[|steps| - 1];
      StoredWereAdmitted(front);
      StepAdmits(front, EH.Exec(front), last);
      assert front + [last] == steps;
    }
  }

  /** A new exception is stored under its own transaction and scope, in place of none. */
  lemma AdmittedIsStored(s: EH.State, exc: EH.Exception)
    requires EH.Consistent(s) && s.phase.Idle?
    ensures var s' := EH.Do(s, EH.Admit(exc)).state;
            && exc.key in s'.all && s'.all[exc.key] == (if exc.key in s.all then s.all[exc.key] else exc)
            && (s'.phase.Idle? <==> exc.key in s.all)
            && forall k :: k in s'.all && k in s.all ==> s'.all[k] == s.all[k]
  {
    hide EH.ModelIoIds, EH.FirstKey;
  }

  // ----- The order of keys -----

  /** One text comes before another if it is its beginning or smaller at the first difference. */
  ghost predicate Precedes(a: string, b: string) {
    || a <= b
    || exists i: nat :: i < |a| && i < |b| && a[..i] == b[..i] && a[i] < b[i]
  }

  lemma {:induction false} TextOrder(a: string, b: string)
    ensures EH.TextLe(a, b) <==> Precedes(a, b)
  {
    if a != "" && b != "" && a[0] == b[0] {
      TextOrder(a[1..], b[1..]);
      assert a == [a[0]] + a[1..] && b == [b[0]] + b[1..];
      if i: nat :| i < |a| && i < |b| && a[..i] == b[..i] && a[i] < b[i] {
        assert i > 0 && a[..i][1..] == a[1..][..i - 1] && b[..i][1..] == b[1..][..i - 1];
        assert a[1..][i - 1] < b[1..][i - 1];
      }
      if i: nat :| i < |a[1..]| && i < |b[1..]| && a[1..][..i] == b[1..][..i] && a[1..][i] < b[1..][i] {
        assert a[..i + 1] == [a[0]] + a[1..][..i] && b[..i + 1] == [b[0]] + b[1..][..i];
        assert a[i + 1] < b[i + 1];
      }
    } else if a != "" && b != "" {
      assert a[..0] == b[..0];
      forall i: nat | 0 < i < |a| && i < |b| ensures a[..i] != b[..i] {
        assert a[..i][0] == a[0] && b[..i][0] == b[0];
      }
    }
  }

  /** An eviction removes a transaction that is not above any stored one, and among those of the same
      transaction one whose scope precedes the others. */
  lemma EvictsLowest(s: EH.State, exc: EH.Exception, k: EH.Key)
    requires EH.Consistent(s) && s.phase.Idle? && exc.key !in s.all && |s.all| >= 1024
    requires k in s.all && k !in EH.Do(s, EH.Admit(exc)).state.all
    ensures forall j :: j in s.all ==> k.transId < j.transId || (k.transId == j.transId && Precedes(k.scope, j.scope))
    ensures forall j :: j in s.all && j != k ==> j in EH.Do(s, EH.Admit(exc)).state.all
  {
    hide EH.Do, EH.FirstKey, EH.Consistent, Precedes;
    EH.OnlyOverflowRemoves(s, EH.Admit(exc), k);
    forall j | j in s.all
      ensures k.transId < j.transId || (k.transId == j.transId && Precedes(k.scope, j.scope))
      ensures j != k ==> j in EH.Do(s, EH.Admit(exc)).state.all
    {
      assert EH.KeyLe(k, j);
      TextOrder(k.scope, j.scope);
      EH.OnlyOverflowRemoves(s, EH.Admit(exc), j);
    }
  }

  /** A take gets the smallest waiting transaction, if any is waiting. */
  lemma TakesSmallest(s: EH.State)
    ensures var o := EH.Do(s, EH.TakeReport);
            && (o.taken.None? <==> s.waitReport == {})
            && (o.taken.Some? ==> o.taken.value in s.waitReport && forall t :: t in s.waitReport ==> o.taken.value <= t)
            && o.state == s.(waitReport := o.state.waitReport)
  {}

  // ----- What reaches the aligners -----

  /** A push is accepted exactly if its queue belongs to the aligner and its transaction has no model-io
      exception. */
  lemma AcceptedIff(d: EP.Deployment, sys: EP.System, step: EP.Step)
    requires EP.Valid(d, sys) && step.Push? && EP.Enabled(sys, step)
    ensures EP.AlignerOutcome(d, sys, step).accepted.Some? <==>
            step.queueIdx in step.fetchIndexes && step.item.msg.transId !in sys.handler.modelIoAll
  {
    hide AM.Weight, AM.Insert, AM.TakeAt, AM.IsComplete, EH.Consistent;
    assert AM.Valid(EP.Cfg(d, step.fetchIndexes), sys.aligners[step.fetchIndexes]);
  }

  /** Indexes that do not repeat, are in range and belong to no aligner get a new empty one; any others
      change nothing. */
  lemma CreatedIff(d: EP.Deployment, sys: EP.System, idxes: seq<nat>)
    requires EP.Valid(d, sys) && idxes !in sys.aligners
    ensures var sys' := EP.Do(d, sys, EP.GetOrCreate(idxes));
            && sys'.handler == sys.handler
            && (idxes in sys'.aligners <==>
                  && (forall i, j :: 0 <= i < j < |idxes| ==> idxes[i] != idxes[j])
                  && (forall i :: i in idxes ==> i < d.outputNum)
                  && forall i, other :: i in idxes && other in sys.aligners ==> i !in other)
            && (idxes in sys'.aligners ==> sys'.aligners[idxes].wait == map[])
            && forall other :: other in sys.aligners ==> other in sys'.aligners && sys'.aligners[other] == sys.aligners[other]
  {
    hide EP.Valid;
  }

  /** The handler touches the aligners only by clearing the one transaction that it announces, and leaves
      everything else in them alone. */
  lemma HandlerTouches(d: EP.Deployment, sys: EP.System, step: EH.Step, idxes: seq<nat>, k: AM.Key)
    requires EP.Valid(d, sys) && EH.Enabled(sys.handler, step) && idxes in sys.aligners && k in sys.aligners[idxes].wait
    ensures var (sys', o) := (EP.Do(d, sys, EP.Handle(step)), EH.Do(sys.handler, step));
            && idxes in sys'.aligners
            && (k !in sys'.aligners[idxes].wait <==> EH.Callback(EH.Occured, k.transId) in o.callbacks)
            && (k in sys'.aligners[idxes].wait ==> sys'.aligners[idxes].wait[k] == sys.aligners[idxes].wait[k])
  {
    hide AM.Weight, EH.Do, EH.Consistent, AM.Valid;
    EP.AtMostOneCallback(sys.handler, step);
  }

  /** Stopping empties every aligner and sets its counters to 0, and leaves the handler alone. */
  lemma StopClears(d: EP.Deployment, sys: EP.System, idxes: seq<nat>)
    requires EP.Valid(d, sys) && idxes in sys.aligners
    ensures var sys' := EP.Do(d, sys, EP.ClearAligners);
            && sys'.handler == sys.handler && sys'.aligners.Keys == sys.aligners.Keys
            && sys'.aligners[idxes].wait == map[] && forall q :: 0 <= q < |idxes| ==> sys'.aligners[idxes].cacheNums[q] == 0
  {
    hide AM.Weight;
    var (cfg, s) := (EP.Cfg(d, idxes), sys.aligners[idxes]);
    AM.StepKeepsValid(cfg, s, AM.ClearAll);
    var s' := AM.Do(cfg, s, AM.ClearAll).state;
    assert s'.wait == map[];
    forall q: nat | q < |idxes| ensures s'.cacheNums[q] == 0 {
      AM.WeightOfNothing(AM.ColumnOf(q));
      assert s'.cacheNums[q] == AM.Weight(s'.wait, AM.ColumnOf(q));
    }
  }

  /** A fetching thread touches neither the handler nor any other aligner. */
  lemma FetchTouchesOwn(d: EP.Deployment, sys: EP.System, step: EP.Step)
    requires EP.Valid(d, sys) && EP.Enabled(sys, step) && (step.Push? || step.TakeExpired? || step.TakeOverLimit?)
    ensures var sys' := EP.Do(d, sys, step);
            && sys'.handler == sys.handler && sys'.aligners.Keys == sys.aligners.Keys
            && forall other :: other in sys.aligners && other != step.fetchIndexes ==> sys'.aligners[other] == sys.aligners[other]
  {}

  /** The clock of the fetching thread decides what expires in its aligner: with dropping exactly the keys
      that are due go, otherwise only such a key is taken from, and the smallest of all keys is if it
      is one of them. */
  lemma ExpiryByClock(d: EP.Deployment, sys: EP.System, idxes: seq<nat>, clock: int, k: AM.Key)
    requires EP.Valid(d, sys) && idxes in sys.aligners && k in sys.aligners[idxes].wait && d.attrs.timeout > 0
    ensures var (s, s') := (sys.aligners[idxes], EP.Do(d, sys, EP.TakeExpired(idxes, clock)).aligners[idxes]);
            var due := clock - s.wait[k].startTime >= d.attrs.timeout * 1_000_000;
            && (d.attrs.dropWhenNotAlign ==> (k !in s'.wait <==> due))
            && (!due ==> k in s'.wait && s'.wait[k] == s.wait[k])
            && (!d.attrs.dropWhenNotAlign && due && (forall j :: j in s.wait ==> MM.NotAbove(k, j)) ==>
                  k in s'.wait ==> forall q :: 0 <= q < |idxes| && s.wait[k].queues[q] != [] ==>
                    s'.wait[k].queues[q] == s.wait[k].queues[q][1..])
  {
    hide AM.Weight, AM.IsExpire, EH.Consistent;
    var (cfg, s) := (EP.Cfg(d, idxes), sys.aligners[idxes]);
    MM.ExpiredIff(cfg, s, clock, k);
    if d.attrs.dropWhenNotAlign {
      MM.ExpiryDropsExactly(cfg, s, clock, k);
    } else {
      MM.TakesSmallest(cfg, s, AM.TakeExpired(clock));
    }
  }
}
