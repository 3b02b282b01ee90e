/** What addresses, labels, times and marks mean to the dynamic scheduler, in terms of the index as it was
    deployed and of the steps of a run. */
module SchedulerMeaning {
  import opened Ordered
  import opened RouteChoice
  import opened SchedulerModel
  import opened SchedulerRuns

  // ----- Addresses and labels -----

  ghost predicate HasSource(index: Index, a: Address) {
    a.uuid in index && a.logicId in index[a.uuid]
  }

  ghost function SourceAt(index: Index, a: Address): Source
    requires HasSource(index, a)
  {
    index[a.uuid][a.logicId]
  }

  /** A group is found exactly at its own address, behind a normal source and with routes. */
  lemma FoundIff(index: Index, a: Address, g: Group)
    ensures FindValidGroup(index, a) == Some(g) <==>
            && HasSource(index, a) && SourceAt(index, a).isNormal
            && a.groupId in SourceAt(index, a).groups && SourceAt(index, a).groups[a.groupId] == g && g.routes != []
  {}

  /** A request is labelled by its transaction and route label, one without a transaction by the signed
      fields of old senders, taken over as 64 and 32 bits. */
  ghost predicate HasLabel(req: Request, transId: nat, routeLabel: nat) {
    if req.transId != 0 then transId == req.transId && routeLabel == req.routeLabel
    else transId == req.transIdOld % 0x1_0000_0000_0000_0000 && routeLabel == req.routeLabelOld % 0x1_0000_0000
  }

  lemma LabelIff(req: Request, tag: Label)
    ensures LabelOf(req) == tag <==> HasLabel(req, tag.transId, tag.routeLabel)
  {}

  // ----- The kinds of decision -----

  ghost predicate TwoEligible(routes: seq<Route>) {
    exists i, j :: 0 <= i < j < |routes| && Eligible(routes[i]) && Eligible(routes[j])
  }

  /** Refused without a group, single with fewer than two eligible routes, then remembered if the label has
      a choice for the size, else scheduled. */
  lemma DecisionKind(s: State, req: Request, clock: nat -> int, end: int)
    requires Valid(s) && Bounded(s.status)
    ensures var (found, decision) := (FindValidGroup(s.index, req.address), DoRequest(s, req, clock, end).1);
            if found.None? then decision == Refused else
              var (routes, tag) := (found.value.routes, LabelOf(req));
              if !TwoEligible(routes) then SingleInstance(routes).Some? && decision == Single(SingleInstance(routes).value)
              else if CacheHit(s, tag, |routes|) then decision == FromCache(s.cache[tag][|routes|])
              else decision == Scheduled(ScanTo(routes, |routes|, View(s.status, clock, req.deviceId, req.deviceType)).choice)
  {
    hide Prune, ScanTo, SingleInstance, Agree;
    var found := FindValidGroup(s.index, req.address);
    if found.Some? { SingleInstanceMeaning(found.value.routes); }
  }

  // ----- Remembered choices belong to one label -----

  /** The request of step `n` was scheduled: it has the label, its group has the size, and it got the choice. */
  ghost predicate MadeBy(d: Deployment, index: Index, steps: seq<Step>, n: nat, tag: Label, size: nat, c: Choice)
    requires Runs(d, index, steps)
  {
    && n < |steps| && steps[n].Ask? && HasLabel(steps[n].req, tag.transId, tag.routeLabel)
    && var s := StateAt(d, index, steps, n);
       && Bounded(s.status) && DoRequest(s, steps[n].req, steps[n].clock, steps[n].end).1 == Scheduled(c)
       && FindValidGroup(s.index, steps[n].req.address).Some? && |FindValidGroup(s.index, steps[n].req.address).value.routes| == size
  }

  /** In every run a remembered choice was made by a request with that very transaction and route label, for
      a group of that size: requests with different labels never share one. */
  lemma {:induction false} RememberedFrom(d: Deployment, index: Index, steps: seq<Step>, tag: Label, size: nat) returns (n: nat)
    requires Runs(d, index, steps) && CacheHit(Exec(d, index, steps), tag, size)
    ensures MadeBy(d, index, steps, n, tag, size, Exec(d, index, steps).cache[tag][size])
  {
    hide DoRequest, DoCallback, Valid, FindValidGroup, LabelOf, HasLabel;
    var front, last := steps[..|steps| - 1], steps[|steps| - 1];
    var s := Exec(d, index, front);
    if last.Ask? && Do(d, s, last).1.Scheduled? {
      ScheduleEffect(s, last.req, last.clock, last.end);
      ScheduledIsEligible(s, last.req, last.clock, last.end);
      LabelIff(last.req, tag);
      if tag == LabelOf(last.req) && size == |FindValidGroup(s.index, last.req.address).value.routes| {
        n := |front|;
        return;
      }
    } else {
      QuietStep(d, s, last);
    }
    n := RememberedFrom(d, index, front, tag, size);
    assert front[..n] == steps[..n];
  }

  // ----- Times -----

  lemma CountSince(status: Status, endpoint: int, now: int, e: int)
    ensures Since(Count(status, endpoint, now), e) == if e == endpoint then now else Since(status, e)
  {}

  /** A decision stamps the endpoint it loads with its time, and no other. */
  lemma RequestSince(s: State, req: Request, clock: nat -> int, end: int, e: int)
    requires Valid(s) && Bounded(s.status)
    ensures var (s', decision) := DoRequest(s, req, clock, end);
            Since(s'.status, e) == if Loaded(s, req, decision) == Some(e) then end else Since(s.status, e)
  {
    hide Agree, Prune, ScanTo, SingleInstance, Remember, RememberLabel, Count;
    var found := FindValidGroup(s.index, req.address);
    if found.Some? && SingleInstance(found.value.routes).None? {
      var (routes, tag) := (found.value.routes, LabelOf(req));
      if CacheHit(s, tag, |routes|) {
        CountSince(s.status, routes[s.cache[tag][|routes|].index].endpoint, end, e);
      } else {
        var v := View(s.status, clock, req.deviceId, req.deviceType);
        MultiInstanceEligible(routes);
        ScanChoosesLeastSeen(routes, |routes|, v);
        ScanStatus(routes, |routes|, v);
        var scan := ScanTo(routes, |routes|, v);
        assert Since(scan.status, e) == Since(s.status, e);
        CountSince(scan.status, routes[scan.choice.index].endpoint, end, e);
      }
    }
  }

  /** The time of the last decision for an endpoint since the last clear, 0 if there is none. */
  ghost function LastDecision(d: Deployment, index: Index, steps: seq<Step>, e: int): int
    requires Runs(d, index, steps)
  {
    if steps == [] then 0 else
    var (front, last) := (steps[..|steps| - 1], steps[|steps| - 1]);
    var s := Exec(d, index, front);
    if last.Callback? && last.operation == 2 then 0
    else if last.Ask? && Loaded(s, last.req, Do(d, s, last).1) == Some(e) then last.end
    else LastDecision(d, index, front, e)
  }

  lemma StepSince(d: Deployment, s: State, step: Step, e: int)
    requires Valid(s) && Enabled(s, step)
    ensures Since(Do(d, s, step).0.status, e) ==
            if step.Callback? && step.operation == 2 then 0
            else if step.Ask? && Loaded(s, step.req, Do(d, s, step).1) == Some(e) then step.end else Since(s.status, e)
  {
    hide DoRequest, Valid;
    if step.Ask? { RequestSince(s, step.req, step.clock, step.end, e); }
  }

  /** In every run the recorded time of an endpoint is that of the last decision for it. */
  lemma {:induction false} SinceIsLastDecision(d: Deployment, index: Index, steps: seq<Step>, e: int)
    requires Runs(d, index, steps)
    ensures Since(Exec(d, index, steps).status, e) == LastDecision(d, index, steps, e)
  {
    hide Do, Loaded, Valid;
    if steps != [] {
      hide Since;
      var front := steps[..|steps| - 1];
      SinceIsLastDecision(d, index, front, e);
      StepSince(d, Exec(d, index, front), steps[|steps| - 1], e);
    }
  }

  /** A record without its depth and time. */
  ghost function Identity(r: Record): Record {
    r.(depth := 0, time := 0)
  }

  lemma RequestIdentity(s: State, req: Request, clock: nat -> int, end: int, e: int)
    requires Valid(s) && Bounded(s.status) && e in DoRequest(s, req, clock, end).0.status
    ensures var (s', decision) := DoRequest(s, req, clock, end);
            Identity(s'.status[e]) ==
            if e in s.status then Identity(s.status[e])
            else if decision.Scheduled? then Record(0, 0, req.deviceId, req.deviceType, 0) else Record(0, 0, 0, 0, 0)
  {
    hide Agree, Prune, ScanTo, SingleInstance, Remember, RememberLabel;
    var found := FindValidGroup(s.index, req.address);
    if found.Some? && SingleInstance(found.value.routes).None? {
      var (routes, tag) := (found.value.routes, LabelOf(req));
      if !CacheHit(s, tag, |routes|) {
        var v := View(s.status, clock, req.deviceId, req.deviceType);
        MultiInstanceEligible(routes);
        ScanChoosesLeastSeen(routes, |routes|, v);
        ScanStatus(routes, |routes|, v);
        assert Visited(routes, |routes|, routes[ScanTo(routes, |routes|, v).choice.index].endpoint);
      }
    }
  }

  /** What a step may do to a record: a new one gets the device of the request that scheduled it, or none,
      and from then on only depth and time change. A report lowers the depth of its endpoint alone. */
  lemma StepIdentity(d: Deployment, s: State, step: Step, e: int)
    requires Valid(s) && Enabled(s, step) && e in Do(d, s, step).0.status
    ensures var (s', decision) := Do(d, s, step);
            && Identity(s'.status[e]) ==
               (if e in s.status then Identity(s.status[e])
                else if step.Ask? && decision.Scheduled? then Record(0, 0, step.req.deviceId, step.req.deviceType, 0)
                else Record(0, 0, 0, 0, 0))
            && (step.Report? ==> s'.status[e].depth == Depth(s.status, e) - if e == step.endpoint then step.consumed else 0)
  {
    hide DoRequest, Valid;
    if step.Ask? { RequestIdentity(s, step.req, step.clock, step.end, e); }
  }

  /** A wait is the difference of two 64-bit clock readings, which wraps if the clock went back. */
  lemma WaitMeaning(now: int, time: int)
    requires 0 <= now < 0x1_0000_0000_0000_0000 && 0 <= time < 0x1_0000_0000_0000_0000
    ensures Duration(now, time) == if time <= now then now - time else now - time + 0x1_0000_0000_0000_0000
  {}

  // ----- Recorded names -----

  /** The instance is trimmed together with one that is reported with its flag. */
  ghost predicate TrimmedWith(d: Deployment, names: map<string, bool>, name: string) {
    exists i, other :: 0 <= i < |d.trimming| && other in names && names[other] && other in d.trimming[i] && name in d.trimming[i]
  }

  /** Exactly the names recorded before, those reported, and those trimmed together with a flagged one. */
  lemma RecordedIff(d: Deployment, s: State, names: map<nat, map<string, bool>>, m: nat, name: string)
    ensures name in NamesOf(DoCallback(d, s, 1, names).abnormal, m) <==>
            || name in NamesOf(s.abnormal, m)
            || (m in names && (name in names[m] || TrimmedWith(d, names[m], name)))
  {
    hide Trimmed;
    if m in names { TrimmedIff(d, names[m], name); }
  }

  lemma TrimmedIff(d: Deployment, names: map<string, bool>, name: string)
    ensures name in Trimmed(d.trimming, names) <==> TrimmedWith(d, names, name)
  {}

  /** Only the callback that starts a redeployment records names; only the dynamic-scheduling one touches
      records and remembered choices, all of which it forgets; each leaves its mark on the state. */
  lemma CallbackEffect(d: Deployment, s: State, operation: nat, names: map<nat, map<string, bool>>)
    ensures var s' := DoCallback(d, s, operation, names);
            && (operation != 1 ==> s'.abnormal == s.abnormal)
            && (if operation == 2 then s'.status == map[] && s'.cache == map[] && s'.cached == map[]
                else s'.status == s.status && s'.cache == s.cache && s'.cached == s.cached && s'.index == s.index)
            && s'.deployState == (if operation == 1 then 1 else if operation == 3 then 3 else 4)
  {
    hide MarkIndex, RecordAbnormal;
  }

  // ----- Marks -----

  /** The route differs from the deployed one only in being abnormal if its instance is named. */
  ghost predicate RouteMarked(r: Route, deployed: Route, names: set<string>) {
    r == deployed.(isNormal := deployed.isNormal && deployed.instance !in names)
  }

  ghost predicate GroupMarked(g: Group, deployed: Group, names: set<string>) {
    && g.modelId == deployed.modelId && |g.routes| == |deployed.routes|
    && forall i :: 0 <= i < |g.routes| ==> RouteMarked(g.routes[i], deployed.routes[i], names)
  }

  /** The source is abnormal exactly if it was or is named; if it is not named, its groups are marked. */
  ghost predicate SourceMarked(source: Source, deployed: Source, names: set<string>) {
    && source.instance == deployed.instance && source.isNormal == (deployed.isNormal && deployed.instance !in names)
    && source.groups.Keys == deployed.groups.Keys
    && (deployed.instance !in names ==>
          forall g :: g in source.groups ==> GroupMarked(source.groups[g], deployed.groups[g], names))
  }

  ghost predicate IndexMarked(index: Index, deployed: Index, names: set<string>) {
    && index.Keys == deployed.Keys
    && (forall u :: u in index ==> index[u].Keys == deployed[u].Keys)
    && (forall u, l :: u in index && l in index[u] ==> SourceMarked(index[u][l], deployed[u][l], names))
  }

  lemma NothingMarked(index: Index)
    ensures IndexMarked(index, index, {})
  {}

  lemma MarkSourceMore(source: Source, deployed: Source, names: set<string>, more: set<string>)
    requires SourceMarked(source, deployed, names)
    ensures SourceMarked(MarkSource(source, more), deployed, names + more)
  {
    var marked := MarkSource(source, more);
    if deployed.instance !in names + more {
      forall g | g in marked.groups ensures GroupMarked(marked.groups[g], deployed.groups[g], names + more) {
        assert GroupMarked(source.groups[g], deployed.groups[g], names);
      }
    }
  }

  lemma MarkIndexMore(index: Index, deployed: Index, names: set<string>, more: set<string>)
    requires IndexMarked(index, deployed, names)
    ensures IndexMarked(MarkIndex(index, more), deployed, names + more)
  {
    hide MarkSource, SourceMarked;
    var marked := MarkIndex(index, more);
    forall u, l | u in marked && l in marked[u] ensures SourceMarked(marked[u][l], deployed[u][l], names + more) {
      assert SourceMarked(index[u][l], deployed[u][l], names);
      MarkSourceMore(index[u][l], deployed[u][l], names, more);
    }
  }

  /** Marking changes nothing but the normality of what is named. */
  lemma MarkExact(index: Index, names: set<string>)
    ensures IndexMarked(MarkIndex(index, names), index, names)
  {
    NothingMarked(index);
    MarkIndexMore(index, index, {}, names);
    assert {} + names == names;
  }

  /** The names in the lists that dynamic-scheduling callbacks have marked so far. */
  ghost function MarkedNames(d: Deployment, index: Index, steps: seq<Step>): set<string>
    requires Runs(d, index, steps)
  {
    if steps == [] then {} else
    var (front, last) := (steps[..|steps| - 1], steps[|steps| - 1]);
    MarkedNames(d, index, front) +
    if last.Callback? && last.operation == 2 then NamesOf(Exec(d, index, front).abnormal, d.modelId) else {}
  }

  lemma StepIndex(d: Deployment, s: State, step: Step)
    requires Valid(s) && Enabled(s, step)
    ensures Do(d, s, step).0.index ==
            if step.Callback? && step.operation == 2 then MarkIndex(s.index, NamesOf(s.abnormal, d.modelId)) else s.index
  {
    hide MarkIndex, Prune, ScanTo, SingleInstance, FindValidGroup, Valid;
  }

  /** In every run the index is the deployed one with exactly the marked names made abnormal. */
  lemma {:induction false} IndexIsMarked(d: Deployment, index: Index, steps: seq<Step>)
    requires Runs(d, index, steps)
    ensures IndexMarked(Exec(d, index, steps).index, index, MarkedNames(d, index, steps))
  {
    hide Do, Valid, IndexMarked, MarkIndex;
    if steps == [] {
      NothingMarked(index);
    } else {
      var front, last := steps[..|steps| - 1], steps[|steps| - 1];
      var s := Exec(d, index, front);
      IndexIsMarked(d, index, front);
      StepIndex(d, s, last);
      if last.Callback? && last.operation == 2 {
        MarkIndexMore(s.index, index, MarkedNames(d, index, front), NamesOf(s.abnormal, d.modelId));
      } else {
        assert MarkedNames(d, index, steps) == MarkedNames(d, index, front);
      }
    }
  }

  /** In every run a group is found exactly if it was at deployment and its source has not been marked, and
      each of its routes is normal exactly if it was and its instance has not been marked. */
  lemma ReachableRoutes(d: Deployment, index: Index, steps: seq<Step>, a: Address)
    requires Runs(d, index, steps)
    ensures var (now, deployed, names) := (FindValidGroup(Exec(d, index, steps).index, a), FindValidGroup(index, a), MarkedNames(d, index, steps));
            && (now.Some? <==> deployed.Some? && SourceAt(index, a).instance !in names)
            && (now.Some? ==> GroupMarked(now.value, deployed.value, names))
  {
    hide Exec, MarkedNames;
    IndexIsMarked(d, index, steps);
    var s, names := Exec(d, index, steps), MarkedNames(d, index, steps);
    if HasSource(index, a) {
      assert SourceMarked(SourceAt(s.index, a), SourceAt(index, a), names);
      if SourceAt(index, a).instance !in names && a.groupId in SourceAt(index, a).groups {
        assert GroupMarked(SourceAt(s.index, a).groups[a.groupId], SourceAt(index, a).groups[a.groupId], names);
      }
    }
  }
}
