/** The dynamic scheduler as the executor runs it, on its own maps and flags. */
module Scheduler {
  import opened Ordered
  import opened RouteChoice
  import opened SchedulerModel

  lemma SameMap<K, V>(a: map<K, V>, b: map<K, V>)
    requires a.Keys == b.Keys && forall k :: k in a.Keys ==> a[k] == b[k]
    ensures a == b
  {}

  // ----- Marking, along the levels of the index -----

  method ModelIndexGroupInfoUpdate(g: Group, names: set<string>) returns (r: Group)
    ensures r == MarkGroup(g, names)
  {
    var routes := g.routes;
    for i := 0 to |routes|
      invariant |routes| == |g.routes|
      invariant forall j :: 0 <= j < |routes| ==> routes[j] == if j < i then MarkRoute(g.routes[j], names) else g.routes[j]
    {
      if routes[i].instance in names {
        routes := routes[i := routes[i].(isNormal := false)];
      }
    }
    r := g.(routes := routes);
    assert routes == MarkGroup(g, names).routes;
  }

  method UpdateSource(source: Source, names: set<string>) returns (r: Source)
    ensures r == MarkSource(source, names)
  {
    if source.instance in names {
      return source.(isNormal := false);
    }
    IntOrder();
    hide TotalOrder, MarkGroup;
    var ahead, groups := source.groups.Keys, source.groups;
    while ahead != {}
      invariant ahead <= source.groups.Keys && groups.Keys == source.groups.Keys
      invariant forall g :: g in ahead ==> groups[g] == source.groups[g]
      invariant forall g :: g in source.groups && g !in ahead ==> groups[g] == MarkGroup(source.groups[g], names)
      decreases ahead
    {
      var g := FindLeast(ahead, IntLe);
      var marked := ModelIndexGroupInfoUpdate(groups[g], names);
      groups := groups[g := marked];
      ahead := ahead - {g};
    }
    assert forall g :: g in source.groups ==> groups[g] == MarkGroup(source.groups[g], names);
    SameMap(groups, MarkSource(source, names).groups);
    return source.(groups := groups);
  }

  method UpdateModel(sources: map<int, Source>, names: set<string>) returns (r: map<int, Source>)
    ensures r == map l | l in sources :: MarkSource(sources[l], names)
  {
    IntOrder();
    hide TotalOrder, MarkSource;
    r := sources;
    var ahead := sources.Keys;
    while ahead != {}
      invariant ahead <= sources.Keys && r.Keys == sources.Keys
      invariant forall l :: l in ahead ==> r[l] == sources[l]
      invariant forall l :: l in sources && l !in ahead ==> r[l] == MarkSource(sources[l], names)
      decreases ahead
    {
      var l := FindLeast(ahead, IntLe);
      var marked := UpdateSource(r[l], names);
      r := r[l := marked];
      ahead := ahead - {l};
    }
    assert forall l :: l in sources ==> r[l] == MarkSource(sources[l], names);
    SameMap(r, map l | l in sources :: MarkSource(sources[l], names));
  }

  // ----- Recording abnormal instances -----

  ghost function TrimmedBy(trimming: seq<set<string>>, name: string): set<string> {
    set i, m | 0 <= i < |trimming| && name in trimming[i] && m in trimming[i] :: m
  }

  method UpdateAbnormalInstanceForTrimmingModel(trimming: seq<set<string>>, known: set<string>, name: string) returns (r: set<string>)
    ensures r == known + TrimmedBy(trimming, name)
  {
    r := known;
    for i := 0 to |trimming|
      invariant r == known + TrimmedBy(trimming[..i], name)
    {
      ghost var before := r;
      if name in trimming[i] {
        r := r + trimming[i];
      }
      assert TrimmedBy(trimming[..i + 1], name) ==
             TrimmedBy(trimming[..i], name) + (if name in trimming[i] then trimming[i] else {}) by {
        TrimmedNext(trimming, i, name);
      }
    }
    assert trimming[..|trimming|] == trimming;
  }

  lemma TrimmedNext(trimming: seq<set<string>>, i: nat, name: string)
    requires i < |trimming|
    ensures TrimmedBy(trimming[..i + 1], name) ==
            TrimmedBy(trimming[..i], name) + (if name in trimming[i] then trimming[i] else {})
  {
    var lhs, rhs := TrimmedBy(trimming[..i + 1], name), TrimmedBy(trimming[..i], name) + (if name in trimming[i] then trimming[i] else {});
    forall m ensures m in lhs <==> m in rhs {
      if m in lhs {
        var j :| 0 <= j < i + 1 && name in trimming[..i + 1][j] && m in trimming[..i + 1][j];
        assert j < i ==> trimming[..i][j] == trimming[..i + 1][j];
      }
      if m in TrimmedBy(trimming[..i], name) {
        var j :| 0 <= j < i && name in trimming[..i][j] && m in trimming[..i][j];
        assert trimming[..i + 1][j] == trimming[..i][j];
      }
      if name in trimming[i] && m in trimming[i] {
        assert trimming[..i + 1][i] == trimming[i];
      }
    }
  }

  lemma TrimmedIsUnion(trimming: seq<set<string>>, names: map<string, bool>)
    ensures forall m :: m in Trimmed(trimming, names) <==>
              exists name :: name in names && names[name] && m in TrimmedBy(trimming, name)
  {
    forall m ensures m in Trimmed(trimming, names) <==> exists name :: name in names && names[name] && m in TrimmedBy(trimming, name) {
      if m in Trimmed(trimming, names) {
        var i, name :| 0 <= i < |trimming| && name in names && names[name] && name in trimming[i] && m in trimming[i];
        assert m in TrimmedBy(trimming, name);
      }
      if name :| name in names && names[name] && m in TrimmedBy(trimming, name) {
        var i :| 0 <= i < |trimming| && name in trimming[i] && m in trimming[i];
      }
    }
  }

  /** Adds the reported names of one model and, for those with the flag, what is trimmed with them. */
  method RecordNames(trimming: seq<set<string>>, known: set<string>, names: map<string, bool>) returns (r: set<string>)
    ensures r == known + names.Keys + Trimmed(trimming, names)
  {
    r := known;
    var ahead := names.Keys;
    while ahead != {}
      invariant ahead <= names.Keys
      invariant forall m :: m in r <==>
                  || m in known || (m in names && m !in ahead)
                  || exists name :: name in names && name !in ahead && names[name] && m in TrimmedBy(trimming, name)
      decreases ahead
    {
      var name :| name in ahead;
      ghost var before := r;
      r := r + {name};
      if trimming != [] && names[name] {
        r := UpdateAbnormalInstanceForTrimmingModel(trimming, r, name);
      }
      ahead := ahead - {name};
    }
    TrimmedIsUnion(trimming, names);
    assert r == known + names.Keys + Trimmed(trimming, names);
  }

  lemma NumOrder()
    ensures TotalOrder(NumLe)
  {}

  lemma NextLabel(transId: nat, labels: set<nat>, l: nat)
    ensures LabelsOf(transId, labels + {l}) == LabelsOf(transId, labels) + {Label(transId, l)}
  {}

  lemma NamesRecorded(d: Deployment, before: map<nat, set<string>>, names: map<nat, map<string, bool>>, m: nat, all: set<string>)
    requires m in names && all == NamesOf(before, m) + names[m].Keys + Trimmed(d.trimming, names[m])
    ensures all == NamesAfter(d, before, names, m)
  {}

  lemma RecordedMap(d: Deployment, before: map<nat, set<string>>, names: map<nat, map<string, bool>>, after: map<nat, set<string>>)
    requires after.Keys == before.Keys + names.Keys
    requires forall m :: m in before && m !in names ==> after[m] == before[m]
    requires forall m :: m in names ==> after[m] == NamesAfter(d, before, names, m)
    ensures after == RecordAbnormal(d, before, names)
  {
    var goal := RecordAbnormal(d, before, names);
    forall m | m in after.Keys ensures after[m] == goal[m] {
      if m !in names { assert NamesAfter(d, before, names, m) == before[m]; }
    }
    SameMap(after, goal);
  }

  lemma RememberedInRange(s: State)
    requires SchedulerModel.Valid(s)
    ensures forall tag, size :: tag in s.cache && size in s.cache[tag] ==> 0 <= s.cache[tag][size].index < size
  {}

  class DynamicScheduler {
    const deployment: Deployment
    var queueStatusInfo: Status
    var routelabelCacheInfo: Cache
    var cachedTransIds: Cached
    var modelIndexInfo: Index
    var abnormalNames: map<nat, set<string>>
    var deployState: nat

    ghost function Now(): State
      reads this
    {
      State(queueStatusInfo, routelabelCacheInfo, cachedTransIds, modelIndexInfo, abnormalNames, deployState)
    }

    constructor (deployment: Deployment, index: Index)
      ensures SchedulerModel.Valid(Now()) && this.deployment == deployment
      ensures Now() == State(map[], map[], map[], index, map[], 0)
    {
      this.deployment := deployment;
      queueStatusInfo, routelabelCacheInfo, cachedTransIds := map[], map[], map[];
      modelIndexInfo, abnormalNames, deployState := index, map[], 0;
    }

    method ProcAfterFindGroupEntry(endpoint: int, now: int)
      modifies `queueStatusInfo
      ensures queueStatusInfo == Count(old(queueStatusInfo), endpoint, now)
    {
      if endpoint !in queueStatusInfo {
        queueStatusInfo := queueStatusInfo[endpoint := NO_RECORD];
      }
      var r := queueStatusInfo[endpoint].(time := now);
      r := r.(depth := r.depth + 1);
      queueStatusInfo := queueStatusInfo[endpoint := r];
    }

    /** Erases the remembered choices of one transaction, label by label. */
    method EraseLabels(transId: nat, labels: set<nat>)
      modifies `routelabelCacheInfo
      ensures routelabelCacheInfo == old(routelabelCacheInfo) - LabelsOf(transId, labels)
    {
      ghost var cache := routelabelCacheInfo;
      var ahead := labels;
      while ahead != {}
        invariant ahead <= labels && routelabelCacheInfo == cache - LabelsOf(transId, labels - ahead)
        decreases ahead
      {
        var l :| l in ahead;
        assert labels - (ahead - {l}) == (labels - ahead) + {l};
        NextLabel(transId, labels - ahead, l);
        routelabelCacheInfo := routelabelCacheInfo - {Label(transId, l)};
        ahead := ahead - {l};
      }
      assert labels - ahead == labels;
    }

    method DeleteInvalidCache()
      modifies `routelabelCacheInfo, `cachedTransIds
      ensures (routelabelCacheInfo, cachedTransIds) == Prune(old(routelabelCacheInfo), old(cachedTransIds))
    {
      hide LabelsOf;
      NumOrder();
      while |cachedTransIds| > CACHE_MAX_TRANS_ID_NUM
        invariant Prune(routelabelCacheInfo, cachedTransIds) == Prune(old(routelabelCacheInfo), old(cachedTransIds))
        decreases |cachedTransIds|
      {
        var transId := FindLeast(cachedTransIds.Keys, NumLe);
        assert (cachedTransIds - {transId}).Keys == cachedTransIds.Keys - {transId};
        assert |cachedTransIds.Keys - {transId}| == |cachedTransIds.Keys| - 1;
        EraseLabels(transId, cachedTransIds[transId]);
        cachedTransIds := cachedTransIds - {transId};
      }
    }

    /** Answers a request: nothing for an address without a usable group, the one remaining instance
        if there is only one, else the remembered choice, else a scheduled one that is remembered. */
    method DynamicSchedProc(req: Request, clock: nat -> int, end: int) returns (decision: Decision)
      requires SchedulerModel.Valid(Now()) && Bounded(queueStatusInfo)
      modifies `queueStatusInfo, `routelabelCacheInfo, `cachedTransIds
      ensures (Now(), decision) == DoRequest(old(Now()), req, clock, end) && SchedulerModel.Valid(Now())
    {
      hide SchedulerModel.Valid, Bounded, FindValidGroup, Prune, ScanTo, SingleInstance, Count, Remember, RememberLabel, LabelOf;
      RequestKeepsValid(Now(), req, clock, end);
      RememberedInRange(Now());
      var found := FindValidGroup(modelIndexInfo, req.address);
      if found.None? {
        return Refused;
      }
      var routes, tag := found.value.routes, LabelOf(req);
      var single := FindGroupEntryIndexInSingleInstance(routes);
      if single.Some? {
        return Single(single.value);
      }
      if tag in routelabelCacheInfo && |routes| in routelabelCacheInfo[tag] {
        var c := routelabelCacheInfo[tag][|routes|];
        ProcAfterFindGroupEntry(routes[c.index].endpoint, end);
        return FromCache(c);
      }
      MultiInstanceEligible(routes);
      var c := ScheduleAndRemember(req, routes, clock, end);
      return Scheduled(c);
    }

    method ScheduleAndRemember(req: Request, routes: seq<Route>, clock: nat -> int, end: int) returns (c: Choice)
      requires Bounded(queueStatusInfo) && SomeEligible(routes, |routes|)
      modifies `queueStatusInfo, `routelabelCacheInfo, `cachedTransIds
      ensures var scan := ScanTo(routes, |routes|, View(old(queueStatusInfo), clock, req.deviceId, req.deviceType));
              && c == scan.choice && 0 <= c.index < |routes|
              && queueStatusInfo == Count(scan.status, routes[c.index].endpoint, end)
              && (routelabelCacheInfo, cachedTransIds) ==
                 Prune(Remember(old(routelabelCacheInfo), LabelOf(req), |routes|, c), RememberLabel(old(cachedTransIds), LabelOf(req)))
    {
      hide Prune, ScanTo, Count, Remember, RememberLabel, LabelOf;
      var v := View(queueStatusInfo, clock, req.deviceId, req.deviceType);
      var status;
      status, c := FindGroupEntryIndexBySchedule(routes, v);
      ScanChoosesLeastSeen(routes, |routes|, v);
      queueStatusInfo := status;
      ProcAfterFindGroupEntry(routes[c.index].endpoint, end);
      routelabelCacheInfo := Remember(routelabelCacheInfo, LabelOf(req), |routes|, c);
      cachedTransIds := RememberLabel(cachedTransIds, LabelOf(req));
      DeleteInvalidCache();
    }

    method UpdateQueueStatusInfo(endpoint: int, consumed: int)
      modifies `queueStatusInfo
      ensures Now() == DoReport(old(Now()), endpoint, consumed)
    {
      if endpoint !in queueStatusInfo {
        queueStatusInfo := queueStatusInfo[endpoint := NO_RECORD];
      }
      var r := queueStatusInfo[endpoint];
      queueStatusInfo := queueStatusInfo[endpoint := r.(depth := r.depth - consumed)];
    }

    method UpdateAbnormalInstanceList(names: map<nat, map<string, bool>>)
      modifies `abnormalNames
      ensures abnormalNames == RecordAbnormal(deployment, old(abnormalNames), names)
    {
      ghost var before := abnormalNames;
      hide Trimmed, RecordAbnormal, NamesAfter;
      var ahead := names.Keys;
      while ahead != {}
        invariant ahead <= names.Keys && abnormalNames.Keys == before.Keys + (names.Keys - ahead)
        invariant forall m :: m in before && (m in ahead || m !in names) ==> abnormalNames[m] == before[m]
        invariant forall m :: m in names && m !in ahead ==> abnormalNames[m] == NamesAfter(deployment, before, names, m)
        decreases ahead
      {
        var m :| m in ahead;
        assert NamesOf(abnormalNames, m) == NamesOf(before, m);
        var all := RecordNames(deployment.trimming, NamesOf(abnormalNames, m), names[m]);
        NamesRecorded(deployment, before, names, m, all);
        abnormalNames := abnormalNames[m := all];
        ahead := ahead - {m};
      }
      assert names.Keys - ahead == names.Keys;
      RecordedMap(deployment, before, names, abnormalNames);
    }

    method ModelIndexInfoUpdate()
      modifies `modelIndexInfo
      ensures modelIndexInfo == MarkIndex(old(modelIndexInfo), NamesOf(abnormalNames, deployment.modelId))
    {
      ghost var before := modelIndexInfo;
      IntOrder();
      hide TotalOrder, MarkSource;
      var names, ahead := NamesOf(abnormalNames, deployment.modelId), modelIndexInfo.Keys;
      while ahead != {}
        invariant ahead <= before.Keys && modelIndexInfo.Keys == before.Keys
        invariant forall u :: u in ahead ==> modelIndexInfo[u] == before[u]
        invariant forall u :: u in before && u !in ahead ==> modelIndexInfo[u] == MarkIndex(before, names)[u]
        decreases ahead
      {
        var u := FindLeast(ahead, IntLe);
        var marked := UpdateModel(modelIndexInfo[u], names);
        modelIndexInfo := modelIndexInfo[u := marked];
        ahead := ahead - {u};
      }
      assert forall u :: u in before ==> modelIndexInfo[u] == MarkIndex(before, names)[u];
      SameMap(modelIndexInfo, MarkIndex(before, names));
    }

    /** The redeployment callback: record on start, clear and mark on dynamic scheduling. */
    method AbnormalStatusCallback(operation: nat, names: map<nat, map<string, bool>>)
      requires SchedulerModel.Valid(Now())
      modifies this
      ensures Now() == DoCallback(deployment, old(Now()), operation, names) && SchedulerModel.Valid(Now())
    {
      if operation == START_REDEPLOY {
        deployState := START_REDEPLOY;
        UpdateAbnormalInstanceList(names);
        return;
      } else if operation == DYNAMIC_SCHED {
        queueStatusInfo, cachedTransIds, routelabelCacheInfo := map[], map[], map[];
        ModelIndexInfoUpdate();
      } else if operation == FAILED_REDEPLOY {
        deployState := FAILED_REDEPLOY;
        return;
      }
      deployState := REDEPLOY_DONE;
    }
  }
}
