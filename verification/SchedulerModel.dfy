/** The dynamic scheduler as a state machine over values: requests for a route, reports of consumed
    messages, and the callbacks of a redeployment. */
module SchedulerModel {
  import opened Ordered
  import opened RouteChoice

  datatype Group = Group(modelId: nat, routes: seq<Route>)

  /** An output of a model instance and the groups of destinations bound to it. */
  datatype Source = Source(instance: string, isNormal: bool, groups: map<int, Group>)

  type Index = map<int, map<int, Source>>

  datatype Label = Label(transId: nat, routeLabel: nat)

  /** The remembered choices of a label, by the size of the group they were made in. */
  type Cache = map<Label, map<int, Choice>>

  /** The labels remembered for each transaction. */
  type Cached = map<nat, set<nat>>

  datatype State = State(status: Status, cache: Cache, cached: Cached, index: Index,
                         abnormal: map<nat, set<string>>, deployState: nat)

  /** The model this executor runs, and the sets of instances that are abnormal together. */
  datatype Deployment = Deployment(modelId: nat, trimming: seq<set<string>>)

  const CACHE_MAX_TRANS_ID_NUM: nat := 1024
  const START_REDEPLOY: nat := 1
  const DYNAMIC_SCHED: nat := 2
  const FAILED_REDEPLOY: nat := 3
  const REDEPLOY_DONE: nat := 4

  // ----- Requests -----

  datatype Address = Address(uuid: int, logicId: int, groupId: int)

  datatype Request = Request(address: Address, transId: nat, routeLabel: nat, transIdOld: int, routeLabelOld: int,
                             deviceId: int, deviceType: int)

  /** A zero transaction means an old sender: its signed fields are taken over as unsigned ones. */
  function LabelOf(r: Request): Label {
    if r.transId == 0 then Label(r.transIdOld % U64, r.routeLabelOld % 0x1_0000_0000)
    else Label(r.transId, r.routeLabel)
  }

  /** The group at an address, provided its source is normal and it has routes. */
  function FindValidGroup(index: Index, a: Address): Option<Group> {
    if a.uuid !in index || a.logicId !in index[a.uuid] then None else
    var source := index[a.uuid][a.logicId];
    if !source.isNormal || a.groupId !in source.groups || source.groups[a.groupId].routes == [] then None
    else Some(source.groups[a.groupId])
  }

  datatype Decision = Refused | Single(choice: Choice) | FromCache(choice: Choice) | Scheduled(choice: Choice)

  ghost predicate CacheHit(s: State, tag: Label, size: nat) {
    tag in s.cache && size in s.cache[tag]
  }

  function Remember(cache: Cache, tag: Label, size: nat, c: Choice): Cache {
    cache[tag := (if tag in cache then cache[tag] else map[])[size := c]]
  }

  function RememberLabel(cached: Cached, tag: Label): Cached {
    cached[tag.transId := (if tag.transId in cached then cached[tag.transId] else {}) + {tag.routeLabel}]
  }

  function LabelsOf(t: nat, labels: set<nat>): set<Label> {
    set l | l in labels :: Label(t, l)
  }

  /** Forgets the smallest transactions until the limit is met. */
  ghost function Prune(cache: Cache, cached: Cached): (r: (Cache, Cached))
    decreases |cached|
  {
    if |cached| <= CACHE_MAX_TRANS_ID_NUM then (cache, cached) else
    var t := LeastNum(cached.Keys);
    assert |(cached - {t}).Keys| < |cached.Keys|;
    Prune(cache - LabelsOf(t, cached[t]), cached - {t})
  }

  ghost function DoRequest(s: State, req: Request, clock: nat -> int, end: int): (r: (State, Decision))
    requires Valid(s) && Bounded(s.status)
  {
    var found := FindValidGroup(s.index, req.address);
    if found.None? then (s, Refused) else
    var (routes, tag) := (found.value.routes, LabelOf(req));
    var single := SingleInstance(routes);
    if single.Some? then (s, Single(single.value))
    else if CacheHit(s, tag, |routes|) then
      var c := s.cache[tag][|routes|];
      (s.(status := Count(s.status, routes[c.index].endpoint, end)), FromCache(c))
    else
      var scan := ScanTo(routes, |routes|, View(s.status, clock, req.deviceId, req.deviceType));
      MultiInstanceEligible(routes);
      ScanChoosesLeastSeen(routes, |routes|, View(s.status, clock, req.deviceId, req.deviceType));
      var status := Count(scan.status, routes[scan.choice.index].endpoint, end);
      var (cache, cached) := Prune(Remember(s.cache, tag, |routes|, scan.choice), RememberLabel(s.cached, tag));
      (s.(status := status, cache := cache, cached := cached), Scheduled(scan.choice))
  }

  lemma MultiInstanceEligible(routes: seq<Route>)
    requires SingleInstance(routes).None?
    ensures SomeEligible(routes, |routes|)
  {
    SingleInstanceMeaning(routes);
  }

  // ----- Reports and callbacks -----

  function DoReport(s: State, endpoint: int, consumed: int): State {
    var r := if endpoint in s.status then s.status[endpoint] else NO_RECORD;
    s.(status := s.status[endpoint := r.(depth := r.depth - consumed)])
  }

  /** The instances that the trimming relation adds to those reported as abnormal with its flag. */
  function Trimmed(trimming: seq<set<string>>, names: map<string, bool>): set<string> {
    set i, name, m | 0 <= i < |trimming| && name in names && names[name] && name in trimming[i] && m in trimming[i] :: m
  }

  function NamesOf(abnormal: map<nat, set<string>>, modelId: nat): set<string> {
    if modelId in abnormal then abnormal[modelId] else {}
  }

  /** The names of one model after a report. */
  function NamesAfter(d: Deployment, abnormal: map<nat, set<string>>, names: map<nat, map<string, bool>>, m: nat): set<string> {
    NamesOf(abnormal, m) + if m in names then names[m].Keys + Trimmed(d.trimming, names[m]) else {}
  }

  function RecordAbnormal(d: Deployment, abnormal: map<nat, set<string>>, names: map<nat, map<string, bool>>): map<nat, set<string>> {
    map m | m in abnormal.Keys + names.Keys :: NamesAfter(d, abnormal, names, m)
  }

  function MarkRoute(r: Route, names: set<string>): Route {
    if r.instance in names then r.(isNormal := false) else r
  }

  function MarkGroup(g: Group, names: set<string>): Group {
    g.(routes := seq(|g.routes|, i requires 0 <= i < |g.routes| => MarkRoute(g.routes[i], names)))
  }

  /** An abnormal source is only marked itself: its groups are out of reach anyway. */
  function MarkSource(source: Source, names: set<string>): Source {
    if source.instance in names then source.(isNormal := false)
    else source.(groups := map g | g in source.groups :: MarkGroup(source.groups[g], names))
  }

  function MarkIndex(index: Index, names: set<string>): Index {
    map u | u in index :: map l | l in index[u] :: MarkSource(index[u][l], names)
  }

  function DoCallback(d: Deployment, s: State, operation: nat, names: map<nat, map<string, bool>>): State {
    if operation == START_REDEPLOY then
      s.(deployState := START_REDEPLOY, abnormal := RecordAbnormal(d, s.abnormal, names))
    else if operation == DYNAMIC_SCHED then
      s.(status := map[], cache := map[], cached := map[],
         index := MarkIndex(s.index, NamesOf(s.abnormal, d.modelId)), deployState := REDEPLOY_DONE)
    else if operation == FAILED_REDEPLOY then s.(deployState := FAILED_REDEPLOY)
    else s.(deployState := REDEPLOY_DONE)
  }

  // ----- The route cache: what every step keeps -----

  /** The two maps of the cache agree, hold at most the limit of transactions, and every remembered
      index lies within the group size it is remembered for. */
  ghost predicate Valid(s: State) {
    Agree(s.cache, s.cached) && InRange(s.cache) && |s.cached| <= CACHE_MAX_TRANS_ID_NUM
  }

  ghost predicate Agree(cache: Cache, cached: Cached) {
    forall tag :: tag in cache <==> tag.transId in cached && tag.routeLabel in cached[tag.transId]
  }

  ghost predicate InRange(cache: Cache) {
    forall tag, size :: tag in cache && size in cache[tag] ==> 0 <= cache[tag][size].index < size
  }

  lemma {:induction false} PruneKeeps(cache: Cache, cached: Cached)
    requires Agree(cache, cached) && InRange(cache)
    ensures var (c, d) := Prune(cache, cached); Agree(c, d) && InRange(c) && |d| <= 1024
    ensures var (c, d) := Prune(cache, cached);
            && (forall tag :: tag in c ==> tag in cache && c[tag] == cache[tag])
            && (forall t :: t in d ==> t in cached && d[t] == cached[t])
            && (forall tag :: tag in cache && tag.transId in d ==> tag in c)
    ensures var (c, d) := Prune(cache, cached);
            forall t, u :: t in cached && t !in d && u in d ==> t < u
    ensures |cached| > 1024 ==> |Prune(cache, cached).1| == 1024
    ensures |cached| <= 1024 ==> Prune(cache, cached) == (cache, cached)
    decreases |cached|
  {
    if |cached| > CACHE_MAX_TRANS_ID_NUM {
      var t := LeastNum(cached.Keys);
      var cache', cached' := cache - LabelsOf(t, cached[t]), cached - {t};
      assert cached'.Keys == cached.Keys - {t};
      assert |cached'.Keys| == |cached.Keys| - 1;
      forall tag ensures tag in cache' <==> tag.transId in cached' && tag.routeLabel in cached'[tag.transId] {
        assert tag == Label(tag.transId, tag.routeLabel);
      }
      PruneKeeps(cache', cached');
    }
  }

  lemma RememberKeeps(cache: Cache, cached: Cached, tag: Label, size: nat, c: Choice)
    requires Agree(cache, cached) && InRange(cache) && 0 <= c.index < size
    ensures Agree(Remember(cache, tag, size, c), RememberLabel(cached, tag)) && InRange(Remember(cache, tag, size, c))
  {}

  lemma RequestKeepsValid(s: State, req: Request, clock: nat -> int, end: int)
    requires Valid(s) && Bounded(s.status)
    ensures Valid(DoRequest(s, req, clock, end).0)
  {
    hide Agree, InRange, Prune, ScanTo, SingleInstance, Remember, RememberLabel;
    var found := FindValidGroup(s.index, req.address);
    if found.Some? {
      var (routes, tag) := (found.value.routes, LabelOf(req));
      if SingleInstance(routes).None? && !CacheHit(s, tag, |routes|) {
        var v := View(s.status, clock, req.deviceId, req.deviceType);
        MultiInstanceEligible(routes);
        ScanChoosesLeastSeen(routes, |routes|, v);
        var c := ScanTo(routes, |routes|, v).choice;
        RememberKeeps(s.cache, s.cached, tag, |routes|, c);
        PruneKeeps(Remember(s.cache, tag, |routes|, c), RememberLabel(s.cached, tag));
      }
    }
  }

  // ----- Marking abnormal instances -----

  /** No route that can be reached through a normal source is normal on one of the named instances,
      and no normal source is on one of them. */
  ghost predicate Avoids(index: Index, names: set<string>) {
    forall u, l :: u in index && l in index[u] && index[u][l].isNormal ==>
      index[u][l].instance !in names && SourceAvoids(index[u][l], names)
  }

  ghost predicate SourceAvoids(source: Source, names: set<string>) {
    forall g, i :: g in source.groups && 0 <= i < |source.groups[g].routes| ==>
      source.groups[g].routes[i].instance in names ==> !source.groups[g].routes[i].isNormal
  }

  lemma MarkAvoids(index: Index, names: set<string>)
    ensures Avoids(MarkIndex(index, names), names)
  {}

  lemma MarkKeepsAvoids(index: Index, names: set<string>, more: set<string>)
    requires Avoids(index, names)
    ensures Avoids(MarkIndex(index, more), names)
  {
    var m: Index := MarkIndex(index, more);
    forall u, l | u in m && l in m[u] && m[u][l].isNormal
      ensures m[u][l].instance !in names && SourceAvoids(m[u][l], names)
    {
      assert index[u][l].isNormal && SourceAvoids(index[u][l], names);
    }
  }

  /** What a reachable group owes to `Avoids`. */
  lemma GroupAvoids(index: Index, names: set<string>, a: Address, i: nat)
    requires Avoids(index, names) && FindValidGroup(index, a).Some? && i < |FindValidGroup(index, a).value.routes|
    requires FindValidGroup(index, a).value.routes[i].isNormal
    ensures FindValidGroup(index, a).value.routes[i].instance !in names
  {
    assert SourceAvoids(index[a.uuid][a.logicId], names);
  }
}
