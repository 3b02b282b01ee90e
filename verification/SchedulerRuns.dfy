/** What holds over whole runs of the dynamic scheduler: depths are conserved, remembered choices
    stick, and abnormal instances are avoided. */
module SchedulerRuns {
  import opened Ordered
  import opened RouteChoice
  import opened SchedulerModel

  datatype Step =
    | Ask(req: Request, clock: nat -> int, end: int)
    | Report(endpoint: int, consumed: int)
    | Callback(operation: nat, names: map<nat, map<string, bool>>)

  /** Depths are assumed to stay below the largest 32-bit value while routes are asked for. */
  ghost predicate Enabled(s: State, step: Step) {
    step.Ask? ==> Bounded(s.status)
  }

  ghost function Do(d: Deployment, s: State, step: Step): (r: (State, Decision))
    requires Valid(s) && Enabled(s, step)
  {
    match step
    case Ask(req, clock, end) => DoRequest(s, req, clock, end)
    case Report(endpoint, consumed) => (DoReport(s, endpoint, consumed), Refused)
    case Callback(operation, names) => (DoCallback(d, s, operation, names), Refused)
  }

  lemma StepKeepsValid(d: Deployment, s: State, step: Step)
    requires Valid(s) && Enabled(s, step)
    ensures Valid(Do(d, s, step).0)
  {
    hide DoRequest, DoCallback, Agree, InRange;
    match step {
      case Ask(req, clock, end) => RequestKeepsValid(s, req, clock, end);
      case Report(_, _) =>
      case Callback(operation, names) => CallbackKeepsValid(d, s, operation, names);
    }
  }

  lemma CallbackKeepsValid(d: Deployment, s: State, operation: nat, names: map<nat, map<string, bool>>)
    requires Valid(s)
    ensures Valid(DoCallback(d, s, operation, names))
  {
    hide Agree, InRange, MarkIndex, RecordAbnormal;
    assert Agree(map[], map[]) && InRange(map[]) by { NothingAgrees(); }
  }

  lemma NothingAgrees()
    ensures Agree(map[], map[]) && InRange(map[])
  {}

  ghost function Init(index: Index): State {
    State(map[], map[], map[], index, map[], 0)
  }

  ghost predicate Runs(d: Deployment, index: Index, steps: seq<Step>)
    decreases |steps|, 0
  {
    steps == [] ||
    (Runs(d, index, steps[..|steps| - 1]) && Enabled(Exec(d, index, steps[..|steps| - 1]), steps[|steps| - 1]))
  }

  ghost function Exec(d: Deployment, index: Index, steps: seq<Step>): (s: State)
    requires Runs(d, index, steps)
    ensures Valid(s)
    decreases |steps|, 1
  {
    if steps == [] then Init(index)
    else
      var s := Exec(d, index, steps[..|steps| - 1]);
      StepKeepsValid(d, s, steps[|steps| - 1]);
      Do(d, s, steps[|steps| - 1]).0
  }

  lemma {:induction false} PrefixRuns(d: Deployment, index: Index, steps: seq<Step>, n: nat)
    requires Runs(d, index, steps) && n <= |steps|
    ensures Runs(d, index, steps[..n])
    decreases |steps|
  {
    if n < |steps| {
      PrefixRuns(d, index, steps[..|steps| - 1], n);
      assert steps[..|steps| - 1][..n] == steps[..n];
    } else {
      assert steps[..n] == steps;
    }
  }

  /** The state of a run after its first `n` steps. */
  ghost function StateAt(d: Deployment, index: Index, steps: seq<Step>, n: nat): (s: State)
    requires Runs(d, index, steps) && n <= |steps|
    ensures Valid(s)
  {
    PrefixRuns(d, index, steps, n);
    Exec(d, index, steps[..n])
  }

  // ----- Depth conservation -----

  /** The endpoint a decision adds load to: single-instance decisions are left to the sender's own
      cache and are not counted. */
  ghost function Loaded(s: State, req: Request, decision: Decision): Option<int> {
    var found := FindValidGroup(s.index, req.address);
    if (decision.FromCache? || decision.Scheduled?) && found.Some? && 0 <= decision.choice.index < |found.value.routes|
    then Some(found.value.routes[decision.choice.index].endpoint) else None
  }

  /** What a step adds to the load of an endpoint. */
  ghost function Change(d: Deployment, s: State, step: Step, e: int): int
    requires Valid(s) && Enabled(s, step)
  {
    match step
    case Ask(req, _, _) => if Loaded(s, req, Do(d, s, step).1) == Some(e) then 1 else 0
    case Report(endpoint, consumed) => if endpoint == e then -consumed else 0
    case Callback(_, _) => 0
  }

  /** Decisions for an endpoint minus consumed messages, since the last clear. */
  ghost function Balance(d: Deployment, index: Index, steps: seq<Step>, e: int): int
    requires Runs(d, index, steps)
  {
    if steps == [] then 0 else
    var (front, last) := (steps[..|steps| - 1], steps[|steps| - 1]);
    if last.Callback? && last.operation == DYNAMIC_SCHED then 0
    else Balance(d, index, front, e) + Change(d, Exec(d, index, front), last, e)
  }

  lemma CountDepth(status: Status, endpoint: int, now: int, e: int)
    ensures Depth(Count(status, endpoint, now), e) == Depth(status, e) + if e == endpoint then 1 else 0
  {}

  lemma RequestDepth(s: State, req: Request, clock: nat -> int, end: int, e: int)
    requires Valid(s) && Bounded(s.status)
    ensures var (s', decision) := DoRequest(s, req, clock, end);
            Depth(s'.status, e) == Depth(s.status, e) + if Loaded(s, req, decision) == Some(e) then 1 else 0
  {
    hide Agree, Prune, ScanTo, SingleInstance, Remember, RememberLabel, Count;
    var found := FindValidGroup(s.index, req.address);
    if found.Some? && SingleInstance(found.value.routes).None? {
      var (routes, tag) := (found.value.routes, LabelOf(req));
      if CacheHit(s, tag, |routes|) {
        CountDepth(s.status, routes[s.cache[tag][|routes|].index].endpoint, end, e);
      } else {
        var v := View(s.status, clock, req.deviceId, req.deviceType);
        MultiInstanceEligible(routes);
        ScanChoosesLeastSeen(routes, |routes|, v);
        ScanStatus(routes, |routes|, v);
        var scan := ScanTo(routes, |routes|, v);
        assert Depth(scan.status, e) == Depth(s.status, e);
        CountDepth(scan.status, routes[scan.choice.index].endpoint, end, e);
      }
    }
  }

  lemma StepDepth(d: Deployment, s: State, step: Step, e: int)
    requires Valid(s) && Enabled(s, step)
    ensures Depth(Do(d, s, step).0.status, e) ==
            if step.Callback? && step.operation == DYNAMIC_SCHED then 0 else Depth(s.status, e) + Change(d, s, step, e)
  {
    hide DoRequest, Valid;
    if step.Ask? {
      RequestDepth(s, step.req, step.clock, step.end, e);
    }
  }

  /** In every run the recorded depth of every endpoint is its balance, no record meaning zero. */
  lemma {:induction false} DepthIsBalance(d: Deployment, index: Index, steps: seq<Step>, e: int)
    requires Runs(d, index, steps)
    ensures Depth(Exec(d, index, steps).status, e) == Balance(d, index, steps, e)
  {
    if steps != [] {
      hide Do, Change, Valid, Depth;
      DepthIsBalance(d, index, steps[..|steps| - 1], e);
      StepDepth(d, Exec(d, index, steps[..|steps| - 1]), steps[|steps| - 1], e);
    } else {
      assert Depth(map[], e) == 0;
    }
  }

  // ----- Remembered choices stick -----

  /** A remembered choice survives every step after which its transaction is still remembered. */
  lemma StepKeepsChoice(d: Deployment, s: State, step: Step, tag: Label, size: nat)
    requires Valid(s) && Enabled(s, step) && CacheHit(s, tag, size)
    requires tag.transId in Do(d, s, step).0.cached
    ensures CacheHit(Do(d, s, step).0, tag, size) && Do(d, s, step).0.cache[tag][size] == s.cache[tag][size]
  {
    hide Prune, ScanTo, SingleInstance;
    if step.Ask? && Do(d, s, step).1.Scheduled? {
      var found := FindValidGroup(s.index, step.req.address);
      var (routes, fresh') := (found.value.routes, LabelOf(step.req));
      var v := View(s.status, step.clock, step.req.deviceId, step.req.deviceType);
      MultiInstanceEligible(routes);
      ScanChoosesLeastSeen(routes, |routes|, v);
      var c := ScanTo(routes, |routes|, v).choice;
      RememberKeeps(s.cache, s.cached, fresh', |routes|, c);
      PruneKeeps(Remember(s.cache, fresh', |routes|, c), RememberLabel(s.cached, fresh'));
    }
  }

  /** The transaction is remembered after each of the steps from `n` on. */
  ghost predicate KeepsTransId(d: Deployment, index: Index, steps: seq<Step>, n: nat, transId: nat)
    requires Runs(d, index, steps) && n <= |steps|
  {
    forall i :: n <= i <= |steps| ==> transId in StateAt(d, index, steps, i).cached
  }

  lemma {:induction false} ChoiceSticks(d: Deployment, index: Index, steps: seq<Step>, n: nat, tag: Label, size: nat)
    requires Runs(d, index, steps) && n <= |steps| && CacheHit(StateAt(d, index, steps, n), tag, size)
    requires KeepsTransId(d, index, steps, n, tag.transId)
    ensures CacheHit(Exec(d, index, steps), tag, size)
    ensures Exec(d, index, steps).cache[tag][size] == StateAt(d, index, steps, n).cache[tag][size]
    decreases |steps|
  {
    hide Do, Valid, CacheHit;
    if n == |steps| {
      assert steps[..n] == steps;
    } else {
      var front := steps[..|steps| - 1];
      assert front[..n] == steps[..n];
      forall i | n <= i <= |front| ensures StateAt(d, index, front, i) == StateAt(d, index, steps, i) {
        assert front[..i] == steps[..i];
      }
      ChoiceSticks(d, index, front, n, tag, size);
      assert steps[..|steps|] == steps;
      assert tag.transId in StateAt(d, index, steps, |steps|).cached;
      StepKeepsChoice(d, Exec(d, index, front), steps[|steps| - 1], tag, size);
    }
  }

  /** From the moment a choice is remembered until its transaction is forgotten, every request with
      the same label for a group of the same size that is not decided as single instance gets it. */
  lemma RepeatedRequestSameChoice(d: Deployment, index: Index, steps: seq<Step>, n: nat, req: Request, clock: nat -> int, end: int)
    requires Runs(d, index, steps) && n <= |steps| && Bounded(Exec(d, index, steps).status)
    ensures var (was, s) := (StateAt(d, index, steps, n), Exec(d, index, steps));
            var found := FindValidGroup(s.index, req.address);
            && KeepsTransId(d, index, steps, n, LabelOf(req).transId) && found.Some? && SingleInstance(found.value.routes).None?
            && CacheHit(was, LabelOf(req), |found.value.routes|) ==>
              DoRequest(s, req, clock, end).1 == FromCache(was.cache[LabelOf(req)][|found.value.routes|])
  {
    hide Exec, StateAt, Valid, KeepsTransId;
    var found := FindValidGroup(Exec(d, index, steps).index, req.address);
    if KeepsTransId(d, index, steps, n, LabelOf(req).transId) && found.Some?
      && CacheHit(StateAt(d, index, steps, n), LabelOf(req), |found.value.routes|) {
      ChoiceSticks(d, index, steps, n, LabelOf(req), |found.value.routes|);
    }
  }

  // ----- Redeployment -----

  lemma StepKeepsMarks(d: Deployment, s: State, step: Step, names: set<string>)
    requires Valid(s) && Enabled(s, step) && Avoids(s.index, names)
    ensures Avoids(Do(d, s, step).0.index, names)
  {
    hide Avoids, Agree, Prune, ScanTo, SingleInstance;
    MarkKeepsAvoids(s.index, names, NamesOf(s.abnormal, d.modelId));
  }

  lemma {:induction false} MarksStay(d: Deployment, index: Index, steps: seq<Step>, n: nat, names: set<string>)
    requires Runs(d, index, steps) && n <= |steps| && Avoids(StateAt(d, index, steps, n).index, names)
    ensures Avoids(Exec(d, index, steps).index, names)
    decreases |steps|
  {
    hide Do, Valid, Avoids;
    if n == |steps| {
      assert steps[..n] == steps;
    } else {
      var front := steps[..|steps| - 1];
      assert front[..n] == steps[..n];
      MarksStay(d, index, front, n, names);
      StepKeepsMarks(d, Exec(d, index, front), steps[|steps| - 1], names);
    }
  }

  /** The instance a decision sends to is one of the named ones. */
  ghost predicate SendsTo(s: State, req: Request, c: Choice, names: set<string>) {
    var found := FindValidGroup(s.index, req.address);
    found.Some? && 0 <= c.index < |found.value.routes| && found.value.routes[c.index].instance in names
  }

  ghost predicate HasNormalRoute(s: State, req: Request) {
    var found := FindValidGroup(s.index, req.address);
    found.Some? && exists i :: 0 <= i < |found.value.routes| && found.value.routes[i].isNormal
  }

  /** A schedule decision is for an eligible route of the addressed group. */
  lemma ScheduledIsEligible(s: State, req: Request, clock: nat -> int, end: int)
    requires Valid(s) && Bounded(s.status) && DoRequest(s, req, clock, end).1.Scheduled?
    ensures var (found, c) := (FindValidGroup(s.index, req.address), DoRequest(s, req, clock, end).1.choice);
            && found.Some? && SingleInstance(found.value.routes).None?
            && Names(found.value.routes, c) && Eligible(found.value.routes[c.index])
  {
    hide Prune, Agree;
    var routes := FindValidGroup(s.index, req.address).value.routes;
    MultiInstanceEligible(routes);
    ScanChoosesLeastSeen(routes, |routes|, View(s.status, clock, req.deviceId, req.deviceType));
  }

  lemma DecisionsAvoid(s: State, req: Request, clock: nat -> int, end: int, names: set<string>)
    requires Valid(s) && Bounded(s.status) && Avoids(s.index, names)
    ensures var decision := DoRequest(s, req, clock, end).1;
            && (decision.Scheduled? ==> !SendsTo(s, req, decision.choice, names))
            && (decision.Single? && HasNormalRoute(s, req) ==> !SendsTo(s, req, decision.choice, names))
  {
    hide Avoids, Prune, Agree;
    var (found, decision) := (FindValidGroup(s.index, req.address), DoRequest(s, req, clock, end).1);
    if decision.Scheduled? {
      ScheduledIsEligible(s, req, clock, end);
      GroupAvoids(s.index, names, req.address, decision.choice.index);
    } else if decision.Single? && HasNormalRoute(s, req) {
      SingleInstanceMeaning(found.value.routes);
      GroupAvoids(s.index, names, req.address, decision.choice.index);
    }
  }

  /** Once the dynamic-scheduling callback has run, no later schedule decision, and no later single
      instance decision in a group with a normal route, sends to an instance that had been recorded
      as abnormal by then. */
  lemma RedeploySafety(d: Deployment, index: Index, steps: seq<Step>, n: nat, req: Request, clock: nat -> int, end: int)
    requires Runs(d, index, steps) && n < |steps|
    requires steps[n].Callback? && steps[n].operation == DYNAMIC_SCHED && Bounded(Exec(d, index, steps).status)
    ensures var (names, s) := (NamesOf(StateAt(d, index, steps, n).abnormal, d.modelId), Exec(d, index, steps));
            var decision := DoRequest(s, req, clock, end).1;
            && (decision.Scheduled? ==> !SendsTo(s, req, decision.choice, names))
            && (decision.Single? && HasNormalRoute(s, req) ==> !SendsTo(s, req, decision.choice, names))
  {
    hide Avoids, Valid;
    var before := StateAt(d, index, steps, n);
    var names := NamesOf(before.abnormal, d.modelId);
    assert steps[..n + 1][..n] == steps[..n];
    assert StateAt(d, index, steps, n + 1) == Do(d, before, steps[n]).0;
    MarkAvoids(before.index, names);
    MarksStay(d, index, steps, n + 1, names);
    DecisionsAvoid(Exec(d, index, steps), req, clock, end, names);
  }

  /** Starting a redeployment records every reported name for its model, and with the flag also the
      instances trimmed together with it; recorded names stay recorded. */
  lemma StartRecordsNames(d: Deployment, s: State, names: map<nat, map<string, bool>>, m: nat, name: string)
    requires m in names && name in names[m]
    ensures var s' := DoCallback(d, s, START_REDEPLOY, names);
            && NamesOf(s.abnormal, m) <= NamesOf(s'.abnormal, m) && name in NamesOf(s'.abnormal, m)
            && (names[m][name] ==> forall i, other :: 0 <= i < |d.trimming| && name in d.trimming[i] && other in d.trimming[i] ==>
                  other in NamesOf(s'.abnormal, m))
  {}

  // ----- Remembered choices and redeployment -----

  /** The address each remembered choice was made for. */
  ghost function Origins(d: Deployment, index: Index, steps: seq<Step>): map<(Label, nat), Address>
    requires Runs(d, index, steps)
  {
    if steps == [] then map[] else
    var (front, last) := (steps[..|steps| - 1], steps[|steps| - 1]);
    NextOrigins(d, Exec(d, index, front), last, Origins(d, index, front))
  }

  ghost function NextOrigins(d: Deployment, s: State, step: Step, origins: map<(Label, nat), Address>): map<(Label, nat), Address>
    requires Valid(s) && Enabled(s, step)
  {
    if step.Ask? && Do(d, s, step).1.Scheduled?
    then origins[(LabelOf(step.req), |FindValidGroup(s.index, step.req.address).value.routes|) := step.req.address]
    else origins
  }

  /** Every remembered choice is an eligible route of the multi-instance group it was made for, as that
      group is now. */
  ghost predicate FromOrigin(s: State, origins: map<(Label, nat), Address>) {
    forall tag, size: nat :: CacheHit(s, tag, size) ==> ComesFrom(s, origins, tag, size)
  }

  ghost predicate ComesFrom(s: State, origins: map<(Label, nat), Address>, tag: Label, size: nat)
    requires CacheHit(s, tag, size)
  {
    && (tag, size) in origins
    && var found := FindValidGroup(s.index, origins[(tag, size)]);
       && found.Some? && |found.value.routes| == size && SingleInstance(found.value.routes).None? && Names(found.value.routes, s.cache[tag][size])
       && Eligible(found.value.routes[s.cache[tag][size].index])
  }

  lemma RememberEffect(cache: Cache, tag0: Label, size0: nat, c: Choice, tag: Label, size: nat)
    requires tag in Remember(cache, tag0, size0, c) && size in Remember(cache, tag0, size0, c)[tag]
    ensures if tag == tag0 && size == size0 then Remember(cache, tag0, size0, c)[tag][size] == c
            else tag in cache && size in cache[tag] && Remember(cache, tag0, size0, c)[tag][size] == cache[tag][size]
  {}

  lemma ScheduleEffect(s: State, req: Request, clock: nat -> int, end: int)
    requires Valid(s) && Bounded(s.status) && DoRequest(s, req, clock, end).1.Scheduled?
    ensures var s' := DoRequest(s, req, clock, end).0;
            var (tag0, size0) := (LabelOf(req), |FindValidGroup(s.index, req.address).value.routes|);
            && s'.index == s.index
            && forall tag, size: nat :: CacheHit(s', tag, size) ==>
                 if tag == tag0 && size == size0 then s'.cache[tag][size] == DoRequest(s, req, clock, end).1.choice
                 else CacheHit(s, tag, size) && s'.cache[tag][size] == s.cache[tag][size]
  {
    hide Prune, ScanTo, SingleInstance, Remember, RememberLabel, Agree, InRange, LabelOf, Count;
    var routes, tag0 := FindValidGroup(s.index, req.address).value.routes, LabelOf(req);
    hide FindValidGroup;
    var v := View(s.status, clock, req.deviceId, req.deviceType);
    MultiInstanceEligible(routes);
    ScanChoosesLeastSeen(routes, |routes|, v);
    var c := ScanTo(routes, |routes|, v).choice;
    RememberKeeps(s.cache, s.cached, tag0, |routes|, c);
    PruneKeeps(Remember(s.cache, tag0, |routes|, c), RememberLabel(s.cached, tag0));
    var s' := DoRequest(s, req, clock, end).0;
    forall tag, size: nat | CacheHit(s', tag, size)
      ensures if tag == tag0 && size == |routes| then s'.cache[tag][size] == c
              else CacheHit(s, tag, size) && s'.cache[tag][size] == s.cache[tag][size]
    {
      RememberEffect(s.cache, tag0, |routes|, c, tag, size);
    }
  }

  lemma {:induction false} ChoicesComeFromOrigins(d: Deployment, index: Index, steps: seq<Step>)
    requires Runs(d, index, steps)
    ensures FromOrigin(Exec(d, index, steps), Origins(d, index, steps))
  {
    hide Do, Valid, FromOrigin, NextOrigins;
    if steps == [] {
      assert FromOrigin(Init(index), map[]) by { NothingRemembered(index); }
    } else {
      var front := steps[..|steps| - 1];
      ChoicesComeFromOrigins(d, index, front);
      StepKeepsOrigins(d, Exec(d, index, front), steps[|steps| - 1], Origins(d, index, front));
    }
  }

  lemma NothingRemembered(index: Index)
    ensures FromOrigin(Init(index), map[])
  {}

  lemma StepKeepsOrigins(d: Deployment, s: State, step: Step, origins: map<(Label, nat), Address>)
    requires Valid(s) && Enabled(s, step) && FromOrigin(s, origins)
    ensures FromOrigin(Do(d, s, step).0, NextOrigins(d, s, step, origins))
  {
    if step.Ask? && Do(d, s, step).1.Scheduled? {
      ScheduleKeepsOrigins(d, s, step, origins);
    } else {
      hide Do;
      QuietStep(d, s, step);
      var s' := Do(d, s, step).0;
      forall tag, size: nat | CacheHit(s', tag, size) ensures ComesFrom(s', origins, tag, size) {
        assert CacheHit(s, tag, size) && ComesFrom(s, origins, tag, size);
      }
    }
  }

  /** Only a schedule decision remembers anything. */
  lemma QuietStep(d: Deployment, s: State, step: Step)
    requires Valid(s) && Enabled(s, step) && !(step.Ask? && Do(d, s, step).1.Scheduled?)
    ensures var s' := Do(d, s, step).0; s'.cache == map[] || (s'.cache == s.cache && s'.index == s.index)
  {
    hide DoRequest, Valid;
    if step.Ask? {
      QuietRequest(s, step.req, step.clock, step.end);
    }
  }

  lemma QuietRequest(s: State, req: Request, clock: nat -> int, end: int)
    requires Valid(s) && Bounded(s.status) && !DoRequest(s, req, clock, end).1.Scheduled?
    ensures var s' := DoRequest(s, req, clock, end).0; s'.cache == s.cache && s'.index == s.index
  {
    hide Agree, Prune, ScanTo, SingleInstance, FindValidGroup, Count, Remember, RememberLabel, LabelOf;
  }

  lemma ScheduleKeepsOrigins(d: Deployment, s: State, step: Step, origins: map<(Label, nat), Address>)
    requires Valid(s) && Enabled(s, step) && FromOrigin(s, origins) && step.Ask? && Do(d, s, step).1.Scheduled?
    ensures FromOrigin(Do(d, s, step).0, NextOrigins(d, s, step, origins))
  {
    hide DoRequest, FindValidGroup;
    var s', origins' := Do(d, s, step).0, NextOrigins(d, s, step, origins);
    ScheduleEffect(s, step.req, step.clock, step.end);
    ScheduledIsEligible(s, step.req, step.clock, step.end);
    forall tag, size: nat | CacheHit(s', tag, size) ensures ComesFrom(s', origins', tag, size) {
      if !(tag == LabelOf(step.req) && size == |FindValidGroup(s.index, step.req.address).value.routes|) {
        assert ComesFrom(s, origins, tag, size);
      }
    }
  }

  /** A choice that is repeated for the very group it was made for is a normal main route, so that it
      too avoids every instance marked before. */
  lemma CachedChoiceSameGroup(d: Deployment, index: Index, steps: seq<Step>, req: Request, clock: nat -> int, end: int, names: set<string>)
    requires Runs(d, index, steps) && Bounded(Exec(d, index, steps).status) && Avoids(Exec(d, index, steps).index, names)
    ensures var (s, found) := (Exec(d, index, steps), FindValidGroup(Exec(d, index, steps).index, req.address));
            var decision := DoRequest(s, req, clock, end).1;
            decision.FromCache? && MadeFor(Origins(d, index, steps), req, |found.value.routes|) ==>
              && Names(found.value.routes, decision.choice) && Eligible(found.value.routes[decision.choice.index])
              && !SendsTo(s, req, decision.choice, names)
  {
    hide Exec, Origins, Avoids, Prune, Agree;
    ChoicesComeFromOrigins(d, index, steps);
    var s := Exec(d, index, steps);
    if DoRequest(s, req, clock, end).1.FromCache? {
      var size := |FindValidGroup(s.index, req.address).value.routes|;
      if MadeFor(Origins(d, index, steps), req, size) {
        assert ComesFrom(s, Origins(d, index, steps), LabelOf(req), size);
        GroupAvoids(s.index, names, req.address, s.cache[LabelOf(req)][size].index);
      }
    }
  }

  /** The choice remembered for the label and group size was made for this very group. */
  ghost predicate MadeFor(origins: map<(Label, nat), Address>, req: Request, size: nat) {
    (LabelOf(req), size) in origins && origins[(LabelOf(req), size)] == req.address
  }

  // ----- The same label in another group of the same size -----

  const GROUP_A: Group := Group(0, [Route(0, 10, "a0", true, false), Route(1, 11, "a1", true, false), Route(2, 12, "a2", true, false)])
  const GROUP_B: Group := Group(0, [Route(0, 20, "b0", false, false), Route(1, 21, "b1", true, false), Route(2, 22, "b2", true, false)])
  const TWO_GROUPS: Index := map[0 := map[0 := Source("s", true, map[0 := GROUP_A, 1 := GROUP_B])]]

  function AskFor(groupId: int): Request {
    Request(Address(0, 0, groupId), 1, 1, 0, 0, 0, 0)
  }

  lemma TwoEligible(routes: seq<Route>)
    requires |routes| == 3 && Eligible(routes[1]) && Eligible(routes[2])
    ensures SingleInstance(routes).None?
  {
    SingleInstanceMeaning(routes);
  }

  lemma FirstAskTakesIndexZero()
    ensures Bounded(Init(TWO_GROUPS).status)
    ensures var (s, decision) := DoRequest(Init(TWO_GROUPS), AskFor(0), _ => 0, 0);
            decision.Scheduled? && decision.choice.index == 0 && s.index == TWO_GROUPS && Bounded(s.status)
            && CacheHit(s, Label(1, 1), 3) && s.cache[Label(1, 1)][3].index == 0
  {
    var s0, routes := Init(TWO_GROUPS), GROUP_A.routes;
    TwoEligible(routes);
    var v := View(s0.status, _ => 0, 0, 0);
    assert ScanTo(routes, 1, v).choice.index == 0 && ScanTo(routes, 1, v).depth == 0;
    assert ScanTo(routes, 2, v).choice.index == 0 && ScanTo(routes, 2, v).depth == 0;
    var scan := ScanTo(routes, 3, v);
    assert scan.choice.index == 0;
    assert FindValidGroup(s0.index, AskFor(0).address) == Some(GROUP_A);
    ScanStatus(routes, 3, v);
    var cache, cached := Remember(s0.cache, Label(1, 1), 3, scan.choice), RememberLabel(s0.cached, Label(1, 1));
    assert |cached.Keys| == |{1 as nat}| == 1;
    assert Prune(cache, cached) == (cache, cached);
  }

  /** Choices are remembered by group size and not by group: a label that was scheduled in one group
      is sent to the same index of another group of that size, although the route there is abnormal.
      Hence the condition on the origin in the lemma before. */
  lemma CachedChoiceOtherGroup()
    ensures Bounded(Init(TWO_GROUPS).status)
    ensures var s := DoRequest(Init(TWO_GROUPS), AskFor(0), _ => 0, 0).0;
            && Valid(s) && Bounded(s.status)
            && var decision := DoRequest(s, AskFor(1), _ => 0, 0).1;
               decision.FromCache? && !GROUP_B.routes[decision.choice.index].isNormal
  {
    FirstAskTakesIndexZero();
    RequestKeepsValid(Init(TWO_GROUPS), AskFor(0), _ => 0, 0);
    hide DoRequest;
    var s := DoRequest(Init(TWO_GROUPS), AskFor(0), _ => 0, 0).0;
    CachedAnswer(s);
  }

  lemma CachedAnswer(s: State)
    requires Valid(s) && Bounded(s.status) && s.index == TWO_GROUPS
    requires CacheHit(s, Label(1, 1), 3) && s.cache[Label(1, 1)][3].index == 0
    ensures var decision := DoRequest(s, AskFor(1), _ => 0, 0).1; decision.FromCache? && decision.choice.index == 0
  {
    hide Prune, ScanTo;
    TwoEligible(GROUP_B.routes);
    assert FindValidGroup(s.index, AskFor(1).address) == Some(GROUP_B);
  }
}
