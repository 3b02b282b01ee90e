/** Runs of the scheduler that go wrong, and exactly when there are none: remembered choices that are
    used in another group, and scans that judge a route by another one's depth. */
module RememberedRoutes {
  import opened Ordered
  import opened RouteChoice
  import opened SchedulerModel
  import opened SchedulerRuns

  /** The address has a group that is not decided as single instance. */
  ghost predicate Multi(index: Index, a: Address) {
    var found := FindValidGroup(index, a);
    found.Some? && SingleInstance(found.value.routes).None?
  }

  ghost function RoutesAt(index: Index, a: Address): seq<Route>
    requires FindValidGroup(index, a).Some?
  {
    FindValidGroup(index, a).value.routes
  }

  // ----- A run of reports, and the request after it -----

  /** Reports alone lead to a record of depth -1 for each of the endpoints. */
  lemma {:induction false} ReportsReach(d: Deployment, index: Index, recorded: set<int>) returns (steps: seq<Step>)
    ensures Runs(d, index, steps) && forall i :: 0 <= i < |steps| ==> steps[i].Report?
    ensures Exec(d, index, steps) == Init(index).(status := Overdrawn(recorded))
    decreases |recorded|
  {
    if recorded == {} {
      steps := [];
      assert Overdrawn({}) == map[];
    } else {
      IntOrder();
      var e := LeastExists(recorded, IntLe);
      var front := ReportsReach(d, index, recorded - {e});
      steps := front + [Report(e, 1)];
      ReportNext(d, index, front, recorded, e);
    }
  }

  lemma ReportNext(d: Deployment, index: Index, front: seq<Step>, recorded: set<int>, e: int)
    requires Runs(d, index, front) && e in recorded
    requires Exec(d, index, front) == Init(index).(status := Overdrawn(recorded - {e}))
    ensures Runs(d, index, front + [Report(e, 1)])
    ensures Exec(d, index, front + [Report(e, 1)]) == Init(index).(status := Overdrawn(recorded))
  {
    hide DoRequest, DoCallback, Valid;
    var steps := front + [Report(e, 1)];
    assert steps[..|steps| - 1] == front && steps[|steps| - 1] == Report(e, 1);
    assert Overdrawn(recorded - {e})[e := NO_RECORD.(depth := -1)] == Overdrawn(recorded);
  }

  function AskAt(a: Address): Request {
    Request(a, 1, 1, 0, 0, 0, 0)
  }

  const TAG: Label := Label(1, 1)

  lemma OverdrawnBounded(recorded: set<int>)
    ensures Bounded(Overdrawn(recorded))
  {}

  /** After reports alone, a request goes to the route that is seen with depth -1 when the clock ticks,
      and this choice is remembered. */
  lemma TickDecides(index: Index, a: Address, recorded: set<int>, i: nat)
    requires Multi(index, a) && i < |RoutesAt(index, a)| && Eligible(RoutesAt(index, a)[i])
    requires Seen(RoutesAt(index, a), i, Tricky(recorded, i)) == -1
    ensures Bounded(Overdrawn(recorded))
    ensures var (s', decision) := DoRequest(Init(index).(status := Overdrawn(recorded)), AskAt(a), TickAt(i), 1);
            && decision.Scheduled? && decision.choice.index == i && s'.index == index && Bounded(s'.status)
            && CacheHit(s', TAG, |RoutesAt(index, a)|) && s'.cache[TAG][|RoutesAt(index, a)|].index == i
  {
    hide SingleInstance, FindValidGroup, ScanTo, Seen;
    OverdrawnBounded(recorded);
    var s, routes, v := Init(index).(status := Overdrawn(recorded)), RoutesAt(index, a), Tricky(recorded, i);
    AfterTick(routes, recorded, v, i, |routes|);
    ScanStatus(routes, |routes|, v);
    var scan := ScanTo(routes, |routes|, v);
    var cache, cached := Remember(s.cache, TAG, |routes|, scan.choice), RememberLabel(s.cached, TAG);
    assert |cached.Keys| == |{1 as nat}| == 1;
    assert Prune(cache, cached) == (cache, cached);
  }

  lemma RecordedSeen(routes: seq<Route>, recorded: set<int>, v: View, i: nat)
    requires i < |routes| && v.status == Overdrawn(recorded) && Eligible(routes[i]) && routes[i].endpoint in recorded
    ensures Seen(routes, i, v) == -1
  {
    ScanStatus(routes, i, v);
  }

  // ----- Remembered choices in groups of the same size -----

  /** Wherever a multi-instance group of the same size has an eligible route, so has this one. */
  ghost predicate CoversTwins(index: Index, a: Address) {
    && Multi(index, a)
    && forall b :: Multi(index, b) ==> Covers(index, a, b)
  }

  ghost predicate Covers(index: Index, a: Address, b: Address)
    requires Multi(index, a) && Multi(index, b)
  {
    var (ours, theirs) := (RoutesAt(index, a), RoutesAt(index, b));
    |ours| == |theirs| ==> forall i :: 0 <= i < |theirs| && Eligible(theirs[i]) ==> Eligible(ours[i])
  }

  /** A remembered answer at the end of a run is an eligible route of the addressed group. */
  ghost predicate AnswerEligible(d: Deployment, index: Index, steps: seq<Step>, req: Request, clock: nat -> int, end: int)
    requires Runs(d, index, steps) && Bounded(Exec(d, index, steps).status)
  {
    var s := Exec(d, index, steps);
    var (found, decision) := (FindValidGroup(s.index, req.address), DoRequest(s, req, clock, end).1);
    decision.FromCache? ==>
      && found.Some? && 0 <= decision.choice.index < |found.value.routes|
      && Eligible(found.value.routes[decision.choice.index])
  }

  lemma CoveredHit(s: State, origins: map<(Label, nat), Address>, tag: Label, a: Address)
    requires FromOrigin(s, origins) && CoversTwins(s.index, a) && CacheHit(s, tag, |RoutesAt(s.index, a)|)
    ensures var (routes, i) := (RoutesAt(s.index, a), s.cache[tag][|RoutesAt(s.index, a)|].index);
            0 <= i < |routes| && Eligible(routes[i])
  {
    hide FindValidGroup, SingleInstance;
    var size := |RoutesAt(s.index, a)|;
    assert ComesFrom(s, origins, tag, size);
    assert Covers(s.index, a, origins[(tag, size)]);
  }

  /** In every run, callbacks included: a remembered answer to a group that covers its twins is a normal
      main route there, so that it avoids every instance marked before. */
  lemma CoveredAnswer(d: Deployment, index: Index, steps: seq<Step>, req: Request, clock: nat -> int, end: int, names: set<string>)
    requires Runs(d, index, steps) && Bounded(Exec(d, index, steps).status)
    ensures var s := Exec(d, index, steps);
            CoversTwins(s.index, req.address) ==>
              && AnswerEligible(d, index, steps, req, clock, end)
              && (Avoids(s.index, names) && DoRequest(s, req, clock, end).1.FromCache? ==>
                    !SendsTo(s, req, DoRequest(s, req, clock, end).1.choice, names))
  {
    hide Exec, Origins, FromOrigin, Covers, Avoids, Prune, Valid, SingleInstance, ScanTo, FindValidGroup;
    var s := Exec(d, index, steps);
    if CoversTwins(s.index, req.address) && DoRequest(s, req, clock, end).1.FromCache? {
      ChoicesComeFromOrigins(d, index, steps);
      CoveredHit(s, Origins(d, index, steps), LabelOf(req), req.address);
      if Avoids(s.index, names) {
        GroupAvoids(s.index, names, req.address, s.cache[LabelOf(req)][|RoutesAt(s.index, req.address)|].index);
      }
    }
  }

  /** As long as no instance has been marked, remembered answers for the address are eligible routes. */
  ghost predicate AlwaysEligible(d: Deployment, index: Index, a: Address) {
    forall steps: seq<Step>, req: Request, clock: nat -> int, end: int ::
      Runs(d, index, steps) && Exec(d, index, steps).index == index && Bounded(Exec(d, index, steps).status) && req.address == a ==>
        AnswerEligible(d, index, steps, req, clock, end)
  }

  /** A route that another group of the same size lacks is remembered there and answered here. */
  lemma TwinMisleads(d: Deployment, index: Index, a: Address, b: Address, i: nat)
    requires Multi(index, a) && Multi(index, b) && i < |RoutesAt(index, a)| == |RoutesAt(index, b)|
    requires Eligible(RoutesAt(index, b)[i]) && !Eligible(RoutesAt(index, a)[i])
    ensures !AlwaysEligible(d, index, a)
  {
    hide DoRequest, SingleInstance, Seen;
    var recorded := {RoutesAt(index, b)[i].endpoint};
    var front := ReportsReach(d, index, recorded);
    RecordedSeen(RoutesAt(index, b), recorded, Tricky(recorded, i), i);
    TickDecides(index, b, recorded, i);
    var steps := front + [Ask(AskAt(b), TickAt(i), 1)];
    assert steps[..|steps| - 1] == front;
    var s := Exec(d, index, steps);
    RememberedAnswer(s, a, i);
    assert !AnswerEligible(d, index, steps, AskAt(a), TickAt(i), 1);
  }

  lemma RememberedAnswer(s: State, a: Address, i: nat)
    requires Valid(s) && Bounded(s.status) && Multi(s.index, a) && CacheHit(s, TAG, |RoutesAt(s.index, a)|)
    requires s.cache[TAG][|RoutesAt(s.index, a)|].index == i
    ensures var decision := DoRequest(s, AskAt(a), TickAt(i), 1).1; decision.FromCache? && decision.choice.index == i
  {
    hide Prune, ScanTo, SingleInstance, FindValidGroup;
  }

  /** Remembered answers for an address are sure to be eligible routes exactly when its group has an
      eligible route wherever a multi-instance group of the same size has one. */
  lemma RememberedEligibleIff(d: Deployment, index: Index, a: Address)
    ensures AlwaysEligible(d, index, a) <==> (Multi(index, a) ==> CoversTwins(index, a))
  {
    hide FindValidGroup, SingleInstance, Exec, AnswerEligible;
    if Multi(index, a) && !CoversTwins(index, a) {
      var b :| Multi(index, b) && !Covers(index, a, b);
      var i: nat :| i < |RoutesAt(index, b)| && Eligible(RoutesAt(index, b)[i]) && !Eligible(RoutesAt(index, a)[i]);
      TwinMisleads(d, index, a, b, i);
    } else {
      forall steps: seq<Step>, req: Request, clock: nat -> int, end: int |
        Runs(d, index, steps) && Exec(d, index, steps).index == index && Bounded(Exec(d, index, steps).status) && req.address == a
        ensures AnswerEligible(d, index, steps, req, clock, end)
      {
        if Multi(index, a) {
          CoveredAnswer(d, index, steps, req, clock, end, {});
        } else {
          NoAnswer(d, index, steps, req, clock, end);
        }
      }
    }
  }

  lemma NoAnswer(d: Deployment, index: Index, steps: seq<Step>, req: Request, clock: nat -> int, end: int)
    requires Runs(d, index, steps) && Bounded(Exec(d, index, steps).status) && !Multi(Exec(d, index, steps).index, req.address)
    ensures AnswerEligible(d, index, steps, req, clock, end)
  {
    hide Exec, Prune, ScanTo, SingleInstance, FindValidGroup;
  }

  // ----- Stale reads in runs -----

  /** A schedule decision at the end of a run is for a least loaded route of the addressed group. */
  ghost predicate AnswerLeastLoaded(d: Deployment, index: Index, steps: seq<Step>, req: Request, clock: nat -> int, end: int)
    requires Runs(d, index, steps) && Bounded(Exec(d, index, steps).status)
  {
    var s := Exec(d, index, steps);
    var (found, decision) := (FindValidGroup(s.index, req.address), DoRequest(s, req, clock, end).1);
    decision.Scheduled? ==> found.Some? && LeastLoaded(found.value.routes, s.status, decision.choice.index)
  }

  lemma NoStaleAnswer(d: Deployment, index: Index, steps: seq<Step>, req: Request, clock: nat -> int, end: int)
    requires Runs(d, index, steps) && Bounded(Exec(d, index, steps).status) && Multi(Exec(d, index, steps).index, req.address)
    requires var s := Exec(d, index, steps);
             var routes := RoutesAt(s.index, req.address); NoStaleRead(routes, s.status.Keys, |routes|)
    ensures AnswerLeastLoaded(d, index, steps, req, clock, end)
  {
    hide Exec, Prune, Agree, ScanTo, SingleInstance, NoStaleRead, LeastLoaded;
    var s := Exec(d, index, steps);
    var routes := RoutesAt(s.index, req.address);
    MultiInstanceEligible(routes);
    ScheduleLeastLoaded(routes, View(s.status, clock, req.deviceId, req.deviceType));
  }

  /** Every stale read that the records allow goes wrong in some run, which consists of reports. */
  lemma StaleReadHappens(d: Deployment, index: Index, a: Address, recorded: set<int>)
    returns (steps: seq<Step>, i: nat)
    requires Multi(index, a) && !NoStaleRead(RoutesAt(index, a), recorded, |RoutesAt(index, a)|)
    ensures Runs(d, index, steps) && forall j :: 0 <= j < |steps| ==> steps[j].Report?
    ensures var s := Exec(d, index, steps);
            && s.index == index && s.status.Keys == recorded && Bounded(s.status)
            && DoRequest(s, AskAt(a), TickAt(i), 1).1.Scheduled? && !AnswerLeastLoaded(d, index, steps, AskAt(a), TickAt(i), 1)
  {
    hide DoRequest, SingleInstance, FindValidGroup, NoStaleRead, LeastLoaded, ScanTo;
    var routes := RoutesAt(index, a);
    steps := ReportsReach(d, index, recorded);
    i := StaleReadMisleads(routes, recorded);
    TickDecides(index, a, recorded, i);
  }

  ghost predicate AlwaysLeastLoadedInRuns(d: Deployment, index: Index, a: Address, recorded: set<int>) {
    forall steps: seq<Step>, req: Request, clock: nat -> int, end: int ::
      && Runs(d, index, steps) && Exec(d, index, steps).index == index && Exec(d, index, steps).status.Keys == recorded
      && Bounded(Exec(d, index, steps).status) && req.address == a ==>
        AnswerLeastLoaded(d, index, steps, req, clock, end)
  }

  /** Over all runs that leave records for exactly the given endpoints: schedule decisions for a group
      are sure to be for a least loaded route exactly when the group allows no stale read. */
  lemma ScheduledLeastLoadedIff(d: Deployment, index: Index, a: Address, recorded: set<int>)
    requires Multi(index, a)
    ensures AlwaysLeastLoadedInRuns(d, index, a, recorded) <==>
            NoStaleRead(RoutesAt(index, a), recorded, |RoutesAt(index, a)|)
  {
    hide FindValidGroup, SingleInstance, Exec, AnswerLeastLoaded, NoStaleRead, DoRequest;
    if NoStaleRead(RoutesAt(index, a), recorded, |RoutesAt(index, a)|) {
      forall steps: seq<Step>, req: Request, clock: nat -> int, end: int |
        && Runs(d, index, steps) && Exec(d, index, steps).index == index && Exec(d, index, steps).status.Keys == recorded
        && Bounded(Exec(d, index, steps).status) && req.address == a
        ensures AnswerLeastLoaded(d, index, steps, req, clock, end)
      {
        NoStaleAnswer(d, index, steps, req, clock, end);
      }
    } else {
      var steps, i := StaleReadHappens(d, index, a, recorded);
      assert !AnswerLeastLoaded(d, index, steps, AskAt(a), TickAt(i), 1);
    }
  }

  // ----- Two routes -----

  const TWO_ROUTES: seq<Route> := [Route(0, 10, "r0", true, false), Route(1, 11, "r1", true, false)]
  const ONE_GROUP: Index := map[0 := map[0 := Source("s", true, map[0 := Group(0, TWO_ROUTES)])]]
  const GROUP: Address := Address(0, 0, 0)

  /** One report for the first of two routes is enough: its depth is -1, and the request goes to the
      second one. */
  lemma StaleReadOfTwo(d: Deployment)
    ensures !AlwaysLeastLoadedInRuns(d, ONE_GROUP, GROUP, {10})
  {
    assert FindValidGroup(ONE_GROUP, GROUP) == Some(Group(0, TWO_ROUTES));
    SingleInstanceMeaning(TWO_ROUTES);
    assert Eligible(TWO_ROUTES[0]) && Eligible(TWO_ROUTES[1]);
    assert LastEligible(TWO_ROUTES, 1) == Some(0);
    assert StaleAt(TWO_ROUTES, {10}, 1);
    ScheduledLeastLoadedIff(d, ONE_GROUP, GROUP, {10});
  }
}
