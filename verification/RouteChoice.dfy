/** The choice of a route within a group of destinations: the single remaining instance, or the
    least loaded one by a scan over the routes that reads and completes the queue status map. */
module RouteChoice {
  import opened Ordered

  datatype Route = Route(entryIndex: int, endpoint: int, instance: string, isNormal: bool, isRedundant: bool)

  datatype Choice = Choice(index: int, instance: string)

  /** The status kept for an endpoint: its depth and the time of the last decision for it. */
  datatype Record = Record(depth: int, modelUuid: nat, deviceId: int, deviceType: int, time: int)

  type Status = map<int, Record>

  const NO_RECORD: Record := Record(0, 0, 0, 0, 0)
  const INT32_MAX: int := 0x7FFF_FFFF
  const U64: int := 0x1_0000_0000_0000_0000

  predicate Eligible(r: Route) {
    r.isNormal && !r.isRedundant
  }

  // ----- Single instance -----

  /** What the survey of a group has seen: how many normal main routes, the last one of them, and
      the last normal redundant route. */
  datatype Survey = Survey(mains: nat, main: Choice, redundant: Choice)

  const DEFAULT_CHOICE: Choice := Choice(0, "")

  function SurveyOf(routes: seq<Route>): (s: Survey) {
    if routes == [] then Survey(0, DEFAULT_CHOICE, DEFAULT_CHOICE)
    else
      var n := |routes| - 1;
      var s, r := SurveyOf(routes[..n]), routes[n];
      if !r.isNormal then s
      else if r.isRedundant then s.(redundant := Choice(n, r.instance))
      else s.(mains := s.mains + 1, main := Choice(n, r.instance))
  }

  function SingleInstance(routes: seq<Route>): (c: Option<Choice>) {
    var s := SurveyOf(routes);
    if s.mains > 1 then None else Some(if s.mains == 1 then s.main else s.redundant)
  }

  method FindGroupEntryIndexInSingleInstance(routes: seq<Route>) returns (c: Option<Choice>)
    ensures c == SingleInstance(routes)
  {
    var mains, main, redundant := 0, DEFAULT_CHOICE, DEFAULT_CHOICE;
    for i := 0 to |routes|
      invariant Survey(mains, main, redundant) == SurveyOf(routes[..i])
    {
      assert routes[..i + 1][..i] == routes[..i];
      if !routes[i].isNormal {
        continue;
      }
      if routes[i].isRedundant {
        redundant := Choice(i, routes[i].instance);
        continue;
      }
      main := Choice(i, routes[i].instance);
      mains := mains + 1;
    }
    assert routes[..|routes|] == routes;
    if mains > 1 {
      return None;
    }
    return Some(if mains == 1 then main else redundant);
  }

  ghost predicate Names(routes: seq<Route>, c: Choice) {
    0 <= c.index < |routes| && c.instance == routes[c.index].instance
  }

  lemma {:induction false} SurveyMeaning(routes: seq<Route>)
    ensures var s := SurveyOf(routes);
            && (s.mains == 0 <==> forall i :: 0 <= i < |routes| ==> !Eligible(routes[i]))
            && (s.mains > 0 ==> Names(routes, s.main) && Eligible(routes[s.main.index]))
            && (s.mains == 1 ==> forall i :: 0 <= i < |routes| && Eligible(routes[i]) ==> i == s.main.index)
            && (s.mains > 1 ==> exists i, j :: 0 <= i < j < |routes| && Eligible(routes[i]) && Eligible(routes[j]))
  {
    if routes != [] {
      var n := |routes| - 1;
      var front := routes[..n];
      SurveyMeaning(front);
      assert forall i :: 0 <= i < n ==> routes[i] == front[i];
      var s := SurveyOf(front);
      if Eligible(routes[n]) && s.mains > 0 {
        assert Eligible(front[s.main.index]) && Eligible(routes[s.main.index]);
      }
    }
  }

  lemma {:induction false} SurveyRedundant(routes: seq<Route>)
    ensures var s := SurveyOf(routes);
            && ((exists i :: 0 <= i < |routes| && routes[i].isNormal && routes[i].isRedundant) ==>
                  && Names(routes, s.redundant) && routes[s.redundant.index].isNormal && routes[s.redundant.index].isRedundant
                  && forall j :: s.redundant.index < j < |routes| ==> !(routes[j].isNormal && routes[j].isRedundant))
            && ((forall i :: 0 <= i < |routes| ==> !(routes[i].isNormal && routes[i].isRedundant)) ==> s.redundant == DEFAULT_CHOICE)
  {
    if routes != [] {
      var n := |routes| - 1;
      var front := routes[..n];
      SurveyRedundant(front);
      assert forall i :: 0 <= i < n ==> routes[i] == front[i];
    }
  }

  /** The survey decides for a single instance exactly when at most one main route is normal; a
      group with a normal route then gets a normal one, main before redundant, and a group without
      any falls back to index 0. */
  lemma SingleInstanceMeaning(routes: seq<Route>)
    ensures var c := SingleInstance(routes);
            && (c.None? <==> exists i, j :: 0 <= i < j < |routes| && Eligible(routes[i]) && Eligible(routes[j]))
            && (c.Some? && (exists i :: 0 <= i < |routes| && routes[i].isNormal) ==>
                  Names(routes, c.value) && routes[c.value.index].isNormal)
            && (c.Some? && (exists i :: 0 <= i < |routes| && Eligible(routes[i])) ==> Eligible(routes[c.value.index]))
            && (c.Some? && (exists i :: 0 <= i < |routes| && routes[i].isNormal)
                && (forall i :: 0 <= i < |routes| ==> !Eligible(routes[i])) ==>
                  && routes[c.value.index].isRedundant
                  && forall j :: c.value.index < j < |routes| ==> !routes[j].isNormal)
            && ((forall i :: 0 <= i < |routes| ==> !routes[i].isNormal) ==> c == Some(Choice(0, "")))
  {
    SurveyMeaning(routes);
    SurveyRedundant(routes);
  }

  // ----- Least depth -----

  /** The running variables of the scan over the routes. */
  datatype Scan = Scan(status: Status, curDepth: int, depth: int, duration: int, choice: Choice)

  function Begin(status: Status): Scan {
    Scan(status, 0, INT32_MAX, 0, Choice(INT32_MAX, ""))
  }

  /** Elapsed time as a 64-bit unsigned difference. */
  function Duration(now: int, time: int): int {
    (now - time) % U64
  }

  function DefaultRecord(deviceId: int, deviceType: int): Record {
    Record(0, 0, deviceId, deviceType, 0)
  }

  /** One round of the scan. A route without a record gets the default one, but the depth variable
      keeps the value of the round before. */
  function Visit(s: Scan, r: Route, i: nat, now: int, deviceId: int, deviceType: int): Scan {
    if !Eligible(r) then s else
    var known := r.endpoint in s.status;
    var status := if known then s.status else s.status[r.endpoint := DefaultRecord(deviceId, deviceType)];
    var cur := if known then s.status[r.endpoint].depth else s.curDepth;
    var duration := Duration(now, status[r.endpoint].time);
    var here := Choice(i, r.instance);
    if cur < s.depth then Scan(status, cur, cur, duration, here)
    else if cur == s.depth && duration > s.duration then Scan(status, cur, s.depth, duration, here)
    else Scan(status, cur, s.depth, s.duration, s.choice)
  }

  /** What the scan starts from: the status map, the time read in each round and the device that new
      records are attributed to. */
  datatype View = View(status: Status, clock: nat -> int, deviceId: int, deviceType: int)

  /** The scan over the first `n` routes. */
  function ScanTo(routes: seq<Route>, n: nat, v: View): Scan
    requires n <= |routes|
  {
    if n == 0 then Begin(v.status)
    else Visit(ScanTo(routes, n - 1, v), routes[n - 1], n - 1, v.clock(n - 1), v.deviceId, v.deviceType)
  }

  /** Counts the decision for an endpoint and remembers when it was made. */
  function Count(status: Status, endpoint: int, now: int): Status {
    var r := if endpoint in status then status[endpoint] else NO_RECORD;
    status[endpoint := r.(depth := r.depth + 1, time := now)]
  }

  method FindGroupEntryIndexBySchedule(routes: seq<Route>, v: View) returns (s: Status, c: Choice)
    ensures var scan := ScanTo(routes, |routes|, v); s == scan.status && c == scan.choice
  {
    s, c := v.status, Choice(INT32_MAX, "");
    var depth, curDepth, duration := INT32_MAX, 0, 0;
    for i := 0 to |routes|
      invariant Scan(s, curDepth, depth, duration, c) == ScanTo(routes, i, v)
    {
      var r := routes[i];
      if !r.isNormal || r.isRedundant {
        continue;
      }
      if r.endpoint !in s {
        s := s[r.endpoint := DefaultRecord(v.deviceId, v.deviceType)];
      } else {
        curDepth := s[r.endpoint].depth;
      }
      if curDepth < depth {
        depth := curDepth;
        c := Choice(i, r.instance);
        duration := Duration(v.clock(i), s[r.endpoint].time);
      } else if curDepth == depth {
        var cur := Duration(v.clock(i), s[r.endpoint].time);
        if cur > duration {
          duration := cur;
          c := Choice(i, r.instance);
        }
      }
    }
  }

  // ----- What the scan does to the status map -----

  ghost predicate Bounded(status: Status) {
    forall e :: e in status ==> status[e].depth < INT32_MAX
  }

  ghost predicate Visited(routes: seq<Route>, n: nat, endpoint: int)
    requires n <= |routes|
  {
    exists i :: 0 <= i < n && Eligible(routes[i]) && routes[i].endpoint == endpoint
  }

  /** The scan adds the default record for exactly the eligible endpoints that have none. */
  lemma {:induction false} ScanStatus(routes: seq<Route>, n: nat, v: View)
    requires n <= |routes|
    ensures var status := ScanTo(routes, n, v).status;
            && (forall e :: e in status <==> e in v.status || Visited(routes, n, e))
            && (forall e :: e in status ==>
                  status[e] == if e in v.status then v.status[e] else Record(0, 0, v.deviceId, v.deviceType, 0))
  {
    if n > 0 {
      ScanStatus(routes, n - 1, v);
      var before, after := ScanTo(routes, n - 1, v).status, ScanTo(routes, n, v).status;
      forall e ensures Visited(routes, n, e) <==> Visited(routes, n - 1, e) || (Eligible(routes[n - 1]) && routes[n - 1].endpoint == e) {
        if Visited(routes, n, e) {
          var i :| 0 <= i < n && Eligible(routes[i]) && routes[i].endpoint == e;
          assert i == n - 1 || Visited(routes, n - 1, e);
        }
      }
      assert after == if Eligible(routes[n - 1]) && routes[n - 1].endpoint !in before
                      then before[routes[n - 1].endpoint := DefaultRecord(v.deviceId, v.deviceType)] else before;
    }
  }

  // ----- The scan takes an eligible route of least seen depth -----

  ghost predicate SomeEligible(routes: seq<Route>, n: nat)
    requires n <= |routes|
  {
    exists i :: 0 <= i < n && Eligible(routes[i])
  }

  /** The depth the scan saw at route `i`. */
  ghost function Seen(routes: seq<Route>, i: nat, v: View): int
    requires i < |routes|
  {
    ScanTo(routes, i + 1, v).curDepth
  }

  ghost predicate LeastSeen(routes: seq<Route>, n: nat, v: View, s: Scan)
    requires n <= |routes|
  {
    if SomeEligible(routes, n) then
      && 0 <= s.choice.index < n && Names(routes, s.choice) && Eligible(routes[s.choice.index])
      && s.depth == Seen(routes, s.choice.index, v)
      && forall i :: 0 <= i < n && Eligible(routes[i]) ==> s.depth <= Seen(routes, i, v)
    else s == Begin(v.status)
  }

  lemma {:induction false} ScanBounded(routes: seq<Route>, n: nat, v: View)
    requires n <= |routes| && Bounded(v.status)
    ensures ScanTo(routes, n, v).curDepth < INT32_MAX
  {
    if n > 0 {
      ScanBounded(routes, n - 1, v);
      ScanStatus(routes, n - 1, v);
    }
  }

  /** Without an eligible route the scan leaves the status alone and chooses an index no group has. */
  lemma {:induction false} ScanFindsNone(routes: seq<Route>, n: nat, v: View)
    requires n <= |routes| && !SomeEligible(routes, n)
    ensures ScanTo(routes, n, v).status == v.status && ScanTo(routes, n, v).choice == Choice(0x7FFF_FFFF, "")
  {
    if n > 0 { ScanFindsNone(routes, n - 1, v); }
  }

  /** As long as depths fit below the initial minimum, the scan ends on an eligible route. */
  lemma {:induction false} ScanChoosesLeastSeen(routes: seq<Route>, n: nat, v: View)
    requires n <= |routes| && Bounded(v.status)
    ensures LeastSeen(routes, n, v, ScanTo(routes, n, v))
  {
    if n > 0 {
      ScanChoosesLeastSeen(routes, n - 1, v);
      ScanBounded(routes, n, v);
      if SomeEligible(routes, n) && !Eligible(routes[n - 1]) {
        var i :| 0 <= i < n && Eligible(routes[i]);
        assert SomeEligible(routes, n - 1);
      }
    }
  }

  // ----- When the least seen depth is the least depth -----

  /** The depth of an endpoint, a missing record counting as zero. */
  function Depth(status: Status, endpoint: int): int {
    if endpoint in status then status[endpoint].depth else 0
  }

  ghost predicate LeastLoaded(routes: seq<Route>, status: Status, i: int) {
    && 0 <= i < |routes| && Eligible(routes[i])
    && forall j :: 0 <= j < |routes| && Eligible(routes[j]) ==> Depth(status, routes[i].endpoint) <= Depth(status, routes[j].endpoint)
  }

  /** The last eligible route before `n`, if there is one. */
  ghost function LastEligible(routes: seq<Route>, n: nat): (p: Option<nat>)
    requires n <= |routes|
    ensures p.Some? ==> p.value < n && Eligible(routes[p.value]) && forall j :: p.value < j < n ==> !Eligible(routes[j])
    ensures p.None? ==> forall j :: 0 <= j < n ==> !Eligible(routes[j])
  {
    if n == 0 then None else if Eligible(routes[n - 1]) then Some(n - 1) else LastEligible(routes, n - 1)
  }

  /** An eligible route that has no record when the scan reaches it, right behind one that had a
      record from the start: it is judged by the other one's depth. */
  ghost predicate StaleAt(routes: seq<Route>, recorded: set<int>, i: nat)
    requires i < |routes|
  {
    var p := LastEligible(routes, i);
    && Eligible(routes[i]) && routes[i].endpoint !in recorded && !Visited(routes, i, routes[i].endpoint)
    && p.Some? && routes[p.value].endpoint in recorded
  }

  ghost predicate NoStaleRead(routes: seq<Route>, recorded: set<int>, n: nat)
    requires n <= |routes|
  {
    forall i: nat :: i < n ==> !StaleAt(routes, recorded, i)
  }

  /** The depth that belongs to the last eligible route before `n`. */
  ghost function Current(routes: seq<Route>, n: nat, status: Status): int
    requires n <= |routes|
  {
    var p := LastEligible(routes, n);
    if p.None? then 0 else Depth(status, routes[p.value].endpoint)
  }

  lemma {:induction false} SeenIsDepth(routes: seq<Route>, n: nat, v: View)
    requires n <= |routes| && NoStaleRead(routes, v.status.Keys, n)
    ensures ScanTo(routes, n, v).curDepth == Current(routes, n, v.status)
  {
    if n > 0 {
      SeenIsDepth(routes, n - 1, v);
      ScanStatus(routes, n - 1, v);
      assert !StaleAt(routes, v.status.Keys, n - 1);
    }
  }

  /** Without a stale read the schedule picks a normal main route of least depth, whatever the
      depths, times and clock. */
  lemma ScheduleLeastLoaded(routes: seq<Route>, v: View)
    requires SomeEligible(routes, |routes|) && Bounded(v.status) && NoStaleRead(routes, v.status.Keys, |routes|)
    ensures LeastLoaded(routes, v.status, ScanTo(routes, |routes|, v).choice.index)
  {
    hide ScanTo;
    ScanChoosesLeastSeen(routes, |routes|, v);
    forall i | 0 <= i < |routes| && Eligible(routes[i]) ensures Seen(routes, i, v) == Depth(v.status, routes[i].endpoint) {
      SeenIsDepth(routes, i + 1, v);
    }
  }

  /** In particular when every eligible route has a record. */
  lemma AllRecordedLeastLoaded(routes: seq<Route>, v: View)
    requires SomeEligible(routes, |routes|) && Bounded(v.status)
    requires forall i :: 0 <= i < |routes| && Eligible(routes[i]) ==> routes[i].endpoint in v.status
    ensures LeastLoaded(routes, v.status, ScanTo(routes, |routes|, v).choice.index)
  {
    ScheduleLeastLoaded(routes, v);
  }

  /** Since when an endpoint has been left alone; a missing record counts as the start of time. */
  function Since(status: Status, endpoint: int): int {
    if endpoint in status then status[endpoint].time else 0
  }

  ghost function WaitAt(routes: seq<Route>, i: nat, v: View, now: int): int
    requires i < |routes|
  {
    Duration(now, Since(v.status, routes[i].endpoint))
  }

  /** What the last round makes of the scan, when the clock reads the same all along. */
  lemma LastRound(routes: seq<Route>, n: nat, v: View, now: int)
    requires 0 < n <= |routes| && Bounded(v.status) && forall i :: v.clock(i) == now
    ensures var (s, s', r) := (ScanTo(routes, n - 1, v), ScanTo(routes, n, v), routes[n - 1]);
            if !Eligible(r) then s' == s else
              var (cur, wait) := (Seen(routes, n - 1, v), WaitAt(routes, n - 1, v, now));
              if cur < s.depth then s'.depth == cur && s'.duration == wait && s'.choice.index == n - 1
              else if cur == s.depth && wait > s.duration then s'.depth == s.depth && s'.duration == wait && s'.choice.index == n - 1
              else s'.depth == s.depth && s'.duration == s.duration && s'.choice == s.choice
    ensures Seen(routes, n - 1, v) < INT32_MAX
  {
    hide Duration;
    ScanStatus(routes, n - 1, v);
    ScanBounded(routes, n, v);
  }

  lemma {:induction false} WaitOfChoice(routes: seq<Route>, n: nat, v: View, now: int)
    requires n <= |routes| && Bounded(v.status) && SomeEligible(routes, n) && forall i :: v.clock(i) == now
    ensures var s := ScanTo(routes, n, v);
            LeastSeen(routes, n, v, s) && s.duration == WaitAt(routes, s.choice.index, v, now)
  {
    ScanChoosesLeastSeen(routes, n, v);
    hide WaitAt, ScanTo, Seen;
    LastRound(routes, n, v, now);
    if SomeEligible(routes, n - 1) {
      WaitOfChoice(routes, n - 1, v, now);
    } else {
      ScanChoosesLeastSeen(routes, n - 1, v);
    }
  }

  /** Among the routes of least seen depth, one reading of the clock decides for the endpoint that
      has waited longest, and for the first such route. */
  lemma {:induction false} TiesGoToLongestWait(routes: seq<Route>, n: nat, v: View, now: int)
    requires n <= |routes| && Bounded(v.status) && SomeEligible(routes, n) && forall i :: v.clock(i) == now
    ensures var s := ScanTo(routes, n, v);
            && LeastSeen(routes, n, v, s)
            && s.duration == WaitAt(routes, s.choice.index, v, now)
            && forall i :: 0 <= i < n && Eligible(routes[i]) && Seen(routes, i, v) == s.depth ==>
                 if i < s.choice.index then WaitAt(routes, i, v, now) < s.duration else WaitAt(routes, i, v, now) <= s.duration
  {
    WaitOfChoice(routes, n, v, now);
    hide WaitAt, ScanTo, Seen;
    LastRound(routes, n, v, now);
    if SomeEligible(routes, n - 1) {
      TiesGoToLongestWait(routes, n - 1, v, now);
    }
  }

  // ----- The converse: a stale read can make the choice wrong -----

  /** One consumed message reported for each endpoint, and no decision yet. */
  function Overdrawn(recorded: set<int>): Status {
    map e | e in recorded :: NO_RECORD.(depth := -1)
  }

  /** The clock reads 0 up to round `i` and 1 from then on. */
  function TickAt(i: nat): nat -> int {
    n => if n >= i then 1 else 0
  }

  ghost function Tricky(recorded: set<int>, i: nat): View {
    View(Overdrawn(recorded), TickAt(i), 0, 0)
  }

  /** Up to round `i` no wait is longer than 0, and no depth below -1 is seen. */
  lemma {:induction false} BeforeTick(routes: seq<Route>, recorded: set<int>, v: View, i: nat, n: nat)
    requires n <= i && n <= |routes| && v.clock == TickAt(i) && v.status == Overdrawn(recorded)
    ensures var s := ScanTo(routes, n, v); s.depth >= -1 && s.duration == 0 && s.curDepth >= -1
  {
    if n > 0 {
      BeforeTick(routes, recorded, v, i, n - 1);
      ScanStatus(routes, n - 1, v);
    }
  }

  /** An eligible route that is seen with depth -1 when the clock ticks is the choice from then on. */
  lemma {:induction false} AfterTick(routes: seq<Route>, recorded: set<int>, v: View, i: nat, n: nat)
    requires i < n <= |routes| && v.clock == TickAt(i) && v.status == Overdrawn(recorded)
    requires Eligible(routes[i]) && Seen(routes, i, v) == -1
    ensures var s := ScanTo(routes, n, v);
            s.choice.index == i && s.depth == -1 && s.duration == 1 && s.curDepth >= -1
  {
    ScanStatus(routes, n - 1, v);
    if n == i + 1 {
      BeforeTick(routes, recorded, v, i, i);
    } else {
      AfterTick(routes, recorded, v, i, n - 1);
    }
  }

  lemma {:induction false} FirstStale(routes: seq<Route>, recorded: set<int>, n: nat) returns (i: nat)
    requires n <= |routes| && !NoStaleRead(routes, recorded, n)
    ensures i < n && StaleAt(routes, recorded, i) && NoStaleRead(routes, recorded, i)
  {
    if NoStaleRead(routes, recorded, n - 1) {
      i := n - 1;
    } else {
      i := FirstStale(routes, recorded, n - 1);
    }
  }

  /** Reports alone make the scan choose a more loaded route, once the clock ticks at the first stale
      read. */
  lemma StaleReadMisleads(routes: seq<Route>, recorded: set<int>) returns (i: nat)
    requires !NoStaleRead(routes, recorded, |routes|)
    ensures i < |routes| && ScanTo(routes, |routes|, Tricky(recorded, i)).choice.index == i
    ensures Eligible(routes[i]) && Seen(routes, i, Tricky(recorded, i)) == -1 && !LeastLoaded(routes, Overdrawn(recorded), i)
  {
    i := FirstStale(routes, recorded, |routes|);
    var v := Tricky(recorded, i);
    assert v.status.Keys == recorded;
    var p := LastEligible(routes, i).value;
    SeenIsDepth(routes, i, v);
    ScanStatus(routes, i, v);
    assert Seen(routes, i, v) == -1;
    AfterTick(routes, recorded, v, i, |routes|);
    assert Eligible(routes[p]) && Depth(v.status, routes[p].endpoint) == -1;
  }

  ghost predicate AlwaysLeastLoaded(routes: seq<Route>, recorded: set<int>) {
    forall v: View :: v.status.Keys == recorded && Bounded(v.status) ==>
      LeastLoaded(routes, v.status, ScanTo(routes, |routes|, v).choice.index)
  }

  /** The schedule is sure to pick a least loaded route exactly when no unrecorded eligible route
      comes right behind a recorded one; which endpoints have records is all that matters. */
  lemma LeastLoadedIff(routes: seq<Route>, recorded: set<int>)
    requires SomeEligible(routes, |routes|)
    ensures AlwaysLeastLoaded(routes, recorded) <==> NoStaleRead(routes, recorded, |routes|)
  {
    if NoStaleRead(routes, recorded, |routes|) {
      forall v: View | v.status.Keys == recorded && Bounded(v.status)
        ensures LeastLoaded(routes, v.status, ScanTo(routes, |routes|, v).choice.index)
      {
        ScheduleLeastLoaded(routes, v);
      }
    } else {
      var i := StaleReadMisleads(routes, recorded);
      assert Overdrawn(recorded).Keys == recorded && Bounded(Overdrawn(recorded));
      assert Tricky(recorded, i).status.Keys == recorded;
    }
  }
}
