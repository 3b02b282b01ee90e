/** What holds over whole runs of the aligner: nothing is lost or reordered, completed groups are the
    zip of the queues, the counters stay level, and draining ends. */
module AlignerRuns {
  import opened Ordered
  import opened AlignerModel

  // ----- Runs and their histories -----

  ghost function Exec(cfg: Config, steps: seq<Step>): (s: State)
    ensures Valid(cfg, s)
  {
    if steps == [] then InitValid(cfg); Init(cfg)
    else
      var s := Exec(cfg, steps[..|steps| - 1]);
      StepKeepsValid(cfg, s, steps[|steps| - 1]);
      Do(cfg, s, steps[|steps| - 1]).state
  }

  /** The outcome of the last step of a run. */
  ghost function LastOutcome(cfg: Config, steps: seq<Step>): Outcome
    requires steps != []
  {
    Do(cfg, Exec(cfg, steps[..|steps| - 1]), steps[|steps| - 1])
  }

  ghost function Queue(s: State, k: Key, q: nat): seq<Item> {
    if k in s.wait && q < |s.wait[k].queues| then s.wait[k].queues[q] else []
  }

  /** The items a step offers to position `q` under key `k`, read off the step alone: what is pushed to
      that queue with the transaction and the data label of the key. */
  ghost function Offered(cfg: Config, step: Step, k: Key, q: nat): seq<Item> {
    if step.Push? && !step.ignored && LastPosition(cfg.queueIdxes, step.queueIdx, q)
       && step.item.msg.transId == k.transId && step.item.msg.dataLabel == k.dataLabel
    then [step.item] else []
  }

  ghost function Stream(cfg: Config, steps: seq<Step>, k: Key, q: nat): seq<Item> {
    if steps == [] then []
    else Stream(cfg, steps[..|steps| - 1], k, q) + Offered(cfg, steps[|steps| - 1], k, q)
  }

  datatype Fate = Consumed | Discarded
  datatype Leaving = Leaving(item: Item, fate: Fate)

  ghost function Marked(items: seq<Item>, fate: Fate): seq<Leaving> {
    seq(|items|, i requires 0 <= i < |items| => Leaving(items[i], fate))
  }

  ghost function ItemsOf(ls: seq<Leaving>): seq<Item> {
    seq(|ls|, i requires 0 <= i < |ls| => ls[i].item)
  }

  ghost function HeadAt(g: Option<Group>, k: Key, q: nat): seq<Item> {
    if g.Some? && g.value.key == k && q < |g.value.heads| && g.value.heads[q].Some?
    then [g.value.heads[q].value] else []
  }

  /** The items an outcome removes from position `q` under key `k`, oldest first. */
  ghost function LeftBy(o: Outcome, k: Key, q: nat): seq<Leaving> {
    Marked(HeadAt(o.taken, k, q), Consumed) +
    if k in o.dropped && q < |o.dropped[k].queues| then Marked(o.dropped[k].queues[q], Discarded) else []
  }

  ghost function LeftIn(cfg: Config, steps: seq<Step>, k: Key, q: nat): seq<Leaving> {
    if steps == [] then []
    else LeftIn(cfg, steps[..|steps| - 1], k, q) + LeftBy(LastOutcome(cfg, steps), k, q)
  }

  // ----- Conservation -----

  lemma TakeAtConserves(s: State, k0: Key, k: Key, q: nat)
    requires k0 in s.wait
    ensures Queue(s, k, q) == ItemsOf(LeftBy(TakeAt(s, k0), k, q)) + Queue(TakeAt(s, k0).state, k, q)
  {
    var e := s.wait[k0];
    if k == k0 && q < |e.queues| {
      var s' := TakeAt(s, k0).state;
      assert Queue(s', k, q) == Taken(e).queues[q];
      if e.queues[q] != [] {
        assert e.queues[q] == [e.queues[q][0]] + e.queues[q][1..];
      }
    }
  }

  lemma DropConserves(s: State, keys: set<Key>, k: Key, q: nat)
    ensures Queue(s, k, q) == ItemsOf(LeftBy(Drop(s, keys), k, q)) + Queue(Drop(s, keys).state, k, q)
  {}

  lemma PushConserves(cfg: Config, s: State, step: Step, k: Key, q: nat)
    requires Valid(cfg, s) && step.Push?
    ensures var o := Do(cfg, s, step);
            Queue(s, k, q) + Offered(cfg, step, k, q) == ItemsOf(LeftBy(o, k, q)) + Queue(o.state, k, q)
  {
    hide Queue, LeftBy, ItemsOf, TakeAt, Valid, Insert, Offered, IsComplete;
    var order := OrderOf(cfg.queueIdxes, step.queueIdx);
    if order.Some? && !step.ignored {
      InsertConserves(cfg, s, step, order.value, k, q);
      var s1 := Insert(cfg, s, order.value, step.item, step.now);
      UnchangedConserves(s1, k, q);
      TakeAtConserves(s1, KeyOf(step.item), k, q);
      AcceptedConserves(Unchanged(s1), Accepted(KeyOf(step.item), order.value, step.item), k, q);
      AcceptedConserves(TakeAt(s1, KeyOf(step.item)), Accepted(KeyOf(step.item), order.value, step.item), k, q);
    } else {
      assert Offered(cfg, step, k, q) == [] by { NothingOffered(cfg, step, k, q); }
      UnchangedConserves(s, k, q);
    }
  }

  lemma NothingOffered(cfg: Config, step: Step, k: Key, q: nat)
    requires step.Push? ==> OrderOf(cfg.queueIdxes, step.queueIdx).None? || step.ignored
    ensures Offered(cfg, step, k, q) == []
  {}

  lemma AcceptedConserves(o: Outcome, a: Accepted, k: Key, q: nat)
    ensures LeftBy(o.(accepted := Some(a)), k, q) == LeftBy(o, k, q)
  {}

  lemma InsertConserves(cfg: Config, s: State, step: Step, c: nat, k: Key, q: nat)
    requires Valid(cfg, s) && step.Push? && !step.ignored && OrderOf(cfg.queueIdxes, step.queueIdx) == Some(c)
    ensures KeyOf(step.item) in Insert(cfg, s, c, step.item, step.now).wait
    ensures Queue(s, k, q) + Offered(cfg, step, k, q) == Queue(Insert(cfg, s, c, step.item, step.now), k, q)
  {
    if k == KeyOf(step.item) && q < |cfg.queueIdxes| && q != c {
      assert Queue(s, k, q) + [] == Queue(s, k, q);
    }
  }

  lemma UnchangedConserves(s: State, k: Key, q: nat)
    ensures Queue(s, k, q) == ItemsOf(LeftBy(Unchanged(s), k, q)) + Queue(s, k, q)
  {}

  lemma StepConserves(cfg: Config, s: State, step: Step, k: Key, q: nat)
    requires Valid(cfg, s)
    ensures var o := Do(cfg, s, step);
            Queue(s, k, q) + Offered(cfg, step, k, q) == ItemsOf(LeftBy(o, k, q)) + Queue(o.state, k, q)
  {
    hide Queue, LeftBy, ItemsOf, TakeAt, Drop, Valid, DoPush;
    UnchangedConserves(s, k, q);
    match step {
      case Push(_, _, _, _) => PushConserves(cfg, s, step, k, q);
      case TakeExpired(now) =>
        var expired := Expired(cfg, s, now);
        if expired != {} {
          DropConserves(s, expired, k, q);
          TakeAtConserves(s, FirstKey(expired), k, q);
        }
      case TakeOverLimit =>
        if |s.wait| > cfg.attrs.maxCacheNum {
          DropConserves(s, Excess(cfg, s), k, q);
          TakeAtConserves(s, FirstKey(s.wait.Keys), k, q);
        }
      case ClearByTransId(transId) => DropConserves(s, OfTransId(s.wait, transId), k, q);
      case ClearAll => DropConserves(s, s.wait.Keys, k, q);
    }
  }

  /** In every run, for every key and queue: the stream of non-ignored pushes is what was consumed or
      discarded, in order, followed by what is still cached. No item is lost, doubled or overtaken. */
  lemma {:induction false} RunConserves(cfg: Config, steps: seq<Step>, k: Key, q: nat)
    ensures Stream(cfg, steps, k, q) == ItemsOf(LeftIn(cfg, steps, k, q)) + Queue(Exec(cfg, steps), k, q)
  {
    hide Do, Queue, Offered, LeftBy, ItemsOf, Valid;
    if steps == [] {
      NothingYet(cfg, k, q);
    } else {
      var front, last := steps[..|steps| - 1], steps[|steps| - 1];
      RunConserves(cfg, front, k, q);
      StepConserves(cfg, Exec(cfg, front), last, k, q);
      var l0, l1 := LeftIn(cfg, front, k, q), LeftBy(LastOutcome(cfg, steps), k, q);
      var was, now := Queue(Exec(cfg, front), k, q), Queue(Exec(cfg, steps), k, q);
      ItemsOfConcat(l0, l1);
      assert (ItemsOf(l0) + was) + Offered(cfg, last, k, q) == ItemsOf(l0) + (was + Offered(cfg, last, k, q));
      assert ItemsOf(l0) + (ItemsOf(l1) + now) == (ItemsOf(l0) + ItemsOf(l1)) + now;
    }
  }

  lemma NothingYet(cfg: Config, k: Key, q: nat)
    ensures ItemsOf([]) == [] && Queue(Init(cfg), k, q) == []
  {}

  lemma ItemsOfConcat(l0: seq<Leaving>, l1: seq<Leaving>)
    ensures ItemsOf(l0 + l1) == ItemsOf(l0) + ItemsOf(l1)
  {}

  // ----- Completed groups are the zip of the streams -----

  ghost predicate PushesOnly(steps: seq<Step>) {
    forall i :: 0 <= i < |steps| ==> steps[i].Push?
  }

  /** The groups taken for one key, in order. */
  ghost function Groups(cfg: Config, steps: seq<Step>, k: Key): seq<seq<Option<Item>>> {
    if steps == [] then []
    else
      var taken := LastOutcome(cfg, steps).taken;
      Groups(cfg, steps[..|steps| - 1], k) + if taken.Some? && taken.value.key == k then [taken.value.heads] else []
  }

  lemma PushTakesWholeGroups(cfg: Config, s: State, step: Step, q: nat)
    requires Valid(cfg, s) && step.Push? && q < |cfg.queueIdxes|
    ensures var o := Do(cfg, s, step);
            && o.dropped == map[]
            && (o.taken.Some? ==> |o.taken.value.heads| == |cfg.queueIdxes| && o.taken.value.heads[q].Some?)
  {}

  lemma {:induction false} GroupsLeave(cfg: Config, steps: seq<Step>, k: Key, q: nat)
    requires PushesOnly(steps) && q < |cfg.queueIdxes|
    ensures var (g, l) := (Groups(cfg, steps, k), LeftIn(cfg, steps, k, q));
            && |l| == |g|
            && forall j :: 0 <= j < |g| ==> q < |g[j]| && g[j][q] == Some(l[j].item) && l[j].fate == Consumed
  {
    hide Do, Valid, LeftBy;
    if steps != [] {
      var front := steps[..|steps| - 1];
      GroupsLeave(cfg, front, k, q);
      PushTakesWholeGroups(cfg, Exec(cfg, front), steps[|steps| - 1], q);
      GroupLeaves(LastOutcome(cfg, steps), k, q);
    }
  }

  lemma GroupLeaves(o: Outcome, k: Key, q: nat)
    requires o.dropped == map[] && (o.taken.Some? ==> q < |o.taken.value.heads| && o.taken.value.heads[q].Some?)
    ensures LeftBy(o, k, q) == if o.taken.Some? && o.taken.value.key == k
                               then [Leaving(o.taken.value.heads[q].value, Consumed)] else []
  {}

  /** The `q`-th members of the groups are the first items of the stream. */
  ghost predicate Zipped(g: seq<seq<Option<Item>>>, stream: seq<Item>, q: nat) {
    |g| <= |stream| && forall j :: 0 <= j < |g| ==> q < |g[j]| && g[j][q] == Some(stream[j])
  }

  /** With pushes only, the j-th completed group of a key consists of the j-th item pushed to every
      queue, and there are as many groups as the shortest stream has items. */
  lemma ZipRefinement(cfg: Config, steps: seq<Step>, k: Key)
    requires PushesOnly(steps) && cfg.queueIdxes != []
    ensures forall q :: 0 <= q < |cfg.queueIdxes| ==> Zipped(Groups(cfg, steps, k), Stream(cfg, steps, k, q), q)
    ensures exists q :: 0 <= q < |cfg.queueIdxes| && |Groups(cfg, steps, k)| == |Stream(cfg, steps, k, q)|
  {
    hide Groups, Stream, Exec, Queue, Valid, Zipped;
    forall q | 0 <= q < |cfg.queueIdxes|
      ensures Zipped(Groups(cfg, steps, k), Stream(cfg, steps, k, q), q)
    {
      ZipOne(cfg, steps, k, q);
    }
    var empty := EmptyQueue(cfg, Exec(cfg, steps), k);
    ZipOne(cfg, steps, k, empty);
    assert |Groups(cfg, steps, k)| == |Stream(cfg, steps, k, empty)|;
  }

  lemma ZipOne(cfg: Config, steps: seq<Step>, k: Key, q: nat)
    requires PushesOnly(steps) && q < |cfg.queueIdxes|
    ensures Zipped(Groups(cfg, steps, k), Stream(cfg, steps, k, q), q)
    ensures |Stream(cfg, steps, k, q)| == |Groups(cfg, steps, k)| + |Queue(Exec(cfg, steps), k, q)|
  {
    hide Groups, Stream, LeftIn, Exec, Queue, Valid;
    RunConserves(cfg, steps, k, q);
    GroupsLeave(cfg, steps, k, q);
  }

  lemma EmptyQueue(cfg: Config, s: State, k: Key) returns (q: nat)
    requires Valid(cfg, s) && cfg.queueIdxes != []
    ensures q < |cfg.queueIdxes| && Queue(s, k, q) == []
  {
    q := 0;
    if k in s.wait {
      assert !IsComplete(s.wait[k]);
      q :| q < |s.wait[k].queues| && s.wait[k].queues[q] == [];
    }
  }

  // ----- Choosing the least cached queue keeps the counters level -----

  function LeastIndex(nums: seq<int>): (r: nat)
    requires nums != []
    ensures r < |nums|
    ensures forall i :: 0 <= i < |nums| ==> nums[r] <= nums[i]
    ensures forall i :: 0 <= i < r ==> nums[r] < nums[i]
  {
    if |nums| == 1 then 0
    else
      var r := LeastIndex(nums[..|nums| - 1]);
      if nums[|nums| - 1] < nums[r] then |nums| - 1 else r
  }

  ghost function SelectNext(cfg: Config, s: State): nat
    requires cfg.queueIdxes != [] && Valid(cfg, s)
  {
    cfg.queueIdxes[LeastIndex(s.cacheNums)]
  }

  ghost predicate Distinct(idxes: seq<nat>) {
    forall i, j :: 0 <= i < j < |idxes| ==> idxes[i] != idxes[j]
  }

  /** A run whose pushes all go to the queue selected just before; it may also clear everything. */
  ghost predicate SelectedRun(cfg: Config, steps: seq<Step>)
    requires cfg.queueIdxes != []
  {
    steps == [] ||
    var last := steps[|steps| - 1];
    && SelectedRun(cfg, steps[..|steps| - 1])
    && (last.ClearAll? || (last.Push? && last.queueIdx == SelectNext(cfg, Exec(cfg, steps[..|steps| - 1]))))
  }

  ghost predicate Level(nums: seq<int>) {
    forall a, b :: 0 <= a < |nums| && 0 <= b < |nums| ==> nums[a] <= nums[b] + 1
  }

  lemma {:induction false} OrderOfDistinct(idxes: seq<nat>, i: nat)
    requires Distinct(idxes) && i < |idxes|
    ensures OrderOf(idxes, idxes[i]) == Some(i)
  {
    if i < |idxes| - 1 {
      OrderOfDistinct(idxes[..|idxes| - 1], i);
    }
  }

  lemma SelectedPushLevel(cfg: Config, s: State, step: Step)
    requires cfg.queueIdxes != [] && Distinct(cfg.queueIdxes) && Valid(cfg, s) && Level(s.cacheNums)
    requires step.Push? && step.queueIdx == SelectNext(cfg, s)
    ensures Level(Do(cfg, s, step).state.cacheNums)
  {
    var r := LeastIndex(s.cacheNums);
    OrderOfDistinct(cfg.queueIdxes, r);
    if !step.ignored {
      var nums := s.cacheNums[r := s.cacheNums[r] + 1];
      var o := Do(cfg, s, step);
      assert Level(nums);
      if o.taken.Some? {
        forall q | 0 <= q < |nums| ensures o.state.cacheNums[q] == nums[q] - 1 {
          PushTakesWholeGroups(cfg, s, step, q);
        }
      }
    }
  }

  lemma ClearAllLevel(cfg: Config, s: State)
    requires Valid(cfg, s)
    ensures Level(Do(cfg, s, ClearAll).state.cacheNums)
  {
    var s' := Do(cfg, s, ClearAll).state;
    StepKeepsValid(cfg, s, ClearAll);
    assert s'.wait == map[];
    forall q: nat | q < |s'.cacheNums| ensures s'.cacheNums[q] == 0 {
      assert s'.cacheNums[q] == Weight(s'.wait, ColumnOf(q));
    }
  }

  /** The counters of two queues never differ by more than one along a selected run. */
  lemma {:induction false} BoundedSkew(cfg: Config, steps: seq<Step>)
    requires cfg.queueIdxes != [] && Distinct(cfg.queueIdxes) && SelectedRun(cfg, steps)
    ensures Level(Exec(cfg, steps).cacheNums)
  {
    if steps != [] {
      hide Do;
      var front, last := steps[..|steps| - 1], steps[|steps| - 1];
      BoundedSkew(cfg, front);
      if last.Push? {
        SelectedPushLevel(cfg, Exec(cfg, front), last);
      } else {
        ClearAllLevel(cfg, Exec(cfg, front));
      }
    }
  }

  // ----- Draining -----

  lemma {:induction false} ItemsOfTails(queues: seq<seq<Item>>, tails: seq<seq<Item>>)
    requires |tails| == |queues| && forall i :: 0 <= i < |queues| ==> tails[i] == Tail(queues[i])
    ensures Items(tails) <= Items(queues)
    ensures (exists i :: 0 <= i < |queues| && queues[i] != []) ==> Items(tails) < Items(queues)
  {
    if queues != [] {
      ItemsOfTails(queues[..|queues| - 1], tails[..|tails| - 1]);
      if i :| 0 <= i < |queues| && queues[i] != [] {
        assert i < |queues| - 1 ==> queues[..|queues| - 1][i] != [];
      }
    }
  }

  lemma TakeLowersValue(cfg: Config, s: State, k: Key)
    requires Valid(cfg, s) && k in s.wait
    ensures Value(Taken(s.wait[k]), AllItems) < Value(s.wait[k], AllItems)
  {
    var e := s.wait[k];
    ItemsOfTails(e.queues, Taken(e).queues);
  }

  /** A take lowers the number of cached items, of its key and in all. */
  lemma TakeLowersItems(cfg: Config, s: State, k: Key, keys: set<Key>)
    requires Valid(cfg, s) && k in s.wait && k in keys
    ensures var s' := TakeAt(s, k).state;
            Weight(Restrict(s'.wait, keys), AllItems) < Weight(Restrict(s.wait, keys), AllItems)
  {
    hide Valid, Weight, Value, IsEmpty, Taken;
    var e, s' := s.wait[k], TakeAt(s, k).state;
    TakeLowersValue(cfg, s, k);
    var before, after := Restrict(s.wait, keys), Restrict(s'.wait, keys);
    WeightRemove(before, k, AllItems);
    if IsEmpty(Taken(e)) {
      assert after == before - {k};
    } else {
      assert after == before[k := Taken(e)];
      WeightUpdate(before, k, Taken(e), AllItems);
    }
  }

  lemma TakenKey(cfg: Config, s: State, step: Step) returns (k: Key)
    requires Valid(cfg, s) && (step.TakeExpired? || step.TakeOverLimit?) && Do(cfg, s, step).taken.Some?
    ensures k in s.wait && Do(cfg, s, step) == TakeAt(s, k)
  {
    k := Do(cfg, s, step).taken.value.key;
  }

  /** Every call of either kind that reports output strictly lowers the total of cached items. */
  lemma OutputMakesProgress(cfg: Config, s: State, step: Step)
    requires Valid(cfg, s) && (step.TakeExpired? || step.TakeOverLimit?) && Do(cfg, s, step).taken.Some?
    ensures Weight(Do(cfg, s, step).state.wait, AllItems) < Weight(s.wait, AllItems)
  {
    hide Valid, Weight, TakeAt, Expired;
    var k := TakenKey(cfg, s, step);
    var s' := TakeAt(s, k).state;
    TakeAtKeys(s, k);
    TakeLowersItems(cfg, s, k, s.wait.Keys);
    assert Restrict(s.wait, s.wait.Keys) == s.wait;
    assert Restrict(s'.wait, s.wait.Keys) == s'.wait;
  }

  lemma SameWaitSameState(cfg: Config, s: State, t: State)
    requires Valid(cfg, s) && Valid(cfg, t) && s.wait == t.wait
    ensures s == t
  {
    assert s.cacheNums == t.cacheNums;
  }

  /** With dropping, one call removes exactly the smallest keys beyond the limit, untouched keys stay
      as they are, and nothing is handed out. */
  lemma DropReachesLimit(cfg: Config, s: State)
    requires Valid(cfg, s) && cfg.attrs.dropWhenNotAlign
    ensures var o := Do(cfg, s, TakeOverLimit);
            && o.taken.None?
            && |o.state.wait| == (if |s.wait| <= cfg.attrs.maxCacheNum then |s.wait| else cfg.attrs.maxCacheNum)
            && (forall k :: k in o.state.wait ==> k in s.wait && o.state.wait[k] == s.wait[k])
            && (forall k, j :: k in s.wait && k !in o.state.wait && j in o.state.wait ==>
                  k.transId < j.transId || (k.transId == j.transId && k.dataLabel <= j.dataLabel))
  {
    hide Valid, Weight, ExcessOf;
    if |s.wait| > cfg.attrs.maxCacheNum {
      OverLimitAre(cfg, s);
      var keys := Excess(cfg, s);
      assert (s.wait - keys).Keys == s.wait.Keys - keys;
      assert |s.wait.Keys - keys| == |s.wait.Keys| - |keys|;
    }
  }

  lemma OverLimitAre(cfg: Config, s: State)
    requires |s.wait| > cfg.attrs.maxCacheNum
    ensures var keys := Excess(cfg, s);
            && keys <= s.wait.Keys && |keys| == |s.wait.Keys| - cfg.attrs.maxCacheNum
            && forall k, j :: k in keys && j in s.wait.Keys && j !in keys ==> KeyLe(k, j)
  {}

  /** `n` calls in a row of the same operation. */
  ghost function Repeat(cfg: Config, s: State, step: Step, n: nat): (r: State)
    requires Valid(cfg, s)
    ensures Valid(cfg, r)
    decreases n
  {
    if n == 0 then s else StepKeepsValid(cfg, s, step); Repeat(cfg, Do(cfg, s, step).state, step, n - 1)
  }

  lemma ExcessPeel(keys: set<Key>, limit: nat)
    requires |keys| > limit
    ensures var k := FirstKey(keys); ExcessOf(keys, limit) == {k} + ExcessOf(keys - {k}, limit)
  {
    KeyOrder();
    hide TotalOrder, Smallest, IsLeast, KeyLe;
    SmallestPeel(keys, |keys| - limit, KeyLe);
  }

  lemma ExcessAfterTake(cfg: Config, s: State)
    requires |s.wait| > cfg.attrs.maxCacheNum
    ensures var k := FirstKey(s.wait.Keys);
            var s' := TakeAt(s, k).state;
            && k in Excess(cfg, s)
            && Excess(cfg, s') == (if k in s'.wait then Excess(cfg, s) else Excess(cfg, s) - {k})
            && s'.wait - Excess(cfg, s') == s.wait - Excess(cfg, s)
  {
    hide ExcessOf, FirstKey, TakeAt;
    var k := FirstKey(s.wait.Keys);
    ExcessPeel(s.wait.Keys, cfg.attrs.maxCacheNum);
    TakeAtKeys(s, k);
    var s' := TakeAt(s, k).state;
    SameRest(s.wait, s'.wait, k, Excess(cfg, s), Excess(cfg, s'));
  }

  lemma SameRest(wait: Wait, wait': Wait, k: Key, x: set<Key>, x': set<Key>)
    requires k in x && wait'.Keys == (if k in wait' then wait.Keys else wait.Keys - {k})
    requires x' == (if k in wait' then x else x - {k})
    requires forall j :: j in wait && j != k ==> j in wait' && wait'[j] == wait[j]
    ensures wait' - x' == wait - x
  {}

  lemma TakeAtKeys(s: State, k: Key)
    requires k in s.wait
    ensures var s' := TakeAt(s, k).state;
            && s'.wait.Keys == (if k in s'.wait then s.wait.Keys else s.wait.Keys - {k})
            && forall j :: j in s.wait && j != k ==> j in s'.wait && s'.wait[j] == s.wait[j]
  {}

  /** Without dropping, calls repeated as often as the excess keys have items end in the very state
      that dropping reaches in one call, and stay there. */
  lemma {:induction false} OverLimitDrains(cfg: Config, s: State, n: nat)
    requires Valid(cfg, s) && !cfg.attrs.dropWhenNotAlign
    requires n >= Weight(Restrict(s.wait, Excess(cfg, s)), AllItems)
    ensures Repeat(cfg, s, TakeOverLimit, n) == Drop(s, Excess(cfg, s)).state
    ensures |Repeat(cfg, s, TakeOverLimit, n).wait| <= cfg.attrs.maxCacheNum
    decreases n
  {
    hide Valid, Weight, ExcessOf, TakeAt, FirstKey;
    var x := Excess(cfg, s);
    DropValid(cfg, s, x);
    assert (s.wait - x).Keys == s.wait.Keys - x;
    if x == {} {
      assert Drop(s, x).state.wait == s.wait;
      SameWaitSameState(cfg, s, Drop(s, x).state);
      assert Restrict(s.wait, x) == map[];
      WeightOfNothing(AllItems);
      if n > 0 {
        OverLimitDrains(cfg, s, n - 1);
      }
    } else {
      var k := FirstKey(s.wait.Keys);
      var s' := TakeAt(s, k).state;
      ExcessAfterTake(cfg, s);
      TakeAtValid(cfg, s, k);
      TakeLowersItems(cfg, s, k, x);
      assert Restrict(s'.wait, Excess(cfg, s')) == Restrict(s'.wait, x);
      OverLimitDrains(cfg, s', n - 1);
      DropValid(cfg, s', Excess(cfg, s'));
      SameWaitSameState(cfg, Drop(s, x).state, Drop(s', Excess(cfg, s')).state);
    }
  }

  /** Likewise for expiry at one point in time: repeated calls take out exactly the expired keys. */
  lemma {:induction false} ExpiryDrains(cfg: Config, s: State, now: int, n: nat)
    requires Valid(cfg, s) && !cfg.attrs.dropWhenNotAlign && cfg.attrs.timeout != ALIGN_NEVER_TIMEOUT
    requires n >= Weight(Restrict(s.wait, Expired(cfg, s, now)), AllItems)
    ensures Repeat(cfg, s, TakeExpired(now), n) == Drop(s, Expired(cfg, s, now)).state
    decreases n
  {
    hide Valid, Weight, Expired, TakeAt;
    var x := Expired(cfg, s, now);
    DropValid(cfg, s, x);
    if x == {} {
      assert Drop(s, x).state.wait == s.wait;
      SameWaitSameState(cfg, s, Drop(s, x).state);
      assert Restrict(s.wait, x) == map[];
      WeightOfNothing(AllItems);
      if n > 0 {
        ExpiryDrains(cfg, s, now, n - 1);
      }
    } else {
      var k := FirstKey(x);
      ExpiredAfterTake(cfg, s, now, k);
      var s' := TakeAt(s, k).state;
      var x' := Expired(cfg, s', now);
      TakeAtValid(cfg, s, k);
      TakeLowersItems(cfg, s, k, x);
      assert Restrict(s'.wait, x') == Restrict(s'.wait, x);
      ExpiryDrains(cfg, s', now, n - 1);
      DropValid(cfg, s', x');
      SameWaitSameState(cfg, Drop(s, x).state, Drop(s', x').state);
    }
  }

  /** A take leaves the age of its key alone. */
  lemma ExpiredAfterTake(cfg: Config, s: State, now: int, k: Key)
    requires k in Expired(cfg, s, now)
    ensures k in s.wait
    ensures var (s', x) := (TakeAt(s, k).state, Expired(cfg, s, now));
            && Expired(cfg, s', now) == (if k in s'.wait then x else x - {k})
            && s'.wait - Expired(cfg, s', now) == s.wait - x
  {
    hide IsExpire;
    var s', x := TakeAt(s, k).state, Expired(cfg, s, now);
    TakeAtKeys(s, k);
    assert IsExpire(s.wait[k], now, cfg.attrs.timeout) == IsExpire(Taken(s.wait[k]), now, cfg.attrs.timeout) by {
      SameAge(s.wait[k], now, cfg.attrs.timeout);
    }
    var x' := Expired(cfg, s', now);
    assert forall j :: j in x' <==> j in x && j in s'.wait;
  }

  lemma SameAge(e: AlignCacheData, now: int, timeout: int)
    ensures IsExpire(Taken(e), now, timeout) == IsExpire(e, now, timeout)
  {}
}
