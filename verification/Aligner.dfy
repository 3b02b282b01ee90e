/** The aligner object: waiting data in a map that is walked in key order, and one counter per queue
    that all entries share. Each method is one locked region and does what the state machine says. */
module Aligner {
  import opened Ordered
  import opened AlignerModel
  import opened AlignerRuns

  /** What a take hands to the caller: a status, tensors and the header that describes them. */
  datatype Output = Output(ret: int, data: seq<int>, info: Option<Item>)

  function OutputOf(heads: seq<Option<Item>>): Output {
    Output(RetOf(heads), DataOf(heads), InfoOf(heads))
  }

  lemma OutputOfNext(heads: seq<Option<Item>>, n: nat)
    requires n < |heads|
    ensures var (o, h) := (OutputOf(heads[..n]), heads[n]);
            OutputOf(heads[..n + 1]) == if h.None? then o else
              Output(if o.ret == 0 then h.value.msg.retCode else o.ret,
                     o.data + if h.value.msg.retCode == 0 && !h.value.msg.nullData then [h.value.tensor] else [],
                     if o.info.Some? then o.info else h)
  {
    assert heads[..n + 1][..n] == heads[..n];
  }

  const NOTHING: Output := Output(0, [], None)

  ghost function OutputOfGroup(g: Option<Group>): Output {
    if g.Some? then OutputOf(g.value.heads) else NOTHING
  }

  lemma WeightOfOne(wait: Wait, k: Key, m: Measure)
    requires k in wait
    ensures Weight(Restrict(wait, {k}), m) == Value(wait[k], m)
  {
    WeightRemove(Restrict(wait, {k}), k, m);
    assert Restrict(wait, {k}) - {k} == map[];
    WeightOfNothing(m);
  }

  /** Counters that are accounted for are determined by the waiting data. */
  lemma AccountedUnique(n: nat, s: State, t: State)
    requires Accounted(n, s) && Accounted(n, t) && s.wait == t.wait
    ensures s == t
  {
    assert s.cacheNums == t.cacheNums;
  }

  ghost predicate LowKeys(keys: set<Key>, low: set<Key>) {
    low <= keys && forall a, b :: a in low && b in keys && b !in low ==> KeyLe(a, b)
  }

  lemma NoLowKeys(keys: set<Key>)
    ensures LowKeys(keys, {})
  {}

  lemma NextLowKey(wait: Wait, low: set<Key>, k: Key)
    requires LowKeys(wait.Keys, low) && IsLeast((wait - low).Keys, k, KeyLe)
    ensures LowKeys(wait.Keys, low + {k})
    ensures wait - low - {k} == wait - (low + {k}) && |wait - (low + {k})| == |wait - low| - 1
    ensures forall s: State :: s.wait == wait - low ==> Drop(s, {k}).state.wait == wait - (low + {k})
  {
    assert (wait - low).Keys - {k} == (wait - (low + {k})).Keys;
    assert |(wait - low).Keys - {k}| == |(wait - low).Keys| - 1;
    assert wait - low - {k} == wait - (low + {k});
  }

  class DataFlowDataAligner {
    const queueIdxes: seq<nat>
    const attrs: AlignAttrs
    const cacheNums: array<nat>
    var queueIdxOrder: map<nat, nat>
    var wait: Wait

    ghost function Cfg(): Config {
      Config(queueIdxes, attrs)
    }

    ghost function Now(): State
      reads this, cacheNums
    {
      State(cacheNums[..], wait)
    }

    ghost predicate OrderKnown()
      reads this`queueIdxOrder
    {
      && (forall q :: q in queueIdxOrder <==> OrderOf(queueIdxes, q).Some?)
      && (forall q :: q in queueIdxOrder ==> OrderOf(queueIdxes, q) == Some(queueIdxOrder[q]))
    }

    ghost predicate Valid()
      reads this, cacheNums
    {
      OrderKnown() && AlignerModel.Valid(Cfg(), Now())
    }

    constructor (queueIdxes: seq<nat>, attrs: AlignAttrs)
      ensures Valid() && fresh(cacheNums)
      ensures Cfg() == Config(queueIdxes, attrs) && Now() == Init(Cfg())
    {
      this.queueIdxes := queueIdxes;
      this.attrs := attrs;
      cacheNums := new nat[|queueIdxes|](_ => 0);
      wait := map[];
      queueIdxOrder := map[];
      new;
      for i := 0 to |queueIdxes|
        invariant wait == map[] && Now() == Init(Cfg())
        invariant forall q :: q in queueIdxOrder <==> OrderOf(queueIdxes[..i], q).Some?
        invariant forall q :: q in queueIdxOrder ==> OrderOf(queueIdxes[..i], q) == Some(queueIdxOrder[q])
      {
        assert queueIdxes[..i + 1][..i] == queueIdxes[..i];
        queueIdxOrder := queueIdxOrder[queueIdxes[i] := i];
      }
      assert queueIdxes[..|queueIdxes|] == queueIdxes;
      InitValid(Cfg());
    }

    /** Pops the head of every non-empty queue of an entry and hands the heads out. */
    method Take(e: AlignCacheData) returns (rest: AlignCacheData, out: Output)
      requires |e.queues| == cacheNums.Length && forall i :: 0 <= i < |e.queues| ==> |e.queues[i]| <= cacheNums[i]
      modifies cacheNums
      ensures rest == Taken(e) && out == OutputOf(Heads(e))
      ensures cacheNums[..] == NumsAfterTake(old(cacheNums[..]), e)
    {
      var needInfo, ret, data, info := true, 0, [], None;
      rest := e;
      ghost var heads := Heads(e);
      assert OutputOf([]) == NOTHING && heads[..0] == [];
      hide OutputOf;
      for idx := 0 to |e.queues|
        invariant rest.startTime == e.startTime && |rest.queues| == |e.queues|
        invariant forall i :: 0 <= i < idx ==> rest.queues[i] == Tail(e.queues[i])
        invariant forall i :: idx <= i < |e.queues| ==> rest.queues[i] == e.queues[i]
        invariant forall i :: 0 <= i < idx ==> cacheNums[i] == old(cacheNums[i]) - if LenAt(e, i) > 0 then 1 else 0
        invariant forall i :: idx <= i < |e.queues| ==> cacheNums[i] == old(cacheNums[i])
        invariant Output(ret, data, info) == OutputOf(heads[..idx]) && needInfo == info.None?
      {
        OutputOfNext(heads, idx);
        if rest.queues[idx] == [] {
          continue;
        }
        var head := rest.queues[idx][0];
        if head.msg.retCode == 0 && !head.msg.nullData {
          data := data + [head.tensor];
        }
        if ret == 0 && head.msg.retCode != 0 {
          ret := head.msg.retCode;
        }
        if needInfo {
          info := Some(head);
          needInfo := false;
        }
        rest := rest.(queues := rest.queues[idx := rest.queues[idx][1..]]);
        cacheNums[idx] := cacheNums[idx] - 1;
      }
      assert heads[..|e.queues|] == heads;
      assert rest.queues == Taken(e).queues;
      out := Output(ret, data, info);
    }

    /** Erases an entry; its destructor pops what is left and gives it back to the counters. */
    method Erase(k: Key)
      requires Accounted(cacheNums.Length, Now()) && k in wait
      modifies `wait, cacheNums
      ensures Now() == Drop(old(Now()), {k}).state && Accounted(cacheNums.Length, Now())
    {
      var e := wait[k];
      ghost var s := Now();
      forall i | 0 <= i < |e.queues| ensures |e.queues[i]| <= cacheNums[i] {
        WeightRemove(wait, k, ColumnOf(i));
      }
      for idx := 0 to |e.queues|
        invariant wait == s.wait
        invariant forall i :: 0 <= i < idx ==> cacheNums[i] == s.cacheNums[i] - |e.queues[i]|
        invariant forall i :: idx <= i < |e.queues| ==> cacheNums[i] == s.cacheNums[i]
      {
        var que := e.queues[idx];
        while que != []
          invariant wait == s.wait && |que| <= |e.queues[idx]| && cacheNums[idx] == s.cacheNums[idx] - |e.queues[idx]| + |que|
          invariant forall i :: 0 <= i < |e.queues| && i != idx ==>
                      cacheNums[i] == s.cacheNums[i] - if i < idx then |e.queues[i]| else 0
        {
          que := que[1..];
          cacheNums[idx] := cacheNums[idx] - 1;
        }
      }
      wait := wait - {k};
      forall i: nat | i < |e.queues| ensures Weight(Restrict(s.wait, {k}), ColumnOf(i)) == |e.queues[i]| {
        WeightOfOne(s.wait, k, ColumnOf(i));
      }
      assert cacheNums[..] == Drop(s, {k}).state.cacheNums;
      assert Now() == Drop(s, {k}).state;
      DropAccounted(cacheNums.Length, s, {k});
    }

    /** Takes from a stored entry and erases it when nothing is left. */
    method TakeFrom(k: Key) returns (out: Output)
      requires Accounted(cacheNums.Length, Now()) && k in wait
      modifies `wait, cacheNums
      ensures Now() == TakeAt(old(Now()), k).state && out == OutputOf(Heads(old(wait)[k]))
    {
      ghost var s := Now();
      forall i | 0 <= i < cacheNums.Length ensures |wait[k].queues[i]| <= cacheNums[i] {
        WeightRemove(wait, k, ColumnOf(i));
      }
      var rest;
      rest, out := Take(wait[k]);
      wait := wait[k := rest];
      TakeAtAccounted(cacheNums.Length, s, k);
      if IsEmpty(rest) {
        ghost var s1 := Now();
        assert s1.wait - {k} == TakeAt(s, k).state.wait;
        assert Accounted(cacheNums.Length, s1) by {
          forall q: nat | q < cacheNums.Length ensures s1.cacheNums[q] == Weight(s1.wait, ColumnOf(q)) {
            WeightUpdate(s.wait, k, rest, ColumnOf(q));
            WeightRemove(s.wait, k, ColumnOf(q));
          }
        }
        Erase(k);
        AccountedUnique(cacheNums.Length, Now(), TakeAt(s, k).state);
      }
    }

    /** A push to an unknown queue fails and an ignored one is forgotten; any other is cached and,
        when it completes a group, the group is handed out at once. */
    method PushAndAlignData(queueIdx: nat, item: Item, ignored: bool, clock: int)
      returns (known: bool, isAligned: bool, out: Output)
      requires Valid()
      modifies `wait, cacheNums
      ensures Valid()
      ensures known <==> queueIdx in queueIdxes
      ensures var o := DoPush(Cfg(), old(Now()), queueIdx, item, clock, ignored);
              Now() == o.state && isAligned == o.taken.Some? && out == OutputOfGroup(o.taken)
    {
      hide Weight, IsComplete, IsEmpty, OutputOf;
      isAligned, out := false, NOTHING;
      PushValid(Cfg(), Now(), queueIdx, item, clock, ignored);
      if queueIdx !in queueIdxOrder {
        return false, isAligned, out;
      }
      known := true;
      var idx, k := queueIdxOrder[queueIdx], KeyOf(item);
      if ignored {
        return;
      }
      ghost var s := Now();
      if k !in wait {
        wait := wait[k := NewEntry(clock, |queueIdxes|)];
      }
      wait := wait[k := Pushed(wait[k], idx, item)];
      cacheNums[idx] := cacheNums[idx] + 1;
      assert Now() == Insert(Cfg(), s, idx, item, clock);
      InsertAccounted(Cfg(), s, idx, item, clock);
      if IsComplete(wait[k]) {
        isAligned := true;
        out := TakeFrom(k);
      }
    }

    /** The queue with the fewest cached items, the first of them if there are several. */
    method SelectNextQueueIdx() returns (queueIdx: nat)
      requires Valid() && queueIdxes != []
      ensures queueIdx == SelectNext(Cfg(), Now())
    {
      var next := 0;
      for idx := 0 to cacheNums.Length
        invariant 0 <= next < cacheNums.Length && (idx > 0 ==> next < idx)
        invariant forall i :: 0 <= i < idx ==> cacheNums[next] <= cacheNums[i]
        invariant forall i :: 0 <= i < next ==> cacheNums[next] < cacheNums[i]
      {
        if idx == 0 || cacheNums[idx] < cacheNums[next] {
          next := idx;
        }
      }
      queueIdx := queueIdxes[next];
      assert next == LeastIndex(cacheNums[..]);
    }

    /** Erases the keys that a predicate selects, walking the map from its smallest key. */
    method EraseWhere(doomed: set<Key>)
      requires Valid() && doomed <= wait.Keys
      modifies `wait, cacheNums
      ensures Valid() && Now() == Drop(old(Now()), doomed).state
    {
      ghost var s, n := Now(), cacheNums.Length;
      KeyOrder();
      var ahead := wait.Keys;
      while ahead != {}
        invariant ahead <= s.wait.Keys && Accounted(n, Now()) && n == cacheNums.Length
        invariant wait == s.wait - (doomed - ahead)
        decreases ahead
      {
        var k := FindLeast(ahead, KeyLe);
        ahead := ahead - {k};
        if k in doomed {
          Erase(k);
          assert doomed - ahead == (doomed - (ahead + {k})) + {k};
        } else {
          assert doomed - ahead == doomed - (ahead + {k});
        }
      }
      assert doomed - ahead == doomed;
      DropAccounted(n, s, doomed);
      AccountedUnique(n, Now(), Drop(s, doomed).state);
      DropValid(Cfg(), s, doomed);
    }

    method ClearCacheByTransId(transId: nat)
      requires Valid()
      modifies `wait, cacheNums
      ensures Valid() && Now() == Do(Cfg(), old(Now()), ClearByTransId(transId)).state
    {
      var keys := set k | k in wait && k.transId == transId;
      assert keys == OfTransId(wait, transId);
      EraseWhere(keys);
    }

    method ClearCache()
      requires Valid()
      modifies `wait, cacheNums
      ensures Valid() && Now() == Do(Cfg(), old(Now()), ClearAll).state
    {
      EraseWhere(wait.Keys);
    }

    /** The first expired key along the map, if there is one. */
    method FirstExpired(clock: int) returns (first: Option<Key>)
      requires Valid()
      ensures var expired := Expired(Cfg(), Now(), clock);
              first == if expired == {} then None else Some(FirstKey(expired))
    {
      KeyOrder();
      hide IsExpire, TotalOrder, KeyLe;
      ghost var expired := Expired(Cfg(), Now(), clock);
      var ahead := wait.Keys;
      while ahead != {}
        invariant expired <= ahead <= wait.Keys
        decreases ahead
      {
        var k := FindLeast(ahead, KeyLe);
        if IsExpire(wait[k], clock, attrs.timeout) {
          assert IsLeast(expired, k, KeyLe);
          LeastUnique(expired, k, KeyLe);
          return Some(k);
        }
        ahead := ahead - {k};
      }
      return None;
    }

    /** With dropping every expired key is erased, otherwise the first one is taken from. */
    method TryTakeExpired(clock: int) returns (hasOutput: bool, out: Output)
      requires Valid()
      modifies `wait, cacheNums
      ensures Valid()
      ensures var o := Do(Cfg(), old(Now()), TakeExpired(clock));
              Now() == o.state && hasOutput == o.taken.Some? && out == OutputOfGroup(o.taken)
    {
      hide Weight, IsExpire, OutputOf;
      hasOutput, out := false, NOTHING;
      if attrs.timeout == ALIGN_NEVER_TIMEOUT {
        return;
      }
      ghost var s := Now();
      var first := FirstExpired(clock);
      if first.None? {
        return;
      }
      if attrs.dropWhenNotAlign {
        var doomed := set k | k in wait && IsExpire(wait[k], clock, attrs.timeout);
        assert doomed == Expired(Cfg(), s, clock);
        EraseWhere(doomed);
        return;
      }
      out := TakeFrom(first.value);
      hasOutput := true;
      TakeAtValid(Cfg(), s, first.value);
    }

    method EraseLeast(ghost s: State, ghost gone: set<Key>) returns (ghost k: Key)
      requires Accounted(cacheNums.Length, Now()) && wait != map[] && wait == s.wait - gone && LowKeys(s.wait.Keys, gone)
      modifies `wait, cacheNums
      ensures Accounted(cacheNums.Length, Now()) && |wait| == |old(wait)| - 1
      ensures wait == s.wait - (gone + {k}) && LowKeys(s.wait.Keys, gone + {k})
    {
      KeyOrder();
      hide TotalOrder, KeyLe, LowKeys, Accounted, Drop;
      var first := FindLeast(wait.Keys, KeyLe);
      NextLowKey(s.wait, gone, first);
      Erase(first);
      k := first;
    }

    /** Erases the smallest key until the limit is met. */
    method EraseSmallest()
      requires Valid() && |wait| > attrs.maxCacheNum
      modifies `wait, cacheNums
      ensures Valid() && Now() == Drop(old(Now()), Excess(Cfg(), old(Now()))).state
    {
      KeyOrder();
      hide TotalOrder, ExcessOf, KeyLe, LowKeys, Drop, OrderKnown;
      ghost var s, n := Now(), cacheNums.Length;
      assert Accounted(n, s);
      hide Accounted, AlignerModel.Valid;
      ghost var gone: set<Key> := {};
      NoLowKeys(s.wait.Keys);
      while |wait| > attrs.maxCacheNum
        invariant Accounted(n, Now()) && n == cacheNums.Length
        invariant wait == s.wait - gone && |wait| >= attrs.maxCacheNum && LowKeys(s.wait.Keys, gone)
        decreases |wait|
      {
        ghost var k := EraseLeast(s, gone);
        gone := gone + {k};
      }
      OverLimitDropped(n, s, gone, Now());
    }

    lemma OverLimitDropped(n: nat, s: State, gone: set<Key>, t: State)
      requires AlignerModel.Valid(Cfg(), s) && Accounted(n, s) && Accounted(n, t) && t.wait == s.wait - gone
      requires |s.wait| > attrs.maxCacheNum == |t.wait| && LowKeys(s.wait.Keys, gone)
      ensures AlignerModel.Valid(Cfg(), t) && t == Drop(s, Excess(Cfg(), s)).state
    {
      hide Accounted, AlignerModel.Valid, LowKeys, ExcessOf, Drop;
      OverLimitIsGone(s, gone);
      DropAccounted(n, s, gone);
      AccountedUnique(n, t, Drop(s, gone).state);
      DropValid(Cfg(), s, gone);
    }

    /** Beyond the limit, keys are erased from the smallest on, or without dropping the smallest key
        is taken from once. */
    method TryTakeOverLimit() returns (hasOutput: bool, out: Output)
      requires Valid()
      modifies `wait, cacheNums
      ensures Valid()
      ensures var o := Do(Cfg(), old(Now()), TakeOverLimit);
              Now() == o.state && hasOutput == o.taken.Some? && out == OutputOfGroup(o.taken)
    {
      hide Weight, ExcessOf, OutputOf;
      hasOutput, out := false, NOTHING;
      if |wait| <= attrs.maxCacheNum {
        return;
      }
      if attrs.dropWhenNotAlign {
        EraseSmallest();
        return;
      }
      KeyOrder();
      ghost var s := Now();
      var first := FindLeast(wait.Keys, KeyLe);
      out := TakeFrom(first);
      hasOutput := true;
      TakeAtValid(Cfg(), s, first);
    }

    lemma OverLimitIsGone(s: State, gone: set<Key>)
      requires |s.wait| > attrs.maxCacheNum && |s.wait - gone| == attrs.maxCacheNum && LowKeys(s.wait.Keys, gone)
      ensures Drop(s, gone).state.wait == s.wait - gone
      ensures gone == Excess(Cfg(), s)
    {
      KeyOrder();
      assert (s.wait - gone).Keys == s.wait.Keys - gone;
      assert |s.wait.Keys - gone| == |s.wait.Keys| - |gone|;
      SmallestUnique(s.wait.Keys, gone, KeyLe);
    }

    /** Expired data first; over-limit data only when that gave neither output nor an error. */
    method TryTakeExpiredOrOverLimitData(clock: int) returns (hasOutput: bool, out: Output)
      requires Valid()
      modifies `wait, cacheNums
      ensures Valid()
      ensures var o := Do(Cfg(), old(Now()), TakeExpired(clock));
              if o.taken.Some? then Now() == o.state && hasOutput && out == OutputOfGroup(o.taken)
              else
                AlignerModel.Valid(Cfg(), o.state) &&
                var p := Do(Cfg(), o.state, TakeOverLimit);
                Now() == p.state && hasOutput == p.taken.Some? && out == OutputOfGroup(p.taken)
    {
      hasOutput, out := TryTakeExpired(clock);
      if out.ret != 0 || hasOutput {
        return;
      }
      hasOutput, out := TryTakeOverLimit();
    }
  }
}
