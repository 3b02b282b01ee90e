/** The data-flow aligner as a state machine over values: what each locked operation does to the
    waiting data and to the shared per-queue counters. */
module AlignerModel {
  import opened Ordered

  // ----- Data -----

  /** The part of a message header the aligner looks at; `nullData` is the null-data flag bit. */
  datatype MsgInfo = MsgInfo(transId: nat, dataLabel: nat, retCode: int, nullData: bool)

  datatype Item = Item(tensor: int, msg: MsgInfo, userData: int)

  datatype Key = Key(transId: nat, dataLabel: nat)

  predicate KeyLe(a: Key, b: Key) {
    a.transId < b.transId || (a.transId == b.transId && a.dataLabel <= b.dataLabel)
  }

  lemma KeyOrder()
    ensures TotalOrder(KeyLe)
  {}

  function KeyOf(item: Item): Key {
    Key(item.msg.transId, item.msg.dataLabel)
  }

  /** The cached data of one key: a first-in first-out queue for each queue of the aligner. */
  datatype AlignCacheData = AlignCacheData(startTime: int, queues: seq<seq<Item>>)

  type Wait = map<Key, AlignCacheData>

  /** At most `maxCacheNum` keys wait; `timeout` in milliseconds, -1 for never. */
  datatype AlignAttrs = AlignAttrs(maxCacheNum: nat, timeout: int, dropWhenNotAlign: bool)

  datatype Config = Config(queueIdxes: seq<nat>, attrs: AlignAttrs)

  datatype State = State(cacheNums: seq<int>, wait: Wait)

  const ALIGN_NEVER_TIMEOUT: int := -1

  ghost function Zeros(n: nat): seq<int> {
    seq(n, _ => 0)
  }

  ghost function Init(cfg: Config): State {
    State(Zeros(|cfg.queueIdxes|), map[])
  }

  // ----- One entry -----

  function NewEntry(now: int, n: nat): AlignCacheData {
    AlignCacheData(now, seq(n, _ => []))
  }

  predicate IsComplete(e: AlignCacheData) {
    |e.queues| > 0 && forall i :: 0 <= i < |e.queues| ==> e.queues[i] != []
  }

  predicate IsEmpty(e: AlignCacheData) {
    forall i :: 0 <= i < |e.queues| ==> e.queues[i] == []
  }

  /** Whole milliseconds between two readings of the clock in nanoseconds, cut towards zero. */
  function ElapsedMs(now: int, start: int): int {
    if now >= start then (now - start) / 1_000_000 else -((start - now) / 1_000_000)
  }

  predicate IsExpire(e: AlignCacheData, now: int, timeout: int) {
    ElapsedMs(now, e.startTime) >= timeout
  }

  function Pushed(e: AlignCacheData, q: nat, item: Item): AlignCacheData
    requires q < |e.queues|
  {
    e.(queues := e.queues[q := e.queues[q] + [item]])
  }

  function Tail(q: seq<Item>): seq<Item> {
    if q == [] then [] else q[1..]
  }

  function Head(q: seq<Item>): Option<Item> {
    if q == [] then None else Some(q[0])
  }

  function Taken(e: AlignCacheData): AlignCacheData {
    e.(queues := seq(|e.queues|, i requires 0 <= i < |e.queues| => Tail(e.queues[i])))
  }

  function Heads(e: AlignCacheData): (h: seq<Option<Item>>)
    ensures |h| == |e.queues|
  {
    seq(|e.queues|, i requires 0 <= i < |e.queues| => Head(e.queues[i]))
  }

  /** The tensors a take hands out: those without an error code that are not null data. */
  function DataOf(heads: seq<Option<Item>>): seq<int> {
    if heads == [] then []
    else
      var h := heads[|heads| - 1];
      DataOf(heads[..|heads| - 1]) +
      if h.Some? && h.value.msg.retCode == 0 && !h.value.msg.nullData then [h.value.tensor] else []
  }

  /** The first error code among the heads, 0 if there is none. */
  function RetOf(heads: seq<Option<Item>>): int {
    if heads == [] then 0
    else
      var ret, h := RetOf(heads[..|heads| - 1]), heads[|heads| - 1];
      if ret == 0 && h.Some? then h.value.msg.retCode else ret
  }

  /** The item whose header and user data describe the output: the first one present. */
  function InfoOf(heads: seq<Option<Item>>): Option<Item> {
    if heads == [] then None
    else
      var info := InfoOf(heads[..|heads| - 1]);
      if info.Some? then info else heads[|heads| - 1]
  }

  // ----- Weighing the waiting data -----

  datatype Measure = ColumnOf(q: nat) | AllItems

  function LenAt(e: AlignCacheData, q: nat): nat {
    if q < |e.queues| then |e.queues[q]| else 0
  }

  function Items(queues: seq<seq<Item>>): nat {
    if queues == [] then 0 else |queues[|queues| - 1]| + Items(queues[..|queues| - 1])
  }

  function Value(e: AlignCacheData, m: Measure): nat {
    if m.ColumnOf? then LenAt(e, m.q) else Items(e.queues)
  }

  ghost function Weight(wait: Wait, m: Measure): nat {
    if wait == map[] then 0 else var k :| k in wait; Value(wait[k], m) + Weight(wait - {k}, m)
  }

  lemma {:induction false} WeightRemove(wait: Wait, k: Key, m: Measure)
    requires k in wait
    ensures Weight(wait, m) == Value(wait[k], m) + Weight(wait - {k}, m)
    decreases |wait|
  {
    var j :| j in wait && Weight(wait, m) == Value(wait[j], m) + Weight(wait - {j}, m);
    if j != k {
      assert |(wait - {j}).Keys| < |wait.Keys|;
      WeightRemove(wait - {j}, k, m);
      assert k in wait - {j};
      assert |(wait - {k}).Keys| < |wait.Keys|;
      WeightRemove(wait - {k}, j, m);
      assert wait - {j} - {k} == wait - {k} - {j};
    }
  }

  lemma WeightOfNothing(m: Measure)
    ensures Weight(map[], m) == 0
  {}

  lemma WeightUpdate(wait: Wait, k: Key, e: AlignCacheData, m: Measure)
    ensures Weight(wait[k := e], m) == Value(e, m) + Weight(wait - {k}, m)
  {
    WeightRemove(wait[k := e], k, m);
    assert wait[k := e] - {k} == wait - {k};
  }

  ghost function Restrict(wait: Wait, keys: set<Key>): Wait {
    map k | k in wait && k in keys :: wait[k]
  }

  lemma {:induction false} WeightSplit(wait: Wait, keys: set<Key>, m: Measure)
    ensures Weight(wait, m) == Weight(Restrict(wait, keys), m) + Weight(wait - keys, m)
    decreases |wait|
  {
    hide Weight, Value;
    if wait == map[] {
      assert Restrict(wait, keys) == map[] && wait - keys == map[];
      WeightOfNothing(m);
    } else {
      var k :| k in wait;
      WeightRemove(wait, k, m);
      assert |(wait - {k}).Keys| < |wait.Keys|;
      WeightSplit(wait - {k}, keys, m);
      if k in keys {
        assert Restrict(wait, keys) - {k} == Restrict(wait - {k}, keys);
        assert wait - keys == wait - {k} - keys;
        WeightRemove(Restrict(wait, keys), k, m);
      } else {
        assert Restrict(wait, keys) == Restrict(wait - {k}, keys);
        assert wait - keys - {k} == wait - {k} - keys;
        WeightRemove(wait - keys, k, m);
      }
    }
  }

  // ----- The locked operations -----

  datatype Accepted = Accepted(key: Key, queue: nat, item: Item)
  datatype Group = Group(key: Key, heads: seq<Option<Item>>)

  /** The next state, and where items went: one may be accepted into the cache, one group of heads
      may be taken out of it, and whole entries may be dropped. */
  datatype Outcome = Outcome(state: State, accepted: Option<Accepted>, taken: Option<Group>, dropped: Wait)

  datatype Step =
    | Push(queueIdx: nat, item: Item, now: int, ignored: bool)
    | TakeExpired(now: int)
    | TakeOverLimit
    | ClearByTransId(transId: nat)
    | ClearAll

  ghost predicate LastPosition(queueIdxes: seq<nat>, queueIdx: nat, q: nat) {
    && q < |queueIdxes| && queueIdxes[q] == queueIdx
    && forall j :: q < j < |queueIdxes| ==> queueIdxes[j] != queueIdx
  }

  /** The position of a queue index; among repeated indexes the last one counts. */
  function OrderOf(queueIdxes: seq<nat>, queueIdx: nat): (r: Option<nat>)
    ensures r.Some? ==> LastPosition(queueIdxes, queueIdx, r.value)
    ensures r.None? ==> queueIdx !in queueIdxes
  {
    if queueIdxes == [] then None
    else if queueIdxes[|queueIdxes| - 1] == queueIdx then Some(|queueIdxes| - 1)
    else OrderOf(queueIdxes[..|queueIdxes| - 1], queueIdx)
  }

  ghost function Unchanged(s: State): Outcome {
    Outcome(s, None, None, map[])
  }

  ghost function FirstKey(keys: set<Key>): (k: Key)
    requires keys != {}
    ensures k in keys && forall j :: j in keys ==> KeyLe(k, j)
  {
    KeyOrder();
    Least(keys, KeyLe)
  }

  ghost function StoreOrErase(wait: Wait, k: Key, e: AlignCacheData): Wait {
    if IsEmpty(e) then wait - {k} else wait[k := e]
  }

  ghost function NumsAfterTake(nums: seq<int>, e: AlignCacheData): seq<int> {
    seq(|nums|, q requires 0 <= q < |nums| => nums[q] - if LenAt(e, q) > 0 then 1 else 0)
  }

  /** Takes the head of every non-empty queue of a key, and erases the key once it is empty. */
  ghost function TakeAt(s: State, k: Key): Outcome
    requires k in s.wait
  {
    var e := s.wait[k];
    Outcome(State(NumsAfterTake(s.cacheNums, e), StoreOrErase(s.wait, k, Taken(e))),
            None, Some(Group(k, Heads(e))), map[])
  }

  /** Erases keys; the destructor of each entry gives its items back to the counters. */
  ghost function Drop(s: State, keys: set<Key>): Outcome {
    var dropped := Restrict(s.wait, keys);
    var nums := seq(|s.cacheNums|, q requires 0 <= q < |s.cacheNums| => s.cacheNums[q] - Weight(dropped, ColumnOf(q)));
    Outcome(State(nums, s.wait - keys), None, None, dropped)
  }

  /** Appends an item to its key's queue, under a new key if need be. */
  ghost function Insert(cfg: Config, s: State, q: nat, item: Item, now: int): State
    requires Valid(cfg, s) && q < |cfg.queueIdxes|
  {
    var k := KeyOf(item);
    var e := if k in s.wait then s.wait[k] else NewEntry(now, |cfg.queueIdxes|);
    State(s.cacheNums[q := s.cacheNums[q] + 1], s.wait[k := Pushed(e, q, item)])
  }

  ghost function DoPush(cfg: Config, s: State, queueIdx: nat, item: Item, now: int, ignored: bool): Outcome
    requires Valid(cfg, s)
  {
    var order := OrderOf(cfg.queueIdxes, queueIdx);
    if order.None? || ignored then Unchanged(s) else
    var q, k := order.value, KeyOf(item);
    var s1 := Insert(cfg, s, q, item, now);
    (if IsComplete(s1.wait[k]) then TakeAt(s1, k) else Unchanged(s1)).(accepted := Some(Accepted(k, q, item)))
  }

  ghost function Expired(cfg: Config, s: State, now: int): set<Key> {
    set k | k in s.wait && IsExpire(s.wait[k], now, cfg.attrs.timeout)
  }

  ghost function DoTakeExpired(cfg: Config, s: State, now: int): Outcome {
    var expired := Expired(cfg, s, now);
    if cfg.attrs.timeout == ALIGN_NEVER_TIMEOUT || expired == {} then Unchanged(s)
    else if cfg.attrs.dropWhenNotAlign then Drop(s, expired)
    else TakeAt(s, FirstKey(expired))
  }

  /** The keys beyond the limit: the smallest ones. */
  ghost function Excess(cfg: Config, s: State): set<Key> {
    ExcessOf(s.wait.Keys, cfg.attrs.maxCacheNum)
  }

  ghost function ExcessOf(keys: set<Key>, limit: nat): (x: set<Key>)
    ensures x <= keys && |keys - x| <= limit
    ensures x == {} <==> |keys| <= limit
  {
    KeyOrder();
    if |keys| <= limit then {} else
    var x := Smallest(keys, |keys| - limit, KeyLe);
    assert |keys - x| == |keys| - |x|;
    x
  }

  ghost function DoTakeOverLimit(cfg: Config, s: State): Outcome {
    if |s.wait| <= cfg.attrs.maxCacheNum then Unchanged(s)
    else if cfg.attrs.dropWhenNotAlign then Drop(s, Excess(cfg, s))
    else TakeAt(s, FirstKey(s.wait.Keys))
  }

  ghost function OfTransId(wait: Wait, transId: nat): set<Key> {
    set k | k in wait && k.transId == transId
  }

  ghost function Do(cfg: Config, s: State, step: Step): Outcome
    requires Valid(cfg, s)
  {
    match step
    case Push(queueIdx, item, now, ignored) => DoPush(cfg, s, queueIdx, item, now, ignored)
    case TakeExpired(now) => DoTakeExpired(cfg, s, now)
    case TakeOverLimit => DoTakeOverLimit(cfg, s)
    case ClearByTransId(transId) => Drop(s, OfTransId(s.wait, transId))
    case ClearAll => Drop(s, s.wait.Keys)
  }

  // ----- Accounting: every step keeps the counters and the entries right -----

  ghost predicate ValidEntry(n: nat, e: AlignCacheData) {
    |e.queues| == n && !IsEmpty(e) && !IsComplete(e)
  }

  /** Every counter is the total length of its column, and every stored key has both an empty and a
      non-empty queue. */
  ghost predicate Valid(cfg: Config, s: State) {
    && |s.cacheNums| == |cfg.queueIdxes|
    && (forall k :: k in s.wait ==> ValidEntry(|cfg.queueIdxes|, s.wait[k]))
    && (forall q: nat :: q < |s.cacheNums| ==> s.cacheNums[q] == Weight(s.wait, ColumnOf(q)))
  }

  lemma InitValid(cfg: Config)
    ensures Valid(cfg, Init(cfg))
  {}

  /** A state that is accounted for but may hold one complete entry, as between push and take. */
  ghost predicate Accounted(n: nat, s: State) {
    && |s.cacheNums| == n
    && (forall k :: k in s.wait ==> |s.wait[k].queues| == n)
    && (forall q: nat :: q < |s.cacheNums| ==> s.cacheNums[q] == Weight(s.wait, ColumnOf(q)))
  }

  lemma TakeAtAccounted(n: nat, s: State, k: Key)
    requires Accounted(n, s) && k in s.wait
    ensures Accounted(n, TakeAt(s, k).state)
  {
    var e, s' := s.wait[k], TakeAt(s, k).state;
    forall q: nat | q < n ensures s'.cacheNums[q] == Weight(s'.wait, ColumnOf(q)) {
      WeightRemove(s.wait, k, ColumnOf(q));
      WeightUpdate(s.wait, k, Taken(e), ColumnOf(q));
    }
  }

  lemma DropAccounted(n: nat, s: State, keys: set<Key>)
    requires Accounted(n, s)
    ensures Accounted(n, Drop(s, keys).state)
  {
    var s' := Drop(s, keys).state;
    forall q: nat | q < n ensures s'.cacheNums[q] == Weight(s'.wait, ColumnOf(q)) {
      WeightSplit(s.wait, keys, ColumnOf(q));
    }
  }

  lemma DropValid(cfg: Config, s: State, keys: set<Key>)
    requires Valid(cfg, s)
    ensures Valid(cfg, Drop(s, keys).state)
  {
    DropAccounted(|cfg.queueIdxes|, s, keys);
  }

  lemma TakeAtValid(cfg: Config, s: State, k: Key)
    requires Valid(cfg, s) && k in s.wait
    ensures Valid(cfg, TakeAt(s, k).state)
  {
    TakeAtAccounted(|cfg.queueIdxes|, s, k);
    var e := s.wait[k];
    assert !IsComplete(Taken(e)) by {
      var i :| 0 <= i < |e.queues| && e.queues[i] == [];
      assert Taken(e).queues[i] == [];
    }
  }

  lemma InsertAccounted(cfg: Config, s: State, q: nat, item: Item, now: int)
    requires Valid(cfg, s) && q < |cfg.queueIdxes|
    ensures Accounted(|cfg.queueIdxes|, Insert(cfg, s, q, item, now))
  {
    var n, k, s1 := |cfg.queueIdxes|, KeyOf(item), Insert(cfg, s, q, item, now);
    forall c: nat | c < n ensures s1.cacheNums[c] == Weight(s1.wait, ColumnOf(c)) {
      WeightUpdate(s.wait, k, s1.wait[k], ColumnOf(c));
      if k in s.wait { WeightRemove(s.wait, k, ColumnOf(c)); } else { assert s.wait - {k} == s.wait; }
    }
  }

  lemma PushedEntry(e: AlignCacheData, q: nat, item: Item)
    requires q < |e.queues| && !IsComplete(e)
    ensures !IsEmpty(Pushed(e, q, item))
    ensures IsComplete(Pushed(e, q, item)) ==> !IsComplete(Taken(Pushed(e, q, item)))
  {
    var e' := Pushed(e, q, item);
    assert e'.queues[q] != [];
    var i :| 0 <= i < |e.queues| && e.queues[i] == [];
    assert i != q ==> e'.queues[i] == [];
    if IsComplete(e') {
      assert Taken(e').queues[q] == [];
    }
  }

  lemma PushValid(cfg: Config, s: State, queueIdx: nat, item: Item, now: int, ignored: bool)
    requires Valid(cfg, s)
    ensures Valid(cfg, DoPush(cfg, s, queueIdx, item, now, ignored).state)
  {
    hide Weight, IsComplete, IsEmpty, Pushed, Taken, NumsAfterTake;
    var n, order := |cfg.queueIdxes|, OrderOf(cfg.queueIdxes, queueIdx);
    if order.Some? && !ignored {
      var q, k := order.value, KeyOf(item);
      InsertAccounted(cfg, s, q, item, now);
      if k !in s.wait { NewEntryIncomplete(now, n); }
      PushedEntry(if k in s.wait then s.wait[k] else NewEntry(now, n), q, item);
      TakeAtAccounted(n, Insert(cfg, s, q, item, now), k);
    }
  }

  lemma NewEntryIncomplete(now: int, n: nat)
    ensures !IsComplete(NewEntry(now, n))
  {
    if n > 0 { assert NewEntry(now, n).queues[0] == []; }
  }

  /** Every operation keeps the accounting, whatever its arguments. */
  lemma StepKeepsValid(cfg: Config, s: State, step: Step)
    requires Valid(cfg, s)
    ensures Valid(cfg, Do(cfg, s, step).state)
  {
    match step {
      case Push(queueIdx, item, now, ignored) => PushValid(cfg, s, queueIdx, item, now, ignored);
      case TakeExpired(now) =>
        var expired := Expired(cfg, s, now);
        if expired != {} {
          DropValid(cfg, s, expired);
          TakeAtValid(cfg, s, FirstKey(expired));
        }
      case TakeOverLimit =>
        if |s.wait| > cfg.attrs.maxCacheNum {
          DropValid(cfg, s, Excess(cfg, s));
          TakeAtValid(cfg, s, FirstKey(s.wait.Keys));
        }
      case ClearByTransId(transId) => DropValid(cfg, s, OfTransId(s.wait, transId));
      case ClearAll => DropValid(cfg, s, s.wait.Keys);
    }
  }
}
