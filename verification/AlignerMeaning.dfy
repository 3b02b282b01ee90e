/** What the aligner's keys, times and outputs mean in terms of the items that were pushed. */
module AlignerMeaning {
  import opened Ordered
  import opened AlignerModel
  import opened AlignerRuns

  // ----- Keys -----

  ghost predicate Labelled(items: seq<Item>, k: Key) {
    forall i :: 0 <= i < |items| ==> items[i].msg.transId == k.transId && items[i].msg.dataLabel == k.dataLabel
  }

  lemma {:induction false} StreamLabelled(cfg: Config, steps: seq<Step>, k: Key, q: nat)
    ensures Labelled(Stream(cfg, steps, k, q), k)
  {
    if steps != [] { StreamLabelled(cfg, steps[..|steps| - 1], k, q); }
  }

  /** A push that is not ignored, to a known queue, is offered under exactly one key: the transaction and
      the data label in its header. */
  lemma OfferedUnderOneKey(cfg: Config, step: Step, k: Key)
    requires step.Push? && !step.ignored && step.queueIdx in cfg.queueIdxes
    ensures (exists q: nat :: Offered(cfg, step, k, q) == [step.item]) <==> k == Key(step.item.msg.transId, step.item.msg.dataLabel)
    ensures forall q: nat :: Offered(cfg, step, k, q) == [] || Offered(cfg, step, k, q) == [step.item]
  {
    if k == Key(step.item.msg.transId, step.item.msg.dataLabel) {
      var q := OrderOf(cfg.queueIdxes, step.queueIdx).value;
      assert Offered(cfg, step, k, q) == [step.item];
    }
  }

  /** In every run, what is cached under a key has its transaction and its data label. */
  lemma CachedLabelled(cfg: Config, steps: seq<Step>, k: Key, q: nat)
    ensures Labelled(Queue(Exec(cfg, steps), k, q), k)
  {
    hide Exec, Queue, Stream, LeftIn;
    RunConserves(cfg, steps, k, q);
    StreamLabelled(cfg, steps, k, q);
    var (gone, cached) := (ItemsOf(LeftIn(cfg, steps, k, q)), Queue(Exec(cfg, steps), k, q));
    forall i | 0 <= i < |cached| ensures cached[i].msg.transId == k.transId && cached[i].msg.dataLabel == k.dataLabel {
      assert cached[i] == Stream(cfg, steps, k, q)[|gone| + i];
    }
  }

  /** In every run, whatever is handed out or dropped under a key has its transaction and its data label. */
  lemma LeavingLabelled(cfg: Config, steps: seq<Step>, k: Key, q: nat)
    ensures Labelled(ItemsOf(LeftIn(cfg, steps, k, q)), k)
  {
    hide Exec, Queue, Stream, LeftIn;
    RunConserves(cfg, steps, k, q);
    StreamLabelled(cfg, steps, k, q);
    var gone := ItemsOf(LeftIn(cfg, steps, k, q));
    forall i | 0 <= i < |gone| ensures gone[i].msg.transId == k.transId && gone[i].msg.dataLabel == k.dataLabel {
      assert gone[i] == Stream(cfg, steps, k, q)[i];
    }
  }

  /** So have all members of a completed group. */
  lemma GroupLabelled(cfg: Config, steps: seq<Step>, k: Key, j: nat, q: nat)
    requires PushesOnly(steps) && cfg.queueIdxes != [] && j < |Groups(cfg, steps, k)| && q < |cfg.queueIdxes|
    ensures var g := Groups(cfg, steps, k)[j];
            && q < |g| && g[q].Some? && g[q].value.msg.transId == k.transId && g[q].value.msg.dataLabel == k.dataLabel
  {
    hide Groups, Stream;
    ZipRefinement(cfg, steps, k);
    StreamLabelled(cfg, steps, k, q);
    assert Zipped(Groups(cfg, steps, k), Stream(cfg, steps, k, q), q);
  }

  // ----- Times -----

  /** A key has expired when the timeout has passed since its start. The elapsed time is cut to whole
      milliseconds towards zero, which matters for timeouts that are not positive. */
  lemma ExpiredIff(cfg: Config, s: State, now: int, k: Key)
    ensures k in Expired(cfg, s, now) <==>
            && k in s.wait
            && var (timeout, elapsed) := (cfg.attrs.timeout, now - s.wait[k].startTime);
               if timeout > 0 then elapsed >= timeout * 1_000_000 else elapsed > (timeout - 1) * 1_000_000
  {}

  /** The clock of the push that created a key. */
  ghost function CreatedAt(cfg: Config, steps: seq<Step>, k: Key): int {
    if steps == [] then 0 else
    var (front, last) := (steps[..|steps| - 1], steps[|steps| - 1]);
    if last.Push? && k !in Exec(cfg, front).wait then last.now else CreatedAt(cfg, front, k)
  }

  lemma StepKeepsStart(cfg: Config, s: State, step: Step, k: Key)
    requires Valid(cfg, s) && k in Do(cfg, s, step).state.wait
    ensures if k in s.wait then Do(cfg, s, step).state.wait[k].startTime == s.wait[k].startTime
            else step.Push? && Do(cfg, s, step).state.wait[k].startTime == step.now
  {
    hide Weight, Valid, ExcessOf, NumsAfterTake;
  }

  /** In every run a stored key started with the push that created it, and later pushes and takes leave
      its age alone. */
  lemma {:induction false} StartIsCreation(cfg: Config, steps: seq<Step>, k: Key)
    requires k in Exec(cfg, steps).wait
    ensures Exec(cfg, steps).wait[k].startTime == CreatedAt(cfg, steps, k)
  {
    hide Do, Valid;
    if steps != [] {
      var front := steps[..|steps| - 1];
      StepKeepsStart(cfg, Exec(cfg, front), steps[|steps| - 1], k);
      if k in Exec(cfg, front).wait { StartIsCreation(cfg, front, k); }
    }
  }

  /** Without a timeout nothing ever expires. */
  lemma NeverExpires(cfg: Config, s: State, now: int)
    requires Valid(cfg, s) && cfg.attrs.timeout == -1
    ensures Do(cfg, s, TakeExpired(now)) == Unchanged(s)
  {}

  // ----- Which keys an operation touches -----

  ghost predicate Keeps(s: State, s': State, k: Key) {
    k in s.wait ==> k in s'.wait && s'.wait[k] == s.wait[k]
  }

  /** Clearing a transaction removes its keys and leaves all others as they are. */
  lemma ClearExact(cfg: Config, s: State, t: nat, k: Key)
    requires Valid(cfg, s)
    ensures var s' := Do(cfg, s, ClearByTransId(t)).state;
            if k.transId == t then k !in s'.wait else Keeps(s, s', k) && (k in s'.wait ==> k in s.wait)
  {
    hide Weight;
  }

  /** With dropping, expiry removes exactly the expired keys and hands nothing out. */
  lemma ExpiryDropsExactly(cfg: Config, s: State, now: int, k: Key)
    requires Valid(cfg, s) && cfg.attrs.dropWhenNotAlign && cfg.attrs.timeout != -1
    ensures var o := Do(cfg, s, TakeExpired(now));
            && o.taken.None?
            && if k in Expired(cfg, s, now) then k !in o.state.wait else Keeps(s, o.state, k) && (k in o.state.wait ==> k in s.wait)
  {
    hide Weight, IsExpire;
  }

  ghost predicate NotAbove(k: Key, j: Key) {
    k.transId < j.transId || (k.transId == j.transId && k.dataLabel <= j.dataLabel)
  }

  /** Without dropping, the key that is taken from is the smallest expired one, or the smallest of all
      beyond the limit, and no other key is touched. */
  lemma TakesSmallest(cfg: Config, s: State, step: Step)
    requires Valid(cfg, s) && !cfg.attrs.dropWhenNotAlign
    requires if step.TakeExpired? then cfg.attrs.timeout != -1 else step.TakeOverLimit?
    ensures var (o, keys) := (Do(cfg, s, step),
                              if step.TakeExpired? then Expired(cfg, s, step.now)
                              else if |s.wait| > cfg.attrs.maxCacheNum then s.wait.Keys else {});
            && (o.taken.Some? <==> keys != {})
            && (o.taken.Some? ==> o.taken.value.key in keys && forall j :: j in keys ==> NotAbove(o.taken.value.key, j))
            && forall j :: (o.taken.Some? ==> j != o.taken.value.key) ==> Keeps(s, o.state, j)
  {
    hide Weight, IsExpire, Valid;
    if step.TakeOverLimit? && |s.wait| > cfg.attrs.maxCacheNum { assert s.wait.Keys != {}; }
  }

  // ----- What a take hands out -----

  ghost predicate Sound(h: Option<Item>) {
    h.Some? && h.value.msg.retCode == 0 && !h.value.msg.nullData
  }

  ghost function SoundBefore(heads: seq<Option<Item>>, n: nat): nat
    requires n <= |heads|
  {
    if n == 0 then 0 else SoundBefore(heads, n - 1) + if Sound(heads[n - 1]) then 1 else 0
  }

  /** The tensors handed out are those of the sound heads, each at the place given by the number of sound
      heads before it. */
  lemma {:induction false} DataMeaning(heads: seq<Option<Item>>, n: nat)
    requires n <= |heads|
    ensures var data := DataOf(heads[..n]);
            && |data| == SoundBefore(heads, n)
            && forall i: nat :: i < n && Sound(heads[i]) ==>
                 SoundBefore(heads, i) < |data| && data[SoundBefore(heads, i)] == heads[i].value.tensor
  {
    if n > 0 {
      DataMeaning(heads, n - 1);
      assert heads[..n][..n - 1] == heads[..n - 1];
    } else {
      assert heads[..0] == [];
    }
  }

  ghost predicate FirstError(heads: seq<Option<Item>>, i: nat)
    requires i < |heads|
  {
    && heads[i].Some? && heads[i].value.msg.retCode != 0
    && forall j :: 0 <= j < i && heads[j].Some? ==> heads[j].value.msg.retCode == 0
  }

  /** The status is the error code of the first head that has one, 0 if none has. */
  lemma {:induction false} RetMeaning(heads: seq<Option<Item>>)
    ensures RetOf(heads) == 0 <==> forall i :: 0 <= i < |heads| && heads[i].Some? ==> heads[i].value.msg.retCode == 0
    ensures forall i: nat :: i < |heads| && FirstError(heads, i) ==> RetOf(heads) == heads[i].value.msg.retCode
  {
    if heads != [] {
      var n := |heads| - 1;
      var front := heads[..n];
      RetMeaning(front);
      assert forall i :: 0 <= i < n ==> front[i] == heads[i];
      assert forall i: nat :: i < n && FirstError(heads, i) ==> FirstError(front, i);
    }
  }

  /** The header comes from the first head that is present. */
  lemma {:induction false} InfoMeaning(heads: seq<Option<Item>>)
    ensures InfoOf(heads) == None <==> forall i :: 0 <= i < |heads| ==> heads[i] == None
    ensures forall i :: 0 <= i < |heads| && heads[i].Some? && (forall j :: 0 <= j < i ==> heads[j] == None) ==> InfoOf(heads) == heads[i]
  {
    if heads != [] {
      var n := |heads| - 1;
      var front := heads[..n];
      InfoMeaning(front);
      assert forall i :: 0 <= i < n ==> front[i] == heads[i];
    }
  }
}
