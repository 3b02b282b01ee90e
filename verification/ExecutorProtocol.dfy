/** The exception handler together with the aligners it clears and whose pushes it filters. Every
    step is one locked region; the processing thread of the handler and the fetching threads
    interleave freely. */
module ExecutorProtocol {
  import EH = ExceptionHandler
  import AM = AlignerModel
  import AR = AlignerRuns

  datatype Deployment = Deployment(attrs: AM.AlignAttrs, outputNum: nat)

  /** The aligners are found by the list of queue indexes they were created for. */
  datatype System = System(handler: EH.State, aligners: map<seq<nat>, AM.State>)

  const INIT: System := System(EH.INIT, map[])

  datatype Step =
    | Handle(step: EH.Step)
    | GetOrCreate(fetchIndexes: seq<nat>)
    | Push(fetchIndexes: seq<nat>, queueIdx: nat, item: AM.Item, clock: int)
    | TakeExpired(fetchIndexes: seq<nat>, clock: int)
    | TakeOverLimit(fetchIndexes: seq<nat>)
    | ClearAligners

  ghost function Cfg(d: Deployment, idxes: seq<nat>): AM.Config {
    AM.Config(idxes, d.attrs)
  }

  ghost predicate Enabled(sys: System, step: Step) {
    match step
    case Handle(s) => EH.Enabled(sys.handler, s)
    case Push(idxes, _, _, _) => idxes in sys.aligners
    case TakeExpired(idxes, _) => idxes in sys.aligners
    case TakeOverLimit(idxes) => idxes in sys.aligners
    case _ => true
  }

  /** The fetch indexes are refused if they repeat, lie out of range or belong to another aligner. */
  ghost predicate Creatable(d: Deployment, sys: System, idxes: seq<nat>) {
    && AR.Distinct(idxes)
    && forall i :: i in idxes ==> i < d.outputNum && forall other :: other in sys.aligners ==> i !in other
  }

  /** A step of one aligner as the fetching threads call it: a push asks the handler whether its
      transaction is to be ignored. */
  ghost function AlignerStep(sys: System, step: Step): AM.Step
    requires step.Push? || step.TakeExpired? || step.TakeOverLimit?
  {
    match step
    case Push(_, queueIdx, item, clock) => AM.Push(queueIdx, item, clock, item.msg.transId in sys.handler.modelIoAll)
    case TakeExpired(_, clock) => AM.TakeExpired(clock)
    case TakeOverLimit(_) => AM.TakeOverLimit
  }

  ghost function AlignerOutcome(d: Deployment, sys: System, step: Step): AM.Outcome
    requires Valid(d, sys) && Enabled(sys, step) && (step.Push? || step.TakeExpired? || step.TakeOverLimit?)
  {
    AM.Do(Cfg(d, step.fetchIndexes), sys.aligners[step.fetchIndexes], AlignerStep(sys, step))
  }

  ghost function EachAligner(d: Deployment, sys: System, step: AM.Step): map<seq<nat>, AM.State>
    requires Valid(d, sys)
  {
    map idxes | idxes in sys.aligners :: AM.Do(Cfg(d, idxes), sys.aligners[idxes], step).state
  }

  /** The callback every aligner registers: an occurrence clears the transaction, an expiry does
      nothing. */
  ghost function RunCallbacks(d: Deployment, sys: System, callbacks: seq<EH.Callback>): map<seq<nat>, AM.State>
    requires Valid(d, sys) && |callbacks| <= 1
  {
    if callbacks == [] || callbacks[0].kind == EH.Expired then sys.aligners
    else EachAligner(d, sys, AM.ClearByTransId(callbacks[0].transId))
  }

  lemma AtMostOneCallback(s: EH.State, step: EH.Step)
    requires EH.Enabled(s, step)
    ensures |EH.Do(s, step).callbacks| <= 1
  {}

  ghost function Do(d: Deployment, sys: System, step: Step): System
    requires Valid(d, sys) && Enabled(sys, step)
  {
    match step
    case Handle(s) =>
      AtMostOneCallback(sys.handler, s);
      var o := EH.Do(sys.handler, s);
      System(o.state, RunCallbacks(d, sys, o.callbacks))
    case GetOrCreate(idxes) =>
      if idxes in sys.aligners || !Creatable(d, sys, idxes) then sys
      else sys.(aligners := sys.aligners[idxes := AM.Init(Cfg(d, idxes))])
    case ClearAligners => sys.(aligners := EachAligner(d, sys, AM.ClearAll))
    case _ => sys.(aligners := sys.aligners[step.fetchIndexes := AlignerOutcome(d, sys, step).state])
  }

  // ----- What every interleaving keeps -----

  ghost predicate Disjoint(a: seq<nat>, b: seq<nat>) {
    forall i :: i in a ==> i !in b
  }

  ghost predicate Valid(d: Deployment, sys: System) {
    && EH.Consistent(sys.handler)
    && (forall idxes :: idxes in sys.aligners ==> AM.Valid(Cfg(d, idxes), sys.aligners[idxes]))
    && (forall idxes :: idxes in sys.aligners ==> AR.Distinct(idxes) && forall i :: i in idxes ==> i < d.outputNum)
    && (forall a, b :: a in sys.aligners && b in sys.aligners && a != b ==> Disjoint(a, b))
  }

  ghost predicate Free(s: AM.State, ids: set<nat>) {
    forall k :: k in s.wait ==> k.transId !in ids
  }

  /** No aligner holds an item of a transaction in the model-io exception set. */
  ghost predicate Safe(sys: System) {
    forall idxes :: idxes in sys.aligners ==> Free(sys.aligners[idxes], sys.handler.modelIoAll)
  }

  lemma StepKeepsValid(d: Deployment, sys: System, step: Step)
    requires Valid(d, sys) && Enabled(sys, step)
    ensures Valid(d, Do(d, sys, step))
  {
    hide AM.Do, AM.Valid, EH.Do, EH.Consistent;
    match step {
      case Handle(s) =>
        EH.StepKeepsConsistent(sys.handler, s);
        AtMostOneCallback(sys.handler, s);
        var calls := EH.Do(sys.handler, s).callbacks;
        if calls != [] { EachKeepsValid(d, sys, AM.ClearByTransId(calls[0].transId)); }
      case GetOrCreate(idxes) => AM.InitValid(Cfg(d, idxes));
      case ClearAligners => EachKeepsValid(d, sys, AM.ClearAll);
      case _ => AM.StepKeepsValid(Cfg(d, step.fetchIndexes), sys.aligners[step.fetchIndexes], AlignerStep(sys, step));
    }
  }

  lemma EachKeepsValid(d: Deployment, sys: System, step: AM.Step)
    requires Valid(d, sys)
    ensures forall idxes :: idxes in sys.aligners ==> AM.Valid(Cfg(d, idxes), EachAligner(d, sys, step)[idxes])
  {
    forall idxes | idxes in sys.aligners ensures AM.Valid(Cfg(d, idxes), EachAligner(d, sys, step)[idxes]) {
      AM.StepKeepsValid(Cfg(d, idxes), sys.aligners[idxes], step);
    }
  }

  /** A step of an aligner stores no key that was not there, except the one it accepts. */
  lemma AlignerKeepsFree(cfg: AM.Config, s: AM.State, step: AM.Step, ids: set<nat>)
    requires AM.Valid(cfg, s) && Free(s, ids)
    requires step.Push? ==> step.ignored || step.item.msg.transId !in ids
    ensures Free(AM.Do(cfg, s, step).state, ids)
  {
    hide AM.Weight;
  }

  lemma ClearKeepsFree(cfg: AM.Config, s: AM.State, t: nat, ids: set<nat>)
    requires AM.Valid(cfg, s) && Free(s, ids)
    ensures Free(AM.Do(cfg, s, AM.ClearByTransId(t)).state, ids + {t})
  {
    hide AM.Weight;
  }

  /** How a handler step changes the model-io set: only an occurrence adds to it. */
  lemma HandlerGrowth(s: EH.State, step: EH.Step)
    requires EH.Consistent(s) && EH.Enabled(s, step)
    ensures var o := EH.Do(s, step);
            if o.callbacks != [] && o.callbacks[0].kind == EH.Occured
            then o.state.modelIoAll == s.modelIoAll + {o.callbacks[0].transId}
            else o.state.modelIoAll <= s.modelIoAll
  {
    hide EH.FirstKey;
  }

  lemma StepKeepsSafe(d: Deployment, sys: System, step: Step)
    requires Valid(d, sys) && Enabled(sys, step) && Safe(sys)
    ensures Safe(Do(d, sys, step))
  {
    hide AM.Do, AM.Valid, EH.Do, EH.Consistent, Free;
    match step {
      case Handle(s) =>
        HandlerGrowth(sys.handler, s);
        AtMostOneCallback(sys.handler, s);
        forall idxes | idxes in sys.aligners ensures Free(Do(d, sys, step).aligners[idxes], Do(d, sys, step).handler.modelIoAll) {
          var o := EH.Do(sys.handler, s);
          if o.callbacks != [] && o.callbacks[0].kind == EH.Occured {
            ClearKeepsFree(Cfg(d, idxes), sys.aligners[idxes], o.callbacks[0].transId, sys.handler.modelIoAll);
          } else {
            FewerIds(sys.aligners[idxes], sys.handler.modelIoAll, o.state.modelIoAll);
          }
        }
      case GetOrCreate(idxes) => NewIsFree(Cfg(d, idxes), sys.handler.modelIoAll);
      case ClearAligners =>
        forall idxes | idxes in sys.aligners ensures Free(Do(d, sys, step).aligners[idxes], sys.handler.modelIoAll) {
          AlignerKeepsFree(Cfg(d, idxes), sys.aligners[idxes], AM.ClearAll, sys.handler.modelIoAll);
        }
      case _ =>
        AlignerKeepsFree(Cfg(d, step.fetchIndexes), sys.aligners[step.fetchIndexes], AlignerStep(sys, step), sys.handler.modelIoAll);
    }
  }

  lemma FewerIds(s: AM.State, ids: set<nat>, fewer: set<nat>)
    requires Free(s, ids) && fewer <= ids
    ensures Free(s, fewer)
  {}

  lemma NewIsFree(cfg: AM.Config, ids: set<nat>)
    ensures Free(AM.Init(cfg), ids)
  {}

  // ----- Runs -----

  ghost predicate Runs(d: Deployment, steps: seq<Step>)
    decreases |steps|, 0
  {
    steps == [] ||
    (Runs(d, steps[..|steps| - 1]) && Enabled(Exec(d, steps[..|steps| - 1]), steps[|steps| - 1]))
  }

  ghost function Exec(d: Deployment, steps: seq<Step>): (sys: System)
    requires Runs(d, steps)
    ensures Valid(d, sys)
    decreases |steps|, 1
  {
    if steps == [] then EH.InitConsistent(); INIT
    else
      var sys := Exec(d, steps[..|steps| - 1]);
      StepKeepsValid(d, sys, steps[|steps| - 1]);
      Do(d, sys, steps[|steps| - 1])
  }

  /** In every reachable state of every interleaving no aligner holds data of a transaction with a
      model-io exception. */
  lemma {:induction false} AlwaysSafe(d: Deployment, steps: seq<Step>)
    requires Runs(d, steps)
    ensures Safe(Exec(d, steps))
  {
    if steps != [] {
      hide Do, Safe;
      AlwaysSafe(d, steps[..|steps| - 1]);
      StepKeepsSafe(d, Exec(d, steps[..|steps| - 1]), steps[|steps| - 1]);
    } else {
      assert Safe(INIT);
    }
  }

  /** Whatever a fetching thread receives, by completion, expiry or overflow, belongs to a
      transaction that has no model-io exception at that moment. */
  lemma NothingIgnoredComesOut(d: Deployment, steps: seq<Step>, step: Step)
    requires Runs(d, steps) && Enabled(Exec(d, steps), step)
    requires step.Push? || step.TakeExpired? || step.TakeOverLimit?
    ensures var taken := AlignerOutcome(d, Exec(d, steps), step).taken;
            taken.Some? ==> taken.value.key.transId !in Exec(d, steps).handler.modelIoAll
  {
    hide AM.Do, AM.Valid, Exec, Free;
    AlwaysSafe(d, steps);
    var sys := Exec(d, steps);
    assert Free(sys.aligners[step.fetchIndexes], sys.handler.modelIoAll);
    TakenIsFree(Cfg(d, step.fetchIndexes), sys.aligners[step.fetchIndexes], AlignerStep(sys, step), sys.handler.modelIoAll);
  }

  lemma TakenIsFree(cfg: AM.Config, s: AM.State, step: AM.Step, ids: set<nat>)
    requires AM.Valid(cfg, s) && Free(s, ids) && (step.Push? ==> step.ignored || step.item.msg.transId !in ids)
    ensures var taken := AM.Do(cfg, s, step).taken; taken.Some? ==> taken.value.key.transId !in ids
  {
    hide AM.Weight, AM.Valid, AM.ExcessOf, AM.NumsAfterTake, AM.StoreOrErase, AM.Restrict;
  }

  /** Every queue index belongs to at most one aligner, in every reachable state. */
  lemma OneAlignerPerQueue(d: Deployment, steps: seq<Step>, a: seq<nat>, b: seq<nat>, i: nat)
    requires Runs(d, steps) && a in Exec(d, steps).aligners && b in Exec(d, steps).aligners
    requires i in a && i in b
    ensures a == b && i < d.outputNum
  {
    hide Exec;
    var sys := Exec(d, steps);
    assert a != b ==> Disjoint(a, b);
  }
}
