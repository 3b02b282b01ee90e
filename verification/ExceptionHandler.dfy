/** The exception handler: a bounded map of raised exceptions, the two sets derived from it for the
    model input and output, and the notifications it sends. One thread processes exceptions; its
    three locked or lock-free stretches are separate steps, so that other threads can run between. */
module ExceptionHandler {
  import opened Ordered

  datatype Key = Key(transId: nat, scope: string)

  datatype Exception = Exception(key: Key, code: int, userContextId: nat, context: string)

  datatype Kind = Occured | Expired

  /** What the executor is told about an exception. */
  datatype Note = Note(kind: Kind, exc: Exception)

  /** What the registered model-io callbacks are told. */
  datatype Callback = Callback(kind: Kind, transId: nat)

  const MODEL_IO_SCOPE: string := ""
  const MAX_EXCEPTION_CACHE_NUM: nat := 1024

  // ----- Exceptions are ordered by transaction, then by scope as text -----

  predicate TextLe(a: string, b: string) {
    a == "" || (b != "" && (a[0] < b[0] || (a[0] == b[0] && TextLe(a[1..], b[1..]))))
  }

  predicate KeyLe(a: Key, b: Key) {
    a.transId < b.transId || (a.transId == b.transId && TextLe(a.scope, b.scope))
  }

  lemma {:induction false} TextLeTotal(a: string, b: string)
    ensures TextLe(a, a)
    ensures TextLe(a, b) || TextLe(b, a)
    ensures TextLe(a, b) && TextLe(b, a) ==> a == b
  {
    if a != "" {
      TextLeTotal(a[1..], a[1..]);
      if b != "" {
        TextLeTotal(a[1..], b[1..]);
        assert a == [a[0]] + a[1..] && b == [b[0]] + b[1..];
      }
    }
  }

  lemma {:induction false} TextLeTransitive(a: string, b: string, c: string)
    requires TextLe(a, b) && TextLe(b, c)
    ensures TextLe(a, c)
  {
    if a != "" && a[0] == b[0] && b[0] == c[0] {
      TextLeTransitive(a[1..], b[1..], c[1..]);
    }
  }

  lemma KeyOrder()
    ensures TotalOrder(KeyLe)
  {
    forall a: Key, b: Key
      ensures KeyLe(a, a) && (KeyLe(a, b) || KeyLe(b, a)) && (KeyLe(a, b) && KeyLe(b, a) ==> a == b)
    {
      TextLeTotal(a.scope, b.scope);
    }
    forall a: Key, b: Key, c: Key | KeyLe(a, b) && KeyLe(b, c) ensures KeyLe(a, c) {
      if a.transId == b.transId == c.transId { TextLeTransitive(a.scope, b.scope, c.scope); }
    }
  }

  ghost function FirstKey(keys: set<Key>): (k: Key)
    requires keys != {}
    ensures k in keys && forall j :: j in keys ==> KeyLe(k, j)
  {
    KeyOrder();
    Least(keys, KeyLe)
  }

  // ----- The state machine -----

  /** Where the processing thread is: between exceptions, or with an exception that is in the map
      but not yet announced to the model io, or not yet to the executor. */
  datatype Phase = Idle | Admitted(exc: Exception) | Announced(exc: Exception)

  datatype State = State(all: map<Key, Exception>, modelIoAll: set<nat>, waitReport: set<nat>, phase: Phase)

  const INIT: State := State(map[], {}, {}, Idle)

  datatype Step = Admit(exc: Exception) | AnnounceModelIo | AnnounceExecutor | TakeReport

  datatype Outcome = Outcome(state: State, notes: seq<Note>, callbacks: seq<Callback>, taken: Option<nat>)

  predicate Enabled(s: State, step: Step) {
    match step
    case Admit(_) => s.phase.Idle?
    case AnnounceModelIo => s.phase.Admitted?
    case AnnounceExecutor => s.phase.Announced?
    case TakeReport => true
  }

  /** The two sets and the callbacks after telling the model io; it only cares for the empty scope. */
  function NotifyModelIO(s: State, exc: Exception, kind: Kind): (r: (State, seq<Callback>)) {
    var t := exc.key.transId;
    if exc.key.scope != MODEL_IO_SCOPE then (s, [])
    else if kind == Occured then (s.(modelIoAll := s.modelIoAll + {t}, waitReport := s.waitReport + {t}), [Callback(kind, t)])
    else (s.(modelIoAll := s.modelIoAll - {t}, waitReport := s.waitReport - {t}), [Callback(kind, t)])
  }

  ghost predicate Overflows(s: State, exc: Exception) {
    exc.key !in s.all && |s.all| >= MAX_EXCEPTION_CACHE_NUM
  }

  /** Expires the smallest stored exception. */
  ghost function Evict(s: State): Outcome
    requires s.all != map[]
  {
    var oldest := FirstKey(s.all.Keys);
    var (s1, calls) := NotifyModelIO(s, s.all[oldest], Expired);
    Outcome(s1.(all := s1.all - {oldest}), [Note(Expired, s.all[oldest])], calls, None)
  }

  ghost function DoAdmit(s: State, exc: Exception): Outcome {
    if exc.key in s.all then Outcome(s, [], [], None) else
    var o := if Overflows(s, exc) then Evict(s) else Outcome(s, [], [], None);
    o.(state := o.state.(all := o.state.all[exc.key := exc], phase := Admitted(exc)))
  }

  ghost function DoTakeReport(s: State): Outcome {
    if s.waitReport == {} then Outcome(s, [], [], None)
    else
      var t := LeastNum(s.waitReport);
      Outcome(s.(waitReport := s.waitReport - {t}), [], [], Some(t))
  }

  ghost function Do(s: State, step: Step): Outcome
    requires Enabled(s, step)
  {
    match step
    case Admit(exc) => DoAdmit(s, exc)
    case AnnounceModelIo =>
      var (s1, calls) := NotifyModelIO(s, s.phase.exc, Occured);
      Outcome(s1.(phase := Announced(s.phase.exc)), [], calls, None)
    case AnnounceExecutor => Outcome(s.(phase := Idle), [Note(Occured, s.phase.exc)], [], None)
    case TakeReport => DoTakeReport(s)
  }

  // ----- What every step keeps -----

  ghost function ModelIoIds(all: map<Key, Exception>): set<nat> {
    set k | k in all && k.scope == MODEL_IO_SCOPE :: k.transId
  }

  /** The transactions the model io should know of: an admitted exception is announced one step
      later. */
  ghost function Due(s: State): set<nat> {
    if s.phase.Admitted? && s.phase.exc.key.scope == MODEL_IO_SCOPE then ModelIoIds(s.all) - {s.phase.exc.key.transId}
    else ModelIoIds(s.all)
  }

  ghost predicate Consistent(s: State) {
    && |s.all| <= MAX_EXCEPTION_CACHE_NUM
    && (forall k :: k in s.all ==> s.all[k].key == k)
    && (!s.phase.Idle? ==> s.phase.exc.key in s.all)
    && s.modelIoAll == Due(s)
    && s.waitReport <= s.modelIoAll
  }

  lemma InitConsistent()
    ensures Consistent(INIT)
  {}

  lemma ModelIoMember(all: map<Key, Exception>, t: nat)
    ensures t in ModelIoIds(all) <==> Key(t, MODEL_IO_SCOPE) in all
  {
    if Key(t, MODEL_IO_SCOPE) in all {
      assert Key(t, MODEL_IO_SCOPE).transId == t;
    }
  }

  lemma ModelIoInsert(all: map<Key, Exception>, exc: Exception)
    ensures ModelIoIds(all[exc.key := exc]) ==
            ModelIoIds(all) + if exc.key.scope == MODEL_IO_SCOPE then {exc.key.transId} else {}
  {
    var after, added := ModelIoIds(all[exc.key := exc]), if exc.key.scope == MODEL_IO_SCOPE then {exc.key.transId} else {};
    forall t: nat ensures t in after <==> t in ModelIoIds(all) || t in added {
      ModelIoMember(all, t);
      ModelIoMember(all[exc.key := exc], t);
    }
  }

  lemma ModelIoRemove(all: map<Key, Exception>, k: Key)
    ensures ModelIoIds(all - {k}) == ModelIoIds(all) - if k.scope == MODEL_IO_SCOPE then {k.transId} else {}
  {
    var after, removed := ModelIoIds(all - {k}), if k.scope == MODEL_IO_SCOPE then {k.transId} else {};
    forall t: nat ensures t in after <==> t in ModelIoIds(all) && t !in removed {
      ModelIoMember(all, t);
      ModelIoMember(all - {k}, t);
    }
  }

  lemma EvictKeeps(s: State)
    requires Consistent(s) && s.phase.Idle? && s.all != map[]
    ensures Consistent(Evict(s).state) && Evict(s).state.all == s.all - {FirstKey(s.all.Keys)}
    ensures |Evict(s).state.all| == |s.all| - 1 && Evict(s).state.phase == Idle
  {
    var k := FirstKey(s.all.Keys);
    ModelIoRemove(s.all, k);
    assert (s.all - {k}).Keys == s.all.Keys - {k};
    assert |s.all.Keys - {k}| == |s.all.Keys| - 1;
  }

  lemma DueAfterInsert(s: State, exc: Exception)
    requires s.phase.Idle? && exc.key !in s.all
    ensures Due(s.(all := s.all[exc.key := exc], phase := Admitted(exc))) == Due(s)
  {
    hide ModelIoIds;
    ModelIoInsert(s.all, exc);
    if exc.key.scope == MODEL_IO_SCOPE {
      ModelIoMember(s.all, exc.key.transId);
      assert exc.key == Key(exc.key.transId, MODEL_IO_SCOPE);
    }
  }

  lemma InsertKeeps(s: State, exc: Exception)
    requires Consistent(s) && s.phase.Idle? && exc.key !in s.all && |s.all| < MAX_EXCEPTION_CACHE_NUM
    ensures Consistent(s.(all := s.all[exc.key := exc], phase := Admitted(exc)))
  {
    hide Due;
    DueAfterInsert(s, exc);
    assert s.all[exc.key := exc].Keys == s.all.Keys + {exc.key};
  }

  lemma AdmitKeeps(s: State, exc: Exception)
    requires Consistent(s) && s.phase.Idle?
    ensures Consistent(DoAdmit(s, exc).state)
  {
    hide ModelIoIds, FirstKey, Evict;
    if exc.key !in s.all {
      if Overflows(s, exc) {
        EvictKeeps(s);
        InsertKeeps(Evict(s).state, exc);
      } else {
        InsertKeeps(s, exc);
      }
    }
  }

  /** At every step the map stays within its bound, the model-io set is exactly the announced
      transactions with the empty scope, and it contains the set waiting to be reported. */
  lemma StepKeepsConsistent(s: State, step: Step)
    requires Consistent(s) && Enabled(s, step)
    ensures Consistent(Do(s, step).state)
  {
    match step {
      case Admit(exc) => AdmitKeeps(s, exc);
      case AnnounceModelIo =>
        var k := s.phase.exc.key;
        if k.scope == MODEL_IO_SCOPE {
          ModelIoMember(s.all, k.transId);
          assert k == Key(k.transId, MODEL_IO_SCOPE);
        }
      case AnnounceExecutor =>
      case TakeReport =>
    }
  }

  // ----- Runs -----

  ghost predicate Runs(steps: seq<Step>)
    decreases |steps|, 0
  {
    steps == [] ||
    (Runs(steps[..|steps| - 1]) && Enabled(Exec(steps[..|steps| - 1]), steps[|steps| - 1]))
  }

  ghost function Exec(steps: seq<Step>): (s: State)
    requires Runs(steps)
    ensures Consistent(s)
    decreases |steps|, 1
  {
    if steps == [] then InitConsistent(); INIT
    else
      var s := Exec(steps[..|steps| - 1]);
      StepKeepsConsistent(s, steps[|steps| - 1]);
      Do(s, steps[|steps| - 1]).state
  }

  ghost function LastOutcome(steps: seq<Step>): Outcome
    requires Runs(steps) && steps != []
  {
    Do(Exec(steps[..|steps| - 1]), steps[|steps| - 1])
  }

  ghost function NotesFor(notes: seq<Note>, k: Key): seq<Kind> {
    if notes == [] then []
    else NotesFor(notes[..|notes| - 1], k) + if notes[|notes| - 1].exc.key == k then [notes[|notes| - 1].kind] else []
  }

  /** The notifications the executor has received for one transaction and scope. */
  ghost function History(steps: seq<Step>, k: Key): seq<Kind>
    requires Runs(steps)
  {
    if steps == [] then [] else History(steps[..|steps| - 1], k) + NotesFor(LastOutcome(steps).notes, k)
  }

  ghost predicate Alternates(h: seq<Kind>) {
    forall i :: 0 <= i < |h| ==> h[i] == if i % 2 == 0 then Occured else Expired
  }

  /** The executor currently believes the exception to be present. */
  ghost predicate Reported(s: State, k: Key) {
    k in s.all && !(!s.phase.Idle? && s.phase.exc.key == k)
  }

  lemma StepNotes(s: State, step: Step, k: Key)
    requires Consistent(s) && Enabled(s, step)
    ensures var o := Do(s, step);
            NotesFor(o.notes, k) ==
            if Reported(s, k) == Reported(o.state, k) then [] else if Reported(s, k) then [Expired] else [Occured]
  {
    hide ModelIoIds, FirstKey;
    var o := Do(s, step);
    if step.Admit? && Overflows(s, step.exc) {
      EvictKeeps(s);
      var oldest := FirstKey(s.all.Keys);
      assert s.all[oldest].key == oldest;
      assert o.notes == [Note(Expired, s.all[oldest])];
    }
    if |o.notes| == 1 {
      assert NotesFor(o.notes[..0], k) == [];
    }
  }

  lemma NextNote(h: seq<Kind>, kind: Kind)
    requires Alternates(h) && kind == if |h| % 2 == 0 then Occured else Expired
    ensures Alternates(h + [kind]) && |h + [kind]| % 2 == 1 - |h| % 2
  {}

  /** In every run and for every transaction and scope, the executor hears Occured and Expired in
      strict alternation, beginning with Occured. */
  lemma {:induction false} NotesAlternate(steps: seq<Step>, k: Key)
    requires Runs(steps)
    ensures Alternates(History(steps, k))
    ensures |History(steps, k)| % 2 == 1 <==> Reported(Exec(steps), k)
  {
    if steps == [] {
      assert !Reported(INIT, k);
    } else {
      hide Do, Reported, Consistent, NotesFor, Alternates;
      var front := steps[..|steps| - 1];
      NotesAlternate(front, k);
      StepNotes(Exec(front), steps[|steps| - 1], k);
      var h, more := History(front, k), NotesFor(LastOutcome(steps).notes, k);
      assert History(steps, k) == h + more;
      if more == [] {
        assert h + more == h;
      } else {
        NextNote(h, more[0]);
        assert more == [more[0]];
      }
    }
  }

  /** Between exceptions, and in every reachable state, the sets are what the map says. */
  lemma IdleStateIsExact(steps: seq<Step>)
    requires Runs(steps) && Exec(steps).phase.Idle?
    ensures var s := Exec(steps);
            && |s.all| <= MAX_EXCEPTION_CACHE_NUM
            && (forall t :: t in s.modelIoAll <==> Key(t, MODEL_IO_SCOPE) in s.all)
            && s.waitReport <= s.modelIoAll
  {
    var s := Exec(steps);
    forall t: nat ensures t in s.modelIoAll <==> Key(t, MODEL_IO_SCOPE) in s.all {
      ModelIoMember(s.all, t);
    }
  }

  // ----- Each acceptance is reported at most once -----

  function One(b: bool): nat { if b then 1 else 0 }

  /** How often a transaction was announced, taken by a fetch, or expired before being taken. */
  ghost function Announcements(steps: seq<Step>, t: nat): nat
    requires Runs(steps)
  {
    if steps == [] then 0
    else Announcements(steps[..|steps| - 1], t) + One(Callback(Occured, t) in LastOutcome(steps).callbacks)
  }

  ghost function Takes(steps: seq<Step>, t: nat): nat
    requires Runs(steps)
  {
    if steps == [] then 0 else Takes(steps[..|steps| - 1], t) + One(LastOutcome(steps).taken == Some(t))
  }

  ghost function Withdrawals(steps: seq<Step>, t: nat): nat
    requires Runs(steps)
  {
    if steps == [] then 0
    else
      Withdrawals(steps[..|steps| - 1], t) +
      One(Callback(Expired, t) in LastOutcome(steps).callbacks && t in Exec(steps[..|steps| - 1]).waitReport)
  }

  /** An eviction takes nothing and announces nothing; what it withdraws was waiting. */
  lemma EvictReports(s: State, t: nat)
    requires s.all != map[]
    ensures var o := Evict(s);
            && o.taken.None? && Callback(Occured, t) !in o.callbacks
            && One(t in s.waitReport) == One(Callback(Expired, t) in o.callbacks && t in s.waitReport) + One(t in o.state.waitReport)
  {
    hide FirstKey;
  }

  lemma StepReports(s: State, step: Step, t: nat)
    requires Consistent(s) && Enabled(s, step)
    ensures var o := Do(s, step);
            One(t in s.waitReport) + One(Callback(Occured, t) in o.callbacks) ==
            One(o.taken == Some(t)) + One(Callback(Expired, t) in o.callbacks && t in s.waitReport) + One(t in o.state.waitReport)
  {
    hide ModelIoIds, FirstKey, Evict;
    match step {
      case Admit(exc) =>
        if Overflows(s, exc) {
          assert s.all != map[];
          EvictReports(s, t);
        }
      case AnnounceModelIo =>
        if s.phase.exc.key.scope == MODEL_IO_SCOPE {
          assert s.phase.exc.key.transId !in s.modelIoAll;
        }
      case AnnounceExecutor =>
      case TakeReport =>
    }
  }

  /** Every announcement of a transaction is taken once, withdrawn once by expiry, or still waiting. */
  lemma {:induction false} ReportsConserved(steps: seq<Step>, t: nat)
    requires Runs(steps)
    ensures Announcements(steps, t) == Takes(steps, t) + Withdrawals(steps, t) + One(t in Exec(steps).waitReport)
  {
    if steps != [] {
      hide Do, Consistent;
      ReportsConserved(steps[..|steps| - 1], t);
      StepReports(Exec(steps[..|steps| - 1]), steps[|steps| - 1], t);
    }
  }

  /** A taken transaction is found in the map unless an overflow expires it between the two locks of
      the take: that is the only step that removes a key. */
  lemma TakenIsFound(s: State, t: nat)
    requires Consistent(s) && t in s.waitReport
    ensures Key(t, MODEL_IO_SCOPE) in s.all
  {
    ModelIoMember(s.all, t);
  }

  lemma OnlyOverflowRemoves(s: State, step: Step, k: Key)
    requires Consistent(s) && Enabled(s, step) && k in s.all
    ensures k !in Do(s, step).state.all <==>
            step.Admit? && step.exc.key !in s.all && |s.all| >= 1024 && k == FirstKey(s.all.Keys)
  {
    if step.Admit? && Overflows(s, step.exc) {
      EvictKeeps(s);
    }
  }

  ghost predicate Expires(s: State, step: Step, k: Key) {
    step.Admit? && Overflows(s, step.exc) && s.all != map[] && k == FirstKey(s.all.Keys)
  }

  lemma {:induction false} PrefixRuns(steps: seq<Step>, n: nat)
    requires Runs(steps) && n <= |steps|
    ensures Runs(steps[..n])
    decreases |steps|
  {
    if n < |steps| {
      PrefixRuns(steps[..|steps| - 1], n);
      assert steps[..|steps| - 1][..n] == steps[..n];
    } else {
      assert steps[..n] == steps;
    }
  }

  /** The state of a run after its first `n` steps. */
  ghost function StateAt(steps: seq<Step>, n: nat): (s: State)
    requires Runs(steps) && n <= |steps|
    ensures Consistent(s)
  {
    PrefixRuns(steps, n);
    Exec(steps[..n])
  }

  /** Over any continuation of a run: an exception waiting to be reported is still found by a later
      look-up, unless some step in between expired it. */
  lemma {:induction false} FoundUnlessExpired(steps: seq<Step>, n: nat, t: nat)
    requires Runs(steps) && n <= |steps| && t in StateAt(steps, n).waitReport
    requires forall i :: n <= i < |steps| ==> !Expires(StateAt(steps, i), steps[i], Key(t, MODEL_IO_SCOPE))
    ensures Key(t, MODEL_IO_SCOPE) in Exec(steps).all
    decreases |steps|
  {
    hide Do, Consistent;
    if n == |steps| {
      assert steps[..n] == steps;
      TakenIsFound(Exec(steps), t);
    } else {
      var front := steps[..|steps| - 1];
      forall i | n <= i <= |front| ensures StateAt(front, i) == StateAt(steps, i) {
        assert front[..i] == steps[..i];
      }
      assert forall i :: n <= i < |front| ==> front[i] == steps[i];
      FoundUnlessExpired(front, n, t);
      assert front[..|front|] == front;
      assert !Expires(StateAt(steps, |front|), steps[|front|], Key(t, MODEL_IO_SCOPE));
      OnlyOverflowRemoves(Exec(front), steps[|steps| - 1], Key(t, MODEL_IO_SCOPE));
    }
  }

  // ----- The object -----

  class DataFlowExceptionHandler {
    var allExceptions: map<Key, Exception>
    var modelIoExceptionAll: set<nat>
    var modelIoExceptionWaitReport: set<nat>

    ghost function Now(): State
      reads this
    {
      State(allExceptions, modelIoExceptionAll, modelIoExceptionWaitReport, Idle)
    }

    ghost predicate Valid()
      reads this
    {
      Consistent(Now())
    }

    constructor ()
      ensures Valid() && Now() == INIT
    {
      allExceptions, modelIoExceptionAll, modelIoExceptionWaitReport := map[], {}, {};
      new;
      InitConsistent();
    }

    method Notify(exc: Exception, kind: Kind) returns (callbacks: seq<Callback>)
      modifies `modelIoExceptionAll, `modelIoExceptionWaitReport
      ensures (Now(), callbacks) == NotifyModelIO(old(Now()), exc, kind)
    {
      var t := exc.key.transId;
      if exc.key.scope != MODEL_IO_SCOPE {
        return [];
      }
      if kind == Occured {
        modelIoExceptionAll := modelIoExceptionAll + {t};
        modelIoExceptionWaitReport := modelIoExceptionWaitReport + {t};
      } else {
        modelIoExceptionAll := modelIoExceptionAll - {t};
        modelIoExceptionWaitReport := modelIoExceptionWaitReport - {t};
      }
      return [Callback(kind, t)];
    }

    /** Expires the smallest stored exception. */
    method ExpireOldest() returns (expired: Exception, callbacks: seq<Callback>)
      requires allExceptions != map[]
      modifies this
      ensures Outcome(Now(), [Note(Expired, expired)], callbacks, None) == Evict(old(Now()))
    {
      KeyOrder();
      hide KeyLe, TotalOrder;
      var oldest := FindLeast(allExceptions.Keys, KeyLe);
      expired := allExceptions[oldest];
      callbacks := Notify(expired, Expired);
      allExceptions := allExceptions - {oldest};
    }

    /** A repeated exception changes nothing. A new one may expire the smallest stored one; it is
        stored and then announced to the model io and to the executor. */
    method ProcessException(exc: Exception) returns (notes: seq<Note>, callbacks: seq<Callback>)
      requires Valid()
      modifies this
      ensures Valid()
      ensures exc.key in old(allExceptions) ==> Now() == old(Now()) && notes == [] && callbacks == []
      ensures exc.key !in old(allExceptions) ==>
                var admitted := Do(old(Now()), Admit(exc));
                var announced := Do(admitted.state, AnnounceModelIo);
                var told := Do(announced.state, AnnounceExecutor);
                Now() == told.state && notes == admitted.notes + told.notes && callbacks == admitted.callbacks + announced.callbacks
    {
      hide Consistent, Evict;
      notes, callbacks := [], [];
      if exc.key in allExceptions {
        return;
      }
      ghost var s := Now();
      StepKeepsConsistent(s, Admit(exc));
      StepKeepsConsistent(Do(s, Admit(exc)).state, AnnounceModelIo);
      StepKeepsConsistent(Do(Do(s, Admit(exc)).state, AnnounceModelIo).state, AnnounceExecutor);
      if |allExceptions| >= MAX_EXCEPTION_CACHE_NUM {
        var expired;
        expired, callbacks := ExpireOldest();
        notes := notes + [Note(Expired, expired)];
      }
      allExceptions := allExceptions[exc.key := exc];
      var more := Notify(exc, Occured);
      callbacks := callbacks + more;
      notes := notes + [Note(Occured, exc)];
    }

    method IsModelIoIgnoreTransId(transId: nat) returns (ignored: bool)
      requires Valid()
      ensures ignored <==> Key(transId, MODEL_IO_SCOPE) in allExceptions
    {
      ModelIoMember(allExceptions, transId);
      ignored := transId in modelIoExceptionAll;
    }

    /** Under the first lock of a take: the smallest waiting transaction. */
    method TakeWaiting() returns (taken: Option<nat>)
      requires Valid()
      modifies this
      ensures Valid() && Now() == Do(old(Now()), TakeReport).state && taken == Do(old(Now()), TakeReport).taken
    {
      StepKeepsConsistent(Now(), TakeReport);
      if modelIoExceptionWaitReport == {} {
        return None;
      }
      assert TotalOrder(NumLe);
      var transId := FindLeast(modelIoExceptionWaitReport, NumLe);
      modelIoExceptionWaitReport := modelIoExceptionWaitReport - {transId};
      return Some(transId);
    }

    /** Under the second lock, in whatever state the handler is by then. */
    method FindModelIoException(transId: nat) returns (found: Option<Exception>)
      ensures found.Some? <==> Key(transId, MODEL_IO_SCOPE) in allExceptions
      ensures found.Some? ==> found.value == allExceptions[Key(transId, MODEL_IO_SCOPE)]
    {
      var k := Key(transId, MODEL_IO_SCOPE);
      return if k in allExceptions then Some(allExceptions[k]) else None;
    }

    /** A take that no other thread interrupts finds the exception of the transaction it takes. */
    method TakeWaitModelIoException() returns (found: Option<Exception>)
      requires Valid()
      modifies this
      ensures Valid() && Now() == Do(old(Now()), TakeReport).state
      ensures var taken := Do(old(Now()), TakeReport).taken;
              if taken.None? then found == None
              else
                var k := Key(taken.value, MODEL_IO_SCOPE);
                k in allExceptions && found == Some(allExceptions[k])
    {
      ghost var s := Now();
      var taken := TakeWaiting();
      if taken.None? {
        return None;
      }
      TakenIsFound(s, taken.value);
      found := FindModelIoException(taken.value);
    }
  }
}
