# Data-flow executor and slicing: a verified model

This project models five parts of the graph engine and proves what they promise.

* **Alignment and exceptions** (`AlignerModel`, `AlignerRuns`, `AlignerMeaning`, `Aligner`,
  `ExceptionHandler`, `ExecutorProtocol`, `ExceptionMeaning`). The aligner caches items of several
  queues under a transaction and data label and hands out a group when every queue has one; otherwise it
  expires, drops or takes in part. The exception handler keeps a bounded map of raised exceptions and two
  sets derived from it, clears the aligners by callback and filters their pushes. Each region under a
  lock is one atomic step, and the theorems are about all interleavings of steps.
* **Dynamic scheduling** (`RouteChoice`, `SchedulerModel`, `SchedulerRuns`, `RememberedRoutes`,
  `SchedulerMeaning`, `Scheduler`, `Dequeue`). Requests are answered with a route of least depth; choices
  are remembered per label and group size; reports lower the depths; a redeployment marks abnormal
  instances. The dequeue loop splits a timeout into retries.
* **Slicing** (`SliceAxes`, `SliceRanges`, `SliceAdapter`, `SliceInfer`, `SliceTables`, `SliceErrors`,
  `SliceOp`). Axes and ranges are translated between a tensor's original format and its packed one, and
  the slices of an operator's inputs are inferred from those of its outputs.
* **Edge assembly** (`FlowNode.dfy`, module `FlowNodes`). Edges of a process point may be mapped in any
  order.
* **Base64 and broadcasting** (`Base64`, `Broadcast`). Section 4 of RFC 4648, and shape inference.

Code that updates objects or runs loops is a class or a method, proved equal to a function on values;
the laws are proved of those functions over all inputs, all runs or all reachable states. The modules
named after meanings, tables and errors say what the functions compute in terms of the data alone: header
fields, clock readings, axis numbers and the first defect of an input. `Ordered` holds the
order-theoretic helpers for containers that are walked from their smallest key.

Reads outside a container, division by zero and the like, which the code does not guard against, are
outcomes of their own (`OutOfBounds`, `Undefined`, `Unspecified`). Clocks, queue answers and the list
of abnormal names are parameters.

## Where the code does less than one would expect

Each of these has a lemma with a concrete input or a failing family, and a lemma that says exactly
when the code does meet the property.

* Least depth: a route without a status record is judged by the depth of the route before it. The
  scan is right for all depths, times and clocks exactly when no such stale read is possible
  (`RouteChoice.LeastLoadedIff`), and the same holds over all runs
  (`RememberedRoutes.ScheduledLeastLoadedIff`): every possible stale read goes wrong after a run of
  reports (`RememberedRoutes.StaleReadHappens`), the smallest one with two routes
  (`RememberedRoutes.StaleReadOfTwo`).
* Remembered routes are keyed by group size, so that a choice may be abnormal in another group of that
  size (`SchedulerRuns.CachedChoiceOtherGroup`). As long as nothing has been marked since deployment,
  remembered answers for an address are normal main routes of its group in every run exactly when, at
  every index where some multi-instance group of the same size has such a route, the addressed group has
  one too (`RememberedRoutes.RememberedEligibleIff`). If it has, they are so in every run, redeployments
  included (`RememberedRoutes.CoveredAnswer`).
* Edge assembly converts indexes to 32-bit signed values before a comparison; assembly works exactly
  for the indexes below 2^31 (`FlowNodes.AssembleSucceedsIff`, `FlowNodes.LargeIndexOutOfBounds`).
* The images of the axes partition the fractal axes exactly from rank 2 on (`SliceAxes.PartitionNZ`).
* A range survives the way to the original format and back exactly when its last block begins within
  the dimension (`SliceRanges.RoundTripIff`).
* A range carried over between two packing factors has exactly the blocks that hold one of its indexes,
  if and only if it begins within the dimension or comes out empty (`SliceRanges.SoundAndTightIff`).
* Range ends are inclusive, and yet an end equal to the dimension is accepted. The range that an input
  gets lies within its dimension exactly when its end is not equal to it, which is sure if the
  dimension is not below that of the output (`SliceInfer.InferredEnd`, `SliceInfer.EndAtDimension`).
* After an inference all formats and shapes are as before, except exactly when the layout was switched
  and some input has neither a data type nor an original format (`SliceInfer.LayoutKeptIff`,
  `SliceInfer.UntypedInputLost`).
* Base64 decoding accepts texts that no encoding gives, such as a padding sign followed by a letter;
  encoding undoes decoding exactly on the canonical texts (`Base64.EncodeOfDecode`,
  `Base64.UncanonicalText`).
* Broadcasting a dimension 1 against a non-positive one fails although a common target exists
  (`Broadcast.SucceedsWhenTargetExists`, `Broadcast.OneAgainstEmptyDimension`).

## Model

| member | source | states |
|---|---|---|
| `AlignerModel.InitValid` | ge-develop/dflow/executor/data_flow_data_aligner.cc:93-102 | a new aligner is accounted for |
| `AlignerModel.TakeAtValid` | ge-develop/dflow/executor/data_flow_data_aligner.cc:66-91 | a partial take leaves every counter equal to the total length of its column, and no empty or complete entry |
| `AlignerModel.DropValid` | ge-develop/dflow/executor/data_flow_data_aligner.cc:18-27 | erasing any set of entries gives exactly their items back to the counters |
| `AlignerModel.PushValid` | ge-develop/dflow/executor/data_flow_data_aligner.cc:112-154 | a push, with the take it may cause, keeps the accounting |
| `AlignerModel.StepKeepsValid` | ge-develop/dflow/executor/data_flow_data_aligner.cc:112-265 | every operation keeps: each counter is the total of its column, and each stored key has an empty and a non-empty queue |
| `AlignerRuns.StepConserves` | ge-develop/dflow/executor/data_flow_data_aligner.cc:112-265 | per key and queue, what was cached plus what a step offers is what it removes, oldest first, plus what is cached after it |
| `AlignerRuns.RunConserves` | ge-develop/dflow/executor/data_flow_data_aligner.cc:18-33 | over every run the stream of accepted pushes is the consumed and dropped items in order, followed by the cached ones: nothing lost, doubled or overtaken |
| `AlignerRuns.GroupsLeave` | ge-develop/dflow/executor/data_flow_data_aligner.cc:143-153 | with pushes only, the items leaving a queue are the members of the completed groups, in order |
| `AlignerRuns.ZipRefinement` | ge-develop/dflow/executor/data_flow_data_aligner.cc:29-45 | with pushes only, the groups of a key are the zip of the queues' streams, as many as the shortest stream has items |
| `AlignerRuns.LeastIndex` | ge-develop/dflow/executor/data_flow_data_aligner.cc:156-167 | the first index of the least counter |
| `AlignerRuns.BoundedSkew` | ge-develop/dflow/executor/heterogeneous_model_executor.cc:1722-1781 | when every push goes to the queue selected just before, two counters never differ by more than one |
| `AlignerRuns.OutputMakesProgress` | ge-develop/dflow/executor/data_flow_data_aligner.cc:188-260 | a call that reports output strictly lowers the number of cached items |
| `AlignerRuns.DropReachesLimit` | ge-develop/dflow/executor/data_flow_data_aligner.cc:218-224 | with dropping, one call removes exactly the smallest keys beyond the limit and touches no other |
| `AlignerRuns.OverLimitDrains` | ge-develop/dflow/executor/data_flow_data_aligner.cc:203-217 | without dropping, as many calls as the excess keys have items end in the state that dropping reaches in one call |
| `AlignerRuns.ExpiryDrains` | ge-develop/dflow/executor/data_flow_data_aligner.cc:227-260 | without dropping, repeated calls at one time take out exactly the expired keys |
| `AlignerMeaning.StreamLabelled` | ge-develop/dflow/executor/data_flow_data_aligner.cc:120-128 | every item in the stream of a key has the transaction and the data label of the key in its header |
| `AlignerMeaning.OfferedUnderOneKey` | ge-develop/dflow/executor/data_flow_data_aligner.cc:116-135 | a push that is not ignored, to a known queue, is offered under exactly one key, the pair in its header |
| `AlignerMeaning.CachedLabelled` | ge-develop/dflow/executor/data_flow_data_aligner.cc:127-142 | in every run each item cached under a key has its transaction and data label |
| `AlignerMeaning.LeavingLabelled` | ge-develop/dflow/executor/data_flow_data_aligner.cc:66-91 | so has each item that is handed out or dropped under the key |
| `AlignerMeaning.GroupLabelled` | ge-develop/dflow/executor/data_flow_data_aligner.cc:143-153 | so has every member of a completed group |
| `AlignerMeaning.ExpiredIff` | ge-develop/dflow/executor/data_flow_data_aligner.cc:56-64 | a key expires when at least the timeout has passed since its start, in nanoseconds; for timeouts up to 0 the cut towards zero shows |
| `AlignerMeaning.StepKeepsStart` | ge-develop/dflow/executor/data_flow_data_aligner.cc:129-135 | a step leaves the start of a key alone, and a new key starts at the clock of the push |
| `AlignerMeaning.StartIsCreation` | ge-develop/dflow/executor/data_flow_data_aligner.cc:129-135 | in every run the start of a key is the clock of the push that created it |
| `AlignerMeaning.NeverExpires` | ge-develop/dflow/executor/data_flow_data_aligner.cc:228-231 | with the timeout -1 expiry does nothing |
| `AlignerMeaning.ClearExact` | ge-develop/dflow/executor/data_flow_data_aligner.cc:169-186 | clearing a transaction removes all its keys and changes no other |
| `AlignerMeaning.ExpiryDropsExactly` | ge-develop/dflow/executor/data_flow_data_aligner.cc:237-246 | with dropping, expiry removes exactly the expired keys and hands nothing out |
| `AlignerMeaning.TakesSmallest` | ge-develop/dflow/executor/data_flow_data_aligner.cc:198-260 | without dropping, the key taken from is the smallest expired one, or beyond the limit the smallest of all, and no other key changes |
| `AlignerMeaning.DataMeaning` | ge-develop/dflow/executor/data_flow_data_aligner.cc:69-78 | the tensors handed out are those of the heads without error that are not null data, in the order of the queues |
| `AlignerMeaning.RetMeaning` | ge-develop/dflow/executor/data_flow_data_aligner.cc:79-81 | the status is the code of the first head with an error, success if there is none |
| `AlignerMeaning.InfoMeaning` | ge-develop/dflow/executor/data_flow_data_aligner.cc:82-86 | the header comes from the first head that is present |
| `Aligner.DataFlowDataAligner.constructor` | ge-develop/dflow/executor/data_flow_data_aligner.cc:93-102 | starts in the initial state; of a repeated queue index the last position counts |
| `Aligner.DataFlowDataAligner.Take` | ge-develop/dflow/executor/data_flow_data_aligner.cc:66-91 | pops every head and gives the tensors without error, the first error code and the first header |
| `Aligner.DataFlowDataAligner.Erase` | ge-develop/dflow/executor/data_flow_data_aligner.cc:18-27 | erasing an entry lowers the shared counters by its items and keeps them accounted for |
| `Aligner.DataFlowDataAligner.PushAndAlignData` | ge-develop/dflow/executor/data_flow_data_aligner.cc:112-154 | does what the state machine's push does, and reports an unknown queue |
| `Aligner.DataFlowDataAligner.SelectNextQueueIdx` | ge-develop/dflow/executor/data_flow_data_aligner.cc:156-167 | the queue of the first least counter |
| `Aligner.DataFlowDataAligner.ClearCacheByTransId` | ge-develop/dflow/executor/data_flow_data_aligner.cc:169-186 | removes exactly the keys of the transaction and gives their items back |
| `Aligner.DataFlowDataAligner.ClearCache` | ge-develop/dflow/executor/data_flow_data_aligner.cc:262-265 | removes every key |
| `Aligner.DataFlowDataAligner.TryTakeExpired` | ge-develop/dflow/executor/data_flow_data_aligner.cc:227-260 | drops every expired key, or takes from the smallest expired one |
| `Aligner.DataFlowDataAligner.TryTakeOverLimit` | ge-develop/dflow/executor/data_flow_data_aligner.cc:198-225 | drops the smallest keys beyond the limit, or takes from the smallest one |
| `Aligner.DataFlowDataAligner.TryTakeExpiredOrOverLimitData` | ge-develop/dflow/executor/data_flow_data_aligner.cc:188-196 | the over-limit step follows unless expiry gave output |
| `ExceptionHandler.KeyOrder` | ge-develop/dflow/executor/data_flow_exception_handler.h:53-54 | keys are totally ordered by transaction and then by scope as text |
| `ExceptionHandler.StepKeepsConsistent` | ge-develop/dflow/executor/data_flow_exception_handler.cc:70-158 | in every state, also between the locks, the map is bounded, the model-io set is exactly the announced transactions of empty scope, and it contains the waiting ones |
| `ExceptionHandler.NotesAlternate` | ge-develop/dflow/executor/data_flow_exception_handler.cc:79-94 | over every run the executor hears of a transaction and scope in strict alternation, an occurrence first |
| `ExceptionHandler.IdleStateIsExact` | ge-develop/dflow/executor/data_flow_exception_handler.cc:139-158 | whenever no exception is in processing, the model-io set is exactly the stored transactions of empty scope |
| `ExceptionHandler.ReportsConserved` | ge-develop/dflow/executor/data_flow_exception_handler.cc:102-111 | over every run each announcement of a transaction is taken once, withdrawn once by expiry, or still waiting |
| `ExceptionHandler.TakenIsFound` | ge-develop/dflow/executor/data_flow_exception_handler.cc:112-118 | a waiting transaction has its exception in the map |
| `ExceptionHandler.OnlyOverflowRemoves` | ge-develop/dflow/executor/data_flow_exception_handler.cc:79-87 | an exception leaves the map exactly when a new one comes while 1024 are stored and it is the smallest |
| `ExceptionHandler.FoundUnlessExpired` | ge-develop/dflow/executor/data_flow_exception_handler.cc:102-118 | over any continuation of a run a waiting exception stays in the map unless a step expires it |
| `ExceptionHandler.DataFlowExceptionHandler.Notify` | ge-develop/dflow/executor/data_flow_exception_handler.cc:139-158 | both sets and the callbacks follow the kind of the notification, for the empty scope only |
| `ExceptionHandler.DataFlowExceptionHandler.ExpireOldest` | ge-develop/dflow/executor/data_flow_exception_handler.cc:79-87 | expires the smallest key, with the notifications that go with it |
| `ExceptionHandler.DataFlowExceptionHandler.ProcessException` | ge-develop/dflow/executor/data_flow_exception_handler.cc:70-95 | ignores a repetition; otherwise admits, announces and tells, in this order |
| `ExceptionHandler.DataFlowExceptionHandler.IsModelIoIgnoreTransId` | ge-develop/dflow/executor/data_flow_exception_handler.cc:97-100 | true exactly when the map holds the transaction with the empty scope |
| `ExceptionHandler.DataFlowExceptionHandler.TakeWaiting` | ge-develop/dflow/executor/data_flow_exception_handler.cc:104-111 | under the first lock: takes the smallest waiting transaction, if there is one |
| `ExceptionHandler.DataFlowExceptionHandler.FindModelIoException` | ge-develop/dflow/executor/data_flow_exception_handler.cc:112-136 | under the second lock, in any state: finds the exception exactly when the map holds it |
| `ExceptionHandler.DataFlowExceptionHandler.TakeWaitModelIoException` | ge-develop/dflow/executor/data_flow_exception_handler.cc:102-137 | a take that is not interrupted finds the exception of the transaction it takes |
| `ExecutorProtocol.StepKeepsValid` | ge-develop/dflow/executor/heterogeneous_model_executor.cc:1785-1817 | every step of handler, fetching threads and aligner creation keeps all invariants and the aligners' queues apart |
| `ExecutorProtocol.StepKeepsSafe` | ge-develop/dflow/executor/heterogeneous_model_executor.cc:1803-1815 | no step stores, or leaves stored, data of a transaction in the model-io set |
| `ExecutorProtocol.AlwaysSafe` | ge-develop/dflow/executor/heterogeneous_model_executor.cc:1803-1815 | in every reachable state of every interleaving no aligner holds data of a transaction in the model-io set |
| `ExecutorProtocol.NothingIgnoredComesOut` | ge-develop/dflow/executor/data_flow_data_aligner.cc:115-126 | whatever a fetching thread receives belongs to a transaction without a model-io exception at that moment |
| `ExecutorProtocol.OneAlignerPerQueue` | ge-develop/dflow/executor/heterogeneous_model_executor.cc:1793-1801 | in every reachable state a queue index belongs to at most one aligner |
| `ExceptionMeaning.StoredWereAdmitted` | ge-develop/dflow/executor/data_flow_exception_handler.cc:70-95 | in every run each stored exception, and each one the executor hears of, was admitted with that very code and context |
| `ExceptionMeaning.AdmittedIsStored` | ge-develop/dflow/executor/data_flow_exception_handler.cc:75-88 | a new exception is stored under its own transaction and scope; a repeated one changes nothing stored |
| `ExceptionMeaning.TextOrder` | ge-develop/dflow/executor/data_flow_exception_handler.h:53-54 | the order of scopes: the beginning of a text, or smaller at the first difference |
| `ExceptionMeaning.EvictsLowest` | ge-develop/dflow/executor/data_flow_exception_handler.cc:79-87 | what overflow removes is not above any stored transaction, and of equal ones its scope comes first; all others stay |
| `ExceptionMeaning.TakesSmallest` | ge-develop/dflow/executor/data_flow_exception_handler.cc:105-111 | a take gets the smallest waiting transaction, and none exactly if none waits |
| `ExceptionMeaning.AcceptedIff` | ge-develop/dflow/executor/data_flow_data_aligner.cc:116-126 | in the executor a push is accepted exactly if its queue belongs to the aligner and its transaction has no model-io exception |
| `ExceptionMeaning.CreatedIff` | ge-develop/dflow/executor/heterogeneous_model_executor.cc:1785-1817 | an aligner is created exactly for new indexes that are distinct, in range and used by no other; all others stay as they are |
| `ExceptionMeaning.HandlerTouches` | ge-develop/dflow/executor/heterogeneous_model_executor.cc:1811-1815 | the handler removes a key from an aligner exactly by announcing its transaction, and changes nothing else there |
| `ExceptionMeaning.StopClears` | ge-develop/dflow/executor/heterogeneous_model_executor.cc:1264-1267 | clearing all aligners empties each of them and its counters, and leaves the handler alone |
| `ExceptionMeaning.FetchTouchesOwn` | ge-develop/dflow/executor/heterogeneous_model_executor.cc:1709-1781 | a fetching thread changes only its own aligner |
| `ExceptionMeaning.ExpiryByClock` | ge-develop/dflow/executor/heterogeneous_model_executor.cc:1727-1733 | by the clock of the fetching thread: with dropping exactly the keys that are due go; otherwise no other key is taken from, and the smallest key is if it is due |
| `RouteChoice.FindGroupEntryIndexInSingleInstance` | ge-develop/dflow/executor/heterogeneous_model_executor.cc:878-905 | computes the survey of the routes |
| `RouteChoice.SingleInstanceMeaning` | ge-develop/dflow/executor/heterogeneous_model_executor.cc:878-905 | declines exactly with two normal main routes; else prefers a normal main route, then the last normal redundant one, and falls back to index 0 without a name |
| `RouteChoice.FindGroupEntryIndexBySchedule` | ge-develop/dflow/executor/heterogeneous_model_executor.cc:939-988 | computes the scan of the routes, its choice and its status map |
| `RouteChoice.ScanStatus` | ge-develop/dflow/executor/heterogeneous_model_executor.cc:927-937 | the scan adds the default record for exactly the eligible endpoints without one |
| `RouteChoice.ScanFindsNone` | ge-develop/dflow/executor/heterogeneous_model_executor.cc:946-954 | without an eligible route the scan keeps the status and chooses an index that no group has |
| `RouteChoice.ScanChoosesLeastSeen` | ge-develop/dflow/executor/heterogeneous_model_executor.cc:969-985 | the choice is an eligible route of least seen depth |
| `RouteChoice.TiesGoToLongestWait` | ge-develop/dflow/executor/heterogeneous_model_executor.cc:974-985 | at one clock reading, among the least seen depths the longest wait wins, and the first of equal waits |
| `RouteChoice.ScheduleLeastLoaded` | ge-develop/dflow/executor/heterogeneous_model_executor.cc:939-988 | without a stale read the choice has the least recorded depth |
| `RouteChoice.AllRecordedLeastLoaded` | ge-develop/dflow/executor/heterogeneous_model_executor.cc:939-988 | likewise when every eligible route has a record |
| `RouteChoice.StaleReadMisleads` | ge-develop/dflow/executor/heterogeneous_model_executor.cc:955-968 | where a stale read is possible, reports of one message each and a clock that ticks once make the scan choose a more loaded route |
| `RouteChoice.LeastLoadedIff` | ge-develop/dflow/executor/heterogeneous_model_executor.cc:939-988 | the choice is least loaded for all depths, times and clocks exactly when no stale read happens |
| `SchedulerModel.PruneKeeps` | ge-develop/dflow/executor/heterogeneous_model_executor.cc:990-1002 | pruning keeps the two maps in agreement, leaves at most 1024 transactions, forgets only the smallest and changes nothing else, and nothing at all up to 1024 |
| `SchedulerModel.RequestKeepsValid` | ge-develop/dflow/executor/heterogeneous_model_executor.cc:1050-1070 | a request keeps: a label is remembered exactly when its transaction lists it, at most 1024 transactions, every index below its group size |
| `SchedulerModel.MarkAvoids` | ge-develop/dflow/executor/heterogeneous_model_executor.cc:1334-1368 | after marking, nothing reachable through a normal source is normal on a named instance |
| `SchedulerModel.MarkKeepsAvoids` | ge-develop/dflow/executor/heterogeneous_model_executor.cc:1347-1368 | later markings do not undo earlier ones |
| `SchedulerModel.GroupAvoids` | ge-develop/dflow/executor/heterogeneous_model_executor.cc:844-865 | a normal route of a group that can be found is on no named instance |
| `SchedulerRuns.StepKeepsValid` | ge-develop/dflow/executor/heterogeneous_model_executor.cc:1026-1070 | requests, reports and callbacks keep the route cache consistent |
| `SchedulerRuns.RequestDepth` | ge-develop/dflow/executor/heterogeneous_model_executor.cc:867-876 | a request raises exactly the depth of the endpoint it chose, by one, and none for a single instance |
| `SchedulerRuns.DepthIsBalance` | ge-develop/dflow/executor/heterogeneous_model_executor.cc:1180-1188 | over every run a depth is the number of decisions for the endpoint minus the consumed counts since the last clear |
| `SchedulerRuns.StepKeepsChoice` | ge-develop/dflow/executor/heterogeneous_model_executor.cc:907-925 | a remembered choice survives every step that does not forget its transaction |
| `SchedulerRuns.ChoiceSticks` | ge-develop/dflow/executor/heterogeneous_model_executor.cc:907-925 | the same over any stretch of a run |
| `SchedulerRuns.RepeatedRequestSameChoice` | ge-develop/dflow/executor/heterogeneous_model_executor.cc:1050-1070 | until its transaction is forgotten, a repeated label gets the same index in every multi-instance group of that size |
| `SchedulerRuns.ScheduledIsEligible` | ge-develop/dflow/executor/heterogeneous_model_executor.cc:939-988 | a scheduled choice is a normal main route of the addressed group, under its own name |
| `SchedulerRuns.DecisionsAvoid` | ge-develop/dflow/executor/heterogeneous_model_executor.cc:844-905 | schedule choices, and single-instance choices with a normal route, avoid marked instances |
| `SchedulerRuns.RedeploySafety` | ge-develop/dflow/executor/heterogeneous_model_executor.cc:130-158 | in every run, after the dynamic-scheduling callback no later decision of these kinds sends to an instance recorded before it |
| `SchedulerRuns.StartRecordsNames` | ge-develop/dflow/executor/heterogeneous_model_executor.cc:102-128 | a redeployment start records all reported names, with the flag also all instances trimmed together with them, and forgets none |
| `SchedulerRuns.ChoicesComeFromOrigins` | ge-develop/dflow/executor/heterogeneous_model_executor.cc:1059-1066 | over every run each remembered choice is a normal main route of the group it was made for |
| `SchedulerRuns.CachedChoiceSameGroup` | ge-develop/dflow/executor/heterogeneous_model_executor.cc:907-925 | a choice repeated in its own group is normal there and avoids marked instances |
| `SchedulerRuns.CachedChoiceOtherGroup` | ge-develop/dflow/executor/heterogeneous_model_executor.cc:912-920 | two groups of one size for which the remembered index leads to an abnormal route |
| `RememberedRoutes.ReportsReach` | ge-develop/dflow/executor/heterogeneous_model_executor.cc:1180-1188 | a run of reports gives any endpoints a depth of -1 |
| `RememberedRoutes.TickDecides` | ge-develop/dflow/executor/heterogeneous_model_executor.cc:939-988 | after reports alone a tick of the clock in round i sends a request to route i, which is then remembered |
| `RememberedRoutes.CoveredAnswer` | ge-develop/dflow/executor/heterogeneous_model_executor.cc:907-925 | in every run, redeployments included, a remembered answer for a group that covers its twins is a normal main route there and avoids marked instances |
| `RememberedRoutes.TwinMisleads` | ge-develop/dflow/executor/heterogeneous_model_executor.cc:912-920 | a run after which a group is answered with a route that only another group of its size has |
| `RememberedRoutes.RememberedEligibleIff` | ge-develop/dflow/executor/heterogeneous_model_executor.cc:907-925 | remembered answers for an address are normal main routes in every run without marking exactly when its group has one wherever a multi-instance group of its size has one |
| `RememberedRoutes.StaleReadHappens` | ge-develop/dflow/executor/heterogeneous_model_executor.cc:955-968 | every possible stale read goes wrong in a run that consists of reports |
| `RememberedRoutes.ScheduledLeastLoadedIff` | ge-develop/dflow/executor/heterogeneous_model_executor.cc:939-988 | over all runs that leave records for given endpoints, schedule decisions are least loaded exactly when no stale read is possible |
| `RememberedRoutes.StaleReadOfTwo` | ge-develop/dflow/executor/heterogeneous_model_executor.cc:955-985 | one report and two routes: the request goes to the more loaded one |
| `SchedulerMeaning.FoundIff` | ge-develop/dflow/executor/heterogeneous_model_executor.cc:844-865 | a group is found exactly at its address, behind a normal source and with routes |
| `SchedulerMeaning.LabelIff` | ge-develop/dflow/executor/heterogeneous_model_executor.cc:1038-1043 | the label is the transaction and the route label, or the old fields as unsigned numbers if the transaction is 0 |
| `SchedulerMeaning.DecisionKind` | ge-develop/dflow/executor/heterogeneous_model_executor.cc:1050-1070 | refused without a group, single with fewer than two normal main routes, remembered if the label has a choice for the size, else scheduled |
| `SchedulerMeaning.RememberedFrom` | ge-develop/dflow/executor/heterogeneous_model_executor.cc:1061-1065 | in every run a remembered choice was made by a request with exactly that transaction and route label for a group of that size |
| `SchedulerMeaning.RequestSince` | ge-develop/dflow/executor/heterogeneous_model_executor.cc:867-876 | a decision stamps the endpoint it loads with its time, and no other |
| `SchedulerMeaning.SinceIsLastDecision` | ge-develop/dflow/executor/heterogeneous_model_executor.cc:867-876 | in every run the time of an endpoint is that of the last decision for it since the last clear |
| `SchedulerMeaning.StepIdentity` | ge-develop/dflow/executor/heterogeneous_model_executor.cc:927-937 | a new record has the device of the request that scheduled it, or none; later only depth and time change, and a report lowers the depth of its endpoint alone |
| `SchedulerMeaning.WaitMeaning` | ge-develop/dflow/executor/heterogeneous_model_executor.cc:976-978 | a wait is the difference of two 64-bit readings, which wraps if the clock went back |
| `SchedulerMeaning.RecordedIff` | ge-develop/dflow/executor/heterogeneous_model_executor.cc:102-128 | after a start exactly the old names, the reported ones and those trimmed together with a flagged one are recorded |
| `SchedulerMeaning.CallbackEffect` | ge-develop/dflow/executor/heterogeneous_model_executor.cc:135-151 | which callback touches names, records, choices and index, and the state each one leaves |
| `SchedulerMeaning.MarkExact` | ge-develop/dflow/executor/heterogeneous_model_executor.cc:1334-1368 | marking makes exactly the named sources and routes abnormal and changes nothing else |
| `SchedulerMeaning.IndexIsMarked` | ge-develop/dflow/executor/heterogeneous_model_executor.cc:1334-1368 | in every run the index is the deployed one with exactly the marked names abnormal |
| `SchedulerMeaning.ReachableRoutes` | ge-develop/dflow/executor/heterogeneous_model_executor.cc:844-865 | in every run a group is found exactly if it was at deployment and its source is not marked, and a route of it is normal exactly if it was and its instance is not marked |
| `Scheduler.ModelIndexGroupInfoUpdate` | ge-develop/dflow/executor/heterogeneous_model_executor.cc:1334-1345 | marks exactly the routes on named instances |
| `Scheduler.UpdateSource` | ge-develop/dflow/executor/heterogeneous_model_executor.cc:1352-1364 | a named source is marked itself, otherwise all its groups are |
| `Scheduler.UpdateAbnormalInstanceForTrimmingModel` | ge-develop/dflow/executor/heterogeneous_model_executor.cc:116-128 | adds all members of every trimming set that has the name |
| `Scheduler.DynamicScheduler.ProcAfterFindGroupEntry` | ge-develop/dflow/executor/heterogeneous_model_executor.cc:867-876 | counts the decision and stamps its time |
| `Scheduler.DynamicScheduler.DeleteInvalidCache` | ge-develop/dflow/executor/heterogeneous_model_executor.cc:990-1002 | does the pruning of the state machine |
| `Scheduler.DynamicScheduler.DynamicSchedProc` | ge-develop/dflow/executor/heterogeneous_model_executor.cc:1026-1070 | does the request step of the state machine and keeps the cache consistent |
| `Scheduler.DynamicScheduler.UpdateQueueStatusInfo` | ge-develop/dflow/executor/heterogeneous_model_executor.cc:1180-1188 | lowers the depth of the reporting endpoint |
| `Scheduler.DynamicScheduler.UpdateAbnormalInstanceList` | ge-develop/dflow/executor/heterogeneous_model_executor.cc:102-114 | records names and trimmed instances of all models |
| `Scheduler.DynamicScheduler.ModelIndexInfoUpdate` | ge-develop/dflow/executor/heterogeneous_model_executor.cc:1347-1368 | marks the whole index by the recorded names |
| `Scheduler.DynamicScheduler.AbnormalStatusCallback` | ge-develop/dflow/executor/heterogeneous_model_executor.cc:130-158 | does the callback step of the state machine |
| `Dequeue.DoDequeue` | ge-develop/dflow/executor/heterogeneous_model_executor.cc:687-758 | computes the attempts, their waits and the timeout left behind |
| `Dequeue.AttemptLimitIsCeiling` | ge-develop/dflow/executor/heterogeneous_model_executor.cc:696-711 | a timeout of T ms allows one attempt per started second, and at least one |
| `Dequeue.EndsWithAnswer` | ge-develop/dflow/executor/heterogeneous_model_executor.cc:701-721 | the loop ends with the first answer that is not an empty queue, after one wait for each answer up to it, and puts the timeout back |
| `Dequeue.KeepsWaiting` | ge-develop/dflow/executor/heterogeneous_model_executor.cc:705-711 | fewer empty answers than the limit, or no timeout: the loop goes on |
| `Dequeue.EmptyQueueTiming` | ge-develop/dflow/executor/heterogeneous_model_executor.cc:687-722 | on a queue that stays empty all attempts are made and the waits add up to exactly the timeout |
| `Dequeue.AnyQueueTiming` | ge-develop/dflow/executor/heterogeneous_model_executor.cc:687-722 | whatever the queue answers, waits and attempts stay within their limits and only timing out shrinks the carried timeout |
| `Dequeue.NeverTimesOut` | ge-develop/dflow/executor/heterogeneous_model_executor.cc:696-711 | without a timeout the loop ends exactly at the first answer other than empty |
| `Dequeue.FetchData` | ge-develop/dflow/executor/heterogeneous_model_executor.cc:1645-1687 | refuses timeouts below -1 and carries the timeout along the outputs |
| `Dequeue.CarriedTimeoutShrinks` | ge-develop/dflow/executor/heterogeneous_model_executor.cc:1664-1707 | along the outputs the carried timeout never grows and is at most a second after the first time-out |
| `Dequeue.AllEmptyTotalWait` | ge-develop/dflow/executor/heterogeneous_model_executor.cc:1664-1707 | if all outputs stay empty the whole wait is the timeout plus one last wait for each further output |
| `SliceAxes.PartitionNZ` | ge-develop/base/slice/data_slice_adapter.cc:320-335 | the images of the axes partition the fractal axes exactly when the rank is at least 2 |
| `SliceAxes.PartitionPacked` | ge-develop/base/slice/data_slice_adapter.cc:362-407 | the images partition the axes of the packed formats |
| `SliceAxes.PartitionNoSplit` | ge-develop/base/slice/data_slice_adapter.cc:409-440 | between formats of the same letters the images are a permutation |
| `SliceRanges.SliceMeaning` | ge-develop/base/slice/data_slice_adapter.cc:757-761 | an index of the dimension lies in the converted range exactly when its block lies in the range |
| `SliceRanges.RoundTripIff` | ge-develop/base/slice/data_slice_adapter.cc:812-815 | converting there and back gives the range again exactly when its last block begins within the dimension |
| `SliceRanges.CarriedBlocks` | ge-develop/base/slice/data_slice_adapter.cc:757-815 | from factor p to factor q a range that begins within the dimension gets exactly the blocks that hold one of its indexes |
| `SliceRanges.SoundAndTightIff` | ge-develop/base/slice/data_slice_adapter.cc:757-815 | that is so for all blocks exactly when the range begins within the dimension or comes out empty |
| `SliceRanges.TilingConverts` | ge-develop/base/slice/data_slice_adapter.cc:757-761 | ranges that tile the packed axis convert to ranges that tile the dimension |
| `SliceRanges.ConvertedBits` | ge-develop/base/slice/data_slice_adapter.cc:757-815 | the bounds of a converted range, fitting or not: products and quotients modulo 2^64 as signed numbers, the end cut to the dimension |
| `SliceAdapter.FixAxisTypeInfoToOne` | ge-develop/base/slice/data_slice_adapter.cc:470-508 | computes the fold over the numbers of axes and keeps the first axis of each cut |
| `SliceAdapter.TransAxisForTensors` | ge-develop/base/slice/data_slice_adapter.cc:510-570 | computes the images of all cuts, or the first reason there are none |
| `SliceAdapter.TransAxisByType` | ge-develop/base/slice/data_slice_adapter.cc:613-648 | computes one entry with its backup |
| `SliceAdapter.TransAxisInfo` | ge-develop/base/slice/data_slice_adapter.cc:669-680 | erasing while walking leaves exactly the translated entries, in their order |
| `SliceAdapter.EntryAligned` | ge-develop/base/slice/data_slice_adapter.cc:572-603 | a translated entry backs up the original cuts, cut by cut on the same tensor, and its k-th axis is the first image of the k-th original one |
| `SliceAdapter.KeptEntriesAligned` | ge-develop/base/slice/data_slice_adapter.cc:669-680 | so is every entry that is kept, unless of a sliding-window kind |
| `SliceAdapter.SearchFinds` | ge-develop/base/slice/data_slice_adapter.cc:682-693 | the search gives the axis that was backed up for the first cut of the tensor, which with distinct tensors is the cut itself |
| `SliceAdapter.TransSliceInfoForElement` | ge-develop/base/slice/data_slice_adapter.cc:712-820 | both conversions compute the ranges of all tensors, or the first failure |
| `SliceInfer.BackupSuffices` | ge-develop/base/slice/data_slice_adapter.cc:290-318 | putting the layout back never reads past the backup |
| `SliceInfer.BackIff` | ge-develop/base/slice/data_slice_adapter.cc:260-318 | every description is put back, with invalid ones in between, exactly when none got lost |
| `SliceInfer.LayoutKeptIff` | ge-develop/base/slice/data_slice_helper.cc:165-207 | on success and on failure all formats and shapes are as before, except exactly when the layout was switched and an input got lost |
| `SliceInfer.UntypedInputLost` | ge-develop/base/slice/data_slice_adapter.cc:266-274 | an operator whose input stays in its original layout |
| `SliceInfer.SameRangeIff` | ge-develop/base/slice/data_slice_helper.cc:165-207 | with equal packing factors the input gets the output's range exactly when its last block begins within the dimension |
| `SliceInfer.InferredSlice` | ge-develop/base/slice/data_slice_helper.cc:165-207 | after a success each input, in the layout that was put back, is cut on the current axis of its last cut alone, by the first output's range carried over through the original axes |
| `SliceInfer.ElementwiseInference` | ge-develop/base/slice/data_slice_helper.cc:224-258 | translation of cut information and later inference together: the cut axes are first images of the original ones, the range is carried over, and if no input got lost all else is unchanged |
| `SliceInfer.ElementwiseKeepsRange` | ge-develop/base/slice/data_slice_helper.cc:165-207 | translation and inference together: the input's stored slice has exactly the blocks of the output's range if and only if the range begins within the dimension or comes out empty; with equal packing factors it is that range, and none elsewhere, exactly when the last block begins within the dimension |
| `SliceInfer.SlicesAccepted` | ge-develop/base/slice/data_slice_elementwise_impl.cc:23-67 | the check accepts exactly slices that cut every output on its cut axis alone, by a range whose end is at most the dimension |
| `SliceInfer.InferredEnd` | ge-develop/base/slice/data_slice_elementwise_impl.cc:69-85 | the range an input gets ends at most at its dimension, and within it exactly when its end is not equal to it; surely so if the dimension is not below the output's |
| `SliceInfer.EndAtDimension` | ge-develop/base/slice/data_slice_elementwise_impl.cc:73-80 | an input with the one index 0 that is asked for index 1 |
| `SliceInfer.InferenceSucceeds` | ge-develop/base/slice/data_slice_helper.cc:165-207 | for every plain operator of rank 1 and every accepted range the inference succeeds and stores the output's range |
| `SliceTables.PackedNumbers` | ge-develop/base/slice/data_slice_adapter.cc:19-31 | the images of all axes of the eight original formats in the packed ones, as numbers |
| `SliceTables.PlainNumbers` | ge-develop/base/slice/data_slice_adapter.cc:409-440 | the images of all axes between any two formats of the same letters, as numbers |
| `SliceTables.FractalNumbers` | ge-develop/base/slice/data_slice_adapter.cc:320-335 | the images of all axes in the fractal format |
| `SliceTables.SameFormat` | ge-develop/base/slice/data_slice_adapter.cc:453-455 | a format that is the original one keeps every axis |
| `SliceTables.ReshapedNumbers` | ge-develop/base/slice/data_slice_adapter.cc:337-350 | the images of the axes of a tensor of lower rank, by the letters of its reshape type |
| `SliceTables.RankRefused` | ge-develop/base/slice/data_slice_adapter.cc:352-360 | any other rank has no images |
| `SliceTables.PackedFactor` | ge-develop/base/slice/data_slice_adapter.cc:752-755 | the channel axis is packed by the innermost dimension, no other axis is packed |
| `SliceTables.FractalFactor` | ge-develop/base/slice/data_slice_adapter.cc:808-811 | the last two axes are packed by the last two dimensions |
| `SliceTables.PlainFactor` | ge-develop/base/slice/data_slice_adapter.cc:752-755 | between formats that are not packed the factor is 1 |
| `SliceTables.CutsKeptIff` | ge-develop/base/slice/data_slice_adapter.cc:510-570 | cuts are translated exactly if every axis has an image, just one for the reducing kinds |
| `SliceTables.FixedIff` | ge-develop/base/slice/data_slice_adapter.cc:470-508 | an entry is fixed to one axis each exactly if all cuts have the same number of axes, outputs of a reduction possibly none |
| `SliceTables.EntryKeptIff` | ge-develop/base/slice/data_slice_adapter.cc:605-648 | what an entry needs to be kept |
| `SliceTables.KindsTranslated` | ge-develop/base/slice/data_slice_adapter.cc:622-643 | which kinds take the first image of each axis, which need it to be the only one, and which take all |
| `SliceTables.KindOfEntry` | ge-develop/base/slice/data_slice_adapter.cc:650-667 | which kind an entry counts as, by the set of its kinds |
| `SliceTables.SliceKinds` | ge-develop/base/slice/data_slice_adapter.cc:835-863 | which kinds keep their slices, which are translated to a range per dimension, and which fail |
| `SliceTables.LostIff` | ge-develop/graph_metadef/graph/normal_graph/ge_tensor.cc:994-999 | an input gets lost exactly if it has no data type, a format and no original format |
| `SliceTables.MissesOriginIff` | ge-develop/graph_metadef/graph/normal_graph/ge_tensor.cc:494-512 | an original shape is missing exactly if it has no dimension or a 0 that the product reaches, unless the current shape has none or such a 0 as well |
| `SliceTables.ElementwiseSpreads` | ge-develop/base/slice/data_slice_elementwise_impl.cc:69-126 | every input gets the range of the first output's cut axis once for each dimension, none for an unknown rank |
| `SliceTables.StoredIff` | ge-develop/base/slice/data_slice_helper.cc:19-34 | slices that do not match the cuts are dropped without an error; otherwise storing succeeds exactly if no index is too large, and changes only valid inputs that a cut names |
| `SliceTables.RuleIff` | ge-develop/base/slice/data_slice_helper.cc:165-170 | only unsplit and elementwise entries have a rule; an unsplit one whose slices stay as they are hands them to the inputs |
| `SliceErrors.UndefinedIff` | ge-develop/base/slice/data_slice_adapter.cc:337-440 | exactly which axes are read outside of a table |
| `SliceErrors.AxesDecide` | ge-develop/base/slice/data_slice_adapter.cc:510-540 | the axes of a cut are translated if all of them are; otherwise the first defect decides |
| `SliceErrors.CutsDecide` | ge-develop/base/slice/data_slice_adapter.cc:510-570 | likewise for the cuts of an entry |
| `SliceErrors.FixUndefinedIff` | ge-develop/base/slice/data_slice_adapter.cc:470-508 | exactly when the first axis of an empty list is taken |
| `SliceErrors.EntryUndefinedIff` | ge-develop/base/slice/data_slice_adapter.cc:572-648 | exactly which entries are undefined, inputs before outputs |
| `SliceErrors.EntriesInOrder` | ge-develop/base/slice/data_slice_adapter.cc:669-680 | the kept entries are the translated ones in their order, and one undefined entry makes the whole undefined |
| `SliceErrors.ConvertedIff` | ge-develop/base/slice/data_slice_adapter.cc:695-710 | exactly when one range is converted, and when the code reads or divides without a guard |
| `SliceErrors.RangesDecide` | ge-develop/base/slice/data_slice_adapter.cc:734-762 | the ranges of a tensor are converted if all of them are; otherwise the first defect decides |
| `SliceErrors.SlicesDecide` | ge-develop/base/slice/data_slice_adapter.cc:712-820 | slices fail without original cuts or with another number than cuts; otherwise the first tensor that is not translated decides, and a missing one fails |
| `SliceErrors.CheckUndefinedIff` | ge-develop/base/slice/data_slice_elementwise_impl.cc:23-49 | the check of an output is undefined exactly if it has a range but no cut axis |
| `SliceErrors.SplitIff` | ge-develop/base/slice/data_slice_elementwise_impl.cc:69-85 | an input fails exactly if the range ends behind its dimension, and is undefined without a cut axis or a range for it |
| `SliceErrors.RuleDecides` | ge-develop/base/slice/data_slice_elementwise_impl.cc:88-130 | the rule fails without inputs or outputs; otherwise the first output that is not accepted decides, and then the first input that is not split |
| `SliceOp.CheckOutDataSlice` | ge-develop/base/slice/data_slice_elementwise_impl.cc:51-67 | computes the check of all output ranges |
| `SliceOp.GetInputSplitRanges` | ge-develop/base/slice/data_slice_elementwise_impl.cc:69-85 | computes the ranges of one input |
| `SliceOp.InferAxisSlice` | ge-develop/base/slice/data_slice_elementwise_impl.cc:88-130 | computes the elementwise rule |
| `SliceOp.OpDesc.CheckOriInfo` | ge-develop/base/slice/data_slice_adapter.cc:229-258 | true exactly when no present tensor among the first n misses its original shape, n being the number of present ones: inputs behind an invalid one may be skipped |
| `SliceOp.OpDesc.SetOriOpInfo` | ge-develop/base/slice/data_slice_adapter.cc:260-288 | within the same bound, moves present tensors to the original layout and saves the one they had |
| `SliceOp.OpDesc.SetCurOpInfo` | ge-develop/base/slice/data_slice_adapter.cc:290-318 | gives the saved layouts to the present tensors in order |
| `SliceOp.OpDesc.SetInputSlice` | ge-develop/base/slice/data_slice_helper.cc:19-34 | stores the slices up to the first index out of range |
| `SliceOp.OpDesc.InferDavinciCommonOpSlice` | ge-develop/base/slice/data_slice_helper.cc:165-207 | does the inference that the theorems are about |
| `FlowNodes.FlushPending` | ge-develop/dflow/flow_graph/flow_graph.cc:94-105 | moves the pending indexes within the list into it, and runs out of bounds exactly for an index that only its conversion makes small |
| `FlowNodes.AddEdge` | ge-develop/dflow/flow_graph/flow_graph.cc:76-105 | refuses a filled place; otherwise grows the list by one, fills or defers, and flushes |
| `FlowNodes.FlowNode.AddPp` | ge-develop/dflow/flow_graph/flow_graph.cc:216-232 | a new process point has no edges and all others keep theirs |
| `FlowNodes.FlowNode.MapInput` | ge-develop/dflow/flow_graph/flow_graph.cc:163-193 | refuses unknown points and indexes; otherwise changes the input edges of this point only |
| `FlowNodes.FlowNode.MapOutput` | ge-develop/dflow/flow_graph/flow_graph.cc:195-214 | likewise for output edges |
| `FlowNodes.InsertNext` | ge-develop/dflow/flow_graph/flow_graph.cc:76-105 | one more call with a new index keeps the table assembled |
| `FlowNodes.AssembleDistinct` | ge-develop/dflow/flow_graph/flow_graph.cc:63-161 | distinct calls in any order: one place per call, mapped indexes within the list filled with their node index, the others exactly the pending ones |
| `FlowNodes.LargeIndexOutOfBounds` | ge-develop/dflow/flow_graph/flow_graph.cc:94-105 | an index from 2^31 on is accessed outside the list |
| `FlowNodes.AssembleSucceedsIff` | ge-develop/dflow/flow_graph/flow_graph.cc:63-161 | distinct calls succeed exactly when all indexes are below 2^31 |
| `FlowNodes.CompleteIffPermutation` | ge-develop/dflow/flow_graph/flow_graph.cc:63-161 | nothing is pending exactly when the indexes are a permutation, and then the list is the mapping |
| `FlowNodes.RepeatRefusedIff` | ge-develop/dflow/flow_graph/flow_graph.cc:76-93 | a repeated index is refused exactly when its place is in the list; a pending one is overwritten, unless this call makes its place, where the first call wins |
| `Base64.LetterIsTable` | ge-develop/base/common/base64.h:22-25 | the alphabet is the table |
| `Base64.EncodeToBase64` | ge-develop/base/common/base64.h:42-77 | the buffer loop computes the encoding |
| `Base64.EncodedLength` | ge-develop/base/common/base64.h:42-50 | four characters for every started group of three bytes |
| `Base64.SextetsAreDigits` | ge-develop/base/common/base64.h:51-57 | the four values of a triple are the digits to the base 64 of its 24 bits, the most significant first |
| `Base64.BytesAreDigits` | ge-develop/base/common/base64.h:106-118 | the 24 bits of the decoded bytes have the four values as digits to the base 64 |
| `Base64.EncodeSpellsOut` | ge-develop/base/common/base64.h:50-58 | each group of an encoding spells out the 24 bits of its three bytes |
| `Base64.TailSpellsOut` | ge-develop/base/common/base64.h:60-75 | one or two bytes at the end are spelled out with zeros behind them and padding |
| `Base64.PaddingOnlyAtEnd` | ge-develop/base/common/base64.h:58-77 | padding stands exactly in the last places that complete the group |
| `Base64.ReadGroup` | ge-develop/base/common/base64.h:95-105 | legal exactly when every character is legal at its place |
| `Base64.DecodeFromBase64` | ge-develop/base/common/base64.h:81-121 | the loop computes the decoding |
| `Base64.DecodeOfEncode` | ge-develop/base/common/base64.h:42-121 | decoding the encoding of any bytes succeeds and gives them back |
| `Base64.DecodeAccepts` | ge-develop/base/common/base64.h:81-105 | exactly the texts that are decoded |
| `Base64.EncodeOfDecode` | ge-develop/base/common/base64.h:81-121 | encoding undoes decoding exactly on the canonical texts |
| `Base64.UncanonicalText` | ge-develop/base/common/base64.h:96-111 | a text with padding in front of a letter is decoded, and encoded differently |
| `Broadcast.BroadCastRankAndDim` | ge-develop/graph_metadef/ops/op_imp.cpp:19-37 | the loop computes the join of a longer and a shorter shape |
| `Broadcast.BroadCastInfer` | ge-develop/graph_metadef/ops/op_imp.cpp:40-67 | computes the join of two shapes |
| `Broadcast.InferMeaning` | ge-develop/graph_metadef/ops/op_imp.cpp:19-67 | succeeds exactly when both ranks are below 2^63 - 1 and the dimensions agree from the right, and then joins them one by one |
| `Broadcast.Commutative` | ge-develop/graph_metadef/ops/op_imp.cpp:61-66 | the order of the inputs does not matter, failures included |
| `Broadcast.Identity` | ge-develop/graph_metadef/ops/op_imp.cpp:52-59 | the empty shape is the identity |
| `Broadcast.Associative` | ge-develop/graph_metadef/ops/op_imp.cpp:40-67 | both ways of joining three shapes fail or agree, on all integer shapes |
| `Broadcast.ResultIsLeastTarget` | ge-develop/graph_metadef/ops/op_imp.cpp:40-67 | both inputs broadcast to the result, and it to every common target |
| `Broadcast.SucceedsWhenTargetExists` | ge-develop/graph_metadef/ops/op_imp.cpp:27-34 | succeeds exactly when a common target exists and no 1 meets a non-positive dimension |
| `Broadcast.OneAgainstEmptyDimension` | ge-develop/graph_metadef/ops/op_imp.cpp:29-32 | 1 against 0 fails although 0 is a common target |

## Left out

- Queues, devices, memory buffers, protobuf messages, thread pools and logging: what they deliver is a parameter.
- Deadlock freedom: every locked region is one step, so that lock order cannot be expressed.
- The clock: every reading is a parameter, elapsed time is counted in whole nanoseconds, and rounding in floating point is not modelled.
- Overflow of queue depths: requests are asked for while recorded depths are below the largest 32-bit value.
- Dequeue.FetchData: only the carrying of the timeout is modelled, not the collection of tensors or the control outputs.
- Aligner.DataFlowDataAligner.Take: the copying of user data and header fields is one value, the item they come from.
- ExceptionHandler.DataFlowExceptionHandler.FindModelIoException: the copying of times, flags and user data out of the exception's context is not modelled.
- ExceptionHandler.DataFlowExceptionHandler.TakeWaitModelIoException: one call without interruption; interrupted ones are its two locked halves with other steps in between.
- FlowNodes.FlowNode.MapInput: input attributes and tensor descriptions are not modelled.
- Scheduler.DynamicScheduler.UpdateAbnormalInstanceList: the flag stored with a name is not kept, since only the names are read.
- Scheduler.DynamicScheduler.AbnormalStatusCallback: emptying the input and output queues is not modelled.
- SliceAdapter.KeptEntriesAligned: entries of a sliding-window kind keep all images of their axes, and their slices are passed through unchanged.
- SliceInfer.ElementwiseInference: operators with an inference function of their own are not modelled.
- Tensor attributes other than the slice and the reshape type, and names of operators.
- Command line, registries, factories, option checks, JSON parsing and path checks: look-ups and conversions without laws of their own.
