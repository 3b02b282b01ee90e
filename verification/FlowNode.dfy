/** Assembly of a flow node's edges to the process points added to it. Calls may name the process
    point's indexes in any order; an index beyond the edge list waits in a pending map. */
module FlowNodes {
  import opened Ordered

  type U32 = x: int | 0 <= x < 0x1_0000_0000

  datatype Status = Success | Failed | ParamInvalid | OutOfBounds

  /** An edge with an empty node name is one that no call has filled yet. */
  datatype Edge = Edge(node: string, index: U32)

  const EMPTY_EDGE: Edge := Edge("", 0)

  datatype ProcessPoint = ProcessPoint(name: string, inEdges: seq<Edge>, outEdges: seq<Edge>)

  /** The edge list of one process point together with the indexes that wait for it to grow. */
  datatype Table = Table(edges: seq<Edge>, pending: map<U32, U32>)

  const NEW_TABLE: Table := Table([], map[])

  datatype Call = Call(nodeIndex: U32, ppIndex: U32)

  /** The conversion to a 32-bit signed value that guards the flush of the pending map. */
  function ToInt32(x: U32): int {
    if x < 0x8000_0000 then x else x - 0x1_0000_0000
  }

  predicate Flushable(t: Table, k: U32) {
    ToInt32(k) < |t.edges|
  }

  function FilledEdges(t: Table, node: string): (edges: seq<Edge>) {
    seq(|t.edges|, i requires 0 <= i < |t.edges| =>
      if i in t.pending then Edge(node, t.pending[i]) else t.edges[i])
  }

  /** Moves every flushable pending index into the list; one that lies outside the list is an
      access out of bounds. */
  function Flush(t: Table, node: string): (r: (Status, Table)) {
    if exists k :: k in t.pending && Flushable(t, k) && k >= |t.edges| then (OutOfBounds, t)
    else (Success, Table(FilledEdges(t, node), map k | k in t.pending && !Flushable(t, k) :: t.pending[k]))
  }

  function Insert(t: Table, node: string, call: Call): (r: (Status, Table)) {
    var i := call.ppIndex;
    if i < |t.edges| && t.edges[i].node != "" then (Failed, t)
    else
      var grown := t.edges + [EMPTY_EDGE];
      Flush(if i < |grown| then Table(grown[i := Edge(node, call.nodeIndex)], t.pending)
            else Table(grown, t.pending[i := call.nodeIndex]), node)
  }

  /** The effect of a run of calls, stopping at the first one that does not succeed. */
  function Assemble(node: string, calls: seq<Call>): (r: (Status, Table)) {
    if calls == [] then (Success, NEW_TABLE)
    else
      var (status, t) := Assemble(node, calls[..|calls| - 1]);
      if status != Success then (status, t) else Insert(t, node, calls[|calls| - 1])
  }

  // ----- The code -----

  predicate IndexLe(a: U32, b: U32) { a <= b }

  lemma IndexOrder()
    ensures TotalOrder(IndexLe)
  {}

  /** The list and the map when the pending indexes `ahead` are still to be looked at. */
  ghost predicate Flushing(t: Table, node: string, ahead: set<U32>, edges: seq<Edge>, pending: map<U32, U32>) {
    && ahead <= t.pending.Keys && |edges| == |t.edges|
    && (forall k :: k in t.pending && k !in ahead && Flushable(t, k) ==> k < |t.edges|)
    && (forall i :: 0 <= i < |edges| ==>
          edges[i] == if i in t.pending && i !in ahead then Edge(node, t.pending[i]) else t.edges[i])
    && pending == map k | k in t.pending && (k in ahead || !Flushable(t, k)) :: t.pending[k]
  }

  lemma FlushStarts(t: Table, node: string)
    ensures Flushing(t, node, t.pending.Keys, t.edges, t.pending)
  {}

  lemma FlushMoves(t: Table, node: string, ahead: set<U32>, edges: seq<Edge>, pending: map<U32, U32>, k: U32)
    requires Flushing(t, node, ahead, edges, pending) && k in ahead
    ensures Flushable(t, k) && k < |edges| ==>
              Flushing(t, node, ahead - {k}, edges[k := Edge(node, t.pending[k])], pending - {k})
    ensures !Flushable(t, k) ==> Flushing(t, node, ahead - {k}, edges, pending)
  {}

  lemma FlushEnds(t: Table, node: string, edges: seq<Edge>, pending: map<U32, U32>)
    requires Flushing(t, node, {}, edges, pending)
    ensures Flush(t, node) == (Success, Table(edges, pending))
  {
    assert edges == FilledEdges(t, node);
    assert pending == map k | k in t.pending && !Flushable(t, k) :: t.pending[k];
  }

  /** Walks the pending map in key order and erases what it moves into the edge list. */
  method FlushPending(t: Table, node: string) returns (status: Status, r: Table)
    ensures (status, r) == Flush(t, node)
  {
    IndexOrder();
    hide TotalOrder, Flushing;
    var edges, pending := t.edges, t.pending;
    var ahead := pending.Keys;
    FlushStarts(t, node);
    while ahead != {}
      invariant ahead <= t.pending.Keys && |edges| == |t.edges| && Flushing(t, node, ahead, edges, pending)
      decreases ahead
    {
      var k := FindLeast(ahead, IndexLe);
      FlushMoves(t, node, ahead, edges, pending, k);
      ahead := ahead - {k};
      if ToInt32(k) < |edges| {
        if k >= |edges| {
          assert k in t.pending && Flushable(t, k);
          return OutOfBounds, t;
        }
        edges := edges[k := Edge(node, t.pending[k])];
        pending := pending - {k};
      }
    }
    FlushEnds(t, node, edges, pending);
    return Success, Table(edges, pending);
  }

  method AddEdge(t: Table, node: string, call: Call) returns (status: Status, r: Table)
    ensures (status, r) == Insert(t, node, call) && status != ParamInvalid
  {
    var edges, pending := t.edges, t.pending;
    if call.ppIndex < |edges| && edges[call.ppIndex].node != "" {
      return Failed, t;
    }
    edges := edges + [EMPTY_EDGE];
    if call.ppIndex < |edges| {
      edges := edges[call.ppIndex := Edge(node, call.nodeIndex)];
    } else {
      pending := pending[call.ppIndex := call.nodeIndex];
    }
    status, r := FlushPending(Table(edges, pending), node);
  }

  ghost predicate Listed(pps: seq<ProcessPoint>, name: string) {
    exists i :: 0 <= i < |pps| && pps[i].name == name
  }

  lemma StillListed(before: seq<ProcessPoint>, after: seq<ProcessPoint>)
    requires |before| <= |after| && forall i :: 0 <= i < |before| ==> after[i].name == before[i].name
    ensures forall n :: Listed(before, n) ==> Listed(after, n)
  {
    forall n | Listed(before, n) ensures Listed(after, n) {
      var i :| 0 <= i < |before| && before[i].name == n;
      assert after[i].name == n;
    }
  }

  class FlowNode {
    const name: string
    const inputNum: U32
    const outputNum: U32
    var pps: seq<ProcessPoint>
    var inPending: map<string, map<U32, U32>>
    var outPending: map<string, map<U32, U32>>
    var addedPps: set<string>

    constructor (name: string, inputNum: U32, outputNum: U32)
      ensures Valid() && this.name == name && this.inputNum == inputNum && this.outputNum == outputNum
      ensures addedPps == {}
    {
      this.name, this.inputNum, this.outputNum := name, inputNum, outputNum;
      pps, inPending, outPending, addedPps := [], map[], map[], {};
    }

    /** The process points are exactly the added ones, each of them once. */
    ghost predicate Valid()
      reads this
    {
      && (forall i :: 0 <= i < |pps| ==> pps[i].name in addedPps)
      && (forall n :: n in addedPps ==> Listed(pps, n))
      && (forall i, j :: 0 <= i < j < |pps| ==> pps[i].name != pps[j].name)
      && inPending.Keys <= addedPps && outPending.Keys <= addedPps
    }

    ghost function Position(pp: string): (i: nat)
      requires Valid() && pp in addedPps
      reads this
      ensures i < |pps| && pps[i].name == pp
    {
      var i: nat :| i < |pps| && pps[i].name == pp; i
    }

    function Pending(m: map<string, map<U32, U32>>, pp: string): map<U32, U32> {
      if pp in m then m[pp] else map[]
    }

    /** The input edges a process point has received, listed and pending. */
    ghost function Inputs(pp: string): Table
      requires Valid() && pp in addedPps
      reads this
    {
      Table(pps[Position(pp)].inEdges, Pending(inPending, pp))
    }

    ghost function Outputs(pp: string): Table
      requires Valid() && pp in addedPps
      reads this
    {
      Table(pps[Position(pp)].outEdges, Pending(outPending, pp))
    }

    method AddPp(pp: string)
      requires Valid()
      modifies this
      ensures Valid() && addedPps == old(addedPps) + {pp}
      ensures pp !in old(addedPps) ==> Inputs(pp) == NEW_TABLE && Outputs(pp) == NEW_TABLE
      ensures forall n :: n in old(addedPps) ==> Inputs(n) == old(Inputs(n)) && Outputs(n) == old(Outputs(n))
    {
      if pp in addedPps {
        return;
      }
      StillListed(pps, pps + [ProcessPoint(pp, [], [])]);
      pps := pps + [ProcessPoint(pp, [], [])];
      assert pps[|pps| - 1].name == pp;
      addedPps := addedPps + {pp};
    }

    /** Looks for the process point by name along the list. */
    method FindPp(pp: string) returns (i: nat)
      requires Valid() && pp in addedPps
      ensures i < |pps| && pps[i].name == pp && i == Position(pp)
    {
      i := 0;
      while pps[i].name != pp
        invariant i <= Position(pp)
        decreases Position(pp) - i
      {
        i := i + 1;
      }
    }

    method MapInput(nodeIndex: U32, pp: string, ppIndex: U32) returns (status: Status)
      requires Valid()
      modifies this
      ensures Valid() && addedPps == old(addedPps)
      ensures status == ParamInvalid <==> nodeIndex >= inputNum || pp !in addedPps
      ensures status == ParamInvalid ==> pps == old(pps) && inPending == old(inPending)
      ensures status != ParamInvalid ==> (status, Inputs(pp)) == Insert(old(Inputs(pp)), name, Call(nodeIndex, ppIndex))
      ensures forall n :: n in addedPps && n != pp ==> Inputs(n) == old(Inputs(n))
      ensures forall n :: n in addedPps ==> Outputs(n) == old(Outputs(n))
    {
      if nodeIndex >= inputNum || pp !in addedPps {
        return ParamInvalid;
      }
      hide Insert, Listed;
      var i := FindPp(pp);
      var table;
      status, table := AddEdge(Table(pps[i].inEdges, Pending(inPending, pp)), name, Call(nodeIndex, ppIndex));
      StoreInputs(pp, i, table);
    }

    method StoreInputs(pp: string, i: nat, table: Table)
      requires Valid() && pp in addedPps && i == Position(pp)
      modifies `pps, `inPending
      ensures Valid() && Inputs(pp) == table
      ensures forall n :: n in addedPps && n != pp ==> Inputs(n) == old(Inputs(n))
      ensures forall n :: n in addedPps ==> Outputs(n) == old(Outputs(n))
    {
      hide Listed;
      StillListed(pps, pps[i := pps[i].(inEdges := table.edges)]);
      pps := pps[i := pps[i].(inEdges := table.edges)];
      inPending := inPending[pp := table.pending];
    }

    method MapOutput(nodeIndex: U32, pp: string, ppIndex: U32) returns (status: Status)
      requires Valid()
      modifies this
      ensures Valid() && addedPps == old(addedPps)
      ensures status == ParamInvalid <==> nodeIndex >= outputNum || pp !in addedPps
      ensures status == ParamInvalid ==> pps == old(pps) && outPending == old(outPending)
      ensures status != ParamInvalid ==> (status, Outputs(pp)) == Insert(old(Outputs(pp)), name, Call(nodeIndex, ppIndex))
      ensures forall n :: n in addedPps && n != pp ==> Outputs(n) == old(Outputs(n))
      ensures forall n :: n in addedPps ==> Inputs(n) == old(Inputs(n))
    {
      if nodeIndex >= outputNum || pp !in addedPps {
        return ParamInvalid;
      }
      hide Insert, Listed;
      var i := FindPp(pp);
      var table;
      status, table := AddEdge(Table(pps[i].outEdges, Pending(outPending, pp)), name, Call(nodeIndex, ppIndex));
      StoreOutputs(pp, i, table);
    }

    method StoreOutputs(pp: string, i: nat, table: Table)
      requires Valid() && pp in addedPps && i == Position(pp)
      modifies `pps, `outPending
      ensures Valid() && Outputs(pp) == table
      ensures forall n :: n in addedPps && n != pp ==> Outputs(n) == old(Outputs(n))
      ensures forall n :: n in addedPps ==> Inputs(n) == old(Inputs(n))
    {
      hide Listed;
      StillListed(pps, pps[i := pps[i].(outEdges := table.edges)]);
      pps := pps[i := pps[i].(outEdges := table.edges)];
      outPending := outPending[pp := table.pending];
    }
  }

  // ----- What a run of calls leaves behind -----

  ghost predicate DistinctIndexes(calls: seq<Call>) {
    forall i, j :: 0 <= i < j < |calls| ==> calls[i].ppIndex != calls[j].ppIndex
  }

  ghost predicate SmallIndexes(calls: seq<Call>) {
    forall i :: 0 <= i < |calls| ==> calls[i].ppIndex < 0x8000_0000
  }

  /** The mapping the calls ask for, whatever their order. */
  ghost function Mapping(calls: seq<Call>): map<U32, U32> {
    if calls == [] then map[]
    else var last := calls[|calls| - 1]; Mapping(calls[..|calls| - 1])[last.ppIndex := last.nodeIndex]
  }

  lemma {:induction false} MappingKeys(calls: seq<Call>)
    ensures forall k :: k in Mapping(calls) <==> exists i :: 0 <= i < |calls| && calls[i].ppIndex == k
    ensures DistinctIndexes(calls) ==> |Mapping(calls)| == |calls|
  {
    if calls != [] {
      var front, last := calls[..|calls| - 1], calls[|calls| - 1];
      MappingKeys(front);
      forall k ensures k in Mapping(calls) <==> exists i :: 0 <= i < |calls| && calls[i].ppIndex == k {
        if k in Mapping(front) {
          var i :| 0 <= i < |front| && front[i].ppIndex == k;
          assert calls[i].ppIndex == k;
        }
        if i :| 0 <= i < |calls| && calls[i].ppIndex == k {
          assert i == |calls| - 1 || front[i].ppIndex == k;
        }
      }
      if DistinctIndexes(calls) {
        assert Mapping(calls).Keys == Mapping(front).Keys + {last.ppIndex};
        assert last.ppIndex !in Mapping(front);
      }
    }
  }

  /** The list has one place per call; mapped indexes below its length are filled, the other places
      are empty, and the mapped indexes from its length on are exactly the pending ones. */
  ghost predicate Assembled(t: Table, node: string, calls: seq<Call>) {
    var m := Mapping(calls);
    && |t.edges| == |calls|
    && (forall i :: 0 <= i < |t.edges| ==> t.edges[i] == if i in m then Edge(node, m[i]) else EMPTY_EDGE)
    && t.pending == map k | k in m && k >= |calls| :: m[k]
  }

  lemma MappingSnoc(calls: seq<Call>, call: Call)
    requires DistinctIndexes(calls + [call]) && SmallIndexes(calls + [call])
    ensures Mapping(calls + [call]) == Mapping(calls)[call.ppIndex := call.nodeIndex]
    ensures call.ppIndex !in Mapping(calls) && call.ppIndex < 0x8000_0000
    ensures forall k :: k in Mapping(calls) ==> k < 0x8000_0000
  {
    var all := calls + [call];
    assert all[..|all| - 1] == calls && all[|all| - 1] == call;
    MappingKeys(calls);
    forall k | k in Mapping(calls) ensures k != call.ppIndex && k < 0x8000_0000 {
      var j :| 0 <= j < |calls| && calls[j].ppIndex == k;
      assert all[j] == calls[j];
    }
  }

  /** A flush completes a list of `n` places that lacks only pending indexes of the mapping. */
  lemma FlushCompletes(t: Table, node: string, m: map<U32, U32>, n: nat)
    requires |t.edges| == n && forall k :: k in m ==> k < 0x8000_0000
    requires forall k :: k in t.pending ==> k in m && m[k] == t.pending[k]
    requires forall k :: k in m && k >= n ==> k in t.pending
    requires forall e :: 0 <= e < n && e !in t.pending ==> t.edges[e] == if e in m then Edge(node, m[e]) else EMPTY_EDGE
    ensures var (status, r) := Flush(t, node);
            && status == Success && |r.edges| == n && r.pending == (map k | k in m && k >= n :: m[k])
            && forall e :: 0 <= e < n ==> r.edges[e] == if e in m then Edge(node, m[e]) else EMPTY_EDGE
  {}

  lemma InsertNext(t: Table, node: string, calls: seq<Call>, call: Call)
    requires Assembled(t, node, calls) && DistinctIndexes(calls + [call]) && SmallIndexes(calls + [call])
    ensures Insert(t, node, call).0 == Success && Assembled(Insert(t, node, call).1, node, calls + [call])
  {
    hide Mapping, Flush, DistinctIndexes, SmallIndexes;
    MappingSnoc(calls, call);
    var m, i, n := Mapping(calls), call.ppIndex, |calls| + 1;
    var grown := t.edges + [EMPTY_EDGE];
    var t1 := if i < n then Table(grown[i := Edge(node, call.nodeIndex)], t.pending)
              else Table(grown, t.pending[i := call.nodeIndex]);
    assert Insert(t, node, call) == Flush(t1, node);
    FlushCompletes(t1, node, m[i := call.nodeIndex], n);
  }

  /** For distinct indexes that fit a signed 32-bit value, every call succeeds and the run leaves the
      assembled table, whatever the order of the calls. */
  lemma {:induction false} AssembleDistinct(node: string, calls: seq<Call>)
    requires DistinctIndexes(calls) && SmallIndexes(calls)
    ensures Assemble(node, calls).0 == Success && Assembled(Assemble(node, calls).1, node, calls)
  {
    if calls != [] {
      var front := calls[..|calls| - 1];
      AssembleDistinct(node, front);
      assert front + [calls[|calls| - 1]] == calls;
      InsertNext(Assemble(node, front).1, node, front, calls[|calls| - 1]);
    }
  }

  /** An index from 2^31 on turns negative in the flush guard and is accessed outside the list. */
  lemma LargeIndexOutOfBounds(t: Table, node: string, call: Call)
    requires call.ppIndex >= 0x8000_0000 && |t.edges| < 0x7FFF_FFFF
    ensures Insert(t, node, call).0 == OutOfBounds
  {
    var grown := Table(t.edges + [EMPTY_EDGE], t.pending[call.ppIndex := call.nodeIndex]);
    assert call.ppIndex in grown.pending && Flushable(grown, call.ppIndex);
  }

  /** The exact range of indexes for which assembly works. */
  lemma {:induction false} AssembleSucceedsIff(node: string, calls: seq<Call>)
    requires DistinctIndexes(calls) && |calls| < 0x7FFF_FFFF
    ensures Assemble(node, calls).0 == Success <==> SmallIndexes(calls)
  {
    if SmallIndexes(calls) {
      AssembleDistinct(node, calls);
    } else {
      var front, last := calls[..|calls| - 1], calls[|calls| - 1];
      AssembleSucceedsIff(node, front);
      if SmallIndexes(front) {
        AssembleDistinct(node, front);
        LargeIndexOutOfBounds(Assemble(node, front).1, node, last);
      }
    }
  }

  /** Nothing stays pending exactly when the indexes are a permutation of 0..n-1, and then the list
      is the mapping. */
  lemma CompleteIffPermutation(node: string, calls: seq<Call>)
    requires DistinctIndexes(calls) && SmallIndexes(calls)
    ensures var t := Assemble(node, calls).1;
            t.pending == map[] <==> forall i :: 0 <= i < |calls| ==> calls[i].ppIndex < |calls|
    ensures var t := Assemble(node, calls).1;
            t.pending == map[] ==>
              && |t.edges| == |calls|
              && (forall i :: 0 <= i < |calls| ==> t.edges[calls[i].ppIndex] == Edge(node, calls[i].nodeIndex))
              && (forall e :: 0 <= e < |t.edges| ==> t.edges[e].node == node)
  {
    hide Assemble, Mapping;
    AssembleDistinct(node, calls);
    MappingKeys(calls);
    var t, m := Assemble(node, calls).1, Mapping(calls);
    assert forall k :: k in t.pending <==> k in m && k >= |calls|;
    assert t.pending == map[] <==> forall k :: k in m ==> k < |calls|;
    forall i | 0 <= i < |calls| ensures calls[i].ppIndex in m && m[calls[i].ppIndex] == calls[i].nodeIndex {
      MappingAt(calls, i);
    }
    if t.pending == map[] {
      var s := seq(|calls|, i requires 0 <= i < |calls| => calls[i].ppIndex as int);
      AllBelow(s, |calls|);
      forall e | 0 <= e < |t.edges| ensures t.edges[e].node == node {
        assert e in s;
      }
    }
  }

  lemma {:induction false} MappingAt(calls: seq<Call>, i: nat)
    requires DistinctIndexes(calls) && i < |calls|
    ensures calls[i].ppIndex in Mapping(calls) && Mapping(calls)[calls[i].ppIndex] == calls[i].nodeIndex
  {
    if i < |calls| - 1 {
      MappingAt(calls[..|calls| - 1], i);
    }
  }

  /** A repeated index in a table of `n` places that is assembled from the mapping `m`. */
  lemma RepeatedIndex(t: Table, node: string, m: map<U32, U32>, n: nat, again: Call)
    requires node != "" && |t.edges| == n && again.ppIndex in m && forall k :: k in m ==> k < 0x8000_0000
    requires forall i :: 0 <= i < n ==> t.edges[i] == if i in m then Edge(node, m[i]) else EMPTY_EDGE
    requires t.pending == map k | k in m && k >= n :: m[k]
    ensures var (i, r) := (again.ppIndex, Insert(t, node, again));
            && (r.0 == Failed <==> i < n)
            && (i > n ==> i in r.1.pending && r.1.pending[i] == again.nodeIndex)
            && (i == n ==> r.0 == Success && |r.1.edges| == n + 1 && r.1.edges[n] == Edge(node, m[n]))
  {
    var i, grown := again.ppIndex, t.edges + [EMPTY_EDGE];
    if i == n {
      FlushCompletes(Table(grown[i := Edge(node, again.nodeIndex)], t.pending), node, m, n + 1);
    } else if i > n {
      FlushCompletes(Table(grown, t.pending[i := again.nodeIndex]), node, m[i := again.nodeIndex], n + 1);
    }
  }

  /** A repeated index is refused exactly when its place in the list is filled already. While it is
      pending, the repetition replaces the earlier request, except for the index whose place this very
      call makes: there the flush puts the earlier request back. */
  lemma RepeatRefusedIff(node: string, calls: seq<Call>, again: Call)
    requires node != "" && DistinctIndexes(calls) && SmallIndexes(calls) && again.ppIndex in Mapping(calls)
    ensures var (t, i, n) := (Assemble(node, calls).1, again.ppIndex, |calls|);
            var (status, t') := Insert(t, node, again);
            && (status == Failed <==> i < n)
            && (i > n ==> i in t'.pending && t'.pending[i] == again.nodeIndex)
            && (i == n ==> status == Success && |t'.edges| == n + 1 && t'.edges[n] == Edge(node, Mapping(calls)[n]))
  {
    AssembleDistinct(node, calls);
    MappingKeys(calls);
    hide Assemble, Mapping, DistinctIndexes;
    var m := Mapping(calls);
    forall k | k in m ensures k < 0x8000_0000 {
      var j :| 0 <= j < |calls| && calls[j].ppIndex == k;
    }
    hide Insert;
    RepeatedIndex(Assemble(node, calls).1, node, m, |calls|, again);
  }
}
