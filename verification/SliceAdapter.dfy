/** The translation of cut information from original axes to current ones, and of slices in both
    directions. */
module SliceAdapter {
  import opened Ordered
  import opened SliceAxes
  import opened SliceRanges

  datatype AxisType =
    | UNSPLIT | ELEMENTWISE | REDUCESUM | REDUCEMAX | REDUCEMIN | REDUCEMEAN | TRANSPOSE | SLIDINGWINDOW
    | REDUCEGATHER | SLIDINGWINDOWGRAD | ELEMENTWITHSHAPEVALUE | REDUCEPROD | ELEMENTWISEWITHFACTOR

  /** The axes along which a tensor is cut. */
  datatype CutInfo = CutInfo(tensor: int, axes: seq<int>)

  datatype AxisTypeInfo = AxisTypeInfo(axisType: AxisType, axisTypes: seq<AxisType>,
                                       inputs: seq<CutInfo>, outputs: seq<CutInfo>,
                                       oriInputs: seq<CutInfo>, oriOutputs: seq<CutInfo>)

  datatype Op = Op(inputs: seq<Tensor>, outputs: seq<Tensor>)

  /** Success with a value, a reported failure, or behaviour the code leaves undefined. */
  datatype Result<+T> = Ok(value: T) | Failed | Unspecified

  datatype Side = Input | Output

  const U32: int := 0x1_0000_0000

  /** An input description counts as present when its type or its format is set. */
  predicate IsValid(t: Tensor) {
    t.typed || t.format != StorageFormat(RESERVED, 0)
  }

  /** The description at an index, which is cut to 32 bits; an invalid input reads as missing. */
  function Lookup(op: Op, side: Side, index: int): Option<Tensor> {
    var i := index % U32;
    if side == Output then (if i < |op.outputs| then Some(op.outputs[i]) else None)
    else if i < |op.inputs| && IsValid(op.inputs[i]) then Some(op.inputs[i]) else None
  }

  // ----- Cut information -----

  datatype Mode = ElementMode | ReduceMode | OtherMode

  /** The images of the first `n` axes of a cut, or why there are none. */
  function TransAxes(t: Option<Tensor>, mode: Mode, axes: seq<int>, n: nat): Result<seq<int>>
    requires n <= |axes|
  {
    if n == 0 then Ok([]) else
    var done := TransAxes(t, mode, axes, n - 1);
    if !done.Ok? then done
    else if t.None? then Failed
    else
      var image := TransAxis(t.value, axes[n - 1]);
      if image.Undefined? then Unspecified
      else if (mode == ReduceMode && |image.list| > 1) || image.list == [] then Failed
      else Ok(done.value + image.list)
  }

  function TransCuts(op: Op, side: Side, mode: Mode, cuts: seq<CutInfo>, n: nat): Result<seq<CutInfo>>
    requires n <= |cuts|
  {
    if n == 0 then Ok([]) else
    var done := TransCuts(op, side, mode, cuts, n - 1);
    if !done.Ok? then done else
    var cut := cuts[n - 1];
    var axes := TransAxes(Lookup(op, side, cut.tensor), mode, cut.axes, |cut.axes|);
    if axes.Ok? then Ok(done.value + [CutInfo(cut.tensor, axes.value)]) else if axes.Failed? then Failed else Unspecified
  }

  predicate IsReduce(axisType: AxisType) {
    axisType == REDUCESUM || axisType == REDUCEMAX || axisType == REDUCEMIN
  }

  /** The common number of axes, or a failure; without `skip` an empty list counts as well. */
  function CountAxes(cuts: seq<CutInfo>, skip: bool, count: nat, n: nat): Option<nat>
    requires n <= |cuts|
  {
    if n == 0 then Some(count) else
    var done := CountAxes(cuts, skip, count, n - 1);
    var size := |cuts[n - 1].axes|;
    if done.None? || (size == 0 && skip) then done
    else if done.value == 0 || done.value == size then Some(size) else None
  }

  function FirstAxes(cuts: seq<CutInfo>): seq<CutInfo> {
    seq(|cuts|, i requires 0 <= i < |cuts| =>
      if cuts[i].axes == [] then cuts[i] else cuts[i].(axes := [cuts[i].axes[0]]))
  }

  function FixToOne(info: AxisTypeInfo): Result<AxisTypeInfo> {
    var inCount := CountAxes(info.inputs, false, 0, |info.inputs|);
    if inCount.None? then Failed
    else if CountAxes(info.outputs, IsReduce(info.axisType), inCount.value, |info.outputs|).None? then Failed
    else if exists i :: 0 <= i < |info.inputs| && info.inputs[i].axes == [] then Unspecified
    else Ok(info.(inputs := FirstAxes(info.inputs), outputs := FirstAxes(info.outputs)))
  }

  method FixAxisTypeInfoToOne(info: AxisTypeInfo) returns (r: Result<AxisTypeInfo>)
    ensures r == FixToOne(info)
  {
    var count := 0;
    for i := 0 to |info.inputs|
      invariant CountAxes(info.inputs, false, 0, i) == Some(count)
    {
      var size := |info.inputs[i].axes|;
      count := if count == 0 then size else count;
      if count != size {
        CountStaysNone(info.inputs, false, 0, i + 1, |info.inputs|);
        return Failed;
      }
    }
    ghost var inCount := count;
    var isReduce := IsReduce(info.axisType);
    for i := 0 to |info.outputs|
      invariant CountAxes(info.outputs, isReduce, inCount, i) == Some(count)
    {
      var size := |info.outputs[i].axes|;
      if size == 0 && isReduce {
        continue;
      }
      count := if count == 0 then size else count;
      if count != size {
        CountStaysNone(info.outputs, isReduce, inCount, i + 1, |info.outputs|);
        return Failed;
      }
    }
    var inputs, outputs := info.inputs, info.outputs;
    for i := 0 to |inputs|
      invariant |inputs| == |info.inputs|
      invariant forall j :: 0 <= j < i ==> info.inputs[j].axes != [] && inputs[j] == FirstAxes(info.inputs)[j]
      invariant forall j :: i <= j < |inputs| ==> inputs[j] == info.inputs[j]
    {
      if inputs[i].axes == [] {
        assert info.inputs[i].axes == [];
        return Unspecified;
      }
      inputs := inputs[i := inputs[i].(axes := [inputs[i].axes[0]])];
    }
    for i := 0 to |outputs|
      invariant |outputs| == |info.outputs|
      invariant forall j :: 0 <= j < i ==> outputs[j] == FirstAxes(info.outputs)[j]
      invariant forall j :: i <= j < |outputs| ==> outputs[j] == info.outputs[j]
    {
      if outputs[i].axes != [] {
        outputs := outputs[i := outputs[i].(axes := [outputs[i].axes[0]])];
      }
    }
    assert inputs == FirstAxes(info.inputs) && outputs == FirstAxes(info.outputs);
    return Ok(info.(inputs := inputs, outputs := outputs));
  }

  lemma {:induction false} CountStaysNone(cuts: seq<CutInfo>, skip: bool, count: nat, m: nat, n: nat)
    requires m <= n <= |cuts| && CountAxes(cuts, skip, count, m).None?
    ensures CountAxes(cuts, skip, count, n).None?
  {
    if m < n { CountStaysNone(cuts, skip, count, m, n - 1); }
  }

  function ModeOf(axisType: AxisType): Option<Mode> {
    match axisType
    case ELEMENTWISE => Some(ElementMode)
    case TRANSPOSE => Some(ElementMode)
    case REDUCESUM => Some(ElementMode)
    case REDUCEMAX => Some(ElementMode)
    case REDUCEMIN => Some(ElementMode)
    case REDUCEMEAN => Some(ReduceMode)
    case REDUCEGATHER => Some(ReduceMode)
    case ELEMENTWITHSHAPEVALUE => Some(ReduceMode)
    case SLIDINGWINDOW => Some(OtherMode)
    case SLIDINGWINDOWGRAD => Some(OtherMode)
    case _ => None
  }

  function TypeSet(info: AxisTypeInfo): set<AxisType> {
    set a | a in info.axisTypes
  }

  function TypeForAxis(info: AxisTypeInfo): AxisType {
    var types := TypeSet(info);
    if |types| > 2 then UNSPLIT
    else if |types| == 2 && ELEMENTWISE in types && REDUCESUM in types then SLIDINGWINDOW
    else if |types| == 1 then info.axisTypes[0] else info.axisType
  }

  function TransByMode(op: Op, mode: Mode, info: AxisTypeInfo): Result<AxisTypeInfo> {
    var inputs := TransCuts(op, Input, mode, info.inputs, |info.inputs|);
    if inputs.Failed? then Failed else if inputs.Unspecified? then Unspecified else
    var outputs := TransCuts(op, Output, mode, info.outputs, |info.outputs|);
    if outputs.Failed? then Failed else if outputs.Unspecified? then Unspecified else
    var r := info.(inputs := inputs.value, outputs := outputs.value);
    if mode == ElementMode then FixToOne(r) else Ok(r)
  }

  /** One entry: the original cuts are kept beside the translated ones. */
  function TransEntry(op: Op, info: AxisTypeInfo): Result<AxisTypeInfo> {
    var mode := ModeOf(TypeForAxis(info));
    if info.inputs == [] || info.outputs == [] || mode.None? then Failed
    else TransByMode(op, mode.value, info.(oriInputs := info.inputs, oriOutputs := info.outputs))
  }

  /** The entries among the first `n` that can be translated, in their order. */
  function TransEntries(op: Op, infos: seq<AxisTypeInfo>, n: nat): Result<seq<AxisTypeInfo>>
    requires n <= |infos|
  {
    if n == 0 then Ok([]) else
    var done := TransEntries(op, infos, n - 1);
    if !done.Ok? then done else
    var entry := TransEntry(op, infos[n - 1]);
    if entry.Unspecified? then Unspecified else if entry.Ok? then Ok(done.value + [entry.value]) else done
  }

  // ----- The loops of the code -----

  method TransAxisForTensors(op: Op, side: Side, mode: Mode, cuts: seq<CutInfo>) returns (r: Result<seq<CutInfo>>)
    ensures r == TransCuts(op, side, mode, cuts, |cuts|)
  {
    hide TransAxes, Lookup;
    var done: seq<CutInfo> := [];
    for i := 0 to |cuts|
      invariant TransCuts(op, side, mode, cuts, i) == Ok(done)
    {
      var cut := cuts[i];
      var list := TransAxisList(Lookup(op, side, cut.tensor), mode, cut.axes);
      if !list.Ok? {
        CutsStayFailed(op, side, mode, cuts, i + 1, |cuts|);
        return if list.Failed? then Failed else Unspecified;
      }
      done := done + [CutInfo(cut.tensor, list.value)];
    }
    return Ok(done);
  }

  method TransAxisList(tensor: Option<Tensor>, mode: Mode, axes: seq<int>) returns (r: Result<seq<int>>)
    ensures r == TransAxes(tensor, mode, axes, |axes|)
  {
    hide TransAxis;
    var list: seq<int> := [];
    for j := 0 to |axes|
      invariant TransAxes(tensor, mode, axes, j) == Ok(list)
    {
      if tensor.None? {
        AxesStayFailed(tensor, mode, axes, j + 1, |axes|);
        return Failed;
      }
      var image := TransAxis(tensor.value, axes[j]);
      if image.Undefined? {
        AxesStayFailed(tensor, mode, axes, j + 1, |axes|);
        return Unspecified;
      }
      if (mode == ReduceMode && |image.list| > 1) || image.list == [] {
        AxesStayFailed(tensor, mode, axes, j + 1, |axes|);
        return Failed;
      }
      list := list + image.list;
    }
    return Ok(list);
  }

  lemma {:induction false} AxesStayFailed(t: Option<Tensor>, mode: Mode, axes: seq<int>, m: nat, n: nat)
    requires m <= n <= |axes| && !TransAxes(t, mode, axes, m).Ok?
    ensures TransAxes(t, mode, axes, n) == TransAxes(t, mode, axes, m)
  {
    if m < n { AxesStayFailed(t, mode, axes, m, n - 1); }
  }

  lemma {:induction false} CutsStayFailed(op: Op, side: Side, mode: Mode, cuts: seq<CutInfo>, m: nat, n: nat)
    requires m <= n <= |cuts| && !TransCuts(op, side, mode, cuts, m).Ok?
    ensures TransCuts(op, side, mode, cuts, n) == TransCuts(op, side, mode, cuts, m)
  {
    if m < n { CutsStayFailed(op, side, mode, cuts, m, n - 1); }
  }

  lemma {:induction false} EntriesStayUnspecified(op: Op, infos: seq<AxisTypeInfo>, m: nat, n: nat)
    requires m <= n <= |infos| && TransEntries(op, infos, m).Unspecified?
    ensures TransEntries(op, infos, n).Unspecified?
  {
    if m < n { EntriesStayUnspecified(op, infos, m, n - 1); }
  }

  method TransAxisByType(op: Op, info: AxisTypeInfo) returns (r: Result<AxisTypeInfo>)
    ensures r == TransEntry(op, info)
  {
    hide TransCuts, FixToOne;
    var mode := ModeOf(TypeForAxis(info));
    if info.inputs == [] || info.outputs == [] {
      return Failed;
    }
    var entry := info.(oriInputs := info.inputs, oriOutputs := info.outputs);
    if mode.None? {
      return Failed;
    }
    var inputs := TransAxisForTensors(op, Input, mode.value, entry.inputs);
    if !inputs.Ok? {
      return if inputs.Failed? then Failed else Unspecified;
    }
    var outputs := TransAxisForTensors(op, Output, mode.value, entry.outputs);
    if !outputs.Ok? {
      return if outputs.Failed? then Failed else Unspecified;
    }
    entry := entry.(inputs := inputs.value, outputs := outputs.value);
    if mode.value == ElementMode {
      r := FixAxisTypeInfoToOne(entry);
    } else {
      r := Ok(entry);
    }
  }

  /** Translates the entries in place and erases those that cannot be translated. */
  method TransAxisInfo(op: Op, infos: seq<AxisTypeInfo>) returns (r: Result<seq<AxisTypeInfo>>)
    ensures r == TransEntries(op, infos, |infos|)
  {
    hide TransEntry;
    var list, at := infos, 0;
    ghost var next := 0;
    while at < |list|
      invariant 0 <= at <= |list| && 0 <= next <= |infos| && list[at..] == infos[next..]
      invariant TransEntries(op, infos, next) == Ok(list[..at])
      decreases |list| - at
    {
      assert list[at] == list[at..][0] == infos[next];
      var entry := TransAxisByType(op, list[at]);
      if entry.Unspecified? {
        EntriesStayUnspecified(op, infos, next + 1, |infos|);
        return Unspecified;
      }
      assert list[at + 1..] == list[at..][1..] == infos[next..][1..] == infos[next + 1..];
      if entry.Ok? {
        ghost var before := list;
        list := list[at := entry.value];
        assert list[..at + 1] == before[..at] + [entry.value] && list[at + 1..] == before[at + 1..];
        at := at + 1;
      } else {
        ghost var before := list;
        list := list[..at] + list[at + 1..];
        assert list[..at] == before[..at] && list[at..] == before[at + 1..];
      }
      next := next + 1;
    }
    assert next == |infos| by { assert |list[at..]| == 0; }
    assert list[..at] == list;
    return Ok(list);
  }

  // ----- Every recorded axis is the first image of its original axis -----

  ghost predicate FirstImage(t: Option<Tensor>, ori: int, cur: int) {
    t.Some? && TransAxis(t.value, ori).Axes? && TransAxis(t.value, ori).list != [] && cur == TransAxis(t.value, ori).list[0]
  }

  /** Cut by cut the tensors agree, and the k-th current axis is the first image of the k-th original
      one. */
  ghost predicate Aligned(op: Op, side: Side, ori: seq<CutInfo>, cur: seq<CutInfo>) {
    && |cur| == |ori|
    && forall i :: 0 <= i < |cur| ==> AlignedCut(op, side, ori[i], cur[i])
  }

  ghost predicate AlignedCut(op: Op, side: Side, ori: CutInfo, cur: CutInfo) {
    && cur.tensor == ori.tensor && |cur.axes| <= |ori.axes|
    && forall k :: 0 <= k < |cur.axes| ==> FirstImage(Lookup(op, side, ori.tensor), ori.axes[k], cur.axes[k])
  }

  lemma {:induction false} ReduceAxes(t: Option<Tensor>, axes: seq<int>, n: nat)
    requires n <= |axes| && TransAxes(t, ReduceMode, axes, n).Ok?
    ensures var list := TransAxes(t, ReduceMode, axes, n).value;
            |list| == n && forall k :: 0 <= k < n ==> FirstImage(t, axes[k], list[k])
  {
    if n > 0 { ReduceAxes(t, axes, n - 1); }
  }

  lemma {:induction false} FirstOfAxes(t: Option<Tensor>, mode: Mode, axes: seq<int>, n: nat)
    requires n <= |axes| && TransAxes(t, mode, axes, n).Ok?
    ensures var list := TransAxes(t, mode, axes, n).value;
            (list == [] <==> n == 0) && (n > 0 ==> FirstImage(t, axes[0], list[0]))
  {
    if n > 0 { FirstOfAxes(t, mode, axes, n - 1); }
  }

  lemma {:induction false} CutsAt(op: Op, side: Side, mode: Mode, cuts: seq<CutInfo>, n: nat, i: nat)
    requires i < n <= |cuts| && TransCuts(op, side, mode, cuts, n).Ok?
    ensures |TransCuts(op, side, mode, cuts, n).value| == n
    ensures var axes := TransAxes(Lookup(op, side, cuts[i].tensor), mode, cuts[i].axes, |cuts[i].axes|);
            axes.Ok? && TransCuts(op, side, mode, cuts, n).value[i] == CutInfo(cuts[i].tensor, axes.value)
  {
    hide TransAxes;
    if n > 1 { CutsAt(op, side, mode, cuts, n - 1, if i < n - 1 then i else 0); }
  }

  lemma {:induction false} CutsLength(op: Op, side: Side, mode: Mode, cuts: seq<CutInfo>, n: nat)
    requires n <= |cuts| && TransCuts(op, side, mode, cuts, n).Ok?
    ensures |TransCuts(op, side, mode, cuts, n).value| == n
  {
    if n > 0 { CutsLength(op, side, mode, cuts, n - 1); }
  }

  lemma CutsAligned(op: Op, side: Side, mode: Mode, cuts: seq<CutInfo>)
    requires mode != OtherMode && TransCuts(op, side, mode, cuts, |cuts|).Ok?
    ensures var cur := TransCuts(op, side, mode, cuts, |cuts|).value;
            Aligned(op, side, cuts, if mode == ReduceMode then cur else FirstAxes(cur))
  {
    hide TransCuts, TransAxes, FirstImage, Lookup;
    var n := |cuts|;
    var cur := TransCuts(op, side, mode, cuts, n).value;
    CutsLength(op, side, mode, cuts, n);
    forall i | 0 <= i < n
      ensures AlignedCut(op, side, cuts[i], if mode == ReduceMode then cur[i] else FirstAxes(cur)[i])
    {
      CutsAt(op, side, mode, cuts, n, i);
      var t := Lookup(op, side, cuts[i].tensor);
      if mode == ReduceMode { ReduceAxes(t, cuts[i].axes, |cuts[i].axes|); } else { FirstOfAxes(t, mode, cuts[i].axes, |cuts[i].axes|); }
    }
  }

  ghost predicate AlignedEntry(op: Op, info: AxisTypeInfo) {
    Aligned(op, Input, info.oriInputs, info.inputs) && Aligned(op, Output, info.oriOutputs, info.outputs)
  }

  lemma EntryAligned(op: Op, info: AxisTypeInfo)
    requires TransEntry(op, info).Ok?
    ensures var r := TransEntry(op, info).value;
            && r.axisType == info.axisType && r.axisTypes == info.axisTypes
            && r.oriInputs == info.inputs && r.oriOutputs == info.outputs
            && (ModeOf(TypeForAxis(info)) != Some(OtherMode) ==> AlignedEntry(op, r))
  {
    hide TransCuts, Aligned, CountAxes;
    var mode := ModeOf(TypeForAxis(info)).value;
    if mode != OtherMode {
      CutsAligned(op, Input, mode, info.inputs);
      CutsAligned(op, Output, mode, info.outputs);
    }
  }

  /** Every entry that is kept comes from one of the given entries, whose cuts it records as the
      original ones; unless it is of a sliding-window kind, its axes are aligned with them. */
  lemma {:induction false} KeptEntriesAligned(op: Op, infos: seq<AxisTypeInfo>, n: nat)
    requires n <= |infos| && TransEntries(op, infos, n).Ok?
    ensures var rs := TransEntries(op, infos, n).value;
            forall j :: 0 <= j < |rs| ==>
              && (ModeOf(TypeForAxis(rs[j])) != Some(OtherMode) ==> AlignedEntry(op, rs[j]))
              && exists i :: 0 <= i < n && rs[j].oriInputs == infos[i].inputs && rs[j].oriOutputs == infos[i].outputs
                   && rs[j].axisTypes == infos[i].axisTypes && rs[j].axisType == infos[i].axisType
  {
    hide TransEntry, AlignedEntry, ModeOf;
    if n > 0 {
      KeptEntriesAligned(op, infos, n - 1);
      var rs, entry := TransEntries(op, infos, n - 1).value, TransEntry(op, infos[n - 1]);
      if entry.Ok? {
        EntryAligned(op, infos[n - 1]);
        assert TypeForAxis(entry.value) == TypeForAxis(infos[n - 1]);
      }
    }
  }

  // ----- Finding the original axis again -----

  function SearchOriAxis(ori: seq<CutInfo>, tensor: int, k: int): int
    requires k >= 0
  {
    if ori == [] then -1
    else if ori[0].tensor == tensor && k < |ori[0].axes| then ori[0].axes[k]
    else SearchOriAxis(ori[1..], tensor, k)
  }

  /** The search returns the axis that was backed up for the first cut of the tensor; with distinct tensor
      indexes that is the cut itself. */
  lemma {:induction false} SearchFinds(ori: seq<CutInfo>, i: nat, k: nat)
    requires i < |ori| && k < |ori[i].axes| && forall j :: 0 <= j < i ==> ori[j].tensor != ori[i].tensor
    ensures SearchOriAxis(ori, ori[i].tensor, k) == ori[i].axes[k]
  {
    if i > 0 { SearchFinds(ori[1..], i - 1, k); }
  }

  // ----- Slices -----

  datatype Direction = CurToOri | OriToCur

  /** The dimension at an index, 0 outside of the shape. */
  function Dim(shape: Shape, i: int): int {
    if 0 <= i < |shape| then shape[i] else 0
  }

  /** The packing factor: the product of the current dimensions behind the first image. */
  function RestProduct(shape: Shape, axes: seq<int>, n: nat): (p: nat)
    requires n <= |axes|
    ensures p < U64
  {
    if n <= 1 then 1 else RestProduct(shape, axes, n - 1) * (Dim(shape, axes[n - 1]) % U64) % U64
  }

  function ToInterval(r: Range): Interval
    requires |r| == 2
  {
    Interval(r[0], r[1])
  }

  function FromInterval(i: Interval): Range {
    [i.lo, i.hi]
  }

  /** Converts the range on one axis and stores it in the list of the target's ranges. */
  function ConvertAxis(dir: Direction, t: Tensor, slice: seq<Range>, cur: int, ori: int, acc: seq<Range>): Result<seq<Range>> {
    var from, to := if dir == CurToOri then cur else ori, if dir == CurToOri then ori else cur;
    if ori < 0 || from >= |slice| || to >= |acc| then Failed
    else if from < 0 then Unspecified
    else if |slice[from]| != 2 then Failed
    else
      var image := TransAxis(t, ori);
      if image.Undefined? then Unspecified
      else if image.list == [] then Failed
      else if to < 0 then Unspecified
      else
        var p, r := RestProduct(t.shape, image.list, |image.list|), ToInterval(slice[from]);
        if dir == CurToOri then Ok(acc[to := FromInterval(ToOri(r, p, Dim(t.oriShape, ori)))])
        else if p == 0 then Unspecified
        else Ok(acc[to := FromInterval(ToCur(r, p))])
  }

  function EmptyRanges(n: nat): seq<Range> {
    seq(n, _ => [])
  }

  function ConvertAxes(dir: Direction, t: Tensor, oriCuts: seq<CutInfo>, cut: CutInfo, slice: seq<Range>, n: nat): Result<seq<Range>>
    requires n <= |cut.axes|
  {
    if n == 0 then Ok(EmptyRanges(if dir == CurToOri then |t.oriShape| else |t.shape|)) else
    var done := ConvertAxes(dir, t, oriCuts, cut, slice, n - 1);
    if !done.Ok? then done
    else ConvertAxis(dir, t, slice, cut.axes[n - 1], SearchOriAxis(oriCuts, cut.tensor, n - 1), done.value)
  }

  function ConvertTensor(dir: Direction, op: Op, oriCuts: seq<CutInfo>, cut: CutInfo, slice: seq<Range>): Result<seq<Range>> {
    var t := Lookup(op, if dir == CurToOri then Output else Input, cut.tensor);
    if t.None? then Failed else ConvertAxes(dir, t.value, oriCuts, cut, slice, |cut.axes|)
  }

  function ConvertTensors(dir: Direction, op: Op, oriCuts: seq<CutInfo>, cuts: seq<CutInfo>, slices: seq<seq<Range>>, n: nat): Result<seq<seq<Range>>>
    requires n <= |cuts| == |slices|
  {
    if n == 0 then Ok([]) else
    var done := ConvertTensors(dir, op, oriCuts, cuts, slices, n - 1);
    if !done.Ok? then done else
    var r := ConvertTensor(dir, op, oriCuts, cuts[n - 1], slices[n - 1]);
    if r.Ok? then Ok(done.value + [r.value]) else if r.Failed? then Failed else Unspecified
  }

  /** Outputs are converted to the original format, inputs to the current one. */
  function ConvertSlices(dir: Direction, op: Op, info: AxisTypeInfo, slices: seq<seq<Range>>): Result<seq<seq<Range>>> {
    var oriCuts, cuts := if dir == CurToOri then info.oriOutputs else info.oriInputs, if dir == CurToOri then info.outputs else info.inputs;
    if oriCuts == [] || |cuts| != |slices| then Failed else ConvertTensors(dir, op, oriCuts, cuts, slices, |cuts|)
  }

  method RestAxes(shape: Shape, axes: seq<int>) returns (p: nat)
    ensures p == RestProduct(shape, axes, |axes|)
  {
    p := 1;
    var i := 1;
    while i < |axes|
      invariant 1 <= i && p == RestProduct(shape, axes, if i <= |axes| then i else |axes|)
    {
      p := p * (Dim(shape, axes[i]) % U64) % U64;
      i := i + 1;
    }
  }

  method TransSliceInfoForElement(dir: Direction, op: Op, info: AxisTypeInfo, slices: seq<seq<Range>>) returns (r: Result<seq<seq<Range>>>)
    ensures r == ConvertSlices(dir, op, info, slices)
  {
    hide ConvertTensor;
    var oriCuts, cuts := if dir == CurToOri then info.oriOutputs else info.oriInputs, if dir == CurToOri then info.outputs else info.inputs;
    if oriCuts == [] || |cuts| != |slices| {
      return Failed;
    }
    var done: seq<seq<Range>> := [];
    for index := 0 to |cuts|
      invariant ConvertTensors(dir, op, oriCuts, cuts, slices, index) == Ok(done)
    {
      var one := TransOneTensor(dir, op, oriCuts, cuts[index], slices[index]);
      if !one.Ok? {
        TensorsStayFailed(dir, op, oriCuts, cuts, slices, index + 1, |cuts|);
        return if one.Failed? then Failed else Unspecified;
      }
      done := done + [one.value];
    }
    return Ok(done);
  }

  lemma {:induction false} TensorsStayFailed(dir: Direction, op: Op, oriCuts: seq<CutInfo>, cuts: seq<CutInfo>, slices: seq<seq<Range>>, m: nat, n: nat)
    requires m <= n <= |cuts| == |slices| && !ConvertTensors(dir, op, oriCuts, cuts, slices, m).Ok?
    ensures ConvertTensors(dir, op, oriCuts, cuts, slices, n) == ConvertTensors(dir, op, oriCuts, cuts, slices, m)
  {
    if m < n { TensorsStayFailed(dir, op, oriCuts, cuts, slices, m, n - 1); }
  }

  lemma {:induction false} AxesConvertStayFailed(dir: Direction, t: Tensor, oriCuts: seq<CutInfo>, cut: CutInfo, slice: seq<Range>, m: nat, n: nat)
    requires m <= n <= |cut.axes| && !ConvertAxes(dir, t, oriCuts, cut, slice, m).Ok?
    ensures ConvertAxes(dir, t, oriCuts, cut, slice, n) == ConvertAxes(dir, t, oriCuts, cut, slice, m)
  {
    if m < n { AxesConvertStayFailed(dir, t, oriCuts, cut, slice, m, n - 1); }
  }

  method TransOneTensor(dir: Direction, op: Op, oriCuts: seq<CutInfo>, cut: CutInfo, slice: seq<Range>) returns (r: Result<seq<Range>>)
    ensures r == ConvertTensor(dir, op, oriCuts, cut, slice)
  {
    hide ConvertAxis;
    var tensor := Lookup(op, if dir == CurToOri then Output else Input, cut.tensor);
    if tensor.None? {
      return Failed;
    }
    var t := tensor.value;
    var ranges := EmptyRanges(if dir == CurToOri then |t.oriShape| else |t.shape|);
    for k := 0 to |cut.axes|
      invariant ConvertAxes(dir, t, oriCuts, cut, slice, k) == Ok(ranges)
    {
      var one := TransOneAxis(dir, t, slice, cut.axes[k], SearchOriAxis(oriCuts, cut.tensor, k), ranges);
      if !one.Ok? {
        AxesConvertStayFailed(dir, t, oriCuts, cut, slice, k + 1, |cut.axes|);
        return one;
      }
      ranges := one.value;
    }
    return Ok(ranges);
  }

  method TransOneAxis(dir: Direction, t: Tensor, slice: seq<Range>, cur: int, ori: int, ranges: seq<Range>) returns (r: Result<seq<Range>>)
    ensures r == ConvertAxis(dir, t, slice, cur, ori, ranges)
  {
    hide TransAxis, RestProduct;
    if ori < 0 {
      return Failed;
    }
    var from, to := if dir == CurToOri then cur else ori, if dir == CurToOri then ori else cur;
    if from >= |slice| || to >= |ranges| {
      return Failed;
    }
    if from < 0 {
      return Unspecified;
    }
    if |slice[from]| != 2 {
      return Failed;
    }
    var image := TransAxis(t, ori);
    if image.Undefined? {
      return Unspecified;
    }
    if image.list == [] {
      return Failed;
    }
    var p := RestAxes(t.shape, image.list);
    if to < 0 {
      return Unspecified;
    }
    var piece := slice[from];
    if dir == CurToOri {
      piece := [Wrap(piece[0] * p), Wrap(piece[1] * p + p - 1)];
      piece := [piece[0], Min(piece[1], Dim(t.oriShape, ori) - 1)];
    } else {
      if p == 0 {
        return Unspecified;
      }
      piece := [Wrap(piece[0] % U64 / p), Wrap(piece[1] % U64 / p)];
    }
    return Ok(ranges[to := piece]);
  }

  function TypeForSlice(info: AxisTypeInfo): AxisType {
    var types := TypeSet(info);
    if |types| >= 2 then UNSPLIT else if |types| == 1 then info.axisTypes[0] else info.axisType
  }

  function TransSliceInfo(dir: Direction, op: Op, info: AxisTypeInfo, slices: seq<seq<Range>>): Result<seq<seq<Range>>> {
    match TypeForSlice(info)
    case ELEMENTWISE => ConvertSlices(dir, op, info, slices)
    case REDUCESUM => ConvertSlices(dir, op, info, slices)
    case REDUCEMAX => ConvertSlices(dir, op, info, slices)
    case REDUCEMIN => ConvertSlices(dir, op, info, slices)
    case REDUCEMEAN => ConvertSlices(dir, op, info, slices)
    case SLIDINGWINDOW => Ok(slices)
    case SLIDINGWINDOWGRAD => Ok(slices)
    case ELEMENTWITHSHAPEVALUE => Ok(slices)
    case _ => Failed
  }
}
