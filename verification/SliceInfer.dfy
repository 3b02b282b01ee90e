/** Inference of input slices from output slices. The operator is put into its original layout, the
    elementwise rule is applied to the original ranges, and the current layout is put back. */
module SliceInfer {
  import opened Ordered
  import opened SliceAxes
  import opened SliceRanges
  import opened SliceAdapter

  // ----- The layout and its backup -----

  datatype Layout = Layout(format: StorageFormat, shape: Shape)

  predicate Present(side: Side, t: Tensor) {
    side == Output || IsValid(t)
  }

  /** The number of present descriptions among the first `n`. */
  function Count(ts: seq<Tensor>, side: Side, n: nat): (c: nat)
    requires n <= |ts|
    ensures c <= n
  {
    if n == 0 then 0 else Count(ts, side, n - 1) + if Present(side, ts[n - 1]) then 1 else 0
  }

  /** The loops stop after as many indexes as there are present descriptions. */
  function Bound(ts: seq<Tensor>, side: Side): nat {
    Count(ts, side, |ts|)
  }

  function LayoutOf(t: Tensor): Layout {
    Layout(t.format, t.shape)
  }

  function WithLayout(t: Tensor, layout: Layout): Tensor {
    t.(format := layout.format, shape := layout.shape)
  }

  function AsOrigin(t: Tensor): Tensor {
    t.(format := t.oriFormat, shape := t.oriShape)
  }

  function SetOri(ts: seq<Tensor>, side: Side, n: nat): (r: seq<Tensor>)
    requires n <= |ts|
    ensures |r| == |ts|
  {
    if n == 0 then ts else
    var done := SetOri(ts, side, n - 1);
    if Present(side, ts[n - 1]) then done[n - 1 := AsOrigin(ts[n - 1])] else done
  }

  function Saved(ts: seq<Tensor>, side: Side, n: nat): (r: seq<Layout>)
    requires n <= |ts|
    ensures |r| == Count(ts, side, n)
  {
    if n == 0 then [] else
    var done := Saved(ts, side, n - 1);
    if Present(side, ts[n - 1]) then done + [LayoutOf(ts[n - 1])] else done
  }

  function SetCur(ts: seq<Tensor>, side: Side, cache: seq<Layout>, n: nat): (r: seq<Tensor>)
    requires n <= |ts| && Count(ts, side, n) <= |cache|
    ensures |r| == |ts|
  {
    if n == 0 then ts else
    var done := SetCur(ts, side, cache, n - 1);
    if Present(side, ts[n - 1]) then done[n - 1 := WithLayout(ts[n - 1], cache[Count(ts, side, n - 1)])] else done
  }

  lemma {:induction false} SetOriAt(ts: seq<Tensor>, side: Side, n: nat, i: nat)
    requires n <= |ts| && i < |ts|
    ensures SetOri(ts, side, n)[i] == if i < n && Present(side, ts[i]) then AsOrigin(ts[i]) else ts[i]
  {
    if n > 0 { SetOriAt(ts, side, n - 1, i); }
  }

  lemma {:induction false} SetCurAt(ts: seq<Tensor>, side: Side, cache: seq<Layout>, n: nat, i: nat)
    requires n <= |ts| && Count(ts, side, n) <= |cache| && i < |ts|
    ensures i < n && Present(side, ts[i]) ==> Count(ts, side, i) < |cache|
    ensures SetCur(ts, side, cache, n)[i] ==
            if i < n && Present(side, ts[i]) then WithLayout(ts[i], cache[Count(ts, side, i)]) else ts[i]
  {
    if n > 0 { SetCurAt(ts, side, cache, n - 1, i); }
  }

  lemma {:induction false} SavedAt(ts: seq<Tensor>, side: Side, n: nat, i: nat)
    requires i < n <= |ts| && Present(side, ts[i])
    ensures Count(ts, side, i) < Count(ts, side, n)
    ensures Saved(ts, side, n)[Count(ts, side, i)] == LayoutOf(ts[i])
  {
    if i < n - 1 { SavedAt(ts, side, n - 1, i); }
  }

  lemma {:induction false} CountGrows(ts: seq<Tensor>, side: Side, m: nat, n: nat)
    requires m <= n <= |ts|
    ensures Count(ts, side, m) <= Count(ts, side, n)
  {
    if m < n { CountGrows(ts, side, m, n - 1); }
  }

  /** Some description that is moved to its original layout does not count as present there. */
  ghost predicate Lost(ts: seq<Tensor>, side: Side, n: nat)
    requires n <= |ts|
  {
    exists i :: 0 <= i < n && Present(side, ts[i]) && !Present(side, AsOrigin(ts[i]))
  }

  lemma {:induction false} CountAfter(ts: seq<Tensor>, side: Side, n: nat, k: nat)
    requires n <= |ts| && k <= |ts|
    ensures Count(SetOri(ts, side, n), side, k) <= Count(ts, side, k)
    ensures !Lost(ts, side, n) ==> Count(SetOri(ts, side, n), side, k) == Count(ts, side, k)
  {
    hide SetOri;
    if k > 0 {
      CountAfter(ts, side, n, k - 1);
      SetOriAt(ts, side, n, k - 1);
    }
  }

  /** The backup is never read past its end. */
  lemma BackupSuffices(ts: seq<Tensor>, side: Side)
    ensures var (m, o) := (Bound(ts, side), SetOri(ts, side, Bound(ts, side)));
            && Bound(o, side) <= m
            && Count(o, side, Bound(o, side)) <= |Saved(ts, side, m)|
  {
    hide SetOri, Saved, Count;
    var m := Bound(ts, side);
    var o := SetOri(ts, side, m);
    CountAfter(ts, side, m, |ts|);
    CountAfter(ts, side, m, Bound(o, side));
    CountGrows(ts, side, Bound(o, side), m);
  }

  /** There and back: the descriptions after the layout was switched and put back. */
  function Back(ts: seq<Tensor>, side: Side): (r: seq<Tensor>)
    ensures |r| == |ts|
  {
    var m := Bound(ts, side);
    BackupSuffices(ts, side);
    SetCur(SetOri(ts, side, m), side, Saved(ts, side, m), Bound(SetOri(ts, side, m), side))
  }

  /** Everything is put back exactly when no description got lost. */
  lemma BackIff(ts: seq<Tensor>, side: Side)
    ensures Back(ts, side) == ts <==> !Lost(ts, side, Bound(ts, side))
  {
    hide SetOri, Saved, SetCur, Count;
    var m := Bound(ts, side);
    var o, cache := SetOri(ts, side, m), Saved(ts, side, m);
    BackupSuffices(ts, side);
    if Lost(ts, side, m) {
      var i :| 0 <= i < m && Present(side, ts[i]) && !Present(side, AsOrigin(ts[i]));
      SetOriAt(ts, side, m, i);
      SetCurAt(o, side, cache, Bound(o, side), i);
    } else {
      forall i | 0 <= i < |ts|
        ensures Back(ts, side)[i] == ts[i]
      {
        BackAt(ts, side, i);
      }
    }
  }

  lemma BackAt(ts: seq<Tensor>, side: Side, i: nat)
    requires i < |ts| && !Lost(ts, side, Bound(ts, side))
    ensures Back(ts, side)[i] == ts[i]
  {
    hide SetOri, Saved, SetCur, Count;
    var m := Bound(ts, side);
    var o, cache := SetOri(ts, side, m), Saved(ts, side, m);
    BackupSuffices(ts, side);
    CountAfter(ts, side, m, |ts|);
    CountAfter(ts, side, m, i);
    SetOriAt(ts, side, m, i);
    SetCurAt(o, side, cache, m, i);
    if i < m && Present(side, ts[i]) { SavedAt(ts, side, m, i); }
  }

  lemma OutputsComeBack(ts: seq<Tensor>)
    ensures Back(ts, Output) == ts
  {
    BackIff(ts, Output);
  }

  function ToOrigin(op: Op): Op {
    Op(SetOri(op.inputs, Input, Bound(op.inputs, Input)), SetOri(op.outputs, Output, Bound(op.outputs, Output)))
  }

  function BackOp(op: Op): Op {
    Op(Back(op.inputs, Input), Back(op.outputs, Output))
  }

  // ----- The elementwise rule -----

  function CheckRange(op: Op, cut: CutInfo, axis: nat, range: Range): Result<()> {
    if cut.axes == [] then Unspecified
    else if axis == cut.axes[0] then
      var t := Lookup(op, Output, cut.tensor);
      if range == [] || t.None? || range[|range| - 1] > Dim(t.value.shape, axis) then Failed else Ok(())
    else if range == [] then Ok(()) else Failed
  }

  function CheckSlice(op: Op, cut: CutInfo, slice: seq<Range>, n: nat): Result<()>
    requires n <= |slice|
  {
    if n == 0 then Ok(()) else
    var done := CheckSlice(op, cut, slice, n - 1);
    if done.Ok? then CheckRange(op, cut, n - 1, slice[n - 1]) else done
  }

  function CheckSlices(op: Op, cuts: seq<CutInfo>, slices: seq<seq<Range>>, n: nat): Result<()>
    requires n <= |cuts| == |slices|
  {
    if n == 0 then Ok(()) else
    var done := CheckSlices(op, cuts, slices, n - 1);
    if done.Ok? then CheckSlice(op, cuts[n - 1], slices[n - 1], |slices[n - 1]|) else done
  }

  /** What the check of one range asks for: on the cut axis a range whose end, although inclusive, is
      at most the dimension, on any other axis none. */
  ghost predicate RangeFits(op: Op, cut: CutInfo, axis: nat, range: Range) {
    && cut.axes != []
    && if axis != cut.axes[0] then range == [] else
       && range != [] && Lookup(op, Output, cut.tensor).Some?
       && range[|range| - 1] <= Dim(Lookup(op, Output, cut.tensor).value.shape, axis)
  }

  lemma {:induction false} SliceAccepted(op: Op, cut: CutInfo, slice: seq<Range>, n: nat)
    requires n <= |slice|
    ensures CheckSlice(op, cut, slice, n).Ok? <==> forall j: nat :: j < n ==> RangeFits(op, cut, j, slice[j])
  {
    if n > 0 {
      SliceAccepted(op, cut, slice, n - 1);
      assert CheckRange(op, cut, n - 1, slice[n - 1]).Ok? <==> RangeFits(op, cut, n - 1, slice[n - 1]);
    }
  }

  ghost predicate SliceFits(op: Op, cut: CutInfo, slice: seq<Range>) {
    forall j: nat :: j < |slice| ==> RangeFits(op, cut, j, slice[j])
  }

  /** The check accepts the slices exactly when every output is cut on its cut axis alone, by a range
      whose end is at most the dimension. */
  lemma {:induction false} SlicesAccepted(op: Op, cuts: seq<CutInfo>, slices: seq<seq<Range>>, n: nat)
    requires n <= |cuts| == |slices|
    ensures CheckSlices(op, cuts, slices, n).Ok? <==> forall i :: 0 <= i < n ==> SliceFits(op, cuts[i], slices[i])
  {
    hide CheckSlice, RangeFits;
    if n > 0 {
      SlicesAccepted(op, cuts, slices, n - 1);
      SliceAccepted(op, cuts[n - 1], slices[n - 1], |slices[n - 1]|);
    }
  }

  const UNKNOWN_DIM_NUM := -2

  function DimNum(shape: Shape): (n: nat)
    ensures n <= |shape|
  {
    if shape == [UNKNOWN_DIM_NUM] then 0 else |shape|
  }

  function SplitRanges(shape: Shape, cut: CutInfo, range: Range, n: nat): Result<seq<Range>>
    requires n <= |shape|
  {
    if n == 0 then Ok([]) else
    var done := SplitRanges(shape, cut, range, n - 1);
    if !done.Ok? then done
    else if cut.axes == [] then Unspecified
    else if n - 1 == cut.axes[0] && range == [] then Unspecified
    else if n - 1 == cut.axes[0] && range[|range| - 1] > shape[n - 1] then Failed
    else Ok(done.value + [range])
  }

  /** The range on the cut axis of the first output. */
  function Reference(cuts: seq<CutInfo>, slices: seq<seq<Range>>): Option<Range>
    requires cuts != [] && slices != []
  {
    if cuts[0].axes != [] && 0 <= cuts[0].axes[0] < |slices[0]| then Some(slices[0][cuts[0].axes[0]]) else None
  }

  function InputRanges(op: Op, cuts: seq<CutInfo>, range: Option<Range>, n: nat): Result<seq<seq<Range>>>
    requires n <= |cuts|
  {
    if n == 0 then Ok([]) else
    var done := InputRanges(op, cuts, range, n - 1);
    if !done.Ok? then done else
    var t := Lookup(op, Input, cuts[n - 1].tensor);
    if t.None? then Failed
    else if range.None? then Unspecified
    else
      var ranges := SplitRanges(t.value.shape, cuts[n - 1], range.value, DimNum(t.value.shape));
      if ranges.Ok? then Ok(done.value + [ranges.value]) else if ranges.Failed? then Failed else Unspecified
  }

  function Elementwise(op: Op, info: AxisTypeInfo, slices: seq<seq<Range>>): Result<seq<seq<Range>>> {
    if info.inputs == [] || info.outputs == [] || |info.outputs| != |slices| then Failed else
    var checked := CheckSlices(op, info.outputs, slices, |slices|);
    if checked.Failed? then Failed
    else if checked.Unspecified? then Unspecified
    else InputRanges(op, info.inputs, Reference(info.outputs, slices), |info.inputs|)
  }

  // ----- The whole inference -----

  function ShapeSizeFrom(dims: Shape, size: int): int {
    if dims == [] then size
    else if dims[0] < 0 then -1
    else if dims[0] == 0 then 0
    else if size > (I64_LIMIT - 1) / dims[0] then -1
    else ShapeSizeFrom(dims[1..], size * dims[0])
  }

  function ShapeSize(dims: Shape): int {
    if dims == [] then 0 else ShapeSizeFrom(dims, 1)
  }

  predicate MissesOrigin(t: Tensor) {
    ShapeSize(t.oriShape) == 0 && ShapeSize(t.shape) != 0
  }

  ghost predicate OriginKnown(ts: seq<Tensor>, side: Side, n: nat)
    requires n <= |ts|
  {
    forall i :: 0 <= i < n && Present(side, ts[i]) ==> !MissesOrigin(ts[i])
  }

  ghost predicate CheckedOrigin(op: Op) {
    OriginKnown(op.inputs, Input, Bound(op.inputs, Input)) && OriginKnown(op.outputs, Output, Bound(op.outputs, Output))
  }

  function OutputSlices(op: Op, cuts: seq<CutInfo>, n: nat): (r: seq<seq<Range>>)
    requires n <= |cuts|
    ensures |r| == n
  {
    if n == 0 then [] else
    var t := Lookup(op, Output, cuts[n - 1].tensor);
    OutputSlices(op, cuts, n - 1) + [if t.Some? then t.value.slice else []]
  }

  function SetSlices(inputs: seq<Tensor>, cuts: seq<CutInfo>, slices: seq<seq<Range>>, n: nat): (r: (bool, seq<Tensor>))
    requires n <= |cuts| == |slices|
    ensures |r.1| == |inputs|
  {
    if n == 0 then (true, inputs) else
    var done := SetSlices(inputs, cuts, slices, n - 1);
    var i := cuts[n - 1].tensor % U32;
    if !done.0 || cuts[n - 1].tensor >= |inputs| then (false, done.1)
    else if i < |inputs| && IsValid(done.1[i]) then (true, done.1[i := done.1[i].(slice := slices[n - 1])])
    else done
  }

  datatype Outcome = Outcome(status: Result<()>, op: Op)

  function Status<T>(r: Result<T>): Result<()> {
    match r
    case Ok(_) => Ok(())
    case Failed => Failed
    case Unspecified => Unspecified
  }

  function SetInput(op: Op, cuts: seq<CutInfo>, slices: seq<seq<Range>>): Outcome {
    if |slices| != |cuts| then Outcome(Ok(()), op) else
    var r := SetSlices(op.inputs, cuts, slices, |cuts|);
    Outcome(if r.0 then Ok(()) else Failed, op.(inputs := r.1))
  }

  predicate HasRule(axisType: AxisType) {
    axisType == UNSPLIT || axisType == ELEMENTWISE
  }

  function ApplyRule(op: Op, info: AxisTypeInfo, slices: seq<seq<Range>>): Result<seq<seq<Range>>> {
    if info.axisType == UNSPLIT then Ok(slices) else Elementwise(op, info, slices)
  }

  function OriginalInfo(info: AxisTypeInfo): AxisTypeInfo {
    info.(inputs := info.oriInputs, outputs := info.oriOutputs)
  }

  function OriginalSlices(op: Op, info: AxisTypeInfo): Result<seq<seq<Range>>> {
    TransSliceInfo(CurToOri, op, info, OutputSlices(op, info.outputs, |info.outputs|))
  }

  function Finish(op: Op, info: AxisTypeInfo, slices: Result<seq<seq<Range>>>): Outcome {
    if !slices.Ok? then Outcome(Status(slices), op) else
    var cur := TransSliceInfo(OriToCur, op, info, slices.value);
    if !cur.Ok? then Outcome(Status(cur), op) else SetInput(op, info.inputs, cur.value)
  }

  ghost function Infer(op: Op, info: AxisTypeInfo): Outcome {
    if !HasRule(info.axisType) then Outcome(Failed, op) else
    var ori := OriginalSlices(op, info);
    if !ori.Ok? then Outcome(Status(ori), op)
    else if !CheckedOrigin(op) then Outcome(Failed, op)
    else Finish(BackOp(op), info, ApplyRule(ToOrigin(op), OriginalInfo(info), ori.value))
  }

  // ----- The layout survives -----

  ghost predicate SameBut(ts: seq<Tensor>, us: seq<Tensor>) {
    |ts| == |us| && forall i :: 0 <= i < |ts| ==> ts[i].(slice := []) == us[i].(slice := [])
  }

  /** The operators agree in everything but the slices. */
  ghost predicate SameLayout(op: Op, op': Op) {
    SameBut(op.inputs, op'.inputs) && SameBut(op.outputs, op'.outputs)
  }

  lemma {:induction false} SetSlicesKeeps(inputs: seq<Tensor>, cuts: seq<CutInfo>, slices: seq<seq<Range>>, n: nat)
    requires n <= |cuts| == |slices|
    ensures SameBut(inputs, SetSlices(inputs, cuts, slices, n).1)
  {
    if n > 0 { SetSlicesKeeps(inputs, cuts, slices, n - 1); }
  }

  lemma FinishKeeps(op: Op, info: AxisTypeInfo, slices: Result<seq<seq<Range>>>)
    ensures SameLayout(op, Finish(op, info, slices).op)
  {
    hide TransSliceInfo, SetSlices;
    if slices.Ok? {
      var cur := TransSliceInfo(OriToCur, op, info, slices.value);
      if cur.Ok? && |cur.value| == |info.inputs| {
        SetSlicesKeeps(op.inputs, info.inputs, cur.value, |info.inputs|);
      }
    }
  }

  lemma LostShows(ts: seq<Tensor>, side: Side)
    ensures SameBut(ts, Back(ts, side)) <==> !Lost(ts, side, Bound(ts, side))
  {
    hide SetOri, Saved, SetCur, Count;
    BackIff(ts, side);
    var m := Bound(ts, side);
    if Lost(ts, side, m) {
      BackupSuffices(ts, side);
      var i :| 0 <= i < m && Present(side, ts[i]) && !Present(side, AsOrigin(ts[i]));
      var o := SetOri(ts, side, m);
      SetOriAt(ts, side, m, i);
      SetCurAt(o, side, Saved(ts, side, m), Bound(o, side), i);
      assert Back(ts, side)[i].(slice := []).format != ts[i].(slice := []).format;
    }
  }

  /** The inference gets as far as to switch the layout. */
  ghost predicate Switches(op: Op, info: AxisTypeInfo) {
    HasRule(info.axisType) && OriginalSlices(op, info).Ok? && CheckedOrigin(op)
  }

  /** Whether the inference succeeds or fails, every format and shape is as before, except exactly when
      the layout was switched and an input got lost. */
  lemma LayoutKeptIff(op: Op, info: AxisTypeInfo)
    ensures SameLayout(op, Infer(op, info).op) <==>
            !(Switches(op, info) && Lost(op.inputs, Input, Bound(op.inputs, Input)))
  {
    hide OriginalSlices, CheckedOrigin, ApplyRule, Finish, Back, Lost, SetOri;
    if Switches(op, info) {
      FinishKeeps(BackOp(op), info, ApplyRule(ToOrigin(op), OriginalInfo(info), OriginalSlices(op, info).value));
      LostShows(op.inputs, Input);
      OutputsComeBack(op.outputs);
    }
  }

  const NCHW_FORMAT := StorageFormat(NCHW, 0)
  const UNTYPED_INPUT := Tensor(NCHW_FORMAT, [4], StorageFormat(RESERVED, 0), [4], "", false, [])
  const SLICED_OUTPUT := Tensor(NCHW_FORMAT, [4], NCHW_FORMAT, [4], "", true, [[0, 1]])
  const CUT_FIRST := [CutInfo(0, [0])]
  const UNTYPED_OP := Op([UNTYPED_INPUT], [SLICED_OUTPUT])
  const CUT_BOTH := AxisTypeInfo(ELEMENTWISE, [], CUT_FIRST, CUT_FIRST, CUT_FIRST, CUT_FIRST)

  lemma UntypedSwitches()
    ensures Switches(UNTYPED_OP, CUT_BOTH)
  {
    var t := SLICED_OUTPUT;
    assert Lookup(UNTYPED_OP, Output, 0) == Some(t);
    assert OutputSlices(UNTYPED_OP, CUT_FIRST, 1) == [t.slice];
    assert SearchOriAxis(CUT_FIRST, 0, 0) == 0;
    assert TransAxis(t, 0) == Axes([0]);
    assert ConvertAxes(CurToOri, t, CUT_FIRST, CUT_FIRST[0], t.slice, 0) == Ok(EmptyRanges(1));
    assert ConvertAxes(CurToOri, t, CUT_FIRST, CUT_FIRST[0], t.slice, 1).Ok?;
    assert ConvertTensors(CurToOri, UNTYPED_OP, CUT_FIRST, CUT_FIRST, [t.slice], 0) == Ok([]);
    assert ConvertTensors(CurToOri, UNTYPED_OP, CUT_FIRST, CUT_FIRST, [t.slice], 1).Ok?;
    assert TypeSet(CUT_BOTH) == {};
    assert !MissesOrigin(UNTYPED_INPUT) && !MissesOrigin(SLICED_OUTPUT);
  }

  /** An input with a format but without a data type and an original format gets lost. */
  lemma UntypedInputLost()
    ensures !SameLayout(UNTYPED_OP, Infer(UNTYPED_OP, CUT_BOTH).op)
  {
    hide OriginalSlices, CheckedOrigin, Infer, SameLayout;
    UntypedSwitches();
    LayoutKeptIff(UNTYPED_OP, CUT_BOTH);
    assert Bound(UNTYPED_OP.inputs, Input) == 1;
    assert !Present(Input, AsOrigin(UNTYPED_OP.inputs[0]));
  }

  // ----- What an elementwise operator's inputs get -----

  lemma {:induction false} SplitAt(shape: Shape, cut: CutInfo, range: Range, n: nat)
    requires n <= |shape| && SplitRanges(shape, cut, range, n).Ok?
    ensures var r := SplitRanges(shape, cut, range, n).value;
            |r| == n && forall j :: 0 <= j < n ==> r[j] == range
  {
    if n > 0 { SplitAt(shape, cut, range, n - 1); }
  }

  ghost predicate AllAre(ranges: seq<Range>, range: Range) {
    forall j :: 0 <= j < |ranges| ==> ranges[j] == range
  }

  lemma {:induction false} InputRangesAt(op: Op, cuts: seq<CutInfo>, range: Option<Range>, n: nat)
    requires n <= |cuts| && InputRanges(op, cuts, range, n).Ok?
    ensures var r := InputRanges(op, cuts, range, n).value;
            |r| == n && (n > 0 ==> range.Some?) && forall i :: 0 <= i < n ==> AllAre(r[i], range.value)
  {
    hide Lookup, SplitRanges;
    if n > 0 {
      InputRangesAt(op, cuts, range, n - 1);
      var t := Lookup(op, Input, cuts[n - 1].tensor).value;
      SplitAt(t.shape, cuts[n - 1], range.value, DimNum(t.shape));
    }
  }

  lemma {:induction false} ConvertedAt(dir: Direction, op: Op, oriCuts: seq<CutInfo>, cuts: seq<CutInfo>, slices: seq<seq<Range>>, n: nat, i: nat)
    requires i < n <= |cuts| == |slices| && ConvertTensors(dir, op, oriCuts, cuts, slices, n).Ok?
    ensures var r := ConvertTensor(dir, op, oriCuts, cuts[i], slices[i]);
            r.Ok? && |ConvertTensors(dir, op, oriCuts, cuts, slices, n).value| == n
            && ConvertTensors(dir, op, oriCuts, cuts, slices, n).value[i] == r.value
  {
    hide ConvertTensor;
    if n > 1 { ConvertedAt(dir, op, oriCuts, cuts, slices, n - 1, if i < n - 1 then i else 0); }
  }

  lemma {:induction false} OutputSliceAt(op: Op, cuts: seq<CutInfo>, n: nat, i: nat)
    requires i < n <= |cuts|
    ensures var t := Lookup(op, Output, cuts[i].tensor); OutputSlices(op, cuts, n)[i] == if t.Some? then t.value.slice else []
  {
    hide Lookup;
    if i < n - 1 { OutputSliceAt(op, cuts, n - 1, i); }
  }

  /** The slice that an input keeps is the one of its last cut, made with the original axis of its first
      cut. Most inputs have just one. */
  ghost predicate FirstAndLast(cuts: seq<CutInfo>, first: nat, last: nat) {
    && first <= last < |cuts| && cuts[first].tensor == cuts[last].tensor
    && (forall j :: 0 <= j < first ==> cuts[j].tensor != cuts[last].tensor)
    && (forall j :: last < j < |cuts| ==> cuts[j].tensor % U32 != cuts[last].tensor % U32)
  }

  lemma {:induction false} SliceStored(inputs: seq<Tensor>, cuts: seq<CutInfo>, slices: seq<seq<Range>>, n: nat, i: nat)
    requires i < n <= |cuts| == |slices| && SetSlices(inputs, cuts, slices, n).0
    requires forall j :: i < j < n ==> cuts[j].tensor % U32 != cuts[i].tensor % U32
    requires cuts[i].tensor % U32 < |inputs| && IsValid(inputs[cuts[i].tensor % U32])
    ensures SetSlices(inputs, cuts, slices, n).1[cuts[i].tensor % U32].slice == slices[i]
  {
    if i == n - 1 {
      SetSlicesKeeps(inputs, cuts, slices, n - 1);
      var (k, before) := (cuts[i].tensor % U32, SetSlices(inputs, cuts, slices, n - 1).1);
      assert inputs[k].(slice := []) == before[k].(slice := []);
      assert IsValid(before[k].(slice := [])) == IsValid(before[k]);
    } else {
      SliceStored(inputs, cuts, slices, n - 1, i);
    }
  }

  /** The packing factor of an original axis. */
  function Factor(t: Tensor, axis: int): nat
    requires TransAxis(t, axis).Axes?
  {
    RestProduct(t.shape, TransAxis(t, axis).list, |TransAxis(t, axis).list|)
  }

  /** The slice `r` cuts `s` on its current axis `sCur` alone, by the range that `t` has on `tCur`,
      carried over through the original axes. */
  ghost predicate Carried(t: Tensor, tCur: int, tOri: int, s: Tensor, sCur: int, sOri: int, r: seq<Range>) {
    && TransAxis(t, tOri).Axes? && TransAxis(s, sOri).Axes?
    && 0 <= tCur < |t.slice| && |t.slice[tCur]| == 2 && 0 <= sCur < |s.shape| && Factor(s, sOri) > 0
    && r == EmptyRanges(|s.shape|)[sCur := FromInterval(
              ToCur(ToOri(ToInterval(t.slice[tCur]), Factor(t, tOri), Dim(t.oriShape, tOri)), Factor(s, sOri)))]
  }

  /** With equal packing factors the input gets the range of the output exactly when the last block of
      the range begins within the original dimension. */
  lemma SameRangeIff(t: Tensor, tCur: int, tOri: int, s: Tensor, sCur: int, sOri: int, r: seq<Range>)
    requires Carried(t, tCur, tOri, s, sCur, sOri, r) && Factor(s, sOri) == Factor(t, tOri)
    requires Fits(ToInterval(t.slice[tCur]), Factor(t, tOri)) && Dim(t.oriShape, tOri) > -I64_LIMIT
    ensures r[sCur] == t.slice[tCur] <==> t.slice[tCur][1] * Factor(t, tOri) < Dim(t.oriShape, tOri)
  {
    hide ToOri, ToCur, Fits, Factor, Dim, TransAxis;
    var i, p, d := ToInterval(t.slice[tCur]), Factor(t, tOri), Dim(t.oriShape, tOri);
    RoundTripIff(i, p, d);
    var j := ToCur(ToOri(i, p, d), p);
    assert t.slice[tCur] == FromInterval(i);
    assert r[sCur] == FromInterval(j);
    assert FromInterval(i)[0] == i.lo && FromInterval(i)[1] == i.hi && FromInterval(j)[0] == j.lo && FromInterval(j)[1] == j.hi;
  }

  ghost predicate OneAxisEach(cuts: seq<CutInfo>) {
    forall i :: 0 <= i < |cuts| ==> |cuts[i].axes| == 1
  }

  ghost predicate SameTensors(ori: seq<CutInfo>, cur: seq<CutInfo>) {
    |ori| == |cur| && forall i :: 0 <= i < |cur| ==> ori[i].tensor == cur[i].tensor && |cur[i].axes| <= |ori[i].axes|
  }

  ghost predicate Ready(info: AxisTypeInfo) {
    && info.axisType == ELEMENTWISE && TypeForSlice(info) == ELEMENTWISE
    && SameTensors(info.oriInputs, info.inputs) && SameTensors(info.oriOutputs, info.outputs)
    && OneAxisEach(info.inputs) && OneAxisEach(info.outputs)
  }

  /** The range on the first output's original axis. */
  lemma ReferenceRange(op: Op, info: AxisTypeInfo)
    requires Ready(info) && info.outputs != [] && OriginalSlices(op, info).Ok?
    ensures var (out, ori) := (info.outputs[0], info.oriOutputs[0].axes[0]);
            var t := Lookup(op, Output, out.tensor);
            && t.Some? && TransAxis(t.value, ori).Axes?
            && 0 <= out.axes[0] < |t.value.slice| && |t.value.slice[out.axes[0]]| == 2
            && |OriginalSlices(op, info).value| == |info.outputs|
            && Reference(info.oriOutputs, OriginalSlices(op, info).value) ==
               Some(FromInterval(ToOri(ToInterval(t.value.slice[out.axes[0]]), Factor(t.value, ori), Dim(t.value.oriShape, ori))))
  {
    hide Lookup, TransAxis, ToOri, Dim, RestProduct, ConvertTensors, OutputSlices;
    var slices := OutputSlices(op, info.outputs, |info.outputs|);
    ConvertedAt(CurToOri, op, info.oriOutputs, info.outputs, slices, |info.outputs|, 0);
    OutputSliceAt(op, info.outputs, |info.outputs|, 0);
    OneAxis(CurToOri, op, info.oriOutputs, info.outputs[0], slices[0]);
  }

  lemma OneAxis(dir: Direction, op: Op, oriCuts: seq<CutInfo>, cut: CutInfo, slice: seq<Range>)
    requires |cut.axes| == 1 && ConvertTensor(dir, op, oriCuts, cut, slice).Ok?
    ensures var t := Lookup(op, if dir == CurToOri then Output else Input, cut.tensor);
            t.Some? && ConvertTensor(dir, op, oriCuts, cut, slice)
                       == ConvertAxis(dir, t.value, slice, cut.axes[0], SearchOriAxis(oriCuts, cut.tensor, 0),
                                      EmptyRanges(if dir == CurToOri then |t.value.oriShape| else |t.value.shape|))
  {
    hide ConvertAxis, SearchOriAxis, Lookup;
    var t := Lookup(op, if dir == CurToOri then Output else Input, cut.tensor).value;
    assert ConvertAxes(dir, t, oriCuts, cut, slice, 0).Ok?;
  }

  /** What one input gets from ranges that are equal on all of its original axes. */
  lemma CarriedOver(op: Op, info: AxisTypeInfo, slices: seq<seq<Range>>, range: Interval, first: nat, i: nat)
    requires Ready(info) && i < |info.inputs| == |slices| && FirstAndLast(info.inputs, first, i) && AllAre(slices[i], FromInterval(range))
    requires TransSliceInfo(OriToCur, op, info, slices).Ok?
    ensures var (cut, ori, r) := (info.inputs[i], info.oriInputs[first].axes[0], TransSliceInfo(OriToCur, op, info, slices).value);
            var s := Lookup(op, Input, cut.tensor);
            && s.Some? && TransAxis(s.value, ori).Axes? && 0 <= cut.axes[0] < |s.value.shape| && Factor(s.value, ori) > 0
            && |r| == |info.inputs|
            && r[i] == EmptyRanges(|s.value.shape|)[cut.axes[0] := FromInterval(ToCur(range, Factor(s.value, ori)))]
  {
    hide Lookup, TransAxis, ToCur, Dim, RestProduct, ConvertTensors, SearchOriAxis, ConvertTensor;
    ConvertedAt(OriToCur, op, info.oriInputs, info.inputs, slices, |info.inputs|, i);
    OneAxis(OriToCur, op, info.oriInputs, info.inputs[i], slices[i]);
    SearchFinds(info.oriInputs, first, 0);
    var ori := info.oriInputs[first].axes[0];
    assert slices[i][ori] == FromInterval(range);
    assert ToInterval(FromInterval(range)) == range;
  }

  lemma NothingLost(op: Op)
    ensures !Lost(op.inputs, Input, Bound(op.inputs, Input)) ==> BackOp(op) == op
  {
    hide Lost, Back;
    BackIff(op.inputs, Input);
    OutputsComeBack(op.outputs);
  }

  /** After a successful inference every input that takes part is cut on its current axis alone, by the
      range of the first output, carried over through the original axes. The layout of the input is the
      one that was put back. */
  lemma InferredSlice(op: Op, info: AxisTypeInfo, first: nat, i: nat)
    requires Ready(info) && FirstAndLast(info.inputs, first, i) && info.outputs != []
    ensures var (out, cut) := (info.outputs[0], info.inputs[i]);
            var (t, s) := (Lookup(op, Output, out.tensor), Lookup(BackOp(op), Input, cut.tensor));
            Infer(op, info).status.Ok? ==>
            && t.Some? && s.Some? && cut.tensor % U32 < |Infer(op, info).op.inputs|
            && Carried(t.value, out.axes[0], info.oriOutputs[0].axes[0], s.value, cut.axes[0], info.oriInputs[first].axes[0],
                       Infer(op, info).op.inputs[cut.tensor % U32].slice)
  {
    hide TransAxis, ToCur, ToOri, Dim, RestProduct, ConvertSlices, CheckedOrigin, SetOri, Back, CheckSlices, InputRanges, SetSlices,
      OriginalSlices, Lost, TransSliceInfo, Reference, Carried;
    if !Infer(op, info).status.Ok? {
      return;
    }
    ReferenceRange(op, info);
    var back := BackOp(op);
    var ori := OriginalSlices(op, info).value;
    var range := Reference(info.oriOutputs, ori);
    InputRangesAt(ToOrigin(op), info.oriInputs, range, |info.oriInputs|);
    var ranges := InputRanges(ToOrigin(op), info.oriInputs, range, |info.oriInputs|).value;
    var t := Lookup(op, Output, info.outputs[0].tensor).value;
    var interval := ToOri(ToInterval(t.slice[info.outputs[0].axes[0]]), Factor(t, info.oriOutputs[0].axes[0]), Dim(t.oriShape, info.oriOutputs[0].axes[0]));
    CarriedOver(back, info, ranges, interval, first, i);
    var cur := TransSliceInfo(OriToCur, back, info, ranges).value;
    SliceStored(back.inputs, info.inputs, cur, |info.inputs|, i);
    CarriedMeans(t, info.outputs[0].axes[0], info.oriOutputs[0].axes[0], Lookup(back, Input, info.inputs[i].tensor).value,
                 info.inputs[i].axes[0], info.oriInputs[first].axes[0], cur[i]);
  }

  lemma CarriedMeans(t: Tensor, tCur: int, tOri: int, s: Tensor, sCur: int, sOri: int, r: seq<Range>)
    requires TransAxis(t, tOri).Axes? && TransAxis(s, sOri).Axes?
    requires 0 <= tCur < |t.slice| && |t.slice[tCur]| == 2 && 0 <= sCur < |s.shape| && Factor(s, sOri) > 0
    requires r == EmptyRanges(|s.shape|)[sCur := FromInterval(
                    ToCur(ToOri(ToInterval(t.slice[tCur]), Factor(t, tOri), Dim(t.oriShape, tOri)), Factor(s, sOri)))]
    ensures Carried(t, tCur, tOri, s, sCur, sOri, r)
  {}

  // ----- From the operator's own cut information to its inputs' slices -----

  lemma {:induction false} CountIsPositive(cuts: seq<CutInfo>, n: nat)
    requires 0 < n <= |cuts| && CountAxes(cuts, false, 0, n).Some? && forall i :: 0 <= i < |cuts| ==> cuts[i].axes != []
    ensures CountAxes(cuts, false, 0, n).value > 0
  {
    if n > 1 { CountIsPositive(cuts, n - 1); } else { assert CountAxes(cuts, false, 0, 0) == Some(0); }
  }

  lemma {:induction false} CountIsCommon(cuts: seq<CutInfo>, count: nat, n: nat)
    requires n <= |cuts| && count > 0 && CountAxes(cuts, false, count, n).Some?
    ensures CountAxes(cuts, false, count, n).value == count && forall i :: 0 <= i < n ==> |cuts[i].axes| == count
  {
    if n > 0 { CountIsCommon(cuts, count, n - 1); }
  }

  lemma FixedToOne(info: AxisTypeInfo)
    requires FixToOne(info).Ok? && info.inputs != [] && !IsReduce(info.axisType)
    ensures OneAxisEach(FixToOne(info).value.inputs) && OneAxisEach(FixToOne(info).value.outputs)
  {
    hide CountAxes;
    CountIsPositive(info.inputs, |info.inputs|);
    CountIsCommon(info.outputs, CountAxes(info.inputs, false, 0, |info.inputs|).value, |info.outputs|);
  }

  lemma EntryReady(op: Op, raw: AxisTypeInfo)
    requires raw.axisType == ELEMENTWISE && TypeForSlice(raw) == ELEMENTWISE && TransEntry(op, raw).Ok?
    ensures var info := TransEntry(op, raw).value;
            && info.axisType == ELEMENTWISE && TypeForSlice(info) == ELEMENTWISE && info.outputs != []
            && AlignedEntry(op, info) && OneAxisEach(info.inputs) && OneAxisEach(info.outputs)
            && SameTensors(info.oriInputs, info.inputs) && SameTensors(info.oriOutputs, info.outputs)
  {
    hide TransCuts, FixToOne, FirstImage, OneAxisEach;
    assert TypeForAxis(raw) == ELEMENTWISE;
    EntryAligned(op, raw);
    var inputs := TransCuts(op, Input, ElementMode, raw.inputs, |raw.inputs|).value;
    var outputs := TransCuts(op, Output, ElementMode, raw.outputs, |raw.outputs|).value;
    CutsLength(op, Input, ElementMode, raw.inputs, |raw.inputs|);
    FixedToOne(raw.(oriInputs := raw.inputs, oriOutputs := raw.outputs, inputs := inputs, outputs := outputs));
    assert TypeSet(TransEntry(op, raw).value) == TypeSet(raw);
  }

  lemma AxisIgnoresSlice(t: Tensor, u: Tensor, axis: int)
    requires t.(slice := []) == u.(slice := [])
    ensures TransAxis(t, axis) == TransAxis(u, axis)
  {}

  lemma LookupIgnoresSlice(op: Op, op': Op, side: Side, index: int)
    requires SameLayout(op, op')
    ensures var (t, u) := (Lookup(op, side, index), Lookup(op', side, index));
            t.Some? == u.Some? && (t.Some? ==> t.value.(slice := []) == u.value.(slice := []))
  {
    var i := index % U32;
    if side == Input && i < |op.inputs| {
      assert op.inputs[i].(slice := []) == op'.inputs[i].(slice := []);
      assert IsValid(op.inputs[i].(slice := [])) == IsValid(op'.inputs[i].(slice := []));
    }
  }

  lemma AlignedIgnoresSlices(op: Op, op': Op, side: Side, ori: seq<CutInfo>, cur: seq<CutInfo>)
    requires SameLayout(op, op') && Aligned(op, side, ori, cur)
    ensures Aligned(op', side, ori, cur)
  {
    hide SameLayout, Lookup, TransAxis;
    forall i | 0 <= i < |cur|
      ensures AlignedCut(op', side, ori[i], cur[i])
    {
      assert AlignedCut(op, side, ori[i], cur[i]);
      LookupIgnoresSlice(op, op', side, ori[i].tensor);
      var (t, u) := (Lookup(op, side, ori[i].tensor), Lookup(op', side, ori[i].tensor));
      forall k | 0 <= k < |cur[i].axes|
        ensures FirstImage(u, ori[i].axes[k], cur[i].axes[k])
      {
        assert FirstImage(t, ori[i].axes[k], cur[i].axes[k]);
        AxisIgnoresSlice(t.value, u.value, ori[i].axes[k]);
      }
    }
  }

  /** The cut information of an elementwise operator is translated to the current layout; later, when
      its outputs have been given slices, its inputs' slices are inferred. If both succeed, each input
      is cut on the first image of its original cut axis by the range that the first output has on the
      first image of its own, and everything but the slices is as before. */
  lemma ElementwiseInference(before: Op, raw: AxisTypeInfo, op: Op, first: nat, i: nat)
    requires raw.axisType == ELEMENTWISE && TypeForSlice(raw) == ELEMENTWISE && TransEntry(before, raw).Ok?
    requires SameLayout(before, op) && FirstAndLast(raw.inputs, first, i)
    ensures !Lost(op.inputs, Input, Bound(op.inputs, Input)) ==>
              BackOp(op) == op && SameLayout(op, Infer(op, TransEntry(before, raw).value).op)
    ensures var info := TransEntry(before, raw).value;
            Infer(op, info).status.Ok? ==>
            && |info.inputs| == |raw.inputs| && |info.outputs| == |raw.outputs| > 0
            && var (out, cut, tOri, sOri) := (info.outputs[0], info.inputs[i], raw.outputs[0].axes, raw.inputs[first].axes);
            var (t, s) := (Lookup(op, Output, raw.outputs[0].tensor), Lookup(BackOp(op), Input, raw.inputs[i].tensor));
            && s.Some? && raw.inputs[i].tensor % U32 < |Infer(op, info).op.inputs| && tOri != [] && sOri != [] && raw.inputs[i].axes != [] && |out.axes| == |cut.axes| == 1
            && FirstImage(t, tOri[0], out.axes[0]) && FirstImage(Lookup(op, Input, raw.inputs[i].tensor), raw.inputs[i].axes[0], cut.axes[0])
            && Carried(t.value, out.axes[0], tOri[0], s.value, cut.axes[0], sOri[0],
                       Infer(op, info).op.inputs[raw.inputs[i].tensor % U32].slice)
  {
    hide TransEntry, Infer, Carried, Lost, Lookup, SameLayout, TypeForSlice, FirstImage, BackOp;
    var info := TransEntry(before, raw).value;
    EntryReady(before, raw);
    EntryAligned(before, raw);
    AlignedIgnoresSlices(before, op, Input, info.oriInputs, info.inputs);
    AlignedIgnoresSlices(before, op, Output, info.oriOutputs, info.outputs);
    assert AlignedCut(op, Output, info.oriOutputs[0], info.outputs[0]);
    assert AlignedCut(op, Input, info.oriInputs[i], info.inputs[i]);
    InferredSlice(op, info, first, i);
    NothingLost(op);
    LayoutKeptIff(op, info);
  }

  /** If the packing factors agree, the slice `r` of `s` is the very range of `t` on the cut axis and none
      on the others, exactly when the last block of the range begins within the original dimension. */
  ghost predicate KeepsRange(t: Tensor, tCur: int, tOri: int, s: Tensor, sCur: int, sOri: int, r: seq<Range>) {
    && TransAxis(t, tOri).Axes? && TransAxis(s, sOri).Axes?
    && 0 <= tCur < |t.slice| && |t.slice[tCur]| == 2 && 0 <= sCur < |s.shape|
    && var (p, dim, range) := (Factor(t, tOri), Dim(t.oriShape, tOri), t.slice[tCur]);
       (Factor(s, sOri) == p && Fits(ToInterval(range), p) && dim > -I64_LIMIT ==>
          (r == EmptyRanges(|s.shape|)[sCur := range] <==> range[1] * p < dim))
  }

  lemma CarriedKeepsRange(t: Tensor, tCur: int, tOri: int, s: Tensor, sCur: int, sOri: int, r: seq<Range>)
    requires Carried(t, tCur, tOri, s, sCur, sOri, r)
    ensures KeepsRange(t, tCur, tOri, s, sCur, sOri, r)
  {
    hide Factor, Fits, Dim, TransAxis, ToOri, ToCur;
    if Factor(s, sOri) == Factor(t, tOri) && Fits(ToInterval(t.slice[tCur]), Factor(t, tOri)) && Dim(t.oriShape, tOri) > -I64_LIMIT {
      SameRangeIff(t, tCur, tOri, s, sCur, sOri, r);
      assert r == EmptyRanges(|s.shape|)[sCur := r[sCur]];
    }
  }

  /** Whatever the packing factors, the slice `r` of `s` has on its cut axis exactly the blocks that hold
      an original index in the range of `t`, if and only if the range begins within the original
      dimension or the slice is empty. */
  ghost predicate HoldsRange(t: Tensor, tCur: int, tOri: int, s: Tensor, sCur: int, sOri: int, r: seq<Range>) {
    && TransAxis(t, tOri).Axes? && TransAxis(s, sOri).Axes?
    && 0 <= tCur < |t.slice| && |t.slice[tCur]| == 2 && 0 <= sCur < |s.shape| == |r| && |r[sCur]| == 2 && Factor(s, sOri) > 0
    && var (p, q, dim, range) := (Factor(t, tOri), Factor(s, sOri), Dim(t.oriShape, tOri), ToInterval(t.slice[tCur]));
       (Fits(range, p) && dim > -I64_LIMIT ==>
          (HasBlocks(ToInterval(r[sCur]), range, p, q, dim) <==>
             range.lo * p < dim || (if dim > 0 then (dim - 1) / q < range.lo * p / q else q == 1)))
  }

  ghost predicate HasBlocks(c: Interval, range: Interval, p: int, q: int, dim: int)
    requires p > 0 && q > 0
  {
    forall j :: Within(j, c) <==> Touched(range, p, q, dim, j)
  }

  lemma CarriedHoldsRange(t: Tensor, tCur: int, tOri: int, s: Tensor, sCur: int, sOri: int, r: seq<Range>)
    requires Carried(t, tCur, tOri, s, sCur, sOri, r)
    ensures HoldsRange(t, tCur, tOri, s, sCur, sOri, r)
  {
    hide Factor, Dim, TransAxis, ToOri, ToCur, Touched;
    var (p, q, dim, range) := (Factor(t, tOri), Factor(s, sOri), Dim(t.oriShape, tOri), ToInterval(t.slice[tCur]));
    if Fits(range, p) && dim > -I64_LIMIT {
      SoundAndTightIff(range, p, q, dim);
      assert ToInterval(r[sCur]) == ToCur(ToOri(range, p, dim), q);
    }
  }

  /** The end of it all: a successful inference gives the input the blocks of the output's range, and with
      equal packing factors the very range, under the exact conditions above. */
  lemma ElementwiseKeepsRange(before: Op, raw: AxisTypeInfo, op: Op, first: nat, i: nat)
    requires raw.axisType == ELEMENTWISE && TypeForSlice(raw) == ELEMENTWISE && TransEntry(before, raw).Ok?
    requires SameLayout(before, op) && FirstAndLast(raw.inputs, first, i)
    ensures var info := TransEntry(before, raw).value;
            Infer(op, info).status.Ok? ==>
            && |info.inputs| == |raw.inputs| && |info.outputs| == |raw.outputs| > 0
            && |info.outputs[0].axes| == |info.inputs[i].axes| == 1 && raw.outputs[0].axes != [] && raw.inputs[first].axes != []
            && var (t, s) := (Lookup(op, Output, raw.outputs[0].tensor), Lookup(BackOp(op), Input, raw.inputs[i].tensor));
            && t.Some? && s.Some? && raw.inputs[i].tensor % U32 < |Infer(op, info).op.inputs|
            && var (tCur, tOri, sCur, sOri) :=
                 (info.outputs[0].axes[0], raw.outputs[0].axes[0], info.inputs[i].axes[0], raw.inputs[first].axes[0]);
            var stored := Infer(op, info).op.inputs[raw.inputs[i].tensor % U32].slice;
            && KeepsRange(t.value, tCur, tOri, s.value, sCur, sOri, stored)
            && HoldsRange(t.value, tCur, tOri, s.value, sCur, sOri, stored)
  {
    hide TransEntry, Infer, Lost, TypeForSlice, KeepsRange, HoldsRange, Carried, BackOp;
    ElementwiseInference(before, raw, op, first, i);
    var info := TransEntry(before, raw).value;
    if Infer(op, info).status.Ok? {
      var (t, s) := (Lookup(op, Output, raw.outputs[0].tensor).value, Lookup(BackOp(op), Input, raw.inputs[i].tensor).value);
      var (tCur, tOri, sCur, sOri) :=
        (info.outputs[0].axes[0], raw.outputs[0].axes[0], info.inputs[i].axes[0], raw.inputs[first].axes[0]);
      var stored := Infer(op, info).op.inputs[raw.inputs[i].tensor % U32].slice;
      CarriedKeepsRange(t, tCur, tOri, s, sCur, sOri, stored);
      CarriedHoldsRange(t, tCur, tOri, s, sCur, sOri, stored);
    }
  }

  // ----- Where the inferred range ends -----

  lemma {:induction false} SplitFits(shape: Shape, cut: CutInfo, range: Range, n: nat, axis: nat)
    requires axis < n <= |shape| && SplitRanges(shape, cut, range, n).Ok?
    ensures cut.axes != [] && (axis == cut.axes[0] ==> range != [] && range[|range| - 1] <= shape[axis])
  {
    if axis < n - 1 { SplitFits(shape, cut, range, n - 1, axis); }
  }

  lemma {:induction false} InputFits(op: Op, cuts: seq<CutInfo>, range: Option<Range>, n: nat, i: nat)
    requires i < n <= |cuts| && InputRanges(op, cuts, range, n).Ok?
    ensures var t := Lookup(op, Input, cuts[i].tensor);
            && t.Some? && range.Some?
            && SplitRanges(t.value.shape, cuts[i], range.value, DimNum(t.value.shape)).Ok?
  {
    hide Lookup, SplitRanges, DimNum;
    if i < n - 1 { InputFits(op, cuts, range, n - 1, i); }
  }

  /** In the original layout the range that an input gets ends at most at its dimension. As ends are
      inclusive, it lies within the dimension exactly when its end is not equal to it, which is sure if
      the dimension is not below that of the output. */
  lemma InferredEnd(op: Op, info: AxisTypeInfo, i: nat)
    requires Ready(info) && i < |info.inputs| && info.outputs != []
    ensures var (out, tOri, axis) := (info.outputs[0], info.oriOutputs[0].axes[0], info.oriInputs[i].axes[0]);
            var (t, u) := (Lookup(op, Output, out.tensor), Lookup(ToOrigin(op), Input, info.oriInputs[i].tensor));
            Infer(op, info).status.Ok? ==>
            && t.Some? && u.Some? && TransAxis(t.value, tOri).Axes?
            && 0 <= out.axes[0] < |t.value.slice| && |t.value.slice[out.axes[0]]| == 2
            && (0 <= axis < DimNum(u.value.shape) ==>
                  var (dim, outDim) := (u.value.shape[axis], Dim(t.value.oriShape, tOri));
                  var end := ToOri(ToInterval(t.value.slice[out.axes[0]]), Factor(t.value, tOri), outDim).hi;
                  end <= dim && (end < dim <==> end != dim) && (outDim <= dim ==> end < dim))
  {
    hide TransAxis, RestProduct, Wrap, ConvertSlices, CheckedOrigin, SetOri, Back, CheckSlices, InputRanges, SetSlices, OriginalSlices,
      TransSliceInfo, Reference, SplitRanges, DimNum, Lookup, Dim;
    if Infer(op, info).status.Ok? {
      ReferenceRange(op, info);
      var range := Reference(info.oriOutputs, OriginalSlices(op, info).value);
      InputFits(ToOrigin(op), info.oriInputs, range, |info.oriInputs|, i);
      var u, axis := Lookup(ToOrigin(op), Input, info.oriInputs[i].tensor).value, info.oriInputs[i].axes[0];
      if 0 <= axis < DimNum(u.shape) {
        SplitFits(u.shape, info.oriInputs[i], range.value, DimNum(u.shape), axis);
      }
    }
  }

  // ----- Operators for which the inference succeeds -----

  function Plain(dim: int, slice: seq<Range>): Tensor {
    Tensor(NCHW_FORMAT, [dim], NCHW_FORMAT, [dim], "", true, slice)
  }

  /** One input and one output of rank 1, whose output is cut. */
  function PlainOp(inDim: int, outDim: int, range: Range): Op {
    Op([Plain(inDim, [])], [Plain(outDim, [range])])
  }

  lemma PlainConverts(dir: Direction, t: Tensor, lo: int, hi: int)
    requires 0 <= lo <= hi < I64_LIMIT - 1 && |t.oriShape| == 1 && t == Plain(t.oriShape[0], t.slice)
    requires dir == CurToOri ==> hi < t.oriShape[0]
    ensures ConvertAxes(dir, t, CUT_FIRST, CUT_FIRST[0], [[lo, hi]], 1) == Ok([[lo, hi]])
  {
    assert SearchOriAxis(CUT_FIRST, 0, 0) == 0 && TransAxis(t, 0) == Axes([0]) && RestProduct(t.shape, [0], 1) == 1;
    assert ConvertAxes(dir, t, CUT_FIRST, CUT_FIRST[0], [[lo, hi]], 0) == Ok(EmptyRanges(1));
    WrapSmall(lo);
    WrapSmall(hi);
    assert EmptyRanges(1)[0 := [lo, hi]] == [[lo, hi]];
  }

  lemma PlainTranslates(dir: Direction, inDim: int, outDim: int, lo: int, hi: int)
    requires 0 <= lo <= hi < I64_LIMIT - 1 && hi < outDim
    ensures TransSliceInfo(dir, PlainOp(inDim, outDim, [lo, hi]), CUT_BOTH, [[[lo, hi]]]) == Ok([[[lo, hi]]])
  {
    var op, slice := PlainOp(inDim, outDim, [lo, hi]), [[lo, hi]];
    var t := if dir == CurToOri then op.outputs[0] else op.inputs[0];
    assert TypeSet(CUT_BOTH) == {};
    assert Lookup(op, if dir == CurToOri then Output else Input, 0) == Some(t);
    PlainConverts(dir, t, lo, hi);
    hide ConvertAxes;
    assert ConvertTensors(dir, op, CUT_FIRST, CUT_FIRST, [slice], 0) == Ok([]);
    var none: seq<seq<Range>> := [];
    assert none + [slice] == [slice];
  }

  lemma PlainInferred(inDim: int, outDim: int, lo: int, hi: int)
    requires 0 <= lo <= hi <= inDim && hi <= outDim
    ensures Elementwise(PlainOp(inDim, outDim, [lo, hi]), CUT_BOTH, [[[lo, hi]]]) == Ok([[[lo, hi]]])
  {
    var op, slice := PlainOp(inDim, outDim, [lo, hi]), [[lo, hi]];
    var cut, none, nothing: seq<Range> := CUT_FIRST[0], [], [];
    assert Lookup(op, Output, 0) == Some(op.outputs[0]) && Lookup(op, Input, 0) == Some(op.inputs[0]);
    assert CheckSlice(op, cut, slice, 0).Ok? && CheckSlices(op, CUT_FIRST, [slice], 0).Ok?;
    assert CheckSlice(op, cut, slice, 1).Ok? && CheckSlices(op, CUT_FIRST, [slice], 1).Ok?;
    assert SplitRanges([inDim], cut, [lo, hi], 0) == Ok([]) && nothing + [[lo, hi]] == slice;
    assert SplitRanges([inDim], cut, [lo, hi], 1) == Ok(slice);
    assert InputRanges(op, CUT_FIRST, Some([lo, hi]), 0) == Ok([]) && none + [slice] == [slice];
  }

  lemma PlainComesBack(inDim: int, outDim: int, range: Range)
    ensures var op := PlainOp(inDim, outDim, range); BackOp(op) == op && ToOrigin(op) == op && CheckedOrigin(op)
  {
    var op := PlainOp(inDim, outDim, range);
    assert Bound(op.inputs, Input) == 1 && Bound(op.outputs, Output) == 1;
    assert SetOri(op.inputs, Input, 1) == op.inputs && SetOri(op.outputs, Output, 1) == op.outputs;
    BackIff(op.inputs, Input);
    OutputsComeBack(op.outputs);
    assert !MissesOrigin(op.inputs[0]) && !MissesOrigin(op.outputs[0]);
  }

  /** In the plainest of layouts the input is given the very range of the output. */
  lemma InferenceSucceeds(inDim: int, outDim: int, lo: int, hi: int)
    requires 0 <= lo <= hi <= inDim && hi < outDim && hi < I64_LIMIT - 1
    ensures var o := Infer(PlainOp(inDim, outDim, [lo, hi]), CUT_BOTH);
            o.status.Ok? && |o.op.inputs| == 1 && o.op.inputs[0] == Plain(inDim, [[lo, hi]])
  {
    var op, slice := PlainOp(inDim, outDim, [lo, hi]), [[lo, hi]];
    PlainComesBack(inDim, outDim, [lo, hi]);
    assert OutputSlices(op, CUT_FIRST, 1) == [slice];
    PlainTranslates(CurToOri, inDim, outDim, lo, hi);
    PlainInferred(inDim, outDim, lo, hi);
    PlainTranslates(OriToCur, inDim, outDim, lo, hi);
    hide TransSliceInfo, Elementwise, BackOp, ToOrigin, CheckedOrigin;
    assert SetSlices(op.inputs, CUT_FIRST, [slice], 0) == (true, op.inputs);
  }

  /** A range that ends at the input's dimension is accepted: an input with the one index 0 is asked for
      index 1. */
  lemma EndAtDimension()
    ensures var o := Infer(PlainOp(1, 2, [1, 1]), CUT_BOTH); o.status.Ok? && |o.op.inputs| == 1 && o.op.inputs[0] == Plain(1, [[1, 1]])
  {
    hide Infer;
    InferenceSucceeds(1, 2, 1, 1);
  }
}
