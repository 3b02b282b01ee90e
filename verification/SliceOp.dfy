/** The operator description, whose tensors the inference updates in place. */
module SliceOp {
  import opened Ordered
  import opened SliceAxes
  import opened SliceAdapter
  import opened SliceInfer

  lemma {:induction false} SliceStaysFailed(op: Op, cut: CutInfo, slice: seq<Range>, m: nat, n: nat)
    requires m <= n <= |slice| && !CheckSlice(op, cut, slice, m).Ok?
    ensures CheckSlice(op, cut, slice, n) == CheckSlice(op, cut, slice, m)
  {
    if m < n { SliceStaysFailed(op, cut, slice, m, n - 1); }
  }

  lemma {:induction false} SlicesStayFailed(op: Op, cuts: seq<CutInfo>, slices: seq<seq<Range>>, m: nat, n: nat)
    requires m <= n <= |cuts| == |slices| && !CheckSlices(op, cuts, slices, m).Ok?
    ensures CheckSlices(op, cuts, slices, n) == CheckSlices(op, cuts, slices, m)
  {
    if m < n { SlicesStayFailed(op, cuts, slices, m, n - 1); }
  }

  method CheckOneSlice(op: Op, cut: CutInfo, slice: seq<Range>) returns (r: Result<()>)
    ensures r == CheckSlice(op, cut, slice, |slice|)
  {
    hide CheckRange;
    r := Ok(());
    for j := 0 to |slice|
      invariant r.Ok? && r == CheckSlice(op, cut, slice, j)
    {
      r := CheckRange(op, cut, j, slice[j]);
      if !r.Ok? {
        SliceStaysFailed(op, cut, slice, j + 1, |slice|);
        return;
      }
    }
  }

  method CheckOutDataSlice(op: Op, cuts: seq<CutInfo>, slices: seq<seq<Range>>) returns (r: Result<()>)
    ensures r == if |cuts| != |slices| then Failed else CheckSlices(op, cuts, slices, |slices|)
  {
    hide CheckSlice;
    if |cuts| != |slices| {
      return Failed;
    }
    r := Ok(());
    for i := 0 to |slices|
      invariant r.Ok? && r == CheckSlices(op, cuts, slices, i)
    {
      r := CheckOneSlice(op, cuts[i], slices[i]);
      if !r.Ok? {
        SlicesStayFailed(op, cuts, slices, i + 1, |slices|);
        return;
      }
    }
  }

  lemma {:induction false} SplitStaysFailed(shape: Shape, cut: CutInfo, range: Range, m: nat, n: nat)
    requires m <= n <= |shape| && !SplitRanges(shape, cut, range, m).Ok?
    ensures SplitRanges(shape, cut, range, n) == SplitRanges(shape, cut, range, m)
  {
    if m < n { SplitStaysFailed(shape, cut, range, m, n - 1); }
  }

  method GetInputSplitRanges(shape: Shape, cut: CutInfo, range: Range) returns (r: Result<seq<Range>>)
    ensures r == SplitRanges(shape, cut, range, DimNum(shape))
  {
    var ranges: seq<Range> := [];
    var n := DimNum(shape);
    for j := 0 to n
      invariant SplitRanges(shape, cut, range, j) == Ok(ranges)
    {
      if cut.axes == [] {
        SplitStaysFailed(shape, cut, range, j + 1, n);
        return Unspecified;
      }
      if j == cut.axes[0] {
        if range == [] {
          SplitStaysFailed(shape, cut, range, j + 1, n);
          return Unspecified;
        }
        if range[|range| - 1] > shape[j] {
          SplitStaysFailed(shape, cut, range, j + 1, n);
          return Failed;
        }
      }
      ranges := ranges + [range];
    }
    return Ok(ranges);
  }

  lemma {:induction false} RangesStayFailed(op: Op, cuts: seq<CutInfo>, range: Option<Range>, m: nat, n: nat)
    requires m <= n <= |cuts| && !InputRanges(op, cuts, range, m).Ok?
    ensures InputRanges(op, cuts, range, n) == InputRanges(op, cuts, range, m)
  {
    if m < n { RangesStayFailed(op, cuts, range, m, n - 1); }
  }

  method InferAxisSlice(op: Op, info: AxisTypeInfo, slices: seq<seq<Range>>) returns (r: Result<seq<seq<Range>>>)
    ensures r == Elementwise(op, info, slices)
  {
    hide CheckSlices, SplitRanges, Lookup;
    var cuts := info.inputs;
    if cuts == [] || info.outputs == [] {
      return Failed;
    }
    var checked := CheckOutDataSlice(op, info.outputs, slices);
    if !checked.Ok? {
      return if checked.Failed? then Failed else Unspecified;
    }
    var range := Reference(info.outputs, slices);
    var done: seq<seq<Range>> := [];
    for i := 0 to |cuts|
      invariant InputRanges(op, cuts, range, i) == Ok(done)
    {
      var t := Lookup(op, Input, cuts[i].tensor);
      if t.None? {
        RangesStayFailed(op, cuts, range, i + 1, |cuts|);
        return Failed;
      }
      if range.None? {
        RangesStayFailed(op, cuts, range, i + 1, |cuts|);
        return Unspecified;
      }
      var one := GetInputSplitRanges(t.value.shape, cuts[i], range.value);
      if !one.Ok? {
        RangesStayFailed(op, cuts, range, i + 1, |cuts|);
        return if one.Failed? then Failed else Unspecified;
      }
      done := done + [one.value];
    }
    return Ok(done);
  }

  method TransSlices(dir: Direction, op: Op, info: AxisTypeInfo, slices: seq<seq<Range>>) returns (r: Result<seq<seq<Range>>>)
    ensures r == TransSliceInfo(dir, op, info, slices)
  {
    hide ConvertSlices, TypeForSlice;
    var axisType := TypeForSlice(info);
    if axisType == ELEMENTWISE || IsReduce(axisType) || axisType == REDUCEMEAN {
      r := TransSliceInfoForElement(dir, op, info, slices);
    } else if axisType == SLIDINGWINDOW || axisType == SLIDINGWINDOWGRAD || axisType == ELEMENTWITHSHAPEVALUE {
      r := Ok(slices);
    } else {
      r := Failed;
    }
  }

  method CheckSide(ts: seq<Tensor>, side: Side) returns (b: bool)
    ensures b <==> OriginKnown(ts, side, Bound(ts, side))
  {
    for i := 0 to Bound(ts, side)
      invariant OriginKnown(ts, side, i)
    {
      if Present(side, ts[i]) && MissesOrigin(ts[i]) {
        return false;
      }
    }
    return true;
  }

  class OpDesc {
    var inputs: seq<Tensor>
    var outputs: seq<Tensor>

    constructor (op: Op)
      ensures Value() == op
    {
      inputs, outputs := op.inputs, op.outputs;
    }

    function Value(): Op
      reads this
    {
      Op(inputs, outputs)
    }

    method CheckOriInfo() returns (b: bool)
      ensures b <==> CheckedOrigin(Value())
    {
      b := CheckSide(inputs, Input);
      if b {
        b := CheckSide(outputs, Output);
      }
    }

    method SetOriOpInfo() returns (inputCache: seq<Layout>, outputCache: seq<Layout>)
      modifies this
      ensures Value() == ToOrigin(old(Value()))
      ensures inputCache == Saved(old(inputs), Input, Bound(old(inputs), Input))
      ensures outputCache == Saved(old(outputs), Output, Bound(old(outputs), Output))
    {
      ghost var (ins, outs) := (inputs, outputs);
      inputCache, outputCache := [], [];
      var inputSize := Bound(inputs, Input);
      for i := 0 to inputSize
        invariant inputs == SetOri(ins, Input, i) && inputCache == Saved(ins, Input, i) && outputs == outs
      {
        SetOriAt(ins, Input, i, i);
        if Present(Input, inputs[i]) {
          inputCache := inputCache + [LayoutOf(inputs[i])];
          inputs := inputs[i := AsOrigin(inputs[i])];
        }
      }
      var outputSize := Bound(outputs, Output);
      for i := 0 to outputSize
        invariant outputs == SetOri(outs, Output, i) && outputCache == Saved(outs, Output, i)
        invariant inputs == SetOri(ins, Input, inputSize)
      {
        SetOriAt(outs, Output, i, i);
        outputCache := outputCache + [LayoutOf(outputs[i])];
        outputs := outputs[i := AsOrigin(outputs[i])];
      }
    }

    method SetCurOpInfo(inputCache: seq<Layout>, outputCache: seq<Layout>)
      requires Count(inputs, Input, Bound(inputs, Input)) <= |inputCache|
      requires Count(outputs, Output, Bound(outputs, Output)) <= |outputCache|
      modifies this
      ensures inputs == SetCur(old(inputs), Input, inputCache, Bound(old(inputs), Input))
      ensures outputs == SetCur(old(outputs), Output, outputCache, Bound(old(outputs), Output))
    {
      ghost var (ins, outs) := (inputs, outputs);
      var item := 0;
      var inputSize := Bound(inputs, Input);
      for i := 0 to inputSize
        invariant Count(ins, Input, i) <= |inputCache|
        invariant inputs == SetCur(ins, Input, inputCache, i) && item == Count(ins, Input, i) && outputs == outs
      {
        CountGrows(ins, Input, i + 1, inputSize);
        SetCurAt(ins, Input, inputCache, i, i);
        if Present(Input, inputs[i]) {
          inputs := inputs[i := WithLayout(inputs[i], inputCache[item])];
          item := item + 1;
        }
      }
      item := 0;
      var outputSize := Bound(outputs, Output);
      for i := 0 to outputSize
        invariant Count(outs, Output, i) <= |outputCache|
        invariant outputs == SetCur(outs, Output, outputCache, i) && item == Count(outs, Output, i)
        invariant inputs == SetCur(ins, Input, inputCache, inputSize)
      {
        CountGrows(outs, Output, i + 1, outputSize);
        SetCurAt(outs, Output, outputCache, i, i);
        outputs := outputs[i := WithLayout(outputs[i], outputCache[item])];
        item := item + 1;
      }
    }

    method SetInputSlice(cuts: seq<CutInfo>, slices: seq<seq<Range>>) returns (r: Result<()>)
      modifies this`inputs
      ensures Outcome(r, Value()) == SetInput(old(Value()), cuts, slices)
    {
      if |slices| == |cuts| {
        ghost var ins := inputs;
        for n := 0 to |slices|
          invariant SetSlices(ins, cuts, slices, n) == (true, inputs)
        {
          if cuts[n].tensor >= |inputs| {
            SetStaysFailed(ins, cuts, slices, n + 1, |slices|);
            return Failed;
          }
          var i := cuts[n].tensor % U32;
          if i < |inputs| && IsValid(inputs[i]) {
            inputs := inputs[i := inputs[i].(slice := slices[n])];
          }
        }
      }
      return Ok(());
    }

    method GetOriOutputSlice(info: AxisTypeInfo) returns (r: Result<seq<seq<Range>>>)
      ensures r == OriginalSlices(Value(), info)
    {
      hide Lookup;
      var slices: seq<seq<Range>> := [];
      for n := 0 to |info.outputs|
        invariant slices == OutputSlices(Value(), info.outputs, n)
      {
        var t := Lookup(Value(), Output, info.outputs[n].tensor);
        slices := slices + [if t.Some? then t.value.slice else []];
      }
      r := TransSlices(CurToOri, Value(), info, slices);
    }

    /** Infers the slices of the inputs; whatever the result, the formats and shapes that were switched
        are put back first. */
    method InferDavinciCommonOpSlice(info: AxisTypeInfo) returns (r: Result<()>)
      modifies this
      ensures Outcome(r, Value()) == Infer(old(Value()), info)
    {
      hide OriginalSlices, CheckedOrigin, TransSliceInfo, Elementwise, SetInput, SetOri, SetCur, Saved, Count;
      if !HasRule(info.axisType) {
        return Failed;
      }
      var ori := GetOriOutputSlice(info);
      if !ori.Ok? {
        return Status(ori);
      }
      var valid := CheckOriInfo();
      if !valid {
        return Failed;
      }
      ghost var op := Value();
      var inputCache, outputCache := SetOriOpInfo();
      var slices := ori;
      if info.axisType == ELEMENTWISE {
        slices := InferAxisSlice(Value(), OriginalInfo(info), ori.value);
      }
      BackupSuffices(op.inputs, Input);
      BackupSuffices(op.outputs, Output);
      SetCurOpInfo(inputCache, outputCache);
      assert Value() == BackOp(op);
      if !slices.Ok? {
        return Status(slices);
      }
      var cur := TransSlices(OriToCur, Value(), info, slices.value);
      if !cur.Ok? {
        return Status(cur);
      }
      r := SetInputSlice(info.inputs, cur.value);
    }
  }

  lemma {:induction false} SetStaysFailed(inputs: seq<Tensor>, cuts: seq<CutInfo>, slices: seq<seq<Range>>, m: nat, n: nat)
    requires m <= n <= |cuts| == |slices| && !SetSlices(inputs, cuts, slices, m).0
    ensures SetSlices(inputs, cuts, slices, n) == SetSlices(inputs, cuts, slices, m)
  {
    if m < n { SetStaysFailed(inputs, cuts, slices, m, n - 1); }
  }
}
