/** How the translation of cuts and slices ends when it does not succeed: which failure is reported, and
    where the code reads or divides without a guard. */
module SliceErrors {
  import opened Ordered
  import opened SliceAxes
  import opened SliceRanges
  import opened SliceAdapter
  import opened SliceInfer
  import opened SliceTables

  // ----- The first defect decides -----

  ghost predicate SameEnd<T, U>(a: Result<T>, b: Result<U>) {
    a.Ok? == b.Ok? && a.Failed? == b.Failed?
  }

  ghost predicate FirstDefect<U>(parts: seq<Result<U>>, i: nat) {
    i < |parts| && !parts[i].Ok? && forall j :: 0 <= j < i ==> parts[j].Ok?
  }

  /** The whole succeeds exactly when all parts do; otherwise it ends like the first part that does not. */
  ghost predicate Decides<T, U>(parts: seq<Result<U>>, whole: Result<T>) {
    && (whole.Ok? <==> forall i :: 0 <= i < |parts| ==> parts[i].Ok?)
    && forall i: nat :: FirstDefect(parts, i) ==> SameEnd(whole, parts[i])
  }

  lemma OneMore<T, U>(parts: seq<Result<U>>, before: Result<T>, part: Result<U>, whole: Result<T>)
    requires Decides(parts, before) && if before.Ok? then SameEnd(whole, part) else SameEnd(whole, before)
    ensures Decides(parts + [part], whole)
  {
    var all := parts + [part];
    assert forall i :: 0 <= i < |parts| ==> all[i] == parts[i];
    assert all[|parts|] == part;
    forall i: nat | FirstDefect(all, i) ensures SameEnd(whole, all[i]) {
      if i < |parts| { assert FirstDefect(parts, i); }
    }
  }

  // ----- Axes -----

  predicate HasLetters(f: StorageFormat) {
    f.sub == 0 && f.primary in {NCHW, NHWC, CHWN, HWCN, NC1HWC0, NC1HWC0_C04, NCDHW, NDHWC, DHWCN, DHWNC, NDC1HWC0}
  }

  /** The rank of the formats without the split of the channel axis. */
  function RankOf(f: Format): nat {
    if f in {NC1HWC0, NC1HWC0_C04, NCHW, NHWC, CHWN, HWCN} then 4
    else if f in {NDC1HWC0, NCDHW, NDHWC, DHWCN, DHWNC} then 5 else 0
  }

  /** An axis is read outside of a table exactly if it is negative where a table of letters is looked up, or
      a reshaped tensor has an original format without letters. */
  lemma UndefinedIff(t: Tensor, a: int)
    ensures var (f, r) := (t.format.primary, |t.oriShape|);
            TransAxis(t, a) == Undefined <==>
            && t.oriFormat != StorageFormat(f, 0) && RankOf(f) > 0
            && ((r == RankOf(f) && a < 0 && HasLetters(t.oriFormat)) ||
                (f in {NC1HWC0, NC1HWC0_C04, NDC1HWC0} && r == |t.reshapeType| < RankOf(f) && a < r && (a < 0 || !HasLetters(t.oriFormat))))
  {}

  /** How the translation of one axis ends. */
  function AxisEnd(t: Option<Tensor>, mode: Mode, axis: int): Result<()> {
    if t.None? then Failed else
    match TransAxis(t.value, axis)
    case Undefined => Unspecified
    case Axes(list) => if |list| == 1 || (|list| > 1 && mode != ReduceMode) then Ok(()) else Failed
  }

  ghost function AxisEnds(t: Option<Tensor>, mode: Mode, axes: seq<int>, n: nat): seq<Result<()>>
    requires n <= |axes|
  {
    seq(n, k requires 0 <= k < n => AxisEnd(t, mode, axes[k]))
  }

  lemma {:induction false} AxesDecide(t: Option<Tensor>, mode: Mode, axes: seq<int>, n: nat)
    requires n <= |axes|
    ensures Decides(AxisEnds(t, mode, axes, n), TransAxes(t, mode, axes, n))
  {
    hide TransAxis;
    if n > 0 {
      AxesDecide(t, mode, axes, n - 1);
      assert AxisEnds(t, mode, axes, n) == AxisEnds(t, mode, axes, n - 1) + [AxisEnd(t, mode, axes[n - 1])];
      OneMore(AxisEnds(t, mode, axes, n - 1), TransAxes(t, mode, axes, n - 1), AxisEnd(t, mode, axes[n - 1]), TransAxes(t, mode, axes, n));
    }
  }

  ghost function CutEnds(op: Op, side: Side, mode: Mode, cuts: seq<CutInfo>, n: nat): seq<Result<seq<int>>>
    requires n <= |cuts|
  {
    seq(n, i requires 0 <= i < n => TransAxes(Lookup(op, side, cuts[i].tensor), mode, cuts[i].axes, |cuts[i].axes|))
  }

  lemma {:induction false} CutsDecide(op: Op, side: Side, mode: Mode, cuts: seq<CutInfo>, n: nat)
    requires n <= |cuts|
    ensures Decides(CutEnds(op, side, mode, cuts, n), TransCuts(op, side, mode, cuts, n))
  {
    hide TransAxes, Lookup;
    if n > 0 {
      CutsDecide(op, side, mode, cuts, n - 1);
      var last := TransAxes(Lookup(op, side, cuts[n - 1].tensor), mode, cuts[n - 1].axes, |cuts[n - 1].axes|);
      assert CutEnds(op, side, mode, cuts, n) == CutEnds(op, side, mode, cuts, n - 1) + [last];
      OneMore(CutEnds(op, side, mode, cuts, n - 1), TransCuts(op, side, mode, cuts, n - 1), last, TransCuts(op, side, mode, cuts, n));
    }
  }

  /** `c` axes everywhere, but for empty cuts in front, or anywhere if those are skipped. */
  ghost predicate Evened(cuts: seq<CutInfo>, skip: bool, n: nat, c: nat)
    requires n <= |cuts|
  {
    && (forall i :: 0 <= i < n ==> |cuts[i].axes| == c || (cuts[i].axes == [] && (skip || AllEmpty(cuts, i))))
    && (c > 0 ==> exists i :: 0 <= i < n && |cuts[i].axes| == c)
  }

  ghost predicate AllEmpty(cuts: seq<CutInfo>, n: nat)
    requires n <= |cuts|
  {
    forall i :: 0 <= i < n ==> cuts[i].axes == []
  }

  lemma {:induction false} CountIff(cuts: seq<CutInfo>, skip: bool, n: nat, c: nat)
    requires n <= |cuts|
    ensures CountAxes(cuts, skip, 0, n) == Some(c) <==> Evened(cuts, skip, n, c)
  {
    if n > 0 {
      CountIff(cuts, skip, n - 1, c);
      CountIff(cuts, skip, n - 1, 0);
    }
  }

  /** Fixing an entry to one axis each takes the first axis of an empty list exactly if there is an input
      without axes and the lengths agree all the same: the lists count from the first one that has axes. */
  lemma FixUndefinedIff(info: AxisTypeInfo)
    ensures var skip := info.axisType in {REDUCESUM, REDUCEMAX, REDUCEMIN};
            FixToOne(info).Unspecified? <==>
            && (exists i :: 0 <= i < |info.inputs| && info.inputs[i].axes == [])
            && exists c: nat, d: nat :: EvenedBoth(info, skip, c, d)
  {
    hide CountAxes, Evened;
    var skip := info.axisType in {REDUCESUM, REDUCEMAX, REDUCEMIN};
    var (ins, outs) := (info.inputs, info.outputs);
    forall c: nat, d: nat
      ensures EvenedBoth(info, skip, c, d) <==>
              CountAxes(ins, false, 0, |ins|) == Some(c) && CountAxes(outs, skip, c, |outs|) == Some(d)
    {
      CountIff(ins, false, |ins|, c);
      if c == 0 { CountIff(outs, skip, |outs|, d); } else { CountAgrees(outs, skip, c, |outs|); }
    }
    var c := CountAxes(ins, false, 0, |ins|);
    if c.Some? && CountAxes(outs, skip, c.value, |outs|).Some? {
      assert EvenedBoth(info, skip, c.value, CountAxes(outs, skip, c.value, |outs|).value);
    }
  }

  ghost predicate EvenedBoth(info: AxisTypeInfo, skip: bool, c: nat, d: nat) {
    && Evened(info.inputs, false, |info.inputs|, c)
    && if c == 0 then Evened(info.outputs, skip, |info.outputs|, d)
       else d == c && forall i :: 0 <= i < |info.outputs| ==> |info.outputs[i].axes| == c || (skip && info.outputs[i].axes == [])
  }

  /** An entry is undefined exactly if the first defect among its cuts, inputs before outputs, is an
      undefined axis, or there is none and an elementwise entry cannot be fixed to one axis each. */
  lemma EntryUndefinedIff(op: Op, info: AxisTypeInfo)
    requires info.inputs != [] && info.outputs != [] && ModeOf(TypeForAxis(info)).Some?
    ensures var mode := ModeOf(TypeForAxis(info)).value;
            var ends := CutEnds(op, Input, mode, info.inputs, |info.inputs|) + CutEnds(op, Output, mode, info.outputs, |info.outputs|);
            TransEntry(op, info).Unspecified? <==>
            || (exists i: nat :: FirstDefect(ends, i) && ends[i].Unspecified?)
            || (mode == ElementMode && (forall i :: 0 <= i < |ends| ==> ends[i].Ok?) && FixToOne(Translated(op, info)).Unspecified?)
  {
    hide TransAxes, Lookup, TransCuts, FixToOne;
    var mode := ModeOf(TypeForAxis(info)).value;
    var (ins, outs) := (CutEnds(op, Input, mode, info.inputs, |info.inputs|), CutEnds(op, Output, mode, info.outputs, |info.outputs|));
    CutsDecide(op, Input, mode, info.inputs, |info.inputs|);
    CutsDecide(op, Output, mode, info.outputs, |info.outputs|);
    BothEnd(ins, outs, TransCuts(op, Input, mode, info.inputs, |info.inputs|), TransCuts(op, Output, mode, info.outputs, |info.outputs|));
  }

  lemma Defect<U>(parts: seq<Result<U>>, n: nat) returns (i: nat)
    requires n < |parts| && !parts[n].Ok?
    ensures FirstDefect(parts, i) && i <= n
    decreases n
  {
    if j :| 0 <= j < n && !parts[j].Ok? { i := Defect(parts, j); } else { i := n; }
  }

  lemma BothEnd<T, U>(ins: seq<Result<U>>, outs: seq<Result<U>>, a: Result<T>, b: Result<T>)
    requires Decides(ins, a) && Decides(outs, b)
    ensures a.Unspecified? || (a.Ok? && b.Unspecified?) <==> exists i: nat :: FirstDefect(ins + outs, i) && (ins + outs)[i].Unspecified?
    ensures a.Ok? && b.Ok? <==> forall i :: 0 <= i < |ins + outs| ==> (ins + outs)[i].Ok?
  {
    var all := ins + outs;
    assert forall i :: 0 <= i < |ins| ==> all[i] == ins[i];
    assert forall i :: 0 <= i < |outs| ==> all[|ins| + i] == outs[i];
    if !a.Ok? {
      var n: nat :| n < |ins| && !ins[n].Ok?;
      var i := Defect(ins, n);
      assert FirstDefect(all, i);
    } else if !b.Ok? {
      var n: nat :| n < |outs| && !outs[n].Ok?;
      var i := Defect(outs, n);
      assert FirstDefect(all, |ins| + i) by {
        forall j | 0 <= j < |ins| + i ensures all[j].Ok? {
          if j >= |ins| { assert all[j] == outs[j - |ins|]; }
        }
      }
    }
  }

  /** The kept entries are those at the places `at`. */
  ghost predicate Picks(op: Op, infos: seq<AxisTypeInfo>, n: nat, at: seq<nat>, kept: seq<AxisTypeInfo>)
    requires n <= |infos|
  {
    && |at| == |kept| && (forall j :: 0 <= j < |at| ==> at[j] < n && TransEntry(op, infos[at[j]]) == Ok(kept[j]))
    && (forall j, k :: 0 <= j < k < |at| ==> at[j] < at[k])
    && forall i :: 0 <= i < n && TransEntry(op, infos[i]).Ok? ==> i in at
  }

  /** Entries that fail are left out, the others stay in their order, and one undefined entry makes the
      whole translation undefined. */
  lemma {:induction false} EntriesInOrder(op: Op, infos: seq<AxisTypeInfo>, n: nat)
    requires n <= |infos|
    ensures var r := TransEntries(op, infos, n);
            && (r.Unspecified? <==> exists i :: 0 <= i < n && TransEntry(op, infos[i]).Unspecified?)
            && !r.Failed? && (r.Ok? ==> exists at: seq<nat> :: Picks(op, infos, n, at, r.value))
  {
    hide TransEntry, Picks;
    if n == 0 {
      NothingPicked(op, infos);
    } else {
      EntriesInOrder(op, infos, n - 1);
      var before := TransEntries(op, infos, n - 1);
      if before.Ok? && !TransEntry(op, infos[n - 1]).Unspecified? {
        var at: seq<nat> :| Picks(op, infos, n - 1, at, before.value);
        PicksNext(op, infos, n, at, before.value);
      }
    }
  }

  lemma NothingPicked(op: Op, infos: seq<AxisTypeInfo>)
    ensures Picks(op, infos, 0, [], [])
  {}

  lemma PicksNext(op: Op, infos: seq<AxisTypeInfo>, n: nat, at: seq<nat>, kept: seq<AxisTypeInfo>)
    requires 0 < n <= |infos| && Picks(op, infos, n - 1, at, kept)
    ensures var last := TransEntry(op, infos[n - 1]);
            if last.Ok? then Picks(op, infos, n, at + [n - 1], kept + [last.value]) else Picks(op, infos, n, at, kept)
  {
    hide TransEntry;
    var at' := at + [n - 1];
    forall i | 0 <= i < n && TransEntry(op, infos[i]).Ok? ensures i in at' {
      if i == n - 1 { assert at'[|at|] == i; } else { assert i in at; }
    }
  }

  // ----- Slices -----

  /** When one range is converted, and when the code reads or divides without a guard. */
  lemma ConvertedIff(dir: Direction, t: Tensor, slice: seq<Range>, cur: int, ori: int, acc: seq<Range>)
    ensures var (from, to) := if dir == CurToOri then (cur, ori) else (ori, cur);
            var (r, image) := (ConvertAxis(dir, t, slice, cur, ori, acc), TransAxis(t, ori));
            && (r.Ok? <==>
                  && ori >= 0 && 0 <= from < |slice| && 0 <= to < |acc| && |slice[from]| == 2
                  && image.Axes? && image.list != [] && (dir == OriToCur ==> Factor(t, ori) > 0))
            && (r.Unspecified? <==>
                  && ori >= 0 && from < |slice| && to < |acc|
                  && (from < 0 || (|slice[from]| == 2 && (image == Undefined ||
                        (image.list != [] && (to < 0 || (dir == OriToCur && Factor(t, ori) == 0)))))))
  {
    hide TransAxis, RestProduct, ToOri, ToCur;
  }

  function Span(dir: Direction, t: Tensor): nat {
    if dir == CurToOri then |t.oriShape| else |t.shape|
  }

  ghost function RangeEnds(dir: Direction, t: Tensor, oriCuts: seq<CutInfo>, cut: CutInfo, slice: seq<Range>, n: nat): seq<Result<seq<Range>>>
    requires n <= |cut.axes|
  {
    seq(n, k requires 0 <= k < n =>
      ConvertAxis(dir, t, slice, cut.axes[k], SearchOriAxis(oriCuts, cut.tensor, k), EmptyRanges(Span(dir, t))))
  }

  lemma {:induction false} RangesDecide(dir: Direction, t: Tensor, oriCuts: seq<CutInfo>, cut: CutInfo, slice: seq<Range>, n: nat)
    requires n <= |cut.axes|
    ensures Decides(RangeEnds(dir, t, oriCuts, cut, slice, n), ConvertAxes(dir, t, oriCuts, cut, slice, n))
  {
    hide ConvertAxis, SearchOriAxis;
    if n > 0 {
      RangesDecide(dir, t, oriCuts, cut, slice, n - 1);
      var (before, ori) := (ConvertAxes(dir, t, oriCuts, cut, slice, n - 1), SearchOriAxis(oriCuts, cut.tensor, n - 1));
      var last := ConvertAxis(dir, t, slice, cut.axes[n - 1], ori, EmptyRanges(Span(dir, t)));
      if before.Ok? {
        AxesSpan(dir, t, oriCuts, cut, slice, n - 1);
        ConvertedIff(dir, t, slice, cut.axes[n - 1], ori, before.value);
        ConvertedIff(dir, t, slice, cut.axes[n - 1], ori, EmptyRanges(Span(dir, t)));
      }
      assert RangeEnds(dir, t, oriCuts, cut, slice, n) == RangeEnds(dir, t, oriCuts, cut, slice, n - 1) + [last];
      OneMore(RangeEnds(dir, t, oriCuts, cut, slice, n - 1), before, last, ConvertAxes(dir, t, oriCuts, cut, slice, n));
    }
  }

  ghost function TensorEnds(dir: Direction, op: Op, oriCuts: seq<CutInfo>, cuts: seq<CutInfo>, slices: seq<seq<Range>>, n: nat): seq<Result<seq<Range>>>
    requires n <= |cuts| == |slices|
  {
    seq(n, i requires 0 <= i < n => ConvertTensor(dir, op, oriCuts, cuts[i], slices[i]))
  }

  lemma {:induction false} TensorsDecide(dir: Direction, op: Op, oriCuts: seq<CutInfo>, cuts: seq<CutInfo>, slices: seq<seq<Range>>, n: nat)
    requires n <= |cuts| == |slices|
    ensures Decides(TensorEnds(dir, op, oriCuts, cuts, slices, n), ConvertTensors(dir, op, oriCuts, cuts, slices, n))
  {
    hide ConvertTensor;
    if n > 0 {
      TensorsDecide(dir, op, oriCuts, cuts, slices, n - 1);
      var last := ConvertTensor(dir, op, oriCuts, cuts[n - 1], slices[n - 1]);
      assert TensorEnds(dir, op, oriCuts, cuts, slices, n) == TensorEnds(dir, op, oriCuts, cuts, slices, n - 1) + [last];
      OneMore(TensorEnds(dir, op, oriCuts, cuts, slices, n - 1), ConvertTensors(dir, op, oriCuts, cuts, slices, n - 1), last,
              ConvertTensors(dir, op, oriCuts, cuts, slices, n));
    }
  }

  /** Slices of the translated kinds fail without original cuts or with another number of slices than cuts;
      otherwise the first tensor that is not translated decides, and a missing one fails. */
  lemma SlicesDecide(dir: Direction, op: Op, info: AxisTypeInfo, slices: seq<seq<Range>>)
    requires TypeForSlice(info) in {ELEMENTWISE, REDUCESUM, REDUCEMAX, REDUCEMIN, REDUCEMEAN}
    ensures var (ori, cuts) := if dir == CurToOri then (info.oriOutputs, info.outputs) else (info.oriInputs, info.inputs);
            var r := TransSliceInfo(dir, op, info, slices);
            if ori == [] || |cuts| != |slices| then r == Failed else
            && Decides(TensorEnds(dir, op, ori, cuts, slices, |cuts|), r)
            && forall i :: 0 <= i < |cuts| && Lookup(op, if dir == CurToOri then Output else Input, cuts[i].tensor).None? ==>
                 TensorEnds(dir, op, ori, cuts, slices, |cuts|)[i] == Failed
  {
    hide TypeForSlice, ConvertTensors, ConvertAxes, Lookup;
    var (ori, cuts) := if dir == CurToOri then (info.oriOutputs, info.outputs) else (info.oriInputs, info.inputs);
    if ori != [] && |cuts| == |slices| { TensorsDecide(dir, op, ori, cuts, slices, |cuts|); }
  }

  // ----- The elementwise rule -----

  lemma {:induction false} CheckUndefinedIff(op: Op, cut: CutInfo, slice: seq<Range>, n: nat)
    requires n <= |slice|
    ensures CheckSlice(op, cut, slice, n).Unspecified? <==> n > 0 && cut.axes == []
  {
    if n > 0 { CheckUndefinedIff(op, cut, slice, n - 1); }
  }

  /** Splitting an input fails exactly if the range ends behind the dimension of the cut axis, and is
      undefined if there is no cut axis or no range for it. */
  lemma {:induction false} SplitIff(shape: Shape, cut: CutInfo, range: Range, n: nat)
    requires n <= |shape|
    ensures var r := SplitRanges(shape, cut, range, n);
            && (r.Unspecified? <==> n > 0 && (cut.axes == [] || (0 <= cut.axes[0] < n && range == [])))
            && (r.Failed? <==> cut.axes != [] && range != [] && 0 <= cut.axes[0] < n && range[|range| - 1] > shape[cut.axes[0]])
  {
    if n > 0 { SplitIff(shape, cut, range, n - 1); }
  }

  ghost function InputEnd(op: Op, cut: CutInfo, range: Option<Range>): Result<seq<Range>> {
    var t := Lookup(op, Input, cut.tensor);
    if t.None? then Failed else if range.None? then Unspecified
    else SplitRanges(t.value.shape, cut, range.value, DimNum(t.value.shape))
  }

  /** How the rule ends at place `i`: first the outputs are checked, then the inputs split. */
  ghost function RuleEnds(op: Op, info: AxisTypeInfo, slices: seq<seq<Range>>, n: nat): seq<Result<()>>
    requires |info.outputs| == |slices| > 0 && n <= |slices| + |info.inputs|
  {
    seq(n, i requires 0 <= i < n =>
      if i < |slices| then CheckSlice(op, info.outputs[i], slices[i], |slices[i]|)
      else Status(InputEnd(op, info.inputs[i - |slices|], Reference(info.outputs, slices))))
  }

  lemma {:induction false} ChecksDecide(op: Op, info: AxisTypeInfo, slices: seq<seq<Range>>, n: nat)
    requires |info.outputs| == |slices| > 0 && n <= |slices|
    ensures Decides(RuleEnds(op, info, slices, n), CheckSlices(op, info.outputs, slices, n))
  {
    hide CheckSlice, InputEnd, Reference;
    if n > 0 {
      ChecksDecide(op, info, slices, n - 1);
      var last := CheckSlice(op, info.outputs[n - 1], slices[n - 1], |slices[n - 1]|);
      assert RuleEnds(op, info, slices, n) == RuleEnds(op, info, slices, n - 1) + [last];
      OneMore(RuleEnds(op, info, slices, n - 1), CheckSlices(op, info.outputs, slices, n - 1), last, CheckSlices(op, info.outputs, slices, n));
    }
  }

  lemma {:induction false} SplitsDecide(op: Op, info: AxisTypeInfo, slices: seq<seq<Range>>, n: nat)
    requires |info.outputs| == |slices| > 0 && n <= |info.inputs|
    ensures var checked := CheckSlices(op, info.outputs, slices, |slices|);
            Decides(RuleEnds(op, info, slices, |slices| + n),
                    if checked.Ok? then Status(InputRanges(op, info.inputs, Reference(info.outputs, slices), n)) else checked)
  {
    hide CheckSlice, Lookup, SplitRanges, Reference, CheckSlices;
    if n == 0 {
      ChecksDecide(op, info, slices, |slices|);
    } else {
      SplitsDecide(op, info, slices, n - 1);
      var (checked, range) := (CheckSlices(op, info.outputs, slices, |slices|), Reference(info.outputs, slices));
      var last := Status(InputEnd(op, info.inputs[n - 1], range));
      assert RuleEnds(op, info, slices, |slices| + n) == RuleEnds(op, info, slices, |slices| + n - 1) + [last];
      OneMore(RuleEnds(op, info, slices, |slices| + n - 1),
              if checked.Ok? then Status(InputRanges(op, info.inputs, range, n - 1)) else checked, last,
              if checked.Ok? then Status(InputRanges(op, info.inputs, range, n)) else checked);
    }
  }

  /** The elementwise rule fails without inputs or outputs and with another number of slices than outputs;
      otherwise the first output that is not accepted decides, and then the first input that is not split. */
  lemma RuleDecides(op: Op, info: AxisTypeInfo, slices: seq<seq<Range>>)
    ensures if info.inputs == [] || info.outputs == [] || |info.outputs| != |slices| then Elementwise(op, info, slices) == Failed
            else Decides(RuleEnds(op, info, slices, |slices| + |info.inputs|), Elementwise(op, info, slices))
  {
    hide CheckSlices, Lookup, InputRanges, Reference, CheckSlice, InputEnd;
    if info.inputs != [] && info.outputs != [] && |info.outputs| == |slices| {
      SplitsDecide(op, info, slices, |info.inputs|);
    }
  }
}
