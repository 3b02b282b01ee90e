/** The axis mapping in numbers, format by format, and what follows for packing factors and for the cut
    information that is kept. */
module SliceTables {
  import opened Ordered
  import opened SliceAxes
  import opened SliceRanges
  import opened SliceAdapter
  import opened SliceInfer

  // ----- Packed formats -----

  /** Where the axes of an original format go in NC1HWC0, or in NDC1HWC0 for five letters. */
  function PackedTable(f: Format): seq<seq<int>> {
    match f
    case NCHW => [[0], [1, 4], [2], [3]]
    case NHWC => [[0], [2], [3], [1, 4]]
    case CHWN => [[1, 4], [2], [3], [0]]
    case HWCN => [[2], [3], [1, 4], [0]]
    case NCDHW => [[0], [2, 5], [1], [3], [4]]
    case NDHWC => [[0], [1], [3], [4], [2, 5]]
    case DHWCN => [[1], [3], [4], [2, 5], [0]]
    case DHWNC => [[1], [3], [4], [0], [2, 5]]
    case _ => []
  }

  lemma PackedLetter(f: Format, a: nat)
    requires In4DSet(f) || In5DSet(f)
    requires a < if In4DSet(f) then 4 else 5
    ensures var ls := Letters(StorageFormat(f, 0));
            && ls.Some? && a < |ls.value| && a < |PackedTable(f)|
            && Place(ls.value[a], if In4DSet(f) then 4 else 5) == PackedTable(f)[a]
  {}

  lemma PackedNumbers(t: Tensor, a: nat)
    requires Packed(t) && a < |t.oriShape|
    ensures a < |PackedTable(t.oriFormat.primary)| && TransAxis(t, a) == Axes(PackedTable(t.oriFormat.primary)[a])
  {
    hide TransAxis, Letters, Place, PackedTable;
    PackedImage(t, a);
    PackedLetter(t.oriFormat.primary, a);
    assert t.oriFormat == StorageFormat(t.oriFormat.primary, 0);
  }

  // ----- Formats that are not packed -----

  /** Where the axes of one format go in another one of the same letters. */
  function Table4(f: Format, g: Format): seq<int> {
    match (f, g)
    case (NCHW, NHWC) => [0, 3, 1, 2]
    case (NCHW, CHWN) => [3, 0, 1, 2]
    case (NCHW, HWCN) => [3, 2, 0, 1]
    case (NHWC, NCHW) => [0, 2, 3, 1]
    case (NHWC, CHWN) => [3, 1, 2, 0]
    case (NHWC, HWCN) => [3, 0, 1, 2]
    case (CHWN, NCHW) => [1, 2, 3, 0]
    case (CHWN, NHWC) => [3, 1, 2, 0]
    case (CHWN, HWCN) => [2, 0, 1, 3]
    case (HWCN, NCHW) => [2, 3, 1, 0]
    case (HWCN, NHWC) => [1, 2, 3, 0]
    case (HWCN, CHWN) => [1, 2, 0, 3]
    case _ => []
  }

  function Table5(f: Format, g: Format): seq<int> {
    match (f, g)
    case (NCDHW, NDHWC) => [0, 4, 1, 2, 3]
    case (NCDHW, DHWCN) => [4, 3, 0, 1, 2]
    case (NCDHW, DHWNC) => [3, 4, 0, 1, 2]
    case (NDHWC, NCDHW) => [0, 2, 3, 4, 1]
    case (NDHWC, DHWCN) => [4, 0, 1, 2, 3]
    case (NDHWC, DHWNC) => [3, 0, 1, 2, 4]
    case (DHWCN, NCDHW) => [2, 3, 4, 1, 0]
    case (DHWCN, NDHWC) => [1, 2, 3, 4, 0]
    case (DHWCN, DHWNC) => [0, 1, 2, 4, 3]
    case (DHWNC, NCDHW) => [2, 3, 4, 0, 1]
    case (DHWNC, NDHWC) => [1, 2, 3, 0, 4]
    case (DHWNC, DHWCN) => [0, 1, 2, 4, 3]
    case _ => []
  }

  lemma SameLetter4(f: Format, g: Format, a: nat)
    requires In4DSet(f) && In4DSet(g) && f != g && a < 4
    ensures var (ls, ms) := (Letters(StorageFormat(f, 0)), Letters(StorageFormat(g, 0)));
            && ls.Some? && ms.Some? && |ls.value| == |ms.value| == 4 && |Table4(f, g)| == 4
            && 0 <= Table4(f, g)[a] < 4 && ms.value[Table4(f, g)[a]] == ls.value[a]
  {}

  lemma SameLetter5(f: Format, g: Format, a: nat)
    requires In5DSet(f) && In5DSet(g) && f != g && a < 5
    ensures var (ls, ms) := (Letters(StorageFormat(f, 0)), Letters(StorageFormat(g, 0)));
            && ls.Some? && ms.Some? && |ls.value| == |ms.value| == 5 && |Table5(f, g)| == 5
            && 0 <= Table5(f, g)[a] < 5 && ms.value[Table5(f, g)[a]] == ls.value[a]
  {}

  function PlainTable(f: Format, g: Format): seq<int> {
    if In4DSet(f) then Table4(f, g) else Table5(f, g)
  }

  lemma PlainNumbers(t: Tensor, a: nat)
    requires SameFamily(t) && a < |t.oriShape|
    ensures var table := PlainTable(t.oriFormat.primary, t.format.primary);
            a < |table| && TransAxis(t, a) == Axes([table[a]])
  {
    hide TransAxis, Letters, Table4, Table5, IndexOf;
    var (f, g) := (t.oriFormat.primary, t.format.primary);
    NoSplitImage(t, a);
    AllLetters(g);
    assert t.oriFormat == StorageFormat(f, 0);
    if In4DSet(f) { SameLetter4(f, g, a); } else { SameLetter5(f, g, a); }
  }

  // ----- The other cases -----

  /** The fractal format splits the last two axes and exchanges their order. */
  lemma FractalNumbers(t: Tensor, a: int)
    requires IsNZ(t)
    ensures var r := |t.oriShape|;
            TransAxis(t, a) == Axes(if a < r - 2 then [a] else if a == r - 2 then [r - 1, r]
                                    else if a == r - 1 then [r - 2, r + 1] else [])
  {}

  /** A format that is the original one keeps every axis. */
  lemma SameFormat(t: Tensor, a: int)
    requires t.oriFormat == StorageFormat(t.format.primary, 0)
    ensures TransAxis(t, a) == Axes([a])
  {}

  ghost predicate PackedFrom(t: Tensor, dimNum: nat) {
    && t.oriFormat.sub == 0
    && (if dimNum == 4 then In4DSet(t.oriFormat.primary) && t.format.primary in {NC1HWC0, NC1HWC0_C04}
        else dimNum == 5 && In5DSet(t.oriFormat.primary) && t.format.primary == NDC1HWC0)
  }

  /** Where an axis goes that is named by a letter of the reshape type. */
  function ReshapedTo(c: char, dimNum: nat): seq<int> {
    if c == 'N' then [0]
    else if c == 'C' then (if dimNum == 4 then [1, 4] else [2, 5])
    else if c == 'H' then (if dimNum == 4 then [2] else [3])
    else if c == 'W' then (if dimNum == 4 then [3] else [4])
    else if c == 'D' && dimNum == 5 then [1] else []
  }

  lemma LetterTo(f: Format, l: Letter, dimNum: nat)
    requires if dimNum == 4 then In4DSet(f) else dimNum == 5 && In5DSet(f)
    ensures var ls := Letters(StorageFormat(f, 0)).value;
            l in {N, H, W, C} || (l == D && dimNum == 5) <==> l in ls
  {
    AllLetters(f);
  }

  /** A tensor of lower rank is mapped by the letters of its reshape type, one for each of its axes. */
  lemma ReshapedNumbers(t: Tensor, a: nat, dimNum: nat)
    requires PackedFrom(t, dimNum) && a < |t.oriShape| == |t.reshapeType| < dimNum
    ensures TransAxis(t, a) == Axes(ReshapedTo(t.reshapeType[a], dimNum))
  {
    hide Letters, IndexOf;
    var (f, named) := (t.oriFormat.primary, LetterNamed(t.reshapeType[a]));
    AllLetters(f);
    PackedLetters();
    assert t.oriFormat == StorageFormat(f, 0);
    var ls := Letters(t.oriFormat).value;
    if named.Some? {
      LetterTo(f, named.value, dimNum);
      IndexInPacked(named.value);
      assert IndexOf(ls, named.value) < |ls| <==> named.value in ls;
    }
  }

  /** Any other rank is refused. */
  lemma RankRefused(t: Tensor, a: int, dimNum: nat)
    requires PackedFrom(t, dimNum) && |t.oriShape| != dimNum && !(|t.oriShape| < dimNum && |t.oriShape| == |t.reshapeType|)
    ensures TransAxis(t, a) == Axes([])
  {
    hide Letters;
  }

  // ----- Packing factors -----

  /** A dimension as an unsigned number of 64 bits. */
  function Unsigned(shape: Shape, i: nat): int {
    if i < |shape| then shape[i] % 0x1_0000_0000_0000_0000 else 0
  }

  lemma FactorOfOne(shape: Shape, a: int)
    ensures RestProduct(shape, [a], 1) == 1
  {}

  lemma FactorOfTwo(shape: Shape, a: int, b: nat)
    ensures RestProduct(shape, [a, b], 2) == Unsigned(shape, b)
  {
    assert RestProduct(shape, [a, b], 1) == 1;
  }

  /** The channel axis is packed by the innermost dimension, all other axes are not packed. */
  lemma PackedFactor(t: Tensor, a: nat)
    requires Packed(t) && a < |t.oriShape|
    ensures TransAxis(t, a).Axes? && a < |PackedTable(t.oriFormat.primary)|
    ensures Factor(t, a) == if |PackedTable(t.oriFormat.primary)[a]| == 2 then Unsigned(t.shape, |t.oriShape|) else 1
  {
    hide TransAxis, RestProduct, Unsigned;
    PackedNumbers(t, a);
    FactorOfOne(t.shape, PackedTable(t.oriFormat.primary)[a][0]);
    FactorOfTwo(t.shape, PackedTable(t.oriFormat.primary)[a][0], |t.oriShape|);
  }

  /** The last two axes of a fractal tensor are packed by the dimensions at `r` and `r + 1`. */
  lemma FractalFactor(t: Tensor, a: int)
    requires IsNZ(t) && a < |t.oriShape|
    ensures TransAxis(t, a).Axes?
    ensures var r := |t.oriShape|;
            Factor(t, a) == if a == r - 2 then Unsigned(t.shape, r) else if a == r - 1 then Unsigned(t.shape, r + 1) else 1
  {
    hide TransAxis, RestProduct, Unsigned;
    FractalNumbers(t, a);
    var r := |t.oriShape|;
    FactorOfOne(t.shape, a);
    FactorOfTwo(t.shape, r - 1, r);
    FactorOfTwo(t.shape, r - 2, r + 1);
  }

  /** Between formats that are not packed the factor is 1. */
  lemma PlainFactor(t: Tensor, a: nat)
    requires (SameFamily(t) && a < |t.oriShape|) || t.oriFormat == StorageFormat(t.format.primary, 0)
    ensures TransAxis(t, a).Axes? && Factor(t, a) == 1
  {
    hide TransAxis, RestProduct;
    if t.oriFormat == StorageFormat(t.format.primary, 0) { SameFormat(t, a); } else { PlainNumbers(t, a); }
    FactorOfOne(t.shape, TransAxis(t, a).list[0]);
  }

  // ----- Which cut information is kept -----

  /** The axis can be translated: it has images, and for the reducing kinds just one. */
  ghost predicate Translatable(t: Option<Tensor>, mode: Mode, axis: int) {
    && t.Some? && TransAxis(t.value, axis).Axes? && TransAxis(t.value, axis).list != []
    && (mode == ReduceMode ==> |TransAxis(t.value, axis).list| == 1)
  }

  ghost function ImageCount(t: Option<Tensor>, mode: Mode, axes: seq<int>, n: nat): nat
    requires n <= |axes| && forall k :: 0 <= k < n ==> Translatable(t, mode, axes[k])
  {
    if n == 0 then 0 else
    assert Translatable(t, mode, axes[n - 1]);
    ImageCount(t, mode, axes, n - 1) + |TransAxis(t.value, axes[n - 1]).list|
  }

  lemma {:induction false} AxesKeptIff(t: Option<Tensor>, mode: Mode, axes: seq<int>, n: nat)
    requires n <= |axes|
    ensures TransAxes(t, mode, axes, n).Ok? <==> forall k :: 0 <= k < n ==> Translatable(t, mode, axes[k])
    ensures TransAxes(t, mode, axes, n).Ok? ==> |TransAxes(t, mode, axes, n).value| == ImageCount(t, mode, axes, n)
  {
    hide TransAxis;
    if n > 0 {
      AxesKeptIff(t, mode, axes, n - 1);
      if Translatable(t, mode, axes[n - 1]) && TransAxes(t, mode, axes, n - 1).Ok? {
        assert forall k :: 0 <= k < n ==> k == n - 1 || Translatable(t, mode, axes[k]);
      }
      if forall k :: 0 <= k < n ==> Translatable(t, mode, axes[k]) { assert Translatable(t, mode, axes[n - 1]); }
    }
  }

  ghost predicate CutKept(op: Op, side: Side, mode: Mode, cut: CutInfo) {
    forall k :: 0 <= k < |cut.axes| ==> Translatable(Lookup(op, side, cut.tensor), mode, cut.axes[k])
  }

  lemma {:induction false} CutsKeptIff(op: Op, side: Side, mode: Mode, cuts: seq<CutInfo>, n: nat)
    requires n <= |cuts|
    ensures TransCuts(op, side, mode, cuts, n).Ok? <==> forall i :: 0 <= i < n ==> CutKept(op, side, mode, cuts[i])
  {
    hide TransAxes, Translatable, Lookup;
    if n > 0 {
      CutsKeptIff(op, side, mode, cuts, n - 1);
      var cut := cuts[n - 1];
      AxesKeptIff(Lookup(op, side, cut.tensor), mode, cut.axes, |cut.axes|);
    }
  }

  /** All cuts have the same positive number of axes; the outputs of a reducing sum, maximum or minimum may
      have none. */
  ghost predicate Uniform(info: AxisTypeInfo, n: nat) {
    && n > 0 && (forall i :: 0 <= i < |info.inputs| ==> |info.inputs[i].axes| == n)
    && forall i :: 0 <= i < |info.outputs| ==>
         |info.outputs[i].axes| == n || (info.outputs[i].axes == [] && info.axisType in {REDUCESUM, REDUCEMAX, REDUCEMIN})
  }

  lemma {:induction false} CountAgrees(cuts: seq<CutInfo>, skip: bool, count: nat, n: nat)
    requires n <= |cuts| && count > 0
    ensures CountAxes(cuts, skip, count, n) == Some(count) <==>
            forall i :: 0 <= i < n ==> |cuts[i].axes| == count || (skip && cuts[i].axes == [])
    ensures CountAxes(cuts, skip, count, n) == Some(count) || CountAxes(cuts, skip, count, n) == None
  {
    if n > 0 { CountAgrees(cuts, skip, count, n - 1); }
  }

  lemma {:induction false} CountFromNothing(cuts: seq<CutInfo>, n: nat)
    requires 0 < n <= |cuts| && forall i :: 0 <= i < n ==> cuts[i].axes != []
    ensures var c := |cuts[0].axes|;
            if forall i :: 0 <= i < n ==> |cuts[i].axes| == c then CountAxes(cuts, false, 0, n) == Some(c)
            else CountAxes(cuts, false, 0, n) == None
  {
    if n > 1 { CountFromNothing(cuts, n - 1); } else { assert CountAxes(cuts, false, 0, 0) == Some(0); }
  }

  /** An entry is fixed to one axis each exactly when its cuts are uniform. */
  lemma FixedIff(info: AxisTypeInfo)
    requires info.inputs != []
    ensures FixToOne(info).Ok? <==> exists n: nat :: Uniform(info, n)
  {
    hide CountAxes;
    var c := |info.inputs[0].axes|;
    if forall i :: 0 <= i < |info.inputs| ==> info.inputs[i].axes != [] {
      CountFromNothing(info.inputs, |info.inputs|);
      CountAgrees(info.outputs, IsReduce(info.axisType), c, |info.outputs|);
      if FixToOne(info).Ok? { assert Uniform(info, c); }
      if n: nat :| Uniform(info, n) { assert n == c; }
    } else if n: nat :| Uniform(info, n) {
      assert false;
    }
  }

  /** What an entry needs to be kept: cuts on both sides, a kind that is translated, axes that can be, and
      for the elementwise kinds a uniform number of images. */
  lemma EntryKeptIff(op: Op, info: AxisTypeInfo)
    ensures TransEntry(op, info).Ok? <==>
            var mode := ModeOf(TypeForAxis(info));
            && info.inputs != [] && info.outputs != [] && mode.Some?
            && (forall i :: 0 <= i < |info.inputs| ==> CutKept(op, Input, mode.value, info.inputs[i]))
            && (forall i :: 0 <= i < |info.outputs| ==> CutKept(op, Output, mode.value, info.outputs[i]))
            && (mode.value == ElementMode ==> exists n: nat :: Uniform(Translated(op, info), n))
  {
    hide TransCuts, FixToOne, CutKept, Uniform;
    var mode := ModeOf(TypeForAxis(info));
    if info.inputs != [] && info.outputs != [] && mode.Some? {
      CutsKeptIff(op, Input, mode.value, info.inputs, |info.inputs|);
      CutsKeptIff(op, Output, mode.value, info.outputs, |info.outputs|);
      if TransCuts(op, Input, mode.value, info.inputs, |info.inputs|).Ok? && TransCuts(op, Output, mode.value, info.outputs, |info.outputs|).Ok? {
        CutsLength(op, Input, mode.value, info.inputs, |info.inputs|);
        FixedIff(Translated(op, info));
      }
    }
  }

  /** The entry with all images of its axes, before it is fixed to one each. */
  ghost function Translated(op: Op, info: AxisTypeInfo): AxisTypeInfo {
    var mode := ModeOf(TypeForAxis(info));
    if mode.None? then info else
    var (ins, outs) := (TransCuts(op, Input, mode.value, info.inputs, |info.inputs|), TransCuts(op, Output, mode.value, info.outputs, |info.outputs|));
    if ins.Ok? && outs.Ok?
    then info.(inputs := ins.value, outputs := outs.value, oriInputs := info.inputs, oriOutputs := info.outputs) else info
  }

  /** The kinds that take the first image of each axis, those that need it to be the only one, and those
      that take all. */
  lemma KindsTranslated(axisType: AxisType)
    ensures ModeOf(axisType) == Some(ElementMode) <==> axisType in {ELEMENTWISE, TRANSPOSE, REDUCESUM, REDUCEMAX, REDUCEMIN}
    ensures ModeOf(axisType) == Some(ReduceMode) <==> axisType in {REDUCEMEAN, REDUCEGATHER, ELEMENTWITHSHAPEVALUE}
    ensures ModeOf(axisType) == Some(OtherMode) <==> axisType in {SLIDINGWINDOW, SLIDINGWINDOWGRAD}
  {}

  /** A single kind counts as itself, elementwise together with a sum as a sliding window, three kinds or
      more as none; otherwise the entry's own kind counts. */
  lemma KindOfEntry(info: AxisTypeInfo, kinds: set<AxisType>)
    requires forall a :: a in kinds <==> a in info.axisTypes
    ensures (forall a :: kinds == {a} ==> TypeForAxis(info) == a && TypeForSlice(info) == a)
    ensures kinds == {ELEMENTWISE, REDUCESUM} ==> TypeForAxis(info) == SLIDINGWINDOW && TypeForSlice(info) == UNSPLIT
    ensures |kinds| > 2 ==> TypeForAxis(info) == UNSPLIT && TypeForSlice(info) == UNSPLIT
    ensures kinds == {} ==> TypeForAxis(info) == TypeForSlice(info) == info.axisType
    ensures |kinds| == 2 && kinds != {ELEMENTWISE, REDUCESUM} ==> TypeForAxis(info) == info.axisType && TypeForSlice(info) == UNSPLIT
  {
    assert kinds == TypeSet(info);
    if |kinds| == 2 && ELEMENTWISE in kinds && REDUCESUM in kinds {
      var rest := kinds - {ELEMENTWISE, REDUCESUM};
      assert kinds == {ELEMENTWISE, REDUCESUM} + rest;
    }
    if kinds == {ELEMENTWISE, REDUCESUM} { assert |kinds| == 2; }
    forall a | kinds == {a} ensures TypeForAxis(info) == a && TypeForSlice(info) == a {
      assert a in info.axisTypes && info.axisTypes[0] in kinds;
    }
  }

  // ----- Invalid and lost inputs, and missing origins -----

  /** An input gets lost exactly if it has no data type, a format, and no original format. */
  lemma LostIff(ts: seq<Tensor>, n: nat)
    requires n <= |ts|
    ensures Lost(ts, Input, n) <==>
            exists i :: 0 <= i < n && !ts[i].typed && ts[i].format != StorageFormat(RESERVED, 0) && ts[i].oriFormat == StorageFormat(RESERVED, 0)
    ensures !Lost(ts, Output, n)
  {
    if i :| 0 <= i < n && !ts[i].typed && ts[i].format != StorageFormat(RESERVED, 0) && ts[i].oriFormat == StorageFormat(RESERVED, 0) {
      assert Present(Input, ts[i]) && !Present(Input, AsOrigin(ts[i]));
    }
  }

  ghost function Product(dims: Shape): int {
    if dims == [] then 1 else dims[0] * Product(dims[1..])
  }

  lemma {:induction false} ProductPositive(dims: Shape)
    requires forall i :: 0 <= i < |dims| ==> dims[i] > 0
    ensures Product(dims) >= 1
  {
    if dims != [] {
      ProductPositive(dims[1..]);
      MulMono(1, Product(dims[1..]), dims[0]);
    }
  }

  /** The first dimension that is not positive is the 0 at `i`, and the product before it fits 63 bits. */
  ghost predicate ZeroAt(dims: Shape, size: int, i: nat) {
    && i < |dims| && dims[i] == 0 && (forall j :: 0 <= j < i ==> dims[j] > 0)
    && size * Product(dims[..i]) < 0x8000_0000_0000_0000
  }

  lemma ZeroLater(dims: Shape, size: int, i: nat)
    requires 0 < i < |dims| && dims[0] > 0 && size >= 1
    ensures ZeroAt(dims, size, i) <==> ZeroAt(dims[1..], size * dims[0], i - 1)
    ensures ZeroAt(dims, size, i) ==> size * dims[0] < 0x8000_0000_0000_0000
  {
    var rest := dims[1..];
    assert dims[..i][1..] == rest[..i - 1];
    var p := Product(rest[..i - 1]);
    assert size * (dims[0] * p) == (size * dims[0]) * p;
    assert forall j :: 0 <= j < i - 1 ==> rest[j] == dims[j + 1];
    assert forall j :: 1 <= j < i ==> dims[j] == rest[j - 1];
    if ZeroAt(dims, size, i) {
      ProductPositive(rest[..i - 1]);
      MulMono(1, size, dims[0]);
      MulMono(1, p, size * dims[0]);
    }
  }

  lemma {:induction false} SizeZeroIff(dims: Shape, size: int)
    requires 1 <= size < I64_LIMIT
    ensures ShapeSizeFrom(dims, size) == 0 <==> exists i: nat :: ZeroAt(dims, size, i)
    decreases |dims|
  {
    if dims == [] {
    } else if dims[0] > 0 {
      DivisionLe(I64_LIMIT - 1, dims[0], size);
      MulMono(1, dims[0], size);
      if size <= (I64_LIMIT - 1) / dims[0] { SizeZeroIff(dims[1..], size * dims[0]); }
      if i: nat :| ZeroAt(dims, size, i) {
        ZeroLater(dims, size, i);
      }
      if size <= (I64_LIMIT - 1) / dims[0] {
        if i: nat :| ZeroAt(dims[1..], size * dims[0], i) {
          ZeroLater(dims, size, i + 1);
          assert ZeroAt(dims, size, i + 1);
        }
      }
    } else if dims[0] == 0 {
      assert dims[..0] == [] && ZeroAt(dims, size, 0);
    }
  }

  /** A shape counts as empty exactly if it has no dimension or a 0 that the product reaches; an original
      shape is missing if it is empty and the current one is not. */
  lemma MissesOriginIff(t: Tensor)
    ensures MissesOrigin(t) <==> EmptyShape(t.oriShape) && !EmptyShape(t.shape)
  {
    if t.oriShape != [] { SizeZeroIff(t.oriShape, 1); }
    if t.shape != [] { SizeZeroIff(t.shape, 1); }
  }

  ghost predicate EmptyShape(dims: Shape) {
    dims == [] || exists i: nat :: ZeroAt(dims, 1, i)
  }

  // ----- How the inference goes on and ends -----

  /** The target of a translated slice has a range for each dimension of its layout. */
  ghost predicate Spans(dir: Direction, op: Op, cut: CutInfo, slice: seq<Range>) {
    var t := Lookup(op, if dir == CurToOri then Output else Input, cut.tensor);
    t.Some? && |slice| == if dir == CurToOri then |t.value.oriShape| else |t.value.shape|
  }

  lemma {:induction false} AxesSpan(dir: Direction, t: Tensor, oriCuts: seq<CutInfo>, cut: CutInfo, slice: seq<Range>, n: nat)
    requires n <= |cut.axes| && ConvertAxes(dir, t, oriCuts, cut, slice, n).Ok?
    ensures |ConvertAxes(dir, t, oriCuts, cut, slice, n).value| == if dir == CurToOri then |t.oriShape| else |t.shape|
  {
    hide TransAxis, RestProduct, ToOri, ToCur, SearchOriAxis;
    if n > 0 { AxesSpan(dir, t, oriCuts, cut, slice, n - 1); }
  }

  /** Slices of a sliding window or of an operator with shape values stay as they are, elementwise and
      reducing ones are translated tensor by tensor, and all other kinds fail. */
  lemma SliceKinds(dir: Direction, op: Op, info: AxisTypeInfo, slices: seq<seq<Range>>)
    ensures var (kind, r) := (TypeForSlice(info), TransSliceInfo(dir, op, info, slices));
            var cuts := if dir == CurToOri then info.outputs else info.inputs;
            && (kind in {SLIDINGWINDOW, SLIDINGWINDOWGRAD, ELEMENTWITHSHAPEVALUE} ==> r == Ok(slices))
            && (kind in {ELEMENTWISE, REDUCESUM, REDUCEMAX, REDUCEMIN, REDUCEMEAN} && r.Ok? ==>
                  |r.value| == |slices| == |cuts| && forall i :: 0 <= i < |cuts| ==> Spans(dir, op, cuts[i], r.value[i]))
            && (kind in {UNSPLIT, TRANSPOSE, REDUCEGATHER, REDUCEPROD, ELEMENTWISEWITHFACTOR} ==> r == Failed)
  {
    hide TypeForSlice, ConvertTensor, ConvertAxes, Lookup;
    var cuts := if dir == CurToOri then info.outputs else info.inputs;
    var ori := if dir == CurToOri then info.oriOutputs else info.oriInputs;
    var r := TransSliceInfo(dir, op, info, slices);
    if TypeForSlice(info) in {ELEMENTWISE, REDUCESUM, REDUCEMAX, REDUCEMIN, REDUCEMEAN} && r.Ok? {
      if cuts == [] { assert ConvertTensors(dir, op, ori, cuts, slices, 0) == Ok([]); }
      forall i | 0 <= i < |cuts| ensures |r.value| == |cuts| && Spans(dir, op, cuts[i], r.value[i]) {
        TensorSpans(dir, op, ori, cuts, slices, i);
      }
    }
  }

  lemma TensorSpans(dir: Direction, op: Op, ori: seq<CutInfo>, cuts: seq<CutInfo>, slices: seq<seq<Range>>, i: nat)
    requires i < |cuts| == |slices| && ConvertTensors(dir, op, ori, cuts, slices, |cuts|).Ok?
    ensures var r := ConvertTensors(dir, op, ori, cuts, slices, |cuts|).value;
            |r| == |cuts| && Spans(dir, op, cuts[i], r[i])
  {
    hide ConvertTensors, ConvertAxes, Lookup;
    ConvertedAt(dir, op, ori, cuts, slices, |cuts|, i);
    var t := Lookup(op, if dir == CurToOri then Output else Input, cuts[i].tensor);
    AxesSpan(dir, t.value, ori, cuts[i], slices[i], |cuts[i].axes|);
  }

  /** An elementwise operator gives every input the range of the first output's cut axis, once for each
      dimension; a shape of unknown rank has none. */
  lemma ElementwiseSpreads(op: Op, info: AxisTypeInfo, slices: seq<seq<Range>>, i: nat)
    requires Elementwise(op, info, slices).Ok? && i < |info.inputs|
    ensures var (r, t, axis) := (Elementwise(op, info, slices).value, Lookup(op, Input, info.inputs[i].tensor), info.outputs[0].axes);
            && |r| == |info.inputs| && t.Some? && axis != [] && 0 <= axis[0] < |slices[0]|
            && |r[i]| == (if t.value.shape == [-2] then 0 else |t.value.shape|)
            && forall j :: 0 <= j < |r[i]| ==> r[i][j] == slices[0][axis[0]]
  {
    hide CheckSlices, Lookup, InputRanges, DimNum;
    var range := Reference(info.outputs, slices);
    InputRangesAt(op, info.inputs, range, |info.inputs|);
    InputSpan(op, info.inputs, range, |info.inputs|, i);
    assert AllAre(Elementwise(op, info, slices).value[i], range.value);
  }

  lemma {:induction false} InputSpan(op: Op, cuts: seq<CutInfo>, range: Option<Range>, n: nat, i: nat)
    requires i < n <= |cuts| && InputRanges(op, cuts, range, n).Ok?
    ensures var (r, t) := (InputRanges(op, cuts, range, n).value, Lookup(op, Input, cuts[i].tensor));
            |r| == n && t.Some? && |r[i]| == if t.value.shape == [-2] then 0 else |t.value.shape|
  {
    hide Lookup, SplitRanges;
    InputRangesAt(op, cuts, range, n);
    if i < n - 1 {
      InputSpan(op, cuts, range, n - 1, i);
      assert InputRanges(op, cuts, range, n).value[i] == InputRanges(op, cuts, range, n - 1).value[i];
    } else {
      if i > 0 { InputRangesAt(op, cuts, range, n - 1); }
      var t := Lookup(op, Input, cuts[i].tensor).value;
      SliceInfer.SplitAt(t.shape, cuts[i], range.value, DimNum(t.shape));
    }
  }

  lemma {:induction false} StoredUpTo(inputs: seq<Tensor>, cuts: seq<CutInfo>, slices: seq<seq<Range>>, n: nat, k: nat)
    requires n <= |cuts| == |slices| && k < |inputs|
    ensures SetSlices(inputs, cuts, slices, n).0 <==> forall i :: 0 <= i < n ==> cuts[i].tensor < |inputs|
    ensures (forall i :: 0 <= i < n ==> cuts[i].tensor % 0x1_0000_0000 != k) || (!inputs[k].typed && inputs[k].format == StorageFormat(RESERVED, 0)) ==>
            SetSlices(inputs, cuts, slices, n).1[k] == inputs[k]
  {
    if n > 0 { StoredUpTo(inputs, cuts, slices, n - 1, k); }
  }

  /** Slices that do not match the cuts one to one are dropped without an error. Otherwise storing them
      succeeds exactly when no cut names an input beyond the last, and changes only valid inputs that some
      cut names. */
  lemma StoredIff(op: Op, cuts: seq<CutInfo>, slices: seq<seq<Range>>, k: nat)
    requires k < |op.inputs|
    ensures |slices| != |cuts| ==> SetInput(op, cuts, slices) == Outcome(Ok(()), op)
    ensures |slices| == |cuts| ==> (SetInput(op, cuts, slices).status == Ok(()) <==> forall i :: 0 <= i < |cuts| ==> cuts[i].tensor < |op.inputs|)
    ensures SetInput(op, cuts, slices).op.outputs == op.outputs && |SetInput(op, cuts, slices).op.inputs| == |op.inputs|
    ensures SetInput(op, cuts, slices).op.inputs[k] != op.inputs[k] ==>
            && (exists i :: 0 <= i < |cuts| && cuts[i].tensor % 0x1_0000_0000 == k)
            && (op.inputs[k].typed || op.inputs[k].format != StorageFormat(RESERVED, 0))
  {
    hide SetSlices;
    if |slices| == |cuts| { StoredUpTo(op.inputs, cuts, slices, |cuts|, k); }
  }

  /** The entry is of a single kind whose slices stay as they are. */
  ghost predicate Passes(info: AxisTypeInfo, kind: AxisType) {
    && kind in {SLIDINGWINDOW, SLIDINGWINDOWGRAD, ELEMENTWITHSHAPEVALUE} && info.axisTypes != []
    && forall i :: 0 <= i < |info.axisTypes| ==> info.axisTypes[i] == kind
  }

  /** Only unsplit and elementwise entries have a rule; all others fail and leave the operator alone. An
      unsplit entry whose slices stay as they are hands the outputs' slices to the inputs. */
  lemma RuleIff(op: Op, info: AxisTypeInfo, kind: AxisType)
    ensures info.axisType !in {UNSPLIT, ELEMENTWISE} ==> Infer(op, info) == Outcome(Failed, op)
    ensures info.axisType == UNSPLIT && Passes(info, kind) && CheckedOrigin(op) ==>
            Infer(op, info) == SetInput(BackOp(op), info.inputs, OutputSlices(op, info.outputs, |info.outputs|))
  {
    hide CheckedOrigin, BackOp, SetInput, ToOrigin, OutputSlices, ConvertSlices, Elementwise;
    if Passes(info, kind) {
      assert info.axisTypes[0] == kind;
      assert TypeSet(info) == {kind};
    }
  }
}
