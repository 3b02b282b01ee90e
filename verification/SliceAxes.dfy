/** The mapping of a tensor's original axes to the axes of its current format. Reads outside a
    container, which the code does not guard against, give the result `Undefined`. */
module SliceAxes {
  import opened Ordered

  datatype Format =
    | NCHW | NHWC | CHWN | HWCN | NC1HWC0 | NC1HWC0_C04
    | NCDHW | NDHWC | DHWCN | DHWNC | NDC1HWC0 | FRACTAL_NZ | ND | RESERVED | Other(code: int)

  /** A format as stored: the primary format and the sub-format packed above it. */
  datatype StorageFormat = StorageFormat(primary: Format, sub: nat)

  datatype Letter = N | C | H | W | D | C1 | C0

  type Shape = seq<int>
  type Range = seq<int>

  /** What slicing looks at in a tensor description. `typed` says that its data type is defined and
      `slice` is its data-slice attribute. */
  datatype Tensor = Tensor(format: StorageFormat, shape: Shape, oriFormat: StorageFormat, oriShape: Shape,
                           reshapeType: string, typed: bool, slice: seq<Range>)

  datatype Axes = Axes(list: seq<int>) | Undefined

  const NOT_FOUND: Axes := Axes([])

  function Letters(f: StorageFormat): Option<seq<Letter>> {
    if f.sub != 0 then None else
    match f.primary
    case NCHW => Some([N, C, H, W])
    case NHWC => Some([N, H, W, C])
    case CHWN => Some([C, H, W, N])
    case HWCN => Some([H, W, C, N])
    case NC1HWC0 => Some([N, C1, H, W, C0])
    case NC1HWC0_C04 => Some([N, C1, H, W, C0])
    case NCDHW => Some([N, C, D, H, W])
    case NDHWC => Some([N, D, H, W, C])
    case DHWCN => Some([D, H, W, C, N])
    case DHWNC => Some([D, H, W, N, C])
    case NDC1HWC0 => Some([N, D, C1, H, W, C0])
    case _ => None
  }

  predicate In4DSet(f: Format) { f in {NCHW, NHWC, CHWN, HWCN} }
  predicate In5DSet(f: Format) { f in {NCDHW, NDHWC, DHWCN, DHWNC} }

  function LetterNamed(c: char): Option<Letter> {
    if c == 'N' then Some(N) else if c == 'C' then Some(C) else if c == 'H' then Some(H)
    else if c == 'W' then Some(W) else if c == 'D' then Some(D) else None
  }

  /** The first position of a letter, the length if it does not occur. */
  function IndexOf(letters: seq<Letter>, l: Letter): (i: nat)
    ensures i <= |letters| && (i < |letters| ==> letters[i] == l)
    ensures forall j :: 0 <= j < i ==> letters[j] != l
  {
    if letters == [] || letters[0] == l then 0 else 1 + IndexOf(letters[1..], l)
  }

  // ----- The axis mapping -----

  function TransAxisToNZ(t: Tensor, axis: int): Axes {
    var rank := |t.oriShape|;
    if axis <= rank - 3 then Axes([axis])
    else if axis == rank - 2 then Axes([rank - 1, rank])
    else if axis == rank - 1 then Axes([rank - 2, rank + 1])
    else NOT_FOUND
  }

  predicate CheckRank(rank: nat, dimNum: nat, reshapeType: string) {
    rank == dimNum || (rank < dimNum && rank == |reshapeType|)
  }

  /** The image of the axis with the letter at position `at` of the original format, the channel
      axis splitting in two. */
  function SplitAt(t: Tensor, at: int, dimNum: nat): Axes {
    var ori, dst := Letters(t.oriFormat), Letters(StorageFormat(t.format.primary, 0));
    if ori.None? || dst.None? || at >= |ori.value| then NOT_FOUND
    else if at < 0 then Undefined
    else if ori.value[at] == C then Axes(if dimNum == 4 then [1, 4] else [2, 5])
    else Axes([IndexOf(dst.value, ori.value[at])])
  }

  function TransAxisForSplit(t: Tensor, axis: int, dimNum: nat): Axes {
    var rank := |t.oriShape|;
    if !CheckRank(rank, dimNum, t.reshapeType) then NOT_FOUND
    else if rank == dimNum then SplitAt(t, axis, dimNum)
    else if axis >= |t.reshapeType| then NOT_FOUND
    else if axis < 0 || Letters(t.oriFormat).None? then Undefined
    else
      var letters, l := Letters(t.oriFormat).value, LetterNamed(t.reshapeType[axis]);
      SplitAt(t, if l.Some? then IndexOf(letters, l.value) else |letters|, dimNum)
  }

  function TransAxisForNoSplit(t: Tensor, axis: int, dimNum: nat): Axes {
    var ori, dst := Letters(t.oriFormat), Letters(StorageFormat(t.format.primary, 0));
    if |t.oriShape| != dimNum || ori.None? || axis >= |ori.value| then NOT_FOUND
    else if axis < 0 then Undefined
    else if dst.None? then NOT_FOUND
    else Axes([IndexOf(dst.value, ori.value[axis])])
  }

  function TransAxis(t: Tensor, axis: int): Axes {
    var f := t.format.primary;
    if t.oriFormat == StorageFormat(f, 0) then Axes([axis])
    else if f == FRACTAL_NZ then TransAxisToNZ(t, axis)
    else if f == NC1HWC0 || f == NC1HWC0_C04 then TransAxisForSplit(t, axis, 4)
    else if f == NDC1HWC0 then TransAxisForSplit(t, axis, 5)
    else if In4DSet(f) then TransAxisForNoSplit(t, axis, 4)
    else if In5DSet(f) then TransAxisForNoSplit(t, axis, 5)
    else NOT_FOUND
  }

  // ----- The images of all axes together -----

  function List(a: Axes): seq<int> {
    if a.Axes? then a.list else []
  }

  /** The images of the first `n` original axes, one after the other. */
  ghost function Images(t: Tensor, n: nat): seq<int> {
    if n == 0 then [] else Images(t, n - 1) + List(TransAxis(t, n - 1))
  }

  ghost predicate PartitionsCurrentAxes(t: Tensor, n: nat) {
    && (forall a :: 0 <= a < |t.oriShape| ==> TransAxis(t, a).Axes? && TransAxis(t, a).list != [])
    && IsPermutation(Images(t, |t.oriShape|), n)
  }

  ghost predicate IsNZ(t: Tensor) {
    t.format.primary == FRACTAL_NZ && t.oriFormat != StorageFormat(FRACTAL_NZ, 0)
  }

  lemma {:induction false} LeadingImagesNZ(t: Tensor, n: nat)
    requires IsNZ(t) && n <= |t.oriShape| - 2
    ensures |Images(t, n)| == n && forall i :: 0 <= i < n ==> Images(t, n)[i] == i
  {
    if n > 0 {
      LeadingImagesNZ(t, n - 1);
    }
  }

  lemma ImagesNZ(t: Tensor)
    requires IsNZ(t) && |t.oriShape| >= 2
    ensures var (r, s) := (|t.oriShape|, Images(t, |t.oriShape|));
            && |s| == r + 2 && (forall i :: 0 <= i < r - 2 ==> s[i] == i)
            && s[r - 2] == r - 1 && s[r - 1] == r && s[r] == r - 2 && s[r + 1] == r + 1
  {
    var r := |t.oriShape|;
    LeadingImagesNZ(t, r - 2);
    assert Images(t, r - 1) == Images(t, r - 2) + [r - 1, r];
    assert Images(t, r) == Images(t, r - 1) + [r - 2, r + 1];
  }

  /** A tensor of rank 1 gets a negative axis, and one of rank 0 none at all. */
  lemma LowRankNZ(t: Tensor)
    requires IsNZ(t) && |t.oriShape| < 2
    ensures !PartitionsCurrentAxes(t, |t.oriShape| + 2)
  {
    assert Images(t, 0) == [];
    if |t.oriShape| == 1 {
      assert Images(t, 1) == [-1, 2];
      assert Images(t, 1)[0] == -1;
    }
  }

  lemma ImagesPermuteNZ(t: Tensor)
    requires IsNZ(t) && |t.oriShape| >= 2
    ensures IsPermutation(Images(t, |t.oriShape|), |t.oriShape| + 2)
  {
    hide Images, TransAxis;
    ImagesNZ(t);
    var r, s := |t.oriShape|, Images(t, |t.oriShape|);
    AllBelow(s, r + 2);
  }

  /** The images of the original axes partition the axes of the fractal format exactly for the ranks
      from 2 on. */
  lemma PartitionNZ(t: Tensor)
    requires IsNZ(t)
    ensures PartitionsCurrentAxes(t, |t.oriShape| + 2) <==> |t.oriShape| >= 2
  {
    hide Images, IsPermutation;
    if |t.oriShape| >= 2 { ImagesPermuteNZ(t); } else { LowRankNZ(t); }
  }

  /** Rank-4 tensors in a four-letter format are packed into five axes, rank-5 tensors in a
      five-letter format into six; the letter of each axis says where it goes. */
  ghost predicate Packed(t: Tensor) {
    && t.oriFormat.sub == 0
    && ((In4DSet(t.oriFormat.primary) && t.format.primary in {NC1HWC0, NC1HWC0_C04} && |t.oriShape| == 4)
        || (In5DSet(t.oriFormat.primary) && t.format.primary == NDC1HWC0 && |t.oriShape| == 5))
  }

  /** Where each letter goes in the packed format. */
  function Place(l: Letter, dimNum: nat): seq<int> {
    if dimNum == 4 then
      match l case N => [0] case C => [1, 4] case H => [2] case W => [3] case _ => []
    else
      match l case N => [0] case D => [1] case C => [2, 5] case H => [3] case W => [4] case _ => []
  }

  ghost function Places(ls: seq<Letter>, dimNum: nat): seq<int> {
    if ls == [] then [] else Places(ls[..|ls| - 1], dimNum) + Place(ls[|ls| - 1], dimNum)
  }

  lemma IndexInPacked(l: Letter)
    ensures l in {N, H, W} ==> Place(l, 4) == [IndexOf([N, C1, H, W, C0], l)]
    ensures l in {N, D, H, W} ==> Place(l, 5) == [IndexOf([N, D, C1, H, W, C0], l)]
  {
    hide IndexOf;
    var v4, v5 := [N, C1, H, W, C0], [N, D, C1, H, W, C0];
    var i4, i5 := IndexOf(v4, l), IndexOf(v5, l);
    assert v4[0] == N && v4[1] == C1 && v4[2] == H && v4[3] == W && v4[4] == C0;
    assert v5[0] == N && v5[1] == D && v5[2] == C1 && v5[3] == H && v5[4] == W && v5[5] == C0;
  }

  lemma SplitImage(t: Tensor, a: nat, dimNum: nat)
    requires |t.oriShape| == dimNum && Letters(t.oriFormat).Some? && Letters(StorageFormat(t.format.primary, 0)).Some?
    requires a < |Letters(t.oriFormat).value|
    ensures var ori, dst := Letters(t.oriFormat).value, Letters(StorageFormat(t.format.primary, 0)).value;
            TransAxisForSplit(t, a, dimNum) ==
            Axes(if ori[a] != C then [IndexOf(dst, ori[a])] else if dimNum == 4 then [1, 4] else [2, 5])
  {
    hide Letters, IndexOf;
  }

  lemma PackedImage(t: Tensor, a: nat)
    requires Packed(t) && a < |t.oriShape|
    ensures Letters(t.oriFormat).Some? && |Letters(t.oriFormat).value| == |t.oriShape|
    ensures TransAxis(t, a) == Axes(Place(Letters(t.oriFormat).value[a], |t.oriShape|))
    ensures Place(Letters(t.oriFormat).value[a], |t.oriShape|) != []
  {
    hide IndexOf, SplitAt, Letters, TransAxisForSplit;
    AllLetters(t.oriFormat.primary);
    PackedLetters();
    assert t.oriFormat == StorageFormat(t.oriFormat.primary, 0);
    SplitImage(t, a, |t.oriShape|);
    IndexInPacked(Letters(t.oriFormat).value[a]);
  }

  lemma PackedLetters()
    ensures Letters(StorageFormat(NC1HWC0, 0)) == Letters(StorageFormat(NC1HWC0_C04, 0)) == Some([N, C1, H, W, C0])
    ensures Letters(StorageFormat(NDC1HWC0, 0)) == Some([N, D, C1, H, W, C0])
  {}

  lemma {:induction false} PackedImages(t: Tensor, n: nat)
    requires Packed(t) && n <= |t.oriShape|
    ensures Letters(t.oriFormat).Some? && |Letters(t.oriFormat).value| == |t.oriShape|
    ensures Images(t, n) == Places(Letters(t.oriFormat).value[..n], |t.oriShape|)
  {
    PackedImage(t, 0);
    hide TransAxis, Letters, Place, Packed;
    if n > 0 {
      PackedImages(t, n - 1);
      PackedImage(t, n - 1);
      var ls := Letters(t.oriFormat).value;
      assert ls[..n][..n - 1] == ls[..n - 1];
    }
  }

  lemma Places4(a: Letter, b: Letter, c: Letter, d: Letter, n: nat)
    ensures Places([a, b, c, d], n) == Place(a, n) + Place(b, n) + Place(c, n) + Place(d, n)
  {
    hide Place;
    var s1, s2, s3, s4 := [a], [a, b], [a, b, c], [a, b, c, d];
    assert s1[..0] == [] && s2[..1] == s1 && s3[..2] == s2 && s4[..3] == s3;
    assert Places(s1, n) == Place(a, n);
    assert Places(s2, n) == Place(a, n) + Place(b, n);
    assert Places(s3, n) == Place(a, n) + Place(b, n) + Place(c, n);
  }

  lemma Places5(a: Letter, b: Letter, c: Letter, d: Letter, e: Letter, n: nat)
    ensures Places([a, b, c, d, e], n) == Place(a, n) + Place(b, n) + Place(c, n) + Place(d, n) + Place(e, n)
  {
    hide Place;
    Places4(a, b, c, d, n);
    assert [a, b, c, d, e][..4] == [a, b, c, d];
  }

  lemma PlacesDistinct4(f: Format)
    requires In4DSet(f)
    ensures IsPermutation(Places(Letters(StorageFormat(f, 0)).value, 4), 5)
  {
    hide Places;
    var ls := Letters(StorageFormat(f, 0)).value;
    Places4(ls[0], ls[1], ls[2], ls[3], 4);
    assert ls == [ls[0], ls[1], ls[2], ls[3]];
    AllBelow(Places(ls, 4), 5);
  }

  lemma PlacesDistinct5(f: Format)
    requires In5DSet(f)
    ensures IsPermutation(Places(Letters(StorageFormat(f, 0)).value, 5), 6)
  {
    hide Places;
    var ls := Letters(StorageFormat(f, 0)).value;
    Places5(ls[0], ls[1], ls[2], ls[3], ls[4], 5);
    assert ls == [ls[0], ls[1], ls[2], ls[3], ls[4]];
    AllBelow(Places(ls, 5), 6);
  }

  /** Packing partitions the axes of the packed format. */
  lemma PartitionPacked(t: Tensor)
    requires Packed(t)
    ensures PartitionsCurrentAxes(t, |t.oriShape| + 1)
  {
    hide Letters, Places, TransAxis, Images, Place;
    var n, f := |t.oriShape|, t.oriFormat.primary;
    PackedImages(t, n);
    assert t.oriFormat == StorageFormat(f, 0);
    assert Letters(t.oriFormat).value[..n] == Letters(t.oriFormat).value;
    if n == 4 { PlacesDistinct4(f); } else { PlacesDistinct5(f); }
    forall a | 0 <= a < n ensures TransAxis(t, a).Axes? && TransAxis(t, a).list != [] { PackedImage(t, a); }
  }

  /** The letters of a format, each once, as many as there are. */
  ghost predicate LettersOf(f: Format, ls: seq<Letter>) {
    && |ls| == (if In4DSet(f) then 4 else 5)
    && (forall i, j :: 0 <= i < j < |ls| ==> ls[i] != ls[j])
    && (forall i :: 0 <= i < |ls| ==> ls[i] in {N, C, H, W, D} && (In4DSet(f) ==> ls[i] != D))
    && N in ls && C in ls && H in ls && W in ls && (In5DSet(f) ==> D in ls)
  }

  lemma FourLetters(f: Format)
    requires In4DSet(f)
    ensures Letters(StorageFormat(f, 0)).Some? && LettersOf(f, Letters(StorageFormat(f, 0)).value)
  {
    var ls := Letters(StorageFormat(f, 0)).value;
    assert ls[0] in ls && ls[1] in ls && ls[2] in ls && ls[3] in ls;
  }

  lemma FiveLetters(f: Format)
    requires In5DSet(f)
    ensures Letters(StorageFormat(f, 0)).Some? && LettersOf(f, Letters(StorageFormat(f, 0)).value)
  {
    var ls := Letters(StorageFormat(f, 0)).value;
    assert ls[0] in ls && ls[1] in ls && ls[2] in ls && ls[3] in ls && ls[4] in ls;
  }

  lemma AllLetters(f: Format)
    requires In4DSet(f) || In5DSet(f)
    ensures Letters(StorageFormat(f, 0)).Some? && LettersOf(f, Letters(StorageFormat(f, 0)).value)
  {
    hide Letters, LettersOf;
    if In4DSet(f) { FourLetters(f); } else { FiveLetters(f); }
  }

  ghost predicate SameFamily(t: Tensor) {
    && t.oriFormat.sub == 0 && t.oriFormat.primary != t.format.primary
    && ((In4DSet(t.oriFormat.primary) && In4DSet(t.format.primary) && |t.oriShape| == 4)
        || (In5DSet(t.oriFormat.primary) && In5DSet(t.format.primary) && |t.oriShape| == 5))
  }

  lemma NoSplitAt(t: Tensor, a: nat, dimNum: nat)
    requires |t.oriShape| == dimNum && Letters(t.oriFormat).Some? && Letters(StorageFormat(t.format.primary, 0)).Some?
    requires a < |Letters(t.oriFormat).value|
    ensures var ori, dst := Letters(t.oriFormat).value, Letters(StorageFormat(t.format.primary, 0)).value;
            TransAxisForNoSplit(t, a, dimNum) == Axes([IndexOf(dst, ori[a])])
  {
    hide Letters, IndexOf;
  }

  lemma NoSplitImage(t: Tensor, a: nat)
    requires SameFamily(t) && a < |t.oriShape|
    ensures Letters(t.oriFormat).Some? && Letters(StorageFormat(t.format.primary, 0)).Some?
    ensures var ori, dst := Letters(t.oriFormat).value, Letters(StorageFormat(t.format.primary, 0)).value;
            && |ori| == |dst| == |t.oriShape| && TransAxis(t, a) == Axes([IndexOf(dst, ori[a])])
            && IndexOf(dst, ori[a]) < |dst| && dst[IndexOf(dst, ori[a])] == ori[a]
  {
    hide IndexOf, TransAxisForNoSplit, Letters;
    AllLetters(t.oriFormat.primary);
    AllLetters(t.format.primary);
    assert t.oriFormat == StorageFormat(t.oriFormat.primary, 0);
    NoSplitAt(t, a, |t.oriShape|);
  }

  lemma {:induction false} NoSplitImages(t: Tensor, n: nat)
    requires SameFamily(t) && n <= |t.oriShape|
    ensures |Images(t, n)| == n
    ensures forall i :: 0 <= i < n ==> TransAxis(t, i) == Axes([Images(t, n)[i]])
  {
    hide TransAxis, Letters, IndexOf, SameFamily;
    if n > 0 {
      NoSplitImages(t, n - 1);
      NoSplitImage(t, n - 1);
    }
  }

  /** Between two formats with the same letters every axis goes to the place of its letter, so the
      images are a permutation. */
  lemma PartitionNoSplit(t: Tensor)
    requires SameFamily(t)
    ensures PartitionsCurrentAxes(t, |t.oriShape|)
  {
    hide TransAxis, Letters, IndexOf, Images;
    var n := |t.oriShape|;
    var s := Images(t, n);
    NoSplitImages(t, n);
    AllLetters(t.oriFormat.primary);
    assert t.oriFormat == StorageFormat(t.oriFormat.primary, 0);
    forall i | 0 <= i < n ensures 0 <= s[i] < n { NoSplitImage(t, i); }
    forall i, j | 0 <= i < j < n ensures s[i] != s[j] {
      NoSplitImage(t, i);
      NoSplitImage(t, j);
    }
    AllBelow(s, n);
  }
}
