/** Ranges on one axis, converted between the original dimension and the packed one. The packing
    factor is a 64-bit unsigned number and range bounds are 64-bit signed ones, so that products and
    quotients are computed without a sign and wrap. */
module SliceRanges {
  const U64: int := 0x1_0000_0000_0000_0000
  const I64_LIMIT: int := 0x8000_0000_0000_0000

  function ToI64(u: int): int
    requires 0 <= u < U64
  {
    if u < I64_LIMIT then u else u - U64
  }

  function Wrap(x: int): int {
    ToI64(x % U64)
  }

  function Min(a: int, b: int): int { if b < a then b else a }

  /** A range as its inclusive bounds. */
  datatype Interval = Interval(lo: int, hi: int)

  function ToOri(r: Interval, p: nat, dim: int): Interval {
    Interval(Wrap(r.lo * p), Min(Wrap(r.hi * p + p - 1), dim - 1))
  }

  function ToCur(r: Interval, p: nat): Interval
    requires p > 0
  {
    Interval(Wrap(r.lo % U64 / p), Wrap(r.hi % U64 / p))
  }

  /** The packed range [a, b] with factor `p` is free of wrapping. */
  ghost predicate Fits(r: Interval, p: int) {
    0 <= r.lo <= r.hi && p > 0 && (r.hi + 1) * p <= I64_LIMIT
  }

  lemma MulMono(a: int, b: int, p: int)
    requires a <= b && p >= 0
    ensures a * p <= b * p
  {}

  lemma FitsExact(r: Interval, p: int, dim: int)
    requires Fits(r, p)
    ensures ToOri(r, p, dim) == Interval(r.lo * p, Min(r.hi * p + p - 1, dim - 1))
  {
    MulMono(r.lo, r.hi, p);
    assert (r.hi + 1) * p == r.hi * p + p;
    assert 0 <= r.lo * p <= r.hi * p + p - 1 < I64_LIMIT by { MulMono(0, r.lo, p); }
  }

  /** The signed 64-bit number with the same low bits. */
  ghost predicate SameBits(x: int, y: int) {
    -0x8000_0000_0000_0000 <= x < 0x8000_0000_0000_0000 && (x - y) % 0x1_0000_0000_0000_0000 == 0
  }

  lemma WrapBits(x: int)
    ensures SameBits(Wrap(x), x)
  {
    assert x == x / U64 * U64 + x % U64;
    assert (Wrap(x) - x) % U64 == 0 by {
      var k := if x % U64 < I64_LIMIT then -(x / U64) else -(x / U64) - 1;
      assert Wrap(x) - x == k * U64;
    }
  }

  /** The bounds of a converted range, whether they fit or not: the products wrap to 64 bits, and the end
      is cut to the dimension. */
  lemma ConvertedBits(r: Interval, p: nat, dim: int)
    ensures var o := ToOri(r, p, dim);
            && SameBits(o.lo, r.lo * p) && o.hi <= dim - 1 && (o.hi == dim - 1 || SameBits(o.hi, r.hi * p + p - 1))
    ensures p > 0 ==> SameBits(ToCur(r, p).lo, r.lo % 0x1_0000_0000_0000_0000 / p) && SameBits(ToCur(r, p).hi, r.hi % 0x1_0000_0000_0000_0000 / p)
  {
    hide Wrap, SameBits;
    WrapBits(r.lo * p);
    WrapBits(r.hi * p + p - 1);
    if p > 0 {
      WrapBits(r.lo % U64 / p);
      WrapBits(r.hi % U64 / p);
    }
  }

  lemma Division(x: int, p: int, q: int)
    requires p > 0
    ensures x / p == q <==> q * p <= x < q * p + p
  {
    assert x == x / p * p + x % p;
    if q * p <= x < q * p + p {
      if q < x / p { MulMono(q + 1, x / p, p); }
      if q > x / p { MulMono(x / p + 1, q, p); }
    }
  }

  lemma DivisionLe(x: int, p: int, q: int)
    requires p > 0
    ensures q <= x / p <==> q * p <= x
    ensures x / p <= q <==> x <= q * p + p - 1
  {
    Division(x, p, x / p);
    if q <= x / p { MulMono(q, x / p, p); } else { MulMono(x / p + 1, q, p); assert (x / p + 1) * p == x / p * p + p; }
    if x / p <= q { MulMono(x / p, q, p); } else { MulMono(q + 1, x / p, p); assert (q + 1) * p == q * p + p; }
  }

  ghost predicate Within(x: int, r: Interval) {
    r.lo <= x <= r.hi
  }

  /** The converted range holds exactly the original indexes whose packed index is in the range. */
  lemma SliceMeaning(r: Interval, p: int, dim: int, x: int)
    requires Fits(r, p) && 0 <= x < dim
    ensures Within(x, ToOri(r, p, dim)) <==> Within(x / p, r)
  {
    FitsExact(r, p, dim);
    DivisionLe(x, p, r.lo);
    DivisionLe(x, p, r.hi);
  }

  lemma ProductDivided(a: int, p: int)
    requires p > 0
    ensures a * p / p == a
  {
    Division(a * p, p, a);
  }

  lemma WrapSmall(x: int)
    requires 0 <= x < I64_LIMIT
    ensures Wrap(x) == x && x % U64 == x
  {}

  lemma Growing(x: int, p: int)
    requires 0 <= x && p > 0
    ensures x <= x * p
  {
    MulMono(1, p, x);
    assert 1 * x == x && p * x == x * p;
  }

  lemma QuotientBelow(x: int, p: int)
    requires 0 <= x && p > 0
    ensures 0 <= x / p <= x
  {
    DivisionLe(x, p, 0);
    DivisionLe(x, p, x);
    Growing(x, p);
  }

  lemma ToCurSmall(o: Interval, p: int)
    requires 0 <= o.lo < I64_LIMIT && 0 <= o.hi < I64_LIMIT && p > 0
    ensures ToCur(o, p) == Interval(o.lo / p, o.hi / p)
  {
    WrapSmall(o.lo);
    WrapSmall(o.hi);
    QuotientBelow(o.lo, p);
    QuotientBelow(o.hi, p);
    WrapSmall(o.lo / p);
    WrapSmall(o.hi / p);
  }

  /** Converting there and back gives the range again exactly when its last block begins within the
      dimension. */
  lemma RoundTripIff(r: Interval, p: int, dim: int)
    requires Fits(r, p) && dim > -I64_LIMIT
    ensures ToCur(ToOri(r, p, dim), p) == r <==> r.hi * p < dim
  {
    hide Wrap, ToOri;
    FitsExact(r, p, dim);
    MulMono(r.lo, r.hi, p);
    MulMono(0, r.lo, p);
    var lo, hi := r.lo * p, r.hi * p;
    assert (r.hi + 1) * p == hi + p;
    var o := Interval(lo, Min(hi + p - 1, dim - 1));
    if dim >= 1 {
      ToCurSmall(o, p);
      ProductDivided(r.lo, p);
      DivisionLe(o.hi, p, r.hi);
    } else {
      NegativeEnd(r, p, dim - 1);
    }
  }

  /** An end below 0 turns into a number that is too large for the last block. */
  lemma NegativeEnd(r: Interval, p: int, end: int)
    requires Fits(r, p) && -I64_LIMIT <= end < 0
    ensures Wrap(end % U64 / p) != r.hi
  {
    var u := U64 + end;
    assert end % U64 == u;
    var q := u / p;
    assert 0 <= q < U64 by { QuotientBelow(u, p); }
    Division(u, p, q);
    assert (r.hi + 1) * p == r.hi * p + p;
    assert q != r.hi;
  }

  // ----- Two packing factors -----

  /** Block `j` of the second factor holds an index whose block of the first factor is in the range. */
  ghost predicate Touched(r: Interval, p: int, q: int, dim: int, j: int)
    requires p > 0 && q > 0
  {
    exists x :: 0 <= x < dim && Within(x / p, r) && x / q == j
  }

  lemma DivisionMono(x: int, y: int, q: int)
    requires q > 0 && x <= y
    ensures x / q <= y / q
  {
    Division(x, q, x / q);
    DivisionLe(y, q, x / q);
  }

  /** The blocks between those of the two ends are the blocks of the indexes between the ends. */
  lemma BlocksBetween(o: Interval, q: int, j: int) returns (x: int)
    requires q > 0 && o.lo <= o.hi && o.lo / q <= j <= o.hi / q
    ensures Within(x, o) && x / q == j
  {
    x := if o.lo <= j * q then j * q else o.lo;
    Division(o.lo, q, o.lo / q);
    DivisionLe(o.hi, q, j);
    MulMono(o.lo / q, j, q);
    if o.lo <= j * q {
      Division(x, q, j);
    } else {
      DivisionLe(o.lo, q, j);
    }
  }

  /** A range that is carried over from factor `p` to factor `q` has exactly the blocks that hold one of
      its indexes, as long as it begins within the dimension. */
  lemma CarriedBlocks(r: Interval, p: int, q: int, dim: int, j: int)
    requires Fits(r, p) && q > 0 && r.lo * p < dim
    ensures Within(j, ToCur(ToOri(r, p, dim), q)) <==> Touched(r, p, q, dim, j)
  {
    hide ToOri, ToCur, Wrap;
    var o := ToOri(r, p, dim);
    BeginsInside(r, p, dim);
    ToCurSmall(o, q);
    if Within(j, ToCur(o, q)) {
      var x := BlocksBetween(o, q, j);
      SliceMeaning(r, p, dim, x);
    }
    if x :| 0 <= x < dim && Within(x / p, r) && x / q == j {
      SliceMeaning(r, p, dim, x);
      DivisionMono(o.lo, x, q);
      DivisionMono(x, o.hi, q);
    }
  }

  lemma BeginsInside(r: Interval, p: int, dim: int)
    requires Fits(r, p) && r.lo * p < dim
    ensures var o := ToOri(r, p, dim); 0 <= o.lo <= o.hi < I64_LIMIT && o.hi < dim
  {
    FitsExact(r, p, dim);
    MulMono(0, r.lo, p);
    MulMono(r.lo, r.hi, p);
    assert (r.hi + 1) * p == r.hi * p + p;
  }

  ghost predicate SoundAndTight(r: Interval, p: int, q: int, dim: int)
    requires p > 0 && q > 0
  {
    forall j :: Within(j, ToCur(ToOri(r, p, dim), q)) <==> Touched(r, p, q, dim, j)
  }

  /** Beyond the dimension there is no index, and the carried range should be empty. */
  lemma NothingTouched(r: Interval, p: int, q: int, dim: int, j: int)
    requires Fits(r, p) && q > 0 && r.lo * p >= dim
    ensures !Touched(r, p, q, dim, j)
  {
    if x :| 0 <= x < dim && Within(x / p, r) && x / q == j {
      DivisionLe(x, p, r.lo);
    }
  }

  /** The end of a range that begins beyond the dimension, after both conversions. */
  lemma BeyondEnd(r: Interval, p: int, q: int, dim: int)
    requires Fits(r, p) && q > 0 && r.lo * p >= dim > -I64_LIMIT
    ensures var c := ToCur(ToOri(r, p, dim), q);
            c.lo <= c.hi <==> !(if dim > 0 then (dim - 1) / q < r.lo * p / q else q == 1)
  {
    hide Wrap;
    FitsExact(r, p, dim);
    MulMono(0, r.lo, p);
    MulMono(r.lo, r.hi, p);
    assert (r.hi + 1) * p == r.hi * p + p;
    var lo, end := r.lo * p, dim - 1;
    assert ToOri(r, p, dim) == Interval(lo, end);
    WrapSmall(lo);
    QuotientBelow(lo, q);
    WrapSmall(lo / q);
    if dim > 0 {
      ToCurSmall(Interval(lo, end), q);
    } else {
      UnsignedEnd(lo, end, q);
    }
  }

  lemma UnsignedEnd(lo: int, end: int, q: int)
    requires q > 0 && 0 <= lo < I64_LIMIT && -I64_LIMIT <= end < 0
    ensures lo / q <= Wrap(end % U64 / q) <==> q != 1
  {
    var u := U64 + end;
    assert end % U64 == u;
    if q == 1 {
      Division(u, 1, u);
      assert Wrap(u) == end;
      QuotientBelow(lo, 1);
    } else {
      MulMono(2, q, u / 2);
      DivisionLe(u, q, u / 2);
      QuotientBelow(u, q);
      WrapSmall(u / q);
      DivisionMono(lo, u, q);
    }
  }

  /** For any two factors: the carried range has exactly the right blocks if and only if it begins
      within the dimension, or its end falls into an earlier block than its beginning. Without a
      dimension the end is a negative number that turns positive unless it is divided by 1. */
  lemma SoundAndTightIff(r: Interval, p: int, q: int, dim: int)
    requires Fits(r, p) && q > 0 && dim > -I64_LIMIT
    ensures SoundAndTight(r, p, q, dim) <==>
            r.lo * p < dim || (if dim > 0 then (dim - 1) / q < r.lo * p / q else q == 1)
  {
    hide ToOri, ToCur, Touched;
    if r.lo * p < dim {
      forall j ensures Within(j, ToCur(ToOri(r, p, dim), q)) <==> Touched(r, p, q, dim, j) {
        CarriedBlocks(r, p, q, dim, j);
      }
    } else {
      BeyondEnd(r, p, q, dim);
      var c := ToCur(ToOri(r, p, dim), q);
      forall j ensures !Touched(r, p, q, dim, j) { NothingTouched(r, p, q, dim, j); }
      assert Within(c.lo, c) <==> c.lo <= c.hi;
    }
  }

  // ----- Tilings -----

  /** Consecutive non-empty ranges from 0 to the end. */
  ghost predicate Tiles(rs: seq<Interval>, end: int) {
    && rs != [] && rs[0].lo == 0 && rs[|rs| - 1].hi == end
    && (forall i :: 0 <= i < |rs| ==> rs[i].lo <= rs[i].hi)
    && (forall i :: 0 <= i < |rs| - 1 ==> rs[i + 1].lo == rs[i].hi + 1)
  }

  function Blocks(dim: int, p: int): int
    requires p > 0
  {
    (dim + p - 1) / p
  }

  function AllToOri(rs: seq<Interval>, p: nat, dim: int): seq<Interval> {
    seq(|rs|, i requires 0 <= i < |rs| => ToOri(rs[i], p, dim))
  }

  lemma {:induction false} TileBounds(rs: seq<Interval>, end: int, i: nat)
    requires Tiles(rs, end) && i < |rs|
    ensures 0 <= rs[i].lo && rs[i].hi <= end && (i < |rs| - 1 ==> rs[i].hi < end)
  {
    TilesUp(rs, end, i);
    TilesDown(rs, end, i);
  }

  lemma {:induction false} TilesUp(rs: seq<Interval>, end: int, i: nat)
    requires Tiles(rs, end) && i < |rs|
    ensures 0 <= rs[i].lo
  {
    if i > 0 { TilesUp(rs, end, i - 1); assert rs[(i - 1) + 1].lo == rs[i - 1].hi + 1; }
  }

  lemma {:induction false} TilesDown(rs: seq<Interval>, end: int, i: nat)
    requires Tiles(rs, end) && i < |rs|
    ensures rs[i].hi <= end && (i < |rs| - 1 ==> rs[i].hi < end)
    decreases |rs| - i
  {
    if i < |rs| - 1 { TilesDown(rs, end, i + 1); }
  }

  lemma TileConverts(rs: seq<Interval>, p: int, dim: int, i: nat)
    requires p > 0 && dim > 0 && Tiles(rs, Blocks(dim, p) - 1) && Blocks(dim, p) * p <= I64_LIMIT && i < |rs|
    ensures var o := ToOri(rs[i], p, dim);
            o == Interval(rs[i].lo * p, if i == |rs| - 1 then dim - 1 else rs[i].hi * p + p - 1) && o.lo <= o.hi
  {
    hide ToOri;
    var n := Blocks(dim, p);
    Division(dim + p - 1, p, n);
    TileBounds(rs, n - 1, i);
    MulMono(rs[i].hi + 1, n, p);
    FitsExact(rs[i], p, dim);
    MulMono(rs[i].lo, rs[i].hi, p);
    assert (rs[i].hi + 1) * p == rs[i].hi * p + p;
    assert (n - 1) * p == n * p - p;
    if i < |rs| - 1 { MulMono(rs[i].hi + 1, n - 1, p); }
  }

  /** Ranges that tile the packed axis convert to ranges that tile the original one. */
  lemma TilingConverts(rs: seq<Interval>, p: int, dim: int)
    requires p > 0 && dim > 0 && Tiles(rs, Blocks(dim, p) - 1) && Blocks(dim, p) * p <= I64_LIMIT
    ensures Tiles(AllToOri(rs, p, dim), dim - 1)
  {
    hide ToOri, Blocks;
    var os := AllToOri(rs, p, dim);
    forall i | 0 <= i < |rs|
      ensures os[i] == Interval(rs[i].lo * p, if i == |rs| - 1 then dim - 1 else rs[i].hi * p + p - 1) && os[i].lo <= os[i].hi
    {
      TileConverts(rs, p, dim, i);
    }
    forall i | 0 <= i < |os| - 1 ensures os[i + 1].lo == os[i].hi + 1 {
      assert rs[i + 1].lo * p == (rs[i].hi + 1) * p == rs[i].hi * p + p;
    }
  }
}
