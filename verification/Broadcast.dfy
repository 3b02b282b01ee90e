/** Shape inference for broadcasting operators. */
module Broadcast {
  type Shape = seq<int>

  datatype Result = Ok(shape: Shape) | Failed

  /** Ranks from the largest 64-bit signed value on are refused. */
  const RANK_LIMIT: int := 0x7FFF_FFFF_FFFF_FFFF

  function Min(a: int, b: int): int { if a <= b then a else b }
  function Max(a: int, b: int): int { if a <= b then b else a }

  /** Two dimensions go together when they are equal or the smaller one is 1. */
  predicate Compatible(a: int, b: int) {
    a == b || Min(a, b) == 1
  }

  // ----- The inference, with trailing dimensions aligned -----

  function RankAndDim(x1: Shape, x2: Shape): (r: Result)
    requires |x1| >= |x2|
  {
    var diff := |x1| - |x2|;
    if forall i :: 0 <= i < |x2| ==> Compatible(x1[i + diff], x2[i])
    then Ok(x1[..diff] + seq(|x2|, i requires 0 <= i < |x2| => Max(x1[i + diff], x2[i])))
    else Failed
  }

  function Infer(x1: Shape, x2: Shape): (r: Result) {
    if |x1| >= RANK_LIMIT || |x2| >= RANK_LIMIT then Failed
    else if x1 == [] then Ok(x2)
    else if x2 == [] then Ok(x1)
    else if |x1| >= |x2| then RankAndDim(x1, x2)
    else RankAndDim(x2, x1)
  }

  method BroadCastRankAndDim(x1: Shape, x2: Shape, lenDiff: int) returns (r: Result)
    requires lenDiff == |x1| - |x2| >= 0
    ensures r == RankAndDim(x1, x2)
  {
    var y: Shape := [];
    for i := 0 to lenDiff
      invariant y == x1[..i]
    {
      y := y + [x1[i]];
    }
    for i := 0 to |x2|
      invariant |y| == lenDiff + i
      invariant y[..lenDiff] == x1[..lenDiff]
      invariant forall j :: 0 <= j < i ==> Compatible(x1[j + lenDiff], x2[j])
      invariant forall j :: 0 <= j < i ==> y[lenDiff + j] == Max(x1[j + lenDiff], x2[j])
    {
      if x1[i + lenDiff] != x2[i] && Min(x1[i + lenDiff], x2[i]) != 1 {
        return Failed;
      }
      y := y + [Max(x1[i + lenDiff], x2[i])];
    }
    r := Ok(y);
    assert y == RankAndDim(x1, x2).shape;
  }

  method BroadCastInfer(x1: Shape, x2: Shape) returns (r: Result)
    ensures r == Infer(x1, x2)
  {
    if |x1| >= RANK_LIMIT || |x2| >= RANK_LIMIT {
      return Failed;
    }
    if x1 == [] {
      return Ok(x2);
    }
    if x2 == [] {
      return Ok(x1);
    }
    var lenDiff := |x1| - |x2|;
    if lenDiff >= 0 {
      r := BroadCastRankAndDim(x1, x2, lenDiff);
    } else {
      r := BroadCastRankAndDim(x2, x1, -lenDiff);
    }
  }

  // ----- Reading a shape from its last dimension -----

  /** The `k`-th dimension from the right. */
  function At(x: Shape, k: nat): int
    requires k < |x|
  {
    x[|x| - 1 - k]
  }

  ghost predicate CompatibleAt(x: Shape, y: Shape, k: nat) {
    k < |x| && k < |y| ==> Compatible(At(x, k), At(y, k))
  }

  /** The joint dimension; a shape that is too short leaves the other one's dimension alone. */
  ghost function JoinAt(x: Shape, y: Shape, k: nat): int
    requires k < |x| || k < |y|
  {
    if k >= |x| then At(y, k) else if k >= |y| then At(x, k) else Max(At(x, k), At(y, k))
  }

  /** Inference in terms of ranks and single dimensions. */
  lemma InferMeaning(x: Shape, y: Shape)
    ensures Infer(x, y).Ok? <==>
            |x| < 0x7FFF_FFFF_FFFF_FFFF && |y| < 0x7FFF_FFFF_FFFF_FFFF && forall k: nat :: CompatibleAt(x, y, k)
    ensures Infer(x, y).Ok? ==>
              var z := Infer(x, y).shape;
              |z| == Max(|x|, |y|) && forall k: nat :: k < |z| ==> At(z, k) == JoinAt(x, y, k)
  {
    if x != [] && y != [] {
      if |x| >= |y| {
        RankAndDimMeaning(x, y);
      } else {
        RankAndDimMeaning(y, x);
        assert forall k: nat :: CompatibleAt(x, y, k) == CompatibleAt(y, x, k);
      }
    }
  }

  lemma RankAndDimMeaning(x: Shape, y: Shape)
    requires |x| >= |y|
    ensures RankAndDim(x, y).Ok? <==> forall k: nat :: CompatibleAt(x, y, k)
    ensures RankAndDim(x, y).Ok? ==>
              var z := RankAndDim(x, y).shape;
              |z| == |x| && forall k: nat :: k < |z| ==> At(z, k) == JoinAt(x, y, k)
  {
    var diff := |x| - |y|;
    forall i | 0 <= i < |y|
      ensures Compatible(x[i + diff], y[i]) == CompatibleAt(x, y, |y| - 1 - i)
    {}
    if forall i :: 0 <= i < |y| ==> Compatible(x[i + diff], y[i]) {
      forall k: nat ensures CompatibleAt(x, y, k) {
        if k < |y| { assert Compatible(x[|y| - 1 - k + diff], y[|y| - 1 - k]); }
      }
    }
  }

  lemma SameShape(x: Shape, y: Shape)
    requires |x| == |y| && forall k: nat :: k < |x| ==> At(x, k) == At(y, k)
    ensures x == y
  {
    forall i | 0 <= i < |x| ensures x[i] == y[i] {
      assert At(x, |x| - 1 - i) == At(y, |x| - 1 - i);
    }
  }

  // ----- Algebra on all integer shapes -----

  lemma Commutative(x: Shape, y: Shape)
    ensures Infer(x, y) == Infer(y, x)
  {
    if |x| < RANK_LIMIT && |y| < RANK_LIMIT {
      InferMeaning(x, y);
      InferMeaning(y, x);
      assert forall k: nat :: CompatibleAt(x, y, k) == CompatibleAt(y, x, k);
      if Infer(x, y).Ok? {
        SameShape(Infer(x, y).shape, Infer(y, x).shape);
      }
    }
  }

  lemma Identity(x: Shape)
    requires |x| < RANK_LIMIT
    ensures Infer([], x) == Infer(x, []) == Ok(x)
  {}

  /** Inference as a partial operation: a failed operand makes it fail. */
  function Join(r: Result, s: Result): Result {
    if r.Ok? && s.Ok? then Infer(r.shape, s.shape) else Failed
  }

  /** Three shapes go together pairwise at a position exactly when either bracketing does. */
  lemma AssociativeAt(x: Shape, y: Shape, z: Shape, k: nat)
    requires |x| < RANK_LIMIT && |y| < RANK_LIMIT && |z| < RANK_LIMIT
    requires Infer(x, y).Ok? && Infer(y, z).Ok?
    ensures var xy, yz := Infer(x, y).shape, Infer(y, z).shape;
            && CompatibleAt(xy, z, k) == CompatibleAt(x, yz, k)
            && (CompatibleAt(xy, z, k) && (k < |xy| || k < |z|) ==> JoinAt(xy, z, k) == JoinAt(x, yz, k))
  {
    InferMeaning(x, y);
    InferMeaning(y, z);
    assert CompatibleAt(x, y, k) && CompatibleAt(y, z, k);
  }

  /** When one inner pair fails, so does the other bracketing. */
  lemma InnerFailure(x: Shape, y: Shape, z: Shape)
    requires |x| < RANK_LIMIT && |y| < RANK_LIMIT && |z| < RANK_LIMIT
    requires Infer(x, y).Failed? && Infer(y, z).Ok?
    ensures Infer(x, Infer(y, z).shape).Failed?
  {
    var yz := Infer(y, z).shape;
    InferMeaning(x, y);
    InferMeaning(y, z);
    InferMeaning(x, yz);
    var k: nat :| !CompatibleAt(x, y, k);
    assert CompatibleAt(y, z, k) && At(yz, k) == JoinAt(y, z, k);
    assert !CompatibleAt(x, yz, k);
  }

  /** Both bracketings fail, or both succeed with the same shape. */
  lemma Associative(x: Shape, y: Shape, z: Shape)
    ensures Join(Infer(x, y), Ok(z)) == Join(Ok(x), Infer(y, z))
  {
    if |x| < RANK_LIMIT && |y| < RANK_LIMIT && |z| < RANK_LIMIT {
      var xy, yz := Infer(x, y), Infer(y, z);
      InferMeaning(x, y);
      InferMeaning(y, z);
      if xy.Ok? && yz.Ok? {
        InferMeaning(xy.shape, z);
        InferMeaning(x, yz.shape);
        forall k: nat
          ensures CompatibleAt(xy.shape, z, k) == CompatibleAt(x, yz.shape, k)
          ensures CompatibleAt(xy.shape, z, k) && (k < |xy.shape| || k < |z|) ==>
                    JoinAt(xy.shape, z, k) == JoinAt(x, yz.shape, k)
        {
          AssociativeAt(x, y, z, k);
        }
        if Infer(xy.shape, z).Ok? {
          SameShape(Infer(xy.shape, z).shape, Infer(x, yz.shape).shape);
        }
      } else if yz.Ok? {
        InnerFailure(x, y, z);
      } else if xy.Ok? {
        Commutative(y, z);
        Commutative(x, y);
        InnerFailure(z, y, x);
        Commutative(z, xy.shape);
      }
    }
  }

  // ----- The result as a least upper bound -----

  /** `x` broadcasts to `z`: aligned at the right, each of its dimensions is 1 or the one of `z`. */
  ghost predicate BroadcastsTo(x: Shape, z: Shape) {
    |x| <= |z| && forall k: nat :: k < |x| ==> At(x, k) == 1 || At(x, k) == At(z, k)
  }

  ghost predicate CommonTarget(x: Shape, y: Shape, z: Shape) {
    BroadcastsTo(x, z) && BroadcastsTo(y, z)
  }

  /** Somewhere a dimension 1 is aligned with a dimension below 1, as in an empty or unknown one. */
  ghost predicate OneMeetsNonPositive(x: Shape, y: Shape) {
    exists k: nat :: k < |x| && k < |y| && Max(At(x, k), At(y, k)) == 1 && Min(At(x, k), At(y, k)) < 1
  }

  /** A result is the least shape both operands broadcast to. */
  lemma ResultIsLeastTarget(x: Shape, y: Shape)
    requires Infer(x, y).Ok?
    ensures var m := Infer(x, y).shape;
            CommonTarget(x, y, m) && forall z :: CommonTarget(x, y, z) ==> BroadcastsTo(m, z)
  {
    InferMeaning(x, y);
    var m := Infer(x, y).shape;
    forall k: nat | k < |x| ensures At(x, k) == 1 || At(x, k) == At(m, k) {
      assert CompatibleAt(x, y, k) && At(m, k) == JoinAt(x, y, k);
    }
    forall k: nat | k < |y| ensures At(y, k) == 1 || At(y, k) == At(m, k) {
      assert CompatibleAt(x, y, k) && At(m, k) == JoinAt(x, y, k);
    }
    forall z | CommonTarget(x, y, z) ensures BroadcastsTo(m, z) {
      forall k: nat | k < |m| ensures At(m, k) == 1 || At(m, k) == At(z, k) {
        assert At(m, k) == JoinAt(x, y, k) && CompatibleAt(x, y, k);
      }
    }
  }

  /** On all integer shapes: inference succeeds exactly when a common target exists and no
      dimension 1 meets a dimension below 1. */
  lemma SucceedsWhenTargetExists(x: Shape, y: Shape)
    requires |x| < RANK_LIMIT && |y| < RANK_LIMIT
    ensures Infer(x, y).Ok? <==> (exists z :: CommonTarget(x, y, z)) && !OneMeetsNonPositive(x, y)
  {
    InferMeaning(x, y);
    if Infer(x, y).Ok? {
      ResultIsLeastTarget(x, y);
      forall k: nat | k < |x| && k < |y|
        ensures !(Max(At(x, k), At(y, k)) == 1 && Min(At(x, k), At(y, k)) < 1)
      {
        assert CompatibleAt(x, y, k);
      }
    } else {
      var k: nat :| !CompatibleAt(x, y, k);
      forall z | CommonTarget(x, y, z) ensures OneMeetsNonPositive(x, y) {
        assert At(x, k) == 1 || At(y, k) == 1;
      }
    }
  }

  /** The shapes the exception is about: a common target, and yet no result. */
  lemma OneAgainstEmptyDimension()
    ensures Infer([1], [0]).Failed? && CommonTarget([1], [0], [0])
  {
    assert !Compatible([1][0], [0][0]);
  }
}
