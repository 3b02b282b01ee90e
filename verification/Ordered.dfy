/** Total orders on keys, for containers that are walked from their smallest key. */
module Ordered {
  datatype Option<+T> = None | Some(value: T)

  ghost predicate TotalOrder<K(!new)>(le: (K, K) -> bool) {
    && (forall a :: le(a, a))
    && (forall a, b :: le(a, b) || le(b, a))
    && (forall a, b :: le(a, b) && le(b, a) ==> a == b)
    && (forall a, b, c :: le(a, b) && le(b, c) ==> le(a, c))
  }

  ghost predicate IsLeast<K(!new)>(s: set<K>, k: K, le: (K, K) -> bool) {
    k in s && forall j :: j in s ==> le(k, j)
  }

  lemma {:induction false} LeastExists<K(!new)>(s: set<K>, le: (K, K) -> bool) returns (k: K)
    requires TotalOrder(le) && s != {}
    ensures IsLeast(s, k, le)
  {
    var c :| c in s;
    var rest := s - {c};
    assert forall j :: j in s ==> j == c || j in rest;
    k := c;
    if rest != {} {
      var j := LeastExists(rest, le);
      k := if le(c, j) then c else j;
    }
  }

  ghost function Least<K(!new)>(s: set<K>, le: (K, K) -> bool): (k: K)
    requires TotalOrder(le) && s != {}
    ensures IsLeast(s, k, le)
  {
    assert exists k :: IsLeast(s, k, le) by { var w := LeastExists(s, le); }
    var k :| IsLeast(s, k, le); k
  }

  lemma LeastUnique<K(!new)>(s: set<K>, k: K, le: (K, K) -> bool)
    requires TotalOrder(le) && IsLeast(s, k, le)
    ensures k == Least(s, le)
  {}

  predicate IntLe(a: int, b: int) { a <= b }

  lemma IntOrder()
    ensures TotalOrder(IntLe)
  {}

  predicate NumLe(a: nat, b: nat) { a <= b }

  ghost function LeastNum(ids: set<nat>): (t: nat)
    requires ids != {}
    ensures t in ids && forall u :: u in ids ==> t <= u
  {
    assert TotalOrder(NumLe);
    var t := Least(ids, NumLe);
    assert forall u :: u in ids ==> NumLe(t, u);
    t
  }

  /** The first key of an ordered container. */
  method FindLeast<K(!new)>(s: set<K>, le: (K, K) -> bool) returns (k: K)
    requires TotalOrder(le) && s != {}
    ensures k == Least(s, le)
  {
    k :| k in s;
    var rest := s - {k};
    while rest != {}
      invariant rest <= s && k in s
      invariant forall j :: j in s && j !in rest ==> le(k, j)
      decreases rest
    {
      var j :| j in rest;
      if le(j, k) { k := j; }
      rest := rest - {j};
    }
    LeastUnique(s, k, le);
  }

  /** The `n` smallest keys. */
  ghost function Smallest<K(!new)>(s: set<K>, n: nat, le: (K, K) -> bool): (r: set<K>)
    requires TotalOrder(le) && n <= |s|
    ensures r <= s && |r| == n
    ensures forall a, b :: a in r && b in s && b !in r ==> le(a, b)
    decreases n
  {
    if n == 0 then {} else
    var k := Least(s, le);
    var rest := Smallest(s - {k}, n - 1, le);
    {k} + rest
  }

  lemma SmallestPeel<K(!new)>(s: set<K>, n: nat, le: (K, K) -> bool)
    requires TotalOrder(le) && 0 < n <= |s|
    ensures var k := Least(s, le); Smallest(s, n, le) == {k} + Smallest(s - {k}, n - 1, le)
    ensures Smallest(s - {Least(s, le)}, 0, le) == {}
  {}

  /** Keeping the rest, the smallest keys are determined by how many they are. */
  lemma SmallestUnique<K(!new)>(s: set<K>, r: set<K>, le: (K, K) -> bool)
    requires TotalOrder(le) && r <= s && |r| <= |s|
    requires forall a, b :: a in r && b in s && b !in r ==> le(a, b)
    ensures r == Smallest(s, |r|, le)
  {
    hide Smallest, TotalOrder;
    Antisymmetric(le);
    var m := Smallest(s, |r|, le);
    forall a | a in r ensures a in m {
      if a !in m {
        assert !(m <= r) by { if m <= r { SubsetSize(m, r, a); } }
        var b :| b in m && b !in r;
        assert false;
      }
    }
    EqualBySize(r, m);
  }

  lemma Antisymmetric<K(!new)>(le: (K, K) -> bool)
    requires TotalOrder(le)
    ensures forall a, b :: le(a, b) && le(b, a) ==> a == b
  {}

  lemma SubsetSize<K>(m: set<K>, r: set<K>, a: K)
    requires m <= r && a in r && a !in m
    ensures |m| < |r|
  {
    assert r == m + (r - m);
    assert a in r - m;
  }

  lemma EqualBySize<K>(r: set<K>, m: set<K>)
    requires r <= m && |r| == |m|
    ensures r == m
  {
    assert m == r + (m - r);
  }

  // ----- Permutations -----

  /** The numbers below `n`, each exactly once. */
  ghost predicate IsPermutation(s: seq<int>, n: nat) {
    && |s| == n
    && (forall i :: 0 <= i < |s| ==> 0 <= s[i] < n)
    && (forall i, j :: 0 <= i < j < |s| ==> s[i] != s[j])
    && (forall c :: 0 <= c < n ==> c in s)
  }

  ghost function Numbers(n: nat): (s: set<int>)
    ensures |s| == n && forall k :: k in s <==> 0 <= k < n
  {
    if n == 0 then {} else Numbers(n - 1) + {n - 1}
  }

  /** A list of `n` distinct numbers below `n` has them all. */
  lemma AllBelow(s: seq<int>, n: nat)
    requires |s| == n && forall i :: 0 <= i < |s| ==> 0 <= s[i] < n
    requires forall i, j :: 0 <= i < j < |s| ==> s[i] != s[j]
    ensures IsPermutation(s, n)
  {
    forall c | 0 <= c < n ensures c in s {
      if c !in s {
        Crowded(s, Numbers(n) - {c});
      }
    }
  }

  lemma {:induction false} Crowded(s: seq<int>, room: set<int>)
    requires (forall i :: 0 <= i < |s| ==> s[i] in room) && forall i, j :: 0 <= i < j < |s| ==> s[i] != s[j]
    ensures |s| <= |room|
  {
    if s != [] {
      Crowded(s[1..], room - {s[0]});
    }
  }
}
