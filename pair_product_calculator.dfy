/** The per-chunk task: the set of products of a chunk's disjoint adjacent pairs
    (elements 0&1, 2&3, ...), a trailing unpaired element ignored. */
module PairProductTask {
  import opened JavaInt

  /** Specification: the products of the pairs (s[0], s[1]), (s[2], s[3]), ..., as Java computes them. */
  function PairProducts(s: seq<int32>): (r: set<int32>)
    ensures r == {} <==> |s| < 2
    decreases |s|
  {
    if |s| < 2 then {} else {Mul32(s[0], s[1])} + PairProducts(s[2..])
  }

  /** `x` is the product of the pair starting at some even index `i` with `i + 1 < |s|`. */
  ghost predicate IsPairProduct(s: seq<int32>, x: int)
  {
    exists i :: 0 <= i < |s| - 1 && i % 2 == 0 && x == Mul32(s[i], s[i + 1])
  }

  /** The same, with Java's multiplication replaced by the exact product. */
  ghost predicate IsExactPairProduct(s: seq<int32>, x: int)
  {
    exists i :: 0 <= i < |s| - 1 && i % 2 == 0 && x == (s[i] as int) * (s[i + 1] as int)
  }

  predicate AllInValueRange(s: seq<int32>)
  {
    forall i :: 0 <= i < |s| ==> 0 <= s[i] <= 100
  }

  /** Every element of the result is a disjoint adjacent-pair product, and every such product is in it. */
  lemma {:induction false} PairProductsMembership(s: seq<int32>, x: int)
    ensures x in PairProducts(s) <==> IsPairProduct(s, x)
    decreases |s|
  {
    if |s| >= 2 {
      var t := s[2..];
      PairProductsMembership(t, x);
      if x in PairProducts(s) && x != Mul32(s[0], s[1]) {
        var j :| 0 <= j < |t| - 1 && j % 2 == 0 && x == Mul32(t[j], t[j + 1]);
        assert s[j + 2] == t[j] && s[j + 3] == t[j + 1];
        assert (j + 2) % 2 == 0;
      }
      if IsPairProduct(s, x) {
        var i :| 0 <= i < |s| - 1 && i % 2 == 0 && x == Mul32(s[i], s[i + 1]);
        if i != 0 {
          assert t[i - 2] == s[i] && t[i - 1] == s[i + 1];
          assert IsPairProduct(t, x);
        }
      }
    }
  }

  /** Appending one more pair after an even-length prefix adds exactly that pair's product. */
  lemma {:induction false} PairProductsSnoc(t: seq<int32>, a: int32, b: int32)
    requires |t| % 2 == 0
    ensures PairProducts(t + [a, b]) == PairProducts(t) + {Mul32(a, b)}
    decreases |t|
  {
    if |t| == 0 {
      assert t + [a, b] == [a, b];
      assert [a, b][2..] == [];
    } else {
      assert (t + [a, b])[2..] == t[2..] + [a, b];
      PairProductsSnoc(t[2..], a, b);
    }
  }

  /** A chunk of odd length gives the same set as the chunk without its trailing element. */
  lemma {:induction false} PairProductsIgnoresTrailing(s: seq<int32>)
    requires |s| % 2 == 1
    ensures PairProducts(s) == PairProducts(s[..|s| - 1])
    decreases |s|
  {
    if |s| > 1 {
      var u, t := s[..|s| - 1], s[2..];
      var head := Mul32(s[0], s[1]);
      assert |t| == |s| - 2 && |t| % 2 == 1 && |u| >= 2;
      assert u[2..] == t[..|t| - 1];
      PairProductsIgnoresTrailing(t);
      assert PairProducts(s) == {head} + PairProducts(t);
      assert u[0] == s[0] && u[1] == s[1];
      assert PairProducts(u) == {head} + PairProducts(t[..|t| - 1]);
    }
  }

  /** One turn of the stride-2 loop: the prefix grows by the pair at even index `i`. */
  lemma {:induction false} PairProductsPrefixStep(s: seq<int32>, i: nat)
    requires i % 2 == 0 && i + 1 < |s|
    ensures PairProducts(s[..i + 2]) == PairProducts(s[..i]) + {Mul32(s[i], s[i + 1])}
  {
    assert s[..i + 2] == s[..i] + [s[i], s[i + 1]];
    PairProductsSnoc(s[..i], s[i], s[i + 1]);
  }

  /** Where the stride-2 loop stops, `i == |s|` or `i == |s| - 1`, it has seen every pair. */
  lemma {:induction false} PairProductsOfWholeChunk(s: seq<int32>, i: nat)
    requires i <= |s| && i % 2 == 0 && !(i < |s| - 1)
    ensures PairProducts(s[..i]) == PairProducts(s)
  {
    if i < |s| {
      assert |s| == i + 1 && |s| % 2 == 1;
      PairProductsIgnoresTrailing(s);
      assert s[..i] == s[..|s| - 1];
    } else {
      assert s[..i] == s;
    }
  }

  /** At most one distinct product per pair: |result| <= floor(|s| / 2). */
  lemma {:induction false} PairProductsCardinality(s: seq<int32>)
    ensures |PairProducts(s)| <= |s| / 2
    decreases |s|
  {
    if |s| >= 2 {
      PairProductsCardinality(s[2..]);
      var rest := PairProducts(s[2..]);
      var x := Mul32(s[0], s[1]);
      if x in rest {
        assert {x} + rest == rest;
      } else {
        assert |{x} + rest| == |rest| + 1;
      }
    }
  }

  /** With element values in [0, 100] no product wraps: the result is exactly the set of
      the true pair products, and each of them lies in [0, 10000]. */
  lemma PairProductsInValueRange(s: seq<int32>, x: int)
    requires AllInValueRange(s)
    ensures x in PairProducts(s) <==> IsExactPairProduct(s, x)
    ensures x in PairProducts(s) ==> 0 <= x <= 10000
  {
    PairProductsMembership(s, x);
    if x in PairProducts(s) {
      var i :| 0 <= i < |s| - 1 && i % 2 == 0 && x == Mul32(s[i], s[i + 1]);
      SmallProductExact(s[i], s[i + 1]);
    }
    if IsExactPairProduct(s, x) {
      var i :| 0 <= i < |s| - 1 && i % 2 == 0 && x == (s[i] as int) * (s[i + 1] as int);
      SmallProductExact(s[i], s[i + 1]);
    }
  }

  /** The task object: it holds one chunk (its own copy of a slice of the source array) and
      computes that chunk's pair products on request. */
  class PairProductCalculator {
    const subArray: array<int32>

    constructor (subArray: array<int32>)
      ensures this.subArray == subArray
    {
      this.subArray := subArray;
    }

    /** Runs the stride-2 loop over the chunk. The chunk is only read: `Call` modifies nothing. */
    method Call() returns (uniqueProducts: set<int32>)
      ensures uniqueProducts == PairProducts(subArray[..])
      ensures subArray.Length <= 1 ==> uniqueProducts == {}
    {
      ghost var s := subArray[..];
      uniqueProducts := {};
      var i := 0;
      while i < subArray.Length - 1
        invariant 0 <= i <= |s|
        invariant i % 2 == 0
        invariant uniqueProducts == PairProducts(s[..i])
      {
        var firstElement := subArray[i];
        var secondElement := subArray[i + 1];
        var product := Mul32(firstElement, secondElement);
        PairProductsPrefixStep(s, i);
        uniqueProducts := uniqueProducts + {product};
        i := i + 2;
      }
      PairProductsOfWholeChunk(s, i);
    }
  }
}
