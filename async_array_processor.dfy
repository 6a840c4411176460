/** How the source array is split into contiguous chunks, one task per chunk. */
module Partition {
  import opened JavaInt

  /** The pool size chosen at start-up: the number of cores, but at least 2. */
  function PoolSize(cores: int): (p: int)
    ensures p >= 2 && p >= cores
    ensures p == cores || p == 2
  {
    if cores > 2 then cores else 2
  }

  /** The chunk length, ceil(n / p). */
  function PartSize(n: nat, p: nat): (r: nat)
    requires p >= 1
    ensures n <= r * p < n + p
  {
    var q := (n + p - 1) / p;
    assert (n + p - 1) == p * q + (n + p - 1) % p;
    q
  }

  function Min(a: int, b: int): int {
    if a <= b then a else b
  }

  /** The chunks the partition loop emits from index `i` on: `a[i..i+size]`, then from
      `i + size`, the last chunk cut at the end of the array. */
  function ChunksFrom<T>(a: seq<T>, i: nat, size: nat): (r: seq<seq<T>>)
    requires size >= 1 || i >= |a|
    ensures r == [] <==> i >= |a|
    ensures forall k :: 0 <= k < |r| ==> 0 < |r[k]| <= size
    decreases |a| - i
  {
    if i >= |a| then [] else [a[i..Min(i + size, |a|)]] + ChunksFrom(a, i + size, size)
  }

  /** All chunks of `a`, starting at index 0: written one after another they give back `a`. */
  function Chunks<T>(a: seq<T>, size: nat): (r: seq<seq<T>>)
    requires size >= 1 || |a| == 0
    ensures Flatten(r) == a
    ensures r == [] <==> |a| == 0
  {
    ChunksFromFlatten(a, 0, size);
    ChunksFrom(a, 0, size)
  }

  /** The chunks written one after another. */
  function Flatten<T>(cs: seq<seq<T>>): seq<T>
  {
    if cs == [] then [] else cs[0] + Flatten(cs[1..])
  }

  /** Concatenating the chunks in order gives back the rest of the array. */
  lemma {:induction false} ChunksFromFlatten<T>(a: seq<T>, i: nat, size: nat)
    requires size >= 1 || i >= |a|
    requires i <= |a|
    ensures Flatten(ChunksFrom(a, i, size)) == a[i..]
    decreases |a| - i
  {
    if i < |a| {
      var e := Min(i + size, |a|);
      var cs := ChunksFrom(a, i, size);
      assert cs[1..] == ChunksFrom(a, i + size, size);
      if e < |a| {
        ChunksFromFlatten(a, i + size, size);
      } else {
        assert ChunksFrom(a, i + size, size) == [];
      }
      assert a[i..] == a[i..e] + a[e..];
    }
  }

  /** Chunk `k` is exactly the slice [i + k*size, min(i + (k+1)*size, |a|)). */
  lemma {:induction false} ChunksFromAt<T>(a: seq<T>, i: nat, size: nat, k: nat)
    requires size >= 1
    requires k < |ChunksFrom(a, i, size)|
    ensures i + k * size < |a|
    ensures ChunksFrom(a, i, size)[k] == a[i + k * size..Min(i + k * size + size, |a|)]
    decreases k
  {
    if k > 0 {
      ChunksFromAt(a, i + size, size, k - 1);
      assert i + size + (k - 1) * size == i + k * size;
    }
  }

  /** The number of chunks from `i` on is the ceiling of (|a| - i) / size. */
  lemma {:induction false} ChunksFromCount<T>(a: seq<T>, i: nat, size: nat)
    requires size >= 1
    requires i <= |a|
    ensures |a| - i <= |ChunksFrom(a, i, size)| * size < |a| - i + size
    decreases |a| - i
  {
    if i < |a| {
      if i + size < |a| {
        ChunksFromCount(a, i + size, size);
        var c := |ChunksFrom(a, i + size, size)|;
        assert |ChunksFrom(a, i, size)| * size == c * size + size;
      }
    }
  }

  /** Every chunk but the last has length `size`; the last is non-empty and at most `size` long. */
  lemma {:induction false} ChunksFromSizes<T>(a: seq<T>, i: nat, size: nat)
    requires size >= 1
    ensures var cs := ChunksFrom(a, i, size);
      (forall k :: 0 <= k < |cs| - 1 ==> |cs[k]| == size) &&
      (|cs| > 0 ==> 0 < |cs[|cs| - 1]| <= size)
    decreases |a| - i
  {
    if i < |a| {
      ChunksFromSizes(a, i + size, size);
      var cs := ChunksFrom(a, i, size);
      assert cs[1..] == ChunksFrom(a, i + size, size);
      if i + size < |a| {
        assert |cs[0]| == size;
      }
    }
  }

  /** Position `r < size` of chunk `k` holds the array element at index `k * size + r`. */
  lemma {:induction false} ChunkElement<T>(a: seq<T>, size: nat, k: nat, r: nat)
    requires size >= 1 && r < size
    requires k * size + r < |a|
    ensures k < |Chunks(a, size)|
    ensures r < |Chunks(a, size)[k]|
    ensures Chunks(a, size)[k][r] == a[k * size + r]
  {
    var cs := Chunks(a, size);
    ChunksFromCount(a, 0, size);
    assert k * size < |cs| * size;
    FactorCancel(k, |cs|, size);
    ChunksFromAt(a, 0, size, k);
  }

  /** Every index of the array is found in the chunks: index `j` is element `j % size`
      of chunk `j / size`. */
  lemma {:induction false} ChunksCover<T>(a: seq<T>, size: nat, j: nat)
    requires size >= 1
    requires j < |a|
    ensures j / size < |Chunks(a, size)|
    ensures j % size < |Chunks(a, size)[j / size]|
    ensures Chunks(a, size)[j / size][j % size] == a[j]
  {
    var k, r := j / size, j % size;
    assert j == k * size + r;
    ChunkElement(a, size, k, r);
  }

  lemma FactorCancel(x: int, y: int, s: int)
    requires s > 0 && x * s < y * s
    ensures x < y
  {
  }

  /** With chunk length ceil(n / p) there are at most p chunks. */
  lemma {:induction false} ChunkCountAtMostPool<T>(a: seq<T>, p: nat)
    requires p >= 1
    ensures |Chunks(a, PartSize(|a|, p))| <= p
  {
    var size := PartSize(|a|, p);
    if |a| > 0 {
      ChunksFromCount(a, 0, size);
      var c := |Chunks(a, size)|;
      assert c * size < (p + 1) * size;
      FactorCancel(c, p + 1, size);
    }
  }

  /** The loop of the submitting step: walks `i` over 0, partSize, 2*partSize, ... below the
      array length and records a copy of `mainArray[i..min(i + partSize, n)]` for each task.
      `i + partSize` is a Java `int` sum. If it passes `MaxInt`, it wraps to a negative value,
      so `end` is negative and `Arrays.copyOfRange` throws because its start lies beyond its end.
      `ok` is then false, and `parts` holds the chunks submitted before the throw. */
  method SubmitTasks(mainArray: array<int32>, poolSize: nat) returns (parts: seq<seq<int32>>, ok: bool)
    requires poolSize >= 1
    requires mainArray.Length <= MaxInt
    ensures var all := Chunks(mainArray[..], PartSize(mainArray.Length, poolSize));
      && (ok <==> |all| * PartSize(mainArray.Length, poolSize) <= MaxInt)
      && (ok ==> parts == all)
      && (!ok ==> |all| > 0 && parts == all[..|all| - 1])
    ensures ok ==> Flatten(parts) == mainArray[..]
    ensures ok ==> (mainArray.Length == 0 <==> parts == [])
    ensures |parts| <= poolSize
    ensures forall k :: 0 <= k < |parts| - 1 ==> |parts[k]| == PartSize(mainArray.Length, poolSize)
    ensures |parts| > 0 ==> 0 < |parts[|parts| - 1]| <= PartSize(mainArray.Length, poolSize)
  {
    var arraySize := mainArray.Length;
    var partSize := PartSize(arraySize, poolSize);
    if arraySize > 0 {
      PartSizeAtMostLength(arraySize, poolSize);
    }
    ghost var a := mainArray[..];
    parts, ok := [], true;
    var i := 0;
    while i < arraySize
      invariant 0 <= i <= MaxInt
      invariant i == ChunkStart(|parts|, partSize)
      invariant Chunks(a, partSize) == parts + ChunksFrom(a, i, partSize)
      decreases arraySize - i
    {
      var next := Add32(i, partSize);
      var end := Min(next, arraySize);
      if end < i {
        ok := false;
        LastChunkWraps(a, parts, i, partSize);
        SubmittedChunks(a, poolSize, parts, ok);
        return;
      }
      assert mainArray[i..end] == a[i..end];
      ChunksFromStep(a, parts, i, partSize, next);
      parts := parts + [mainArray[i..end]];
      i := next;
    }
    LoopExhaustsChunks(a, parts, i, partSize);
    SubmittedChunks(a, poolSize, parts, ok);
  }

  /** One step of the partition loop: after the chunks before `i` comes the chunk at `i`,
      then the chunks from `next == i + size`. */
  lemma {:induction false} ChunksFromStep<T>(a: seq<T>, parts: seq<seq<T>>, i: nat, size: nat, next: nat)
    requires size >= 1 && i < |a| && next == i + size
    requires Chunks(a, size) == parts + ChunksFrom(a, i, size)
    ensures Chunks(a, size) == (parts + [a[i..Min(next, |a|)]]) + ChunksFrom(a, next, size)
  {
    assert ChunksFrom(a, i, size) == [a[i..Min(next, |a|)]] + ChunksFrom(a, next, size);
  }

  /** The submitting step's outcome, given which chunks it emitted: all of them, or all but the
      last when the index wrapped. */
  lemma {:induction false} SubmittedChunks<T>(a: seq<T>, p: nat, parts: seq<seq<T>>, ok: bool)
    requires p >= 1
    requires var size := PartSize(|a|, p);
      var all := Chunks(a, size);
      if ok then parts == all && |all| * size <= MaxInt
      else |all| > 0 && parts == all[..|all| - 1] && |all| * size > MaxInt
    ensures var all := Chunks(a, PartSize(|a|, p));
      && (ok <==> |all| * PartSize(|a|, p) <= MaxInt)
      && (ok ==> parts == all)
      && (!ok ==> |all| > 0 && parts == all[..|all| - 1])
    ensures ok ==> Flatten(parts) == a
    ensures ok ==> (|a| == 0 <==> parts == [])
    ensures |parts| <= p
    ensures forall k :: 0 <= k < |parts| - 1 ==> |parts[k]| == PartSize(|a|, p)
    ensures |parts| > 0 ==> 0 < |parts[|parts| - 1]| <= PartSize(|a|, p)
  {
    ChunksPrefixFacts(a, p, parts);
  }

  /** What the partition promises about the chunks submitted so far, a prefix of all of them:
      at most `p` chunks, each but the last of length `size`, the last non-empty and no longer. */
  lemma {:induction false} ChunksPrefixFacts<T>(a: seq<T>, p: nat, parts: seq<seq<T>>)
    requires p >= 1
    requires parts <= Chunks(a, PartSize(|a|, p))
    ensures |parts| <= p
    ensures forall k :: 0 <= k < |parts| - 1 ==> |parts[k]| == PartSize(|a|, p)
    ensures |parts| > 0 ==> 0 < |parts[|parts| - 1]| <= PartSize(|a|, p)
  {
    var size := PartSize(|a|, p);
    var all := Chunks(a, size);
    ChunkCountAtMostPool(a, p);
    if |a| > 0 {
      ChunksFromSizes(a, 0, size);
      assert forall k :: 0 <= k < |parts| ==> parts[k] == all[k];
    }
  }

  /** Where chunk `k` starts: `k` steps of `size` from index 0. */
  function ChunkStart(k: nat, size: nat): (r: nat)
    ensures k >= 1 ==> r >= size
  {
    if k == 0 then 0 else ChunkStart(k - 1, size) + size
  }

  lemma {:induction false} ChunkStartIsProduct(k: nat, size: nat)
    ensures ChunkStart(k, size) == k * size
  {
    if k > 0 {
      ChunkStartIsProduct(k - 1, size);
      assert k * size == (k - 1) * size + size;
    }
  }

  /** When the loop index reaches the array length without wrapping, every chunk has been emitted. */
  lemma {:induction false} LoopExhaustsChunks<T>(a: seq<T>, parts: seq<seq<T>>, i: nat, size: nat)
    requires (size >= 1 || |a| == 0) && |a| <= i <= MaxInt
    requires i == ChunkStart(|parts|, size)
    requires Chunks(a, size) == parts + ChunksFrom(a, i, size)
    ensures parts == Chunks(a, size)
    ensures |parts| * size <= MaxInt
  {
    assert ChunksFrom(a, i, size) == [];
    ChunkStartIsProduct(|parts|, size);
  }

  /** When the sum `i + size` after chunk start `i` passes `MaxInt`, the chunk at `i` is the last one. */
  lemma {:induction false} LastChunkWraps<T>(a: seq<T>, parts: seq<seq<T>>, i: nat, size: nat)
    requires size >= 1 && i < |a| <= MaxInt
    requires i + size > MaxInt
    requires i == ChunkStart(|parts|, size)
    requires Chunks(a, size) == parts + ChunksFrom(a, i, size)
    ensures var all := Chunks(a, size);
      |all| > 0 && parts == all[..|all| - 1] && |all| * size > MaxInt
  {
    var all := Chunks(a, size);
    assert ChunksFrom(a, i + size, size) == [];
    assert |ChunksFrom(a, i, size)| == 1;
    assert |all| == |parts| + 1;
    assert all[..|all| - 1] == parts;
    assert ChunkStart(|all|, size) == i + size;
    ChunkStartIsProduct(|all|, size);
  }

  /** For every array the program builds (length at most 60, indeed up to 2^30), on a pool of
      `PoolSize(cores)` workers, the loop index never wraps, so the submitting step succeeds. */
  lemma {:induction false} SubmitIndexFitsForProgramArrays<T>(a: seq<T>, cores: int)
    requires |a| <= 0x4000_0000
    ensures var size := PartSize(|a|, PoolSize(cores));
      |Chunks(a, size)| * size <= MaxInt
  {
    var p := PoolSize(cores);
    var size := PartSize(|a|, p);
    if |a| > 0 {
      ChunksFromCount(a, 0, size);
      PartSizeAtMostLength(|a|, p);
      assert |Chunks(a, size)| * size < |a| + size;
    }
  }

  /** A chunk is never longer than the array: ceil(n / p) <= n for n, p >= 1. */
  lemma {:induction false} PartSizeAtMostLength(n: nat, p: nat)
    requires n >= 1 && p >= 1
    ensures PartSize(n, p) <= n
  {
    var size := PartSize(n, p);
    assert (size - 1) * p < n;
    assert n <= n * p;
    FactorCancel(size - 1, n, p);
  }
}

/** Folding the per-chunk outcomes, in submission order, into the global result set. */
module Collector {
  import opened JavaInt
  import Partition
  import opened PairProductTask

  /** What waiting on one task's handle yields: its set, the cause of its failure, or an
      interruption of the wait. */
  datatype Outcome = Success(partResult: set<int32>) | Failure(cause: string) | Interrupted

  /** One step of the collecting loop: a successful outcome is added in; the others add nothing. */
  function AddOutcome(finalResults: set<int32>, o: Outcome): (r: set<int32>)
    ensures finalResults <= r
    ensures o.Success? ==> o.partResult <= r
    ensures !o.Success? ==> r == finalResults
    ensures r - finalResults <= (if o.Success? then o.partResult else {})
  {
    match o
    case Success(partResult) => finalResults + partResult
    case Failure(_) => finalResults
    case Interrupted => finalResults
  }

  /** The global set after the loop has handled every outcome, in order, starting from the empty set. */
  function Collected(outcomes: seq<Outcome>): (r: set<int32>)
    ensures forall k :: 0 <= k < |outcomes| && outcomes[k].Success? ==> outcomes[k].partResult <= r
  {
    if outcomes == [] then {}
    else AddOutcome(Collected(outcomes[..|outcomes| - 1]), outcomes[|outcomes| - 1])
  }

  /** `x` belongs to the result of some task that succeeded. */
  ghost predicate FromSomeSuccess(outcomes: seq<Outcome>, x: int32)
  {
    exists k :: 0 <= k < |outcomes| && outcomes[k].Success? && x in outcomes[k].partResult
  }

  /** The collected set is exactly the union of the successful outcomes' sets. */
  lemma {:induction false} CollectedMembership(outcomes: seq<Outcome>, x: int32)
    ensures x in Collected(outcomes) <==> FromSomeSuccess(outcomes, x)
    decreases |outcomes|
  {
    if outcomes != [] {
      var n := |outcomes|;
      var init := outcomes[..n - 1];
      CollectedMembership(init, x);
      if FromSomeSuccess(outcomes, x) {
        var k :| 0 <= k < n && outcomes[k].Success? && x in outcomes[k].partResult;
        if k < n - 1 {
          assert init[k] == outcomes[k];
        }
      }
      if FromSomeSuccess(init, x) {
        var k :| 0 <= k < n - 1 && init[k].Success? && x in init[k].partResult;
        assert outcomes[k] == init[k];
      }
    }
  }

  /** The global set only grows as the loop proceeds: a prefix collects a subset. */
  lemma {:induction false} CollectedMonotone(outcomes: seq<Outcome>, j: nat)
    requires j <= |outcomes|
    ensures Collected(outcomes[..j]) <= Collected(outcomes)
    decreases |outcomes| - j
  {
    if j < |outcomes| {
      var n := |outcomes|;
      CollectedMonotone(outcomes[..n - 1], j);
      assert outcomes[..n - 1][..j] == outcomes[..j];
      assert Collected(outcomes) == AddOutcome(Collected(outcomes[..n - 1]), outcomes[n - 1]);
    } else {
      assert outcomes[..j] == outcomes;
    }
  }

  /** Merging again an outcome that was already merged changes nothing. */
  lemma {:induction false} CollectedIdempotent(outcomes: seq<Outcome>, k: nat)
    requires k < |outcomes|
    ensures Collected(outcomes + [outcomes[k]]) == Collected(outcomes)
  {
    var more := outcomes + [outcomes[k]];
    assert more[..|more| - 1] == outcomes;
    if outcomes[k].Success? {
      forall x | x in outcomes[k].partResult
        ensures x in Collected(outcomes)
      {
        CollectedMembership(outcomes, x);
      }
    }
  }

  /** A failed or interrupted outcome contributes nothing, wherever it stands: dropping it
      leaves the collected set unchanged, and the outcomes after it are still merged. */
  lemma {:induction false} CollectedSkipsUnsuccessful(outcomes: seq<Outcome>, k: nat)
    requires k < |outcomes|
    requires !outcomes[k].Success?
    ensures Collected(outcomes[..k] + outcomes[k + 1..]) == Collected(outcomes)
  {
    var rest := outcomes[..k] + outcomes[k + 1..];
    forall x: int32
      ensures x in Collected(rest) <==> x in Collected(outcomes)
    {
      CollectedMembership(rest, x);
      CollectedMembership(outcomes, x);
      if FromSomeSuccess(rest, x) {
        var m :| 0 <= m < |rest| && rest[m].Success? && x in rest[m].partResult;
        if m < k {
          assert rest[m] == outcomes[m];
        } else {
          assert rest[m] == outcomes[m + 1];
        }
      }
      if FromSomeSuccess(outcomes, x) {
        var m :| 0 <= m < |outcomes| && outcomes[m].Success? && x in outcomes[m].partResult;
        if m < k {
          assert rest[m] == outcomes[m];
        } else {
          assert rest[m - 1] == outcomes[m];
        }
      }
    }
  }

  /** End to end: when every successful task returned the pair products of its chunk, a value is
      in the global set exactly when it is a pair product of some chunk whose task succeeded. */
  lemma {:induction false} CollectedPairProducts(chunks: seq<seq<int32>>, outcomes: seq<Outcome>, x: int32)
    requires |outcomes| == |chunks|
    requires forall k :: 0 <= k < |outcomes| && outcomes[k].Success? ==>
      outcomes[k].partResult == PairProducts(chunks[k])
    ensures x in Collected(outcomes) <==>
      exists k :: 0 <= k < |chunks| && outcomes[k].Success? && IsPairProduct(chunks[k], x)
  {
    CollectedMembership(outcomes, x);
    if x in Collected(outcomes) {
      var k :| 0 <= k < |outcomes| && outcomes[k].Success? && x in outcomes[k].partResult;
      PairProductsMembership(chunks[k], x);
    }
    if exists k :: 0 <= k < |chunks| && outcomes[k].Success? && IsPairProduct(chunks[k], x) {
      var k :| 0 <= k < |chunks| && outcomes[k].Success? && IsPairProduct(chunks[k], x);
      PairProductsMembership(chunks[k], x);
      assert x in outcomes[k].partResult;
    }
  }

  /** [2, 3, 4, 5] on a pool of 2: chunks [2, 3] and [4, 5], task results {6} and {20}, global
      set {6, 20}; if the second task fails, only {6} remains. */
  lemma TwoChunkExample()
    ensures Partition.Chunks([2, 3, 4, 5], Partition.PartSize(4, 2)) == [[2, 3], [4, 5]]
    ensures PairProducts([2, 3]) == {6} && PairProducts([4, 5]) == {20}
    ensures Collected([Success({6}), Success({20})]) == {6, 20}
    ensures Collected([Success({6}), Failure("task failed")]) == {6}
  {
    var a: seq<int32> := [2, 3, 4, 5];
    assert a[0..2] == [2, 3] && a[2..4] == [4, 5];
    assert [2, 3][2..] == [] && [4, 5][2..] == [];
    assert [Success({6}), Success({20})][..1] == [Success({6})];
    assert [Success({6}), Failure("task failed")][..1] == [Success({6})];
  }

  /** The collecting loop: waits on each handle in submission order and adds each successful
      task's set to `finalResults`; a failure or an interrupted wait is skipped and the loop
      carries on with the next handle. */
  method CollectResults(futures: seq<Outcome>) returns (finalResults: set<int32>)
    ensures finalResults == Collected(futures)
    ensures forall x :: x in finalResults <==> FromSomeSuccess(futures, x)
  {
    finalResults := {};
    for k := 0 to |futures|
      invariant finalResults == Collected(futures[..k])
    {
      assert futures[..k + 1][..k] == futures[..k];
      match futures[k]
      case Success(partResult) =>
        finalResults := finalResults + partResult;
      case Interrupted =>
      case Failure(_) =>
    }
    assert futures[..|futures|] == futures;
    forall x
      ensures x in finalResults <==> FromSomeSuccess(futures, x)
    {
      CollectedMembership(futures, x);
    }
  }
}
