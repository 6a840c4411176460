# Asynchronous pair products over a partitioned array — a Dafny model

The program fills an integer array (length 40–60, values 0–100). It then splits the array into
contiguous chunks, one per worker of a fixed thread pool. Each chunk goes to a
`PairProductCalculator` task, which returns the set of products of the chunk's disjoint adjacent
pairs (elements 0&1, 2&3, …). The main thread waits on the tasks' futures in submission order and
unions the successful results into one global set. A failed task or an interrupted wait adds
nothing, and collection carries on with the next future.

This project models those three sequential pieces and proves what they promise:

- `java_int.dfy`, module `JavaInt`: Java's 32-bit `int` (the subset type `int32`), the
  two's-complement reduction `Wrap32`, and the wrapping operations `Mul32` and `Add32`.
- `pair_product_calculator.dfy`, module `PairProductTask`: the specification function
  `PairProducts` and the class `PairProductCalculator`. The class holds the chunk array. Its
  method `Call` runs the stride-2 loop and is proved equal to `PairProducts`.
- `async_array_processor.dfy`, module `Partition`: the pool size `max(cores, 2)`, the chunk
  length `ceil(n / p)`, the specification `ChunksFrom`/`Chunks` of the partition loop, the method
  `SubmitTasks` that runs that loop, and the lemmas about the chunks.
- `async_array_processor.dfy`, module `Collector`: each future's outcome as a tagged value
  `Success(set) | Failure(cause) | Interrupted`, the fold `Collected`, the loop `CollectResults`,
  and the lemmas about the merge.

The thread pool is replaced by explicit values. The pool size `p` is a parameter (the program
reads it back from the executor at `src/AsyncArrayProcessor.java:59`). Each future becomes the
chunk it was given, and what `get()` returns becomes an `Outcome`. `SubmitTasks` requires
`poolSize >= 1`. The executor it reads the size from is a fixed pool of `max(cores, 2)` threads
(`src/AsyncArrayProcessor.java:53-55`), so that always holds.

Chunk length: the source computes `(int) Math.ceil((double) n / p)`. The model uses integer
ceiling division, `(n + p - 1) / p`, and `PartSize` states the ceiling property `n <= r*p < n + p`.
The two agree for every Java `int` pair with `n >= 0` and `p >= 1`. (At `p = 0` Java divides a
double by zero and gets `Integer.MAX_VALUE`, or `0` when `n = 0`; the pool size is never 0.) If
`n/p` is not an integer, its fractional part is at least `1/p`. The gap between adjacent doubles
near `n/p` is at most `2^-21 / p`, far smaller, so rounding the quotient never lands on an
integer. This argument is not proved in Dafny.

Loop index overflow: the partition loop computes `i + partSize` as a Java `int` sum
(`src/AsyncArrayProcessor.java:64-65`). `SubmitTasks` models that sum with `Add32`. For an array
close to `2^31` elements the last sum passes `MaxInt` and wraps to a negative value. Then `end`
is negative, `Arrays.copyOfRange` throws because its start is beyond its end, and the method
stops with `ok == false` after the chunks before it. This happens exactly when the number of
chunks times `partSize` exceeds `MaxInt`. `SubmitIndexFitsForProgramArrays` shows it never
happens for the arrays the program builds (at most 60 elements, indeed for any length up to
2^30) on a pool of `PoolSize(cores)` workers.

## Model

| member | source | states |
|---|---|---|
| `JavaInt.Wrap32` | src/PairProductCalculator.java:25 | the reduction a Java `int` operation applies leaves a result that fits in 32 bits unchanged |
| `JavaInt.Wrap32Congruent` | src/PairProductCalculator.java:25 | the reduced value is congruent to the exact result modulo 2^32, and it is the only 32-bit value that is |
| `JavaInt.Mul32` | src/PairProductCalculator.java:25 | Java's `int` product equals the exact product whenever that fits in 32 bits |
| `JavaInt.Add32` | src/AsyncArrayProcessor.java:64-65 | Java's `int` sum equals the exact sum when that fits; a sum of two non-negative `int`s that passes `MaxInt` becomes negative |
| `JavaInt.Add32IsWrapped` | src/AsyncArrayProcessor.java:64-65 | Java's `int` sum is the same 32-bit reduction of the exact sum that the product uses |
| `JavaInt.SmallProductExact` | src/PairProductCalculator.java:25 | two operands in [0, 100] multiply without wrap-around, and the product lies in [0, 10000] |
| `PairProductTask.PairProducts` | src/PairProductCalculator.java:22-26 | the task's result is empty exactly when the chunk has fewer than two elements |
| `PairProductTask.PairProductsMembership` | src/PairProductCalculator.java:22-26 | a value is in the task's result exactly when it is the product of the pair at some even index `i` with `i + 1 < L` (both directions) |
| `PairProductTask.PairProductsSnoc` | src/PairProductCalculator.java:22-26 | handling one more pair after an even-length prefix adds exactly that pair's product to the set |
| `PairProductTask.PairProductsIgnoresTrailing` | src/PairProductCalculator.java:22 | for odd `L` the trailing element is ignored: the result equals that of the first `L - 1` elements |
| `PairProductTask.PairProductsPrefixStep` | src/PairProductCalculator.java:22-26 | one turn of the loop at even index `i` extends the set of the first `i` elements by the product of elements `i` and `i + 1`, and by nothing else |
| `PairProductTask.PairProductsOfWholeChunk` | src/PairProductCalculator.java:22 | where the loop condition `i < L - 1` fails at an even `i`, the prefix handled so far yields the whole chunk's result |
| `PairProductTask.PairProductsCardinality` | src/PairProductCalculator.java:22-26 | the result has at most `floor(L / 2)` elements; equal products collapse to one |
| `PairProductTask.PairProductsInValueRange` | src/AsyncArrayProcessor.java:46 | with element values in [0, 100] the result is exactly the set of true (unwrapped) pair products, each in [0, 10000] |
| `PairProductTask.PairProductCalculator.constructor` | src/PairProductCalculator.java:10-13 | the task keeps the chunk array it is given |
| `PairProductTask.PairProductCalculator.Call` | src/PairProductCalculator.java:16-33 | the stride-2 loop returns exactly the pair-product set of the chunk, the empty set for a chunk of length 0 or 1, and modifies nothing |
| `Partition.PoolSize` | src/AsyncArrayProcessor.java:52-53 | the pool has at least 2 workers, at least as many as the cores, and is either the core count or 2 |
| `Partition.PartSize` | src/AsyncArrayProcessor.java:61 | for `n >= 0` and `p >= 1`, the chunk length `r` is the ceiling of `n / p`: `n <= r*p < n + p`, so it is at least 1 whenever `n > 0` |
| `Partition.PartSizeAtMostLength` | src/AsyncArrayProcessor.java:61 | for `n, p >= 1` a chunk is never longer than the array: `ceil(n / p) <= n` |
| `Partition.ChunksFrom` | src/AsyncArrayProcessor.java:64-66 | the loop emits no chunk exactly when it starts at or past the end of the array, and every chunk it emits is non-empty and at most `size` long |
| `Partition.Chunks` | src/AsyncArrayProcessor.java:64-66 | the chunks of the whole array concatenate back to the array, and there are none exactly when the array is empty |
| `Partition.ChunksFromFlatten` | src/AsyncArrayProcessor.java:64-66 | concatenating the chunks in order gives back the array exactly |
| `Partition.ChunksFromAt` | src/AsyncArrayProcessor.java:64-66 | chunk `k` is the slice from `k*size` up to `min((k+1)*size, n)` |
| `Partition.ChunkElement` | src/AsyncArrayProcessor.java:64-66 | position `r < size` of chunk `k` holds the array element at index `k*size + r`, whenever that index is inside the array |
| `Partition.ChunksCover` | src/AsyncArrayProcessor.java:64-66 | every index `j < n` is found in the chunks, at position `j % size` of chunk `j / size` |
| `Partition.ChunksFromCount` | src/AsyncArrayProcessor.java:64 | the number of chunks `c` is `ceil(n / size)`: `n <= c*size < n + size` |
| `Partition.ChunksFromSizes` | src/AsyncArrayProcessor.java:64-65 | every chunk but the last has length `size`; the last is non-empty and at most `size` long |
| `Partition.ChunkCountAtMostPool` | src/AsyncArrayProcessor.java:61-64 | with chunk length `ceil(n / p)` there are at most `p` chunks |
| `Partition.ChunksFromStep` | src/AsyncArrayProcessor.java:64-66 | one turn of the loop at chunk start `i` emits the slice `[i, min(i + size, n))`, and the loop goes on from `i + size` |
| `Partition.LoopExhaustsChunks` | src/AsyncArrayProcessor.java:64 | when the index reaches the array length without wrapping, every chunk has been emitted and their count times `size` fits in an `int` |
| `Partition.LastChunkWraps` | src/AsyncArrayProcessor.java:64-66 | when `i + size` passes `MaxInt` at chunk start `i`, that chunk is the last one, all before it were emitted, and the chunk count times `size` exceeds `MaxInt` |
| `Partition.ChunksPrefixFacts` | src/AsyncArrayProcessor.java:61-66 | any prefix of the chunks has at most `p` chunks, each but the last of length `ceil(n / p)` and the last non-empty and no longer |
| `Partition.SubmittedChunks` | src/AsyncArrayProcessor.java:58-73 | the step succeeds exactly when the chunk count times `size` fits in an `int`, and then emits all chunks, which concatenate to the array; otherwise it emits all but the last |
| `Partition.SubmitTasks` | src/AsyncArrayProcessor.java:58-73 | the loop emits exactly the specified chunks, or on index wrap-around all but the last before `copyOfRange` throws; on success they concatenate to the array and there are none for an empty array; there are at most `p` of them, all of length `ceil(n / p)` except a non-empty last one that is no longer |
| `Partition.SubmitIndexFitsForProgramArrays` | src/AsyncArrayProcessor.java:53-65 | for arrays of at most 2^30 elements, and so for the program's 40–60, on a pool of `max(cores, 2)` workers, the loop index never wraps, so the submitting step succeeds |
| `Collector.AddOutcome` | src/AsyncArrayProcessor.java:82-94 | one merge step only grows the set, includes all of a success's set, adds nothing from a failure or an interrupted wait, and adds nothing beyond a success's own set |
| `Collector.Collected` | src/AsyncArrayProcessor.java:76-95 | the merged set contains the set of every outcome that succeeded |
| `Collector.CollectedMembership` | src/AsyncArrayProcessor.java:76-95 | starting from the empty set, the merged set is exactly the union of the sets of the outcomes that succeeded |
| `Collector.CollectedMonotone` | src/AsyncArrayProcessor.java:78-84 | the global set only grows as the loop goes on: what any prefix of the outcomes collects is contained in the final set |
| `Collector.CollectedIdempotent` | src/AsyncArrayProcessor.java:84 | merging again an outcome that was already merged leaves the set unchanged |
| `Collector.CollectedSkipsUnsuccessful` | src/AsyncArrayProcessor.java:85-94 | a failed or interrupted outcome contributes nothing: removing it from anywhere in the sequence leaves the result unchanged, and the outcomes after it are still merged |
| `Collector.CollectedPairProducts` | src/AsyncArrayProcessor.java:75-97 | if each successful task returned its chunk's pair products, a value is in the global set exactly when it is a pair product of some chunk whose task succeeded |
| `Collector.TwoChunkExample` | src/AsyncArrayProcessor.java:58-97 | for the array [2, 3, 4, 5] on a pool of 2, the chunks are [2, 3] and [4, 5], the tasks return {6} and {20}, the global set is {6, 20}, and {6} if the second task fails |
| `Collector.CollectResults` | src/AsyncArrayProcessor.java:75-97 | the collecting loop returns the fold of the outcomes, which is exactly the union of the successful outcomes' sets |

## Left out

- Random array length and contents (`src/AsyncArrayProcessor.java:38-49`): nondeterministic generation. The array is an input. The value range [0, 100] is the hypothesis of `PairProductsInValueRange`.
- Reading the hardware core count (`src/AsyncArrayProcessor.java:52`): `PoolSize` takes it as a parameter.
- Creating the executor, `submit` and the `Future` objects (`src/AsyncArrayProcessor.java:51-56, 59, 68-70`): thread-pool plumbing. `SubmitTasks` returns the chunk each task receives, in submission order. The outcome of waiting on each future is an `Outcome` value given to `CollectResults`.
- Concurrency: the tasks run in parallel in the program. Each task only reads its own private copy of its chunk and returns a set, so its result does not depend on scheduling. The model computes each task's result sequentially.
- `SubmitTasks`: does not model that `Arrays.copyOfRange` allocates a fresh array per task; the chunk is a value (`seq`), which captures the copy's contents but not its identity. The exception thrown on index wrap-around is the flag `ok == false`, and the chunks already submitted are returned with it.
- The status printing and the best-effort `future.cancel(true)` in the failure branch (`src/AsyncArrayProcessor.java:80, 89-93`): console output, and a call into the executor that does not change the returned set.
- Re-setting the thread's interrupt flag (`src/AsyncArrayProcessor.java:86`): once one wait is interrupted, the flag stays set, so every later `get()` on a future that has not finished also throws `InterruptedException` at once. The model does not track the flag. The outcome sequence given to `CollectResults` is unconstrained, so it includes every such run, and the lemmas hold for all of them.
- `terminateExecutor` (`src/AsyncArrayProcessor.java:99-110`): shutdown with a 60-second timed wait and forced cancellation. This is concurrency and wall-clock behaviour.
- All console output, wall-clock timing (`src/AsyncArrayProcessor.java:14, 30-35`), the thread name captured by the task's constructor (`src/PairProductCalculator.java:12`), and the task's start and finish messages (`src/PairProductCalculator.java:19-20, 29-30`).
- The preview formatters `getArrayPreview` and `getCollectionPreview` (`src/AsyncArrayProcessor.java:112-124`): display only. The collection preview depends on the set's iteration order.
- `CopyOnWriteArraySet` (`src/AsyncArrayProcessor.java:76`, `src/PairProductCalculator.java:17`): a thread-safety choice. A Dafny `set<int32>` has the same contents.
- `PartSize`: uses integer ceiling division instead of `Math.ceil` on a `double`. The argument above shows the two agree for `n >= 0` and `p >= 1`, but that argument is not proved in Dafny.
