# Partitioned accumulation and a FIFO queue wrapper, in Dafny

The repository holds two small C++ programs. Each puts threads and locks around
plain sequential logic. This project models that sequential logic and proves
what the programs promise about it.

- `accumulation.dfy`, module `Accumulation`, models `new_accumulate.cpp`.
  `parallel_accumulate` cuts `[0, n)` into `w` slices of `n / w` elements,
  and the last slice takes the remainder. It folds each slice with
  `std::accumulate` and adds each partial sum into a `std::atomic<int>`
  accumulator. Inputs with `n < 4 * w` are folded in one go.
  - `std::accumulate` is the left fold `Accumulate`. Its contract ties it to the reference sum `Sum`.
  - The accumulator is the class `Atomic`. Its `AddAssign` is `+=`, which returns the new value.
  - The worker threads are the iterations of a sequential loop.
  - The method `ParallelAccumulate` is proved to return `result0 + init + Sum(s)` in both
    branches, for every worker count. The loop over workers is proved against `WorkerFolds`,
    the sum the first `k` workers have added so far.
  - The slice arithmetic (`WorkerSlice`, `LastSlice`, `Slices`) is proved to tile `[0, n)`.
    Every index lies in exactly one slice, and the slice sums add up to the sum of the input.
- `sync_queue.dfy`, module `SyncQueue`, models `atomic_queue.cpp`.
  - Without its mutex, `atomic_queue<T>` is the class `AtomicQueue<T>`. Its one field
    `queue: seq<T>` is the `std::queue` it wraps.
  - `Push`, `Emplace` and `Pop` change that field in place. `Front`, `Back`, `Empty`
    and `Size` only read it.
  - `AddInQueue` (`add_in_queue`) and `ClearQueue` (`clear_queue`) are loops over those
    calls. Together they give a FIFO round trip: the drain returns the queue's contents
    in push order and leaves the queue empty.

Three edge cases of `parallel_accumulate` follow from the code:

- For `n == 0` the call returns `result += accumulate(...)`, which is `result0 + init`
  (new_accumulate.cpp:20). This is not `init` unless the accumulator started at 0.
- With `w == 0`, the test `size < 0 * 4` at new_accumulate.cpp:19 is never true, so
  `size / num_workers` at new_accumulate.cpp:23 divides by zero. `IsSmall` states the first
  half. `SizePerWorker` and `ParallelAccumulate` require `w >= 1`.
- With `w == 1` and `n >= 4`, the call takes the large-input branch and starts no worker
  thread. The caller folds the whole input as the last slice.

## Model

| member | source | states |
|---|---|---|
| Accumulation.Accumulate | new_accumulate.cpp:12 | `std::accumulate(first, last, init)`, the left fold from the seed, equals `init + Sum(range)`: the seed is added exactly once |
| Accumulation.SumAppend | new_accumulate.cpp:26-37 | the sum of a concatenation is the sum of the sums, which lets a sliced range be summed slice by slice |
| Accumulation.SumSplit | new_accumulate.cpp:29-30 | for `lo <= mid <= hi`, the sums of `s[lo..mid]` and `s[mid..hi]` add up to the sum of `s[lo..hi]` |
| Accumulation.IsSmall | new_accumulate.cpp:19 | the small-input test `size < num_workers * 4`; with `w == 0` it never holds, and when it fails with `w >= 1` each worker gets `n / w >= 4` elements |
| Accumulation.SizePerWorker | new_accumulate.cpp:23 | `size / num_workers`: the largest `r` with `w * r <= n`, so `n - w * r < w`; requires `w >= 1`, which excludes the division by zero |
| Accumulation.WorkerSlice | new_accumulate.cpp:29-30 | worker slice `i < w - 1` lies inside `[0, n]` and holds exactly `n / w` elements |
| Accumulation.LastSlice | new_accumulate.cpp:35-37 | the caller's slice ends at `n` and holds `n / w + n % w` elements |
| Accumulation.WorkerSliceInRange | new_accumulate.cpp:23-30 | `0 <= i*spw <= (i+1)*spw <= (w-1)*spw <= n` for every worker `i`, so every `std::next` stays inside the input |
| Accumulation.LastSliceStart | new_accumulate.cpp:23-37 | the last slice starts at or before `n`, and what is left after it starts is `n / w + n % w` |
| Accumulation.WorkerSlicesContiguous | new_accumulate.cpp:26-37 | worker slice `i` is `[i*spw, (i+1)*spw)` and ends where the next slice (a worker's or the last) begins |
| Accumulation.LastSliceAbsorbsRemainder | new_accumulate.cpp:23-37 | the last slice starts at `(w-1)*spw <= n`, ends at `n` and is `spw + n % w >= spw` long: no element is dropped |
| Accumulation.WorkerSlicesNonEmpty | new_accumulate.cpp:19-23 | in the large-input branch (`n >= 4*w`) every worker slice holds at least four elements |
| Accumulation.Slices | new_accumulate.cpp:26-37 | exactly `w` slices, one per thread: the `w - 1` worker slices, then the caller's last slice |
| Accumulation.SlicesTile | new_accumulate.cpp:26-37 | the `w` slices start at 0, end at `n`, are well-formed and each begins where the previous one ends |
| Accumulation.EachIndexInExactlyOneSlice | new_accumulate.cpp:26-37 | every index `j < n` lies in slice `k` exactly when `k` is `Owner(n, w, j)`: no gap and no overlap |
| Accumulation.ContiguousSliceTotal | new_accumulate.cpp:26-37 | for slices that follow one another, the sum of their sums is the sum of the range they span |
| Accumulation.SlicesCoverInput | new_accumulate.cpp:26-37 | the slices stay inside the input, and their sums add up to `Sum(s)` |
| Accumulation.WorkerFolds | new_accumulate.cpp:26-33 | the seed-0 folds of the first `k` worker slices add up to the sum of the prefix `s[..k * spw]` they cover |
| Accumulation.WorkerFoldStep | new_accumulate.cpp:29-31 | worker `i`'s fold from 0 of `[i*spw, (i+1)*spw)` extends the prefix sum up to `i*spw` to the prefix sum up to `(i+1)*spw` |
| Accumulation.Atomic.constructor | new_accumulate.cpp:50 | `std::atomic<int> res(0)`: the accumulator starts at the given value |
| Accumulation.AccumulateWrapper | new_accumulate.cpp:11-13 | adds the fold of `s[lo..hi]` from `init` to the accumulator, so the accumulator grows by `init + Sum(s[lo..hi])` and nothing else changes |
| Accumulation.Atomic.AddAssign | new_accumulate.cpp:12 | `result += x` adds `x` to the accumulator and returns the new value |
| Accumulation.ParallelAccumulate | new_accumulate.cpp:16-43 | both branches leave and return `result0 + init + Sum(s)`: worker folds start at 0, only the caller's fold uses `init`, and the value does not depend on `w`; requires `w >= 1` |
| Accumulation.Iota | new_accumulate.cpp:48 | `std::iota` from 0 fills a vector of `n` ints with `i` at index `i` |
| Accumulation.SumIotaRange | new_accumulate.cpp:48 | the run `a, ..., b-1` of that vector sums to `(b - a) * (a + b - 1) / 2` |
| Accumulation.SumIota | new_accumulate.cpp:48 | the sum of `0, 1, ..., n-1` (the vector `std::iota` fills) is `n*(n-1)/2` |
| Accumulation.Wrap32 | new_accumulate.cpp:50 | a 32-bit two's complement wrap lands in the `int` range and is congruent to its argument modulo 2^32 |
| Accumulation.MainTotalOverflowsInt32 | new_accumulate.cpp:46-62 | the benchmark's total 4999950000 exceeds `INT_MAX`, and wrapped to 32 bits it reads 704982704; with 4 workers the last slice `75000..99999` alone sums to 2187487500 > `INT_MAX`, with 5 workers the last slice `80000..99999` (1799990000) and the largest worker slice `60000..79999` (1399990000) fit |
| Accumulation.AccumulateMain | new_accumulate.cpp:45-65 | with a wide enough accumulator the parallel and the sequential sum of `0..99999` agree and equal 4999950000 |
| SyncQueue.AtomicQueue.constructor | atomic_queue.cpp:13 | a new queue is empty |
| SyncQueue.AtomicQueue.Front | atomic_queue.cpp:16-19 | returns the head element `queue[0]`; requires a non-empty queue and changes nothing |
| SyncQueue.AtomicQueue.Back | atomic_queue.cpp:21-24 | returns the tail element, the last one pushed; requires a non-empty queue and changes nothing |
| SyncQueue.AtomicQueue.Empty | atomic_queue.cpp:26-29 | true exactly when the queue holds no element; changes nothing |
| SyncQueue.AtomicQueue.Size | atomic_queue.cpp:31-34 | the number of queued elements; changes nothing |
| SyncQueue.AtomicQueue.Push | atomic_queue.cpp:36-39 | the contents become `old + [elem]`: one more element, at the tail, earlier elements unchanged |
| SyncQueue.AtomicQueue.Emplace | atomic_queue.cpp:41-45 | appends exactly one element, the one built from the arguments, at the tail |
| SyncQueue.AtomicQueue.Pop | atomic_queue.cpp:47-50 | requires a non-empty queue; the contents become `old[1..]`, so the head goes and the rest keep their order |
| SyncQueue.Range | atomic_queue.cpp:56 | the values the loop counter takes: `end - begin` integers (none when `end <= begin`), the k-th being `begin + k` |
| SyncQueue.RangeConcat | atomic_queue.cpp:74-76 | the ranges `[0,10)`, `[10,20)`, `[20,30)` the three producers push join into one range |
| SyncQueue.AddInQueue | atomic_queue.cpp:55-61 | appends `begin, ..., end-1` in order; the size grows by `max(0, end - begin)` |
| SyncQueue.ClearQueue | atomic_queue.cpp:63-69 | reports the size on entry, emits the elements in push order, and leaves the queue empty |
| SyncQueue.QueueMain | atomic_queue.cpp:71-88 | when the three producers run one after the other, the printed size is 30 and the drain prints `0, 1, ..., 29` |

## Left out

- Threads, `std::thread`, `join`, `std::mutex` and `std::lock_guard` (new_accumulate.cpp:24-33, 39-41;
  atomic_queue.cpp:11, 17-49). They exist only for concurrency. Each queue call is one atomic step.
- ParallelAccumulate: the worker threads run as loop iterations, all before the caller folds
  the last slice. In the program the `+=` on the atomic happen in any order. Integer addition
  commutes, so every order gives the same final value. Intermediate values of the accumulator
  are not modelled.
- `std::thread::hardware_concurrency()` is an operating system query (new_accumulate.cpp:18).
  The worker count is the parameter `w`. The call can return 0, and then the program divides by
  zero, so `w >= 1` is required.
- The `unsigned` product `num_workers * 4` cannot wrap for any real core count, so it is
  computed exactly.
- Element types other than `int`, and iterators: the input is a `seq<int>`, and an iterator
  `std::next(begin, k)` is the index `k`.
- Timing (`steady_clock`, `sleep_for`) and console output (new_accumulate.cpp:51-64;
  atomic_queue.cpp:59, 64, 66, 79, 83, 86). The printed values are returned instead.
- QueueMain: the interleaving of the three producers is nondeterministic. The model runs them one
  after the other, in the order they are started, so only that schedule's output is stated
  (atomic_queue.cpp:74-78).
- Front, Back: `std::queue` is undefined on an empty queue, and the wrapper adds no check. Both
  methods therefore require a non-empty queue, and so does Pop. They return the element by value,
  not by a reference that outlives the lock.
- Emplace: variadic argument forwarding is one argument, and the element constructor it selects
  is a function parameter.
- ParallelAccumulate, AccumulateWrapper, Atomic.AddAssign: `T = int` is an unbounded integer.
  The contracts hold for the program only while every slice fold and the accumulator stay within
  `int`. The wrap-around of `std::atomic<int>` and the undefined overflow of an `int`
  `std::accumulate` are not modelled.
- AccumulateMain: it is the corrected driver and uses unbounded integers. Its result fits in a 64-bit
  accumulator. The 32-bit behaviour of the program as written is shown only through its final
  total, in MainTotalOverflowsInt32.

## Findings

| source | as written | input that shows it | evidently intended | confidence | as-written member | corrected member |
|---|---|---|---|---|---|---|
| new_accumulate.cpp:46-62 | the benchmark sums `0..99999` into `std::atomic<int>` and into an `int` seed of `std::accumulate` | the vector `0..99999`: the total 4999950000 exceeds `INT_MAX` (2147483647), so the sequential `int` fold overflows, which is undefined. The parallel call overflows too. With `w = 4` the caller's own `int` fold of `75000..99999` reaches 2187487500, which is undefined. With `w = 5` every fold fits, and only the atomic wraps, to 704982704 | print 4999950000 from both paths, which needs a 64-bit accumulator | not executed | Accumulation.MainTotalOverflowsInt32 | Accumulation.AccumulateMain |
