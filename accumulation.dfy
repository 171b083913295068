/**
 * Partitioned accumulation (new_accumulate.cpp).
 *
 * parallel_accumulate splits the input range into one slice per worker,
 * folds every slice with std::accumulate and adds each partial sum into a
 * shared atomic accumulator.  The worker threads are modelled as the
 * iterations of a sequential loop: the only thing they share is integer
 * addition into the accumulator, and those additions commute.
 * The input range [begin, end) is a sequence `s`; an iterator
 * std::next(begin, k) is the index k into `s`.
 */
module Accumulation {

  /** The plain mathematical sum of a sequence, the reference for Accumulate. */
  function Sum(s: seq<int>): int
  {
    if s == [] then 0 else s[0] + Sum(s[1..])
  }

  /**
   * std::accumulate(first, last, init): a left fold that starts from the seed and
   * adds the elements in order.  The seed is added exactly once to their sum.
   */
  function Accumulate(s: seq<int>, init: int): (r: int)
    ensures r == init + Sum(s)
  {
    if s == [] then init else Accumulate(s[1..], init + s[0])
  }

  /** Sum distributes over concatenation, so the sum of a range splits at any point. */
  lemma {:induction false} SumAppend(a: seq<int>, b: seq<int>)
    ensures Sum(a + b) == Sum(a) + Sum(b)
  {
    if a == [] {
      assert a + b == b;
    } else {
      assert (a + b)[0] == a[0];
      assert (a + b)[1..] == a[1..] + b;
      SumAppend(a[1..], b);
    }
  }

  /** Folding s[lo..hi] and then s[hi..k] covers s[lo..k]. */
  lemma SumSplit(s: seq<int>, lo: nat, mid: nat, hi: nat)
    requires lo <= mid <= hi <= |s|
    ensures Sum(s[lo..mid]) + Sum(s[mid..hi]) == Sum(s[lo..hi])
  {
    assert s[lo..mid] + s[mid..hi] == s[lo..hi];
    SumAppend(s[lo..mid], s[mid..hi]);
  }

  // ---------------------------------------------------------------------------
  // Slice arithmetic
  // ---------------------------------------------------------------------------

  /** A half-open index range [lo, hi) of the input. */
  datatype Slice = Slice(lo: int, hi: int)
  {
    predicate Contains(j: int) { lo <= j < hi }
  }

  /**
   * The small-input test `size < num_workers * 4`: fold everything at once.
   * With no workers it never holds, so the division that follows it is reached;
   * when it fails with at least one worker, every worker gets four elements or more.
   */
  predicate IsSmall(n: nat, w: nat): (r: bool)
    ensures w == 0 ==> !r
    ensures w >= 1 && !r ==> n / w >= 4
  {
    if w >= 1 && n >= w * 4 then DivLowerBound(n, w, 4); false
    else n < w * 4
  }

  /**
   * `size_per_worker = size / num_workers`.  The division is by the worker count:
   * `requires w >= 1` excludes the division by zero that w == 0 would reach.
   */
  function SizePerWorker(n: nat, w: nat): (r: nat)
    requires w >= 1
    ensures w * r <= n < w * r + w
  {
    n / w
  }

  /** The range handed to worker thread i, for 0 <= i < w - 1. */
  function WorkerSlice(n: nat, w: nat, i: nat): (r: Slice)
    requires w >= 1 && i < w - 1
    ensures 0 <= r.lo <= r.hi <= n
    ensures r.hi - r.lo == SizePerWorker(n, w)
  {
    WorkerSliceInRange(n, w, i);
    Slice(i * SizePerWorker(n, w), (i + 1) * SizePerWorker(n, w))
  }

  /** The range the calling thread folds itself: from the end of the last worker slice to n. */
  function LastSlice(n: nat, w: nat): (r: Slice)
    requires w >= 1
    ensures 0 <= r.lo <= r.hi == n
    ensures r.hi - r.lo == SizePerWorker(n, w) + n % w
  {
    LastSliceStart(n, w);
    Slice((w - 1) * SizePerWorker(n, w), n)
  }

  lemma MulMonotone(a: nat, b: nat, c: nat)
    requires a <= b
    ensures a * c <= b * c
  {
  }

  lemma WorkerSliceInRange(n: nat, w: nat, i: nat)
    requires w >= 1 && i < w - 1
    ensures 0 <= i * (n / w) <= (i + 1) * (n / w) <= (w - 1) * (n / w) <= n
  {
    MulMonotone(i, i + 1, n / w);
    MulMonotone(i + 1, w - 1, n / w);
    LastSliceStart(n, w);
  }

  lemma LastSliceStart(n: nat, w: nat)
    requires w >= 1
    ensures (w - 1) * (n / w) <= n
    ensures n - (w - 1) * (n / w) == n / w + n % w
  {
    assert w * (n / w) + n % w == n;
    assert (w - 1) * (n / w) == w * (n / w) - n / w;
  }

  /** All w slices of a call that takes the large-input branch, in worker order. */
  function Slices(n: nat, w: nat): (r: seq<Slice>)
    requires w >= 1
    ensures |r| == w
  {
    seq(w, k requires 0 <= k < w => if k < w - 1 then WorkerSlice(n, w, k) else LastSlice(n, w))
  }

  /** The slices start at 0, end at n, and each one begins where the previous one ends. */
  predicate Tiles(slices: seq<Slice>, n: nat)
  {
    && |slices| > 0
    && slices[0].lo == 0
    && slices[|slices| - 1].hi == n
    && (forall k :: 0 <= k < |slices| ==> slices[k].lo <= slices[k].hi)
    && (forall k :: 0 <= k < |slices| - 1 ==> slices[k].hi == slices[k + 1].lo)
  }

  /** Worker slice i is [i*spw, (i+1)*spw) and ends where the next slice starts. */
  lemma WorkerSlicesContiguous(n: nat, w: nat, i: nat)
    requires w >= 1 && i < w - 1
    ensures WorkerSlice(n, w, i) == Slice(i * (n / w), (i + 1) * (n / w))
    ensures i + 1 < w - 1 ==> WorkerSlice(n, w, i).hi == WorkerSlice(n, w, i + 1).lo
    ensures i + 1 == w - 1 ==> WorkerSlice(n, w, i).hi == LastSlice(n, w).lo
  {
  }

  /** The remainder goes to the last slice: it is never shorter than a worker slice. */
  lemma LastSliceAbsorbsRemainder(n: nat, w: nat)
    requires w >= 1
    ensures LastSlice(n, w).lo == (w - 1) * (n / w) <= n
    ensures LastSlice(n, w).hi == n
    ensures LastSlice(n, w).hi - LastSlice(n, w).lo == n / w + n % w >= n / w
  {
  }

  /** In the large-input branch every worker slice holds at least four elements. */
  lemma WorkerSlicesNonEmpty(n: nat, w: nat, i: nat)
    requires w >= 1 && !IsSmall(n, w) && i < w - 1
    ensures WorkerSlice(n, w, i).hi - WorkerSlice(n, w, i).lo >= 4
  {
    assert n / w >= 4;
  }

  lemma DivLowerBound(n: nat, w: nat, q: nat)
    requires w >= 1 && n >= q * w
    ensures n / w >= q
  {
    if n / w < q {
      MulMonotone(n / w + 1, q, w);
      assert false;
    }
  }

  /** The slices of [0, n) tile it: no gap, no overlap, nothing past n. */
  lemma SlicesTile(n: nat, w: nat)
    requires w >= 1
    ensures Tiles(Slices(n, w), n)
  {
    var sl := Slices(n, w);
    assert sl[w - 1] == LastSlice(n, w);
    if w == 1 {
      assert sl[0] == LastSlice(n, w);
    } else {
      assert sl[0] == WorkerSlice(n, w, 0);
    }
    forall k | 0 <= k < w - 1
      ensures sl[k].hi == sl[k + 1].lo
    {
      WorkerSlicesContiguous(n, w, k);
    }
  }

  /** The slice that holds index j. */
  function Owner(n: nat, w: nat, j: nat): nat
    requires w >= 1
  {
    if n / w == 0 then w - 1
    else if j / (n / w) < w - 1 then j / (n / w)
    else w - 1
  }

  /** j lies in the block [q * d, (q + 1) * d) of its quotient q = j / d. */
  lemma QuotientBlock(j: nat, d: nat)
    requires d > 0
    ensures (j / d) * d <= j < (j / d + 1) * d
  {
  }

  /** With blocks of size d, index j lies in block k exactly when k is its quotient. */
  lemma BlockMembership(j: nat, d: nat, k: nat)
    requires d > 0
    ensures k * d <= j < (k + 1) * d <==> k == j / d
  {
    var q := j / d;
    QuotientBlock(j, d);
    if k < q {
      MulMonotone(k + 1, q, d);
    } else if q < k {
      MulMonotone(q + 1, k, d);
    }
  }

  /** With a non-zero slice width, j is in the last slice exactly when its quotient reaches w - 1. */
  lemma LastSliceMembership(j: nat, spw: nat, w: nat)
    requires spw > 0 && w >= 1
    ensures (w - 1) * spw <= j <==> j / spw >= w - 1
  {
    var q := j / spw;
    QuotientBlock(j, spw);
    if q < w - 1 {
      MulMonotone(q + 1, w - 1, spw);
    } else {
      MulMonotone(w - 1, q, spw);
    }
  }

  /** Every index of [0, n) lies in exactly one slice: the one Owner names. */
  lemma EachIndexInExactlyOneSlice(n: nat, w: nat, j: nat, k: nat)
    requires w >= 1 && j < n && k < w
    ensures Owner(n, w, j) < w
    ensures Slices(n, w)[k].Contains(j) <==> k == Owner(n, w, j)
  {
    var spw := n / w;
    var sl := Slices(n, w);
    if k < w - 1 {
      assert sl[k] == Slice(k * spw, (k + 1) * spw);
      if spw > 0 {
        BlockMembership(j, spw, k);
      }
    } else {
      assert sl[k] == Slice((w - 1) * spw, n);
      if spw > 0 {
        LastSliceMembership(j, spw, w);
      }
    }
  }

  /** The sum of the sums of consecutive slices is the sum of the range they span. */
  function SliceTotal(s: seq<int>, slices: seq<Slice>): int
    requires forall k :: 0 <= k < |slices| ==> 0 <= slices[k].lo <= slices[k].hi <= |s|
  {
    if slices == [] then 0
    else Sum(s[slices[0].lo..slices[0].hi]) + SliceTotal(s, slices[1..])
  }

  lemma {:induction false} ContiguousSliceTotal(s: seq<int>, slices: seq<Slice>)
    requires |slices| > 0
    requires forall k :: 0 <= k < |slices| ==> 0 <= slices[k].lo <= slices[k].hi <= |s|
    requires forall k :: 0 <= k < |slices| - 1 ==> slices[k].hi == slices[k + 1].lo
    ensures slices[0].lo <= slices[|slices| - 1].hi
    ensures SliceTotal(s, slices) == Sum(s[slices[0].lo..slices[|slices| - 1].hi])
  {
    if |slices| == 1 {
      assert SliceTotal(s, slices[1..]) == 0;
    } else {
      var rest := slices[1..];
      assert forall k :: 0 <= k < |rest| - 1 ==> rest[k].hi == rest[k + 1].lo by {
        forall k | 0 <= k < |rest| - 1 ensures rest[k].hi == rest[k + 1].lo {
          assert rest[k] == slices[k + 1] && rest[k + 1] == slices[k + 2];
        }
      }
      ContiguousSliceTotal(s, rest);
      assert slices[0].hi == rest[0].lo;
      SumSplit(s, slices[0].lo, slices[0].hi, slices[|slices| - 1].hi);
    }
  }

  /** Coverage: the slices of the partition together sum to the whole input. */
  lemma SlicesCoverInput(s: seq<int>, w: nat)
    requires w >= 1
    ensures forall k :: 0 <= k < w ==> 0 <= Slices(|s|, w)[k].lo <= Slices(|s|, w)[k].hi <= |s|
    ensures SliceTotal(s, Slices(|s|, w)) == Sum(s)
  {
    var sl := Slices(|s|, w);
    forall k | 0 <= k < w
      ensures 0 <= sl[k].lo <= sl[k].hi <= |s|
    {
      if k < w - 1 {
        assert sl[k] == WorkerSlice(|s|, w, k);
      } else {
        assert sl[k] == LastSlice(|s|, w);
      }
    }
    SlicesTile(|s|, w);
    ContiguousSliceTotal(s, sl);
    assert s[0..|s|] == s;
  }

  // ---------------------------------------------------------------------------
  // What a call computes
  // ---------------------------------------------------------------------------

  /** Worker i's fold from 0 extends the prefix its predecessors cover by its slice. */
  lemma WorkerFoldStep(s: seq<int>, w: nat, i: nat)
    requires w >= 1 && i < w - 1
    ensures (i + 1) * (|s| / w) <= |s|
    ensures Sum(s[..i * (|s| / w)]) + Accumulate(s[WorkerSlice(|s|, w, i).lo..WorkerSlice(|s|, w, i).hi], 0)
            == Sum(s[..(i + 1) * (|s| / w)])
  {
    var lo, hi := i * (|s| / w), (i + 1) * (|s| / w);
    WorkerSliceInRange(|s|, w, i);
    assert WorkerSlice(|s|, w, i) == Slice(lo, hi);
    SumSplit(s, 0, lo, hi);
    assert s[..lo] == s[0..lo];
    assert s[..hi] == s[0..hi];
  }

  /**
   * The partial sums the first k workers add, each folding its slice from seed 0:
   * together they are the sum of the prefix s[..k * spw] those slices cover.
   */
  function WorkerFolds(s: seq<int>, w: nat, k: nat): (r: int)
    requires w >= 1 && k <= w - 1
    ensures k * (|s| / w) <= |s|
    ensures r == Sum(s[..k * (|s| / w)])
  {
    if k == 0 then
      assert s[..0] == [];
      0
    else
      var sl := WorkerSlice(|s|, w, k - 1);
      WorkerFoldStep(s, w, k - 1);
      WorkerFolds(s, w, k - 1) + Accumulate(s[sl.lo..sl.hi], 0)
  }

  // ---------------------------------------------------------------------------
  // The imperative core
  // ---------------------------------------------------------------------------

  /** std::atomic<int>: `result += x` adds x and yields the new value. */
  class Atomic {
    var value: int

    constructor (v: int)
      ensures value == v
    {
      value := v;
    }

    method AddAssign(x: int) returns (r: int)
      modifies this
      ensures value == old(value) + x
      ensures r == value
    {
      value := value + x;
      r := value;
    }
  }

  /** accumulate_wrapper: add the fold of s[lo..hi] from init into the accumulator. */
  method AccumulateWrapper(s: seq<int>, lo: nat, hi: nat, init: int, result: Atomic)
    requires lo <= hi <= |s|
    modifies result
    ensures result.value == old(result.value) + Accumulate(s[lo..hi], init)
    ensures result.value == old(result.value) + init + Sum(s[lo..hi])
  {
    var _ := result.AddAssign(Accumulate(s[lo..hi], init));
  }

  /**
   * parallel_accumulate over s with w workers (std::thread::hardware_concurrency()).
   * Worker i folds WorkerSlice(|s|, w, i) from 0; the calling thread folds the last
   * slice from init.  The threads are the iterations of the first loop.  Both
   * branches leave result0 + init + Sum(s), whatever w is: init is counted once.
   */
  method ParallelAccumulate(s: seq<int>, init: int, result: Atomic, w: nat) returns (r: int)
    requires w >= 1
    modifies result
    ensures r == result.value
    ensures r == old(result.value) + init + Sum(s)
  {
    var size := |s|;
    if size < w * 4 {
      r := result.AddAssign(Accumulate(s, init));
      return;
    }
    var sizePerWorker := size / w;
    var i := 0;
    while i < w - 1
      invariant 0 <= i <= w - 1
      invariant result.value == old(result.value) + WorkerFolds(s, w, i)
    {
      WorkerSliceInRange(size, w, i);
      AccumulateWrapper(s, i * sizePerWorker, (i + 1) * sizePerWorker, 0, result);
      i := i + 1;
    }
    var start := (w - 1) * sizePerWorker;
    LastSliceStart(size, w);
    var _ := result.AddAssign(Accumulate(s[start..], init));
    SumSplit(s, 0, start, size);
    assert s[..start] == s[0..start] && s[start..] == s[start..size] && s[0..size] == s;
    r := result.value;
  }

  // ---------------------------------------------------------------------------
  // The benchmark driver, without its timing and printing
  // ---------------------------------------------------------------------------

  /** std::iota over a vector of n ints: 0, 1, ..., n - 1. */
  function Iota(n: nat): (r: seq<int>)
    ensures |r| == n && forall i :: 0 <= i < n ==> r[i] == i
  {
    seq(n, i => i)
  }

  lemma TriangleStep(a: int, b: int)
    ensures (b - a) * (a + b - 1) == (b - 1 - a) * (a + b - 2) + 2 * (b - 1)
  {
  }

  /** The run a, a + 1, ..., b - 1 of the iota vector sums to (b - a) * (a + b - 1) / 2. */
  lemma {:induction false} SumIotaRange(n: nat, a: nat, b: nat)
    requires a <= b <= n
    ensures 2 * Sum(Iota(n)[a..b]) == (b - a) * (a + b - 1)
  {
    var v := Iota(n);
    if a < b {
      SumIotaRange(n, a, b - 1);
      assert v[a..b] == v[a..b - 1] + [b - 1];
      SumAppend(v[a..b - 1], [b - 1]);
      assert Sum([b - 1]) == b - 1;
      TriangleStep(a, b);
    } else {
      assert v[a..b] == [];
    }
  }

  lemma SumIota(n: nat)
    ensures Sum(Iota(n)) == n * (n - 1) / 2
  {
    SumIotaRange(n, 0, n);
    assert Iota(n)[0..n] == Iota(n);
  }

  const MainSize: nat := 100000
  const Int32Max: int := 0x7fff_ffff

  /** Two's complement wrap-around of a 32-bit int. */
  function Wrap32(x: int): (r: int)
    ensures -0x8000_0000 <= r <= Int32Max
    ensures (r - x) % 0x1_0000_0000 == 0
  {
    var m := x % 0x1_0000_0000;
    if m <= Int32Max then m else m - 0x1_0000_0000
  }

  /**
   * As written, main accumulates into int: the exact total of 0 .. 99999 does not fit,
   * and the 32-bit value it wraps to is not the sum.  With four workers the caller's
   * own fold of the last slice, 75000 .. 99999, already exceeds INT_MAX; with five,
   * the last slice, 80000 .. 99999, and the largest worker slice, 60000 .. 79999,
   * still fit.
   */
  lemma MainTotalOverflowsInt32()
    ensures Sum(Iota(MainSize)) == 4999950000 > Int32Max
    ensures Wrap32(Sum(Iota(MainSize))) == 704982704
    ensures LastSlice(MainSize, 4).lo == 75000
    ensures Sum(Iota(MainSize)[75000..MainSize]) == 2187487500 > Int32Max
    ensures LastSlice(MainSize, 5).lo == 80000
    ensures Sum(Iota(MainSize)[80000..MainSize]) == 1799990000 <= Int32Max
    ensures WorkerSlice(MainSize, 5, 3) == Slice(60000, 80000)
    ensures Sum(Iota(MainSize)[60000..80000]) == 1399990000 <= Int32Max
  {
    SumIota(MainSize);
    SumIotaRange(MainSize, 75000, MainSize);
    SumIotaRange(MainSize, 80000, MainSize);
    SumIotaRange(MainSize, 60000, 80000);
  }

  /**
   * main with an accumulator wide enough for the total (64 bits, here unbounded):
   * the parallel and the sequential sum of 0 .. 99999 agree and equal 4999950000.
   */
  method AccumulateMain(w: nat) returns (parallel: int, sequential: int)
    requires w >= 1
    ensures parallel == sequential == 4999950000
    ensures parallel < 0x8000_0000_0000_0000
  {
    var sequence := Iota(MainSize);
    var res := new Atomic(0);
    parallel := ParallelAccumulate(sequence, 0, res, w);
    sequential := Accumulate(sequence, 0);
    SumIota(MainSize);
  }
}
