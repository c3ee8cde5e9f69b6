/** Work partitioning and power-of-two arithmetic used to shape the tree-sum
    workers (parallel_helpers.c). Everything here is a total integer function;
    the logarithms the C code takes through `log`/`pow` on doubles are exact
    integer ones here. */
module ParallelHelpers {

  /** 2 to the power k. */
  function Pow2(k: nat): (r: nat)
    ensures r >= 1
  {
    if k == 0 then 1 else 2 * Pow2(k - 1)
  }

  lemma {:induction false} Pow2Monotone(a: nat, b: nat)
    requires a <= b
    ensures Pow2(a) <= Pow2(b)
    decreases b - a
  {
    if a < b {
      Pow2Monotone(a, b - 1);
    }
  }

  // ---------------------------------------------------------------------
  // Logarithms and powers of two
  // ---------------------------------------------------------------------

  /** find_smallest_expo_of_two: log2(value) rounded down. */
  function FindSmallestExpoOfTwo(value: nat): (r: nat)
    requires value >= 1
    ensures Pow2(r) <= value < Pow2(r + 1)
  {
    if value == 1 then 0 else 1 + FindSmallestExpoOfTwo(value / 2)
  }

  /** find_largest_expo_of_two: log2(value) rounded up. */
  function FindLargestExpoOfTwo(value: nat): (r: nat)
    requires value >= 1
    ensures value <= Pow2(r)
    ensures r == 0 || Pow2(r - 1) < value
  {
    if value == 1 then 0 else 1 + FindLargestExpoOfTwo((value + 1) / 2)
  }

  /** find_smaller_power_of_two: the largest power of two not above value. */
  function FindSmallerPowerOfTwo(value: nat): (p: nat)
    requires value >= 1
    ensures p <= value < 2 * p
  {
    Pow2(FindSmallestExpoOfTwo(value))
  }

  /** find_larger_power_of_two: the smallest power of two not below value. */
  function FindLargerPowerOfTwo(value: nat): (q: nat)
    requires value >= 1
    ensures value <= q < 2 * value
  {
    Pow2(FindLargestExpoOfTwo(value))
  }

  /** The floor-log2 bracket determines its exponent. */
  lemma FloorExpoUnique(value: nat, r: nat, k: nat)
    requires Pow2(r) <= value < Pow2(r + 1)
    requires Pow2(k) <= value < Pow2(k + 1)
    ensures r == k
  {
    if r < k {
      Pow2Monotone(r + 1, k);
    } else if k < r {
      Pow2Monotone(k + 1, r);
    }
  }

  /** The ceil-log2 bracket determines its exponent. */
  lemma CeilExpoUnique(value: nat, r: nat, k: nat)
    requires value <= Pow2(r) && (r == 0 || Pow2(r - 1) < value)
    requires value <= Pow2(k) && (k == 0 || Pow2(k - 1) < value)
    ensures r == k
  {
    if r < k {
      Pow2Monotone(r, k - 1);
    } else if k < r {
      Pow2Monotone(k, r - 1);
    }
  }

  /** On a power of two both exponents are the exponent itself, so both
      helpers return the value unchanged: "smaller" and "greater" in their
      descriptions are not strict. This holds for exact logarithms; in
      doubles log(2^29)/log(2) rounds above 29, and the ceil exponent of
      2^29 comes out as 30. */
  lemma PowersOfTwoAreFixed(k: nat)
    ensures FindSmallestExpoOfTwo(Pow2(k)) == k
    ensures FindLargestExpoOfTwo(Pow2(k)) == k
    ensures FindSmallerPowerOfTwo(Pow2(k)) == Pow2(k)
    ensures FindLargerPowerOfTwo(Pow2(k)) == Pow2(k)
  {
    var v := Pow2(k);
    FloorExpoUnique(v, FindSmallestExpoOfTwo(v), k);
    if k > 0 {
      assert Pow2(k - 1) < v;
    }
    CeilAt(v, k);
  }

  /** The ceil-log2 bracket of k gives FindLargestExpoOfTwo's result. */
  lemma CeilAt(v: nat, k: nat)
    requires v >= 1 && v <= Pow2(k) && (k == 0 || Pow2(k - 1) < v)
    ensures FindLargestExpoOfTwo(v) == k
  {
    CeilExpoUnique(v, FindLargestExpoOfTwo(v), k);
  }

  /** The rounded-up exponent is the rounded-down one, plus one exactly when
      value is not a power of two. */
  lemma CeilIsFloorOrNext(value: nat)
    requires value >= 1
    ensures Pow2(FindSmallestExpoOfTwo(value)) == value ==>
              FindLargestExpoOfTwo(value) == FindSmallestExpoOfTwo(value)
    ensures Pow2(FindSmallestExpoOfTwo(value)) < value ==>
              FindLargestExpoOfTwo(value) == FindSmallestExpoOfTwo(value) + 1
    ensures FindLargerPowerOfTwo(value) == FindSmallerPowerOfTwo(value) ||
            FindLargerPowerOfTwo(value) == 2 * FindSmallerPowerOfTwo(value)
  {
    var f := FindSmallestExpoOfTwo(value);
    var c := FindLargestExpoOfTwo(value);
    if Pow2(f) == value {
      if f > 0 {
        assert Pow2(f - 1) < Pow2(f);
      }
      CeilExpoUnique(value, c, f);
    } else {
      CeilExpoUnique(value, c, f + 1);
    }
  }

  // ---------------------------------------------------------------------
  // Work partitioning
  // ---------------------------------------------------------------------

  /** x/c rounded down brackets x between two consecutive multiples of c. */
  lemma DivBracket(x: nat, c: nat)
    requires c >= 1
    ensures (x / c) * c <= x < (x / c) * c + c
  {
  }

  lemma MulCancel(a: int, b: int, c: nat)
    requires c >= 1 && a * c < b * c
    ensures a < b
  {
  }

  lemma MulMonotone(a: nat, b: nat, k: nat)
    requires a <= b
    ensures a * k <= b * k
  {
  }

  /** The bracket of DivBracket determines the quotient. */
  lemma DivUnique(x: nat, c: nat, q: int)
    requires c >= 1 && q * c <= x < q * c + c
    ensures x / c == q
  {
    var r := x / c;
    DivBracket(x, c);
    assert (r + 1) * c == r * c + c;
    assert (q + 1) * c == q * c + c;
    MulCancel(q, r + 1, c);
    MulCancel(r, q + 1, c);
  }

  /** x <= y implies x/c <= y/c for positive c. */
  lemma DivMonotone(x: nat, y: nat, c: nat)
    requires c >= 1 && x <= y
    ensures x / c <= y / c
  {
    DivBracket(x, c);
    DivBracket(y, c);
    assert (y / c + 1) * c == (y / c) * c + c;
    MulCancel(x / c, y / c + 1, c);
  }

  /** calculate_start_index: the first sample index of worker threadId,
      threadId*size/threadCount rounded down. */
  function CalculateStartIndex(threadId: nat, threadCount: nat, size: nat): (r: nat)
    requires threadCount >= 1
    ensures r * threadCount <= threadId * size < r * threadCount + threadCount
  {
    DivBracket(threadId * size, threadCount);
    threadId * size / threadCount
  }

  /** calculate_end_index: the last sample index (inclusive) of worker
      threadId, (threadId+1)*size/threadCount rounded down, minus one. */
  function CalculateEndIndex(threadId: nat, threadCount: nat, size: nat): (r: int)
    requires threadCount >= 1
    ensures r >= -1
    ensures (r + 1) * threadCount <= (threadId + 1) * size < (r + 1) * threadCount + threadCount
  {
    DivBracket((threadId + 1) * size, threadCount);
    (threadId + 1) * size / threadCount - 1
  }

  /** Start indices never decrease with the worker id. */
  lemma StartMonotone(a: nat, b: nat, threadCount: nat, size: nat)
    requires threadCount >= 1 && a <= b
    ensures CalculateStartIndex(a, threadCount, size) <= CalculateStartIndex(b, threadCount, size)
  {
    MulMonotone(a, b, size);
    DivMonotone(a * size, b * size, threadCount);
  }

  /** The boundary laws of the partition: worker 0 starts at index 0, the last
      worker ends at index size-1, and each worker ends just before the next
      one starts. */
  lemma PartitionBoundaries(threadCount: nat, size: nat)
    requires threadCount >= 1
    ensures CalculateStartIndex(0, threadCount, size) == 0
    ensures CalculateEndIndex(threadCount - 1, threadCount, size) == size - 1
    ensures forall id | 0 <= id < threadCount - 1 ::
              CalculateEndIndex(id, threadCount, size) + 1 == CalculateStartIndex(id + 1, threadCount, size)
  {
    assert threadCount * size == size * threadCount;
    DivUnique(size * threadCount, threadCount, size);
  }

  /** Two distinct workers never share an index. */
  lemma RangesDisjoint(a: nat, b: nat, threadCount: nat, size: nat)
    requires a < b < threadCount
    ensures CalculateEndIndex(a, threadCount, size) < CalculateStartIndex(b, threadCount, size)
  {
    StartMonotone(a + 1, b, threadCount, size);
  }

  /** Every index below start(k) belongs to one of the workers 0..k-1. */
  lemma {:induction false} CoveredBelow(k: nat, threadCount: nat, size: nat, i: nat)
    requires threadCount >= 1
    requires i < CalculateStartIndex(k, threadCount, size)
    ensures exists id :: 0 <= id < k &&
              CalculateStartIndex(id, threadCount, size) <= i <= CalculateEndIndex(id, threadCount, size)
  {
    if i < CalculateStartIndex(k - 1, threadCount, size) {
      CoveredBelow(k - 1, threadCount, size, i);
    } else {
      assert CalculateStartIndex(k - 1, threadCount, size) <= i <= CalculateEndIndex(k - 1, threadCount, size);
    }
  }

  /** The workers' ranges cover [0, size): with RangesDisjoint, they tile it. */
  lemma RangesCover(threadCount: nat, size: nat, i: nat)
    requires threadCount >= 1 && i < size
    ensures exists id :: 0 <= id < threadCount &&
              CalculateStartIndex(id, threadCount, size) <= i <= CalculateEndIndex(id, threadCount, size)
  {
    assert threadCount * size == size * threadCount;
    DivUnique(size * threadCount, threadCount, size);
    CoveredBelow(threadCount, threadCount, size, i);
  }

  /** With no more workers than samples (main.c rejects more), every worker
      gets at least one sample. */
  lemma RangesNonEmpty(threadId: nat, threadCount: nat, size: nat)
    requires 1 <= threadCount <= size && threadId < threadCount
    ensures CalculateStartIndex(threadId, threadCount, size) <= CalculateEndIndex(threadId, threadCount, size)
  {
    var s := CalculateStartIndex(threadId, threadCount, size);
    assert (threadId + 1) * size == threadId * size + size;
    assert (s + 1) * threadCount == s * threadCount + threadCount;
    DivMonotone((s + 1) * threadCount, (threadId + 1) * size, threadCount);
    DivUnique((s + 1) * threadCount, threadCount, s + 1);
  }

  // ---------------------------------------------------------------------
  // Spawn count
  // ---------------------------------------------------------------------

  /** calculate_thread_spawn_size: how many children worker threadId spawns.
      It is the rounded-down log2 of the divisor, clamped so that it never
      exceeds the number of ids above threadId; zero for an id out of range. */
  function CalculateThreadSpawnSize(divisor: nat, threadId: nat, threadCount: nat): (r: nat)
    requires threadId < threadCount ==> divisor >= 1
    ensures threadId >= threadCount ==> r == 0
    ensures threadId < threadCount ==>
              r <= FindSmallestExpoOfTwo(divisor) && r <= threadCount - threadId - 1
    ensures threadId < threadCount ==>
              r == FindSmallestExpoOfTwo(divisor) || r == threadCount - threadId - 1
  {
    if threadId >= threadCount then 0
    else
      var logBase := FindSmallestExpoOfTwo(divisor);
      if threadCount - logBase <= threadId then threadCount - threadId - 1 else logBase
  }
}
