/** Bin geometry, bin lookup and serial counting (histogram.c).

    Sample values, the extremes, the bin width and the bin upper bounds are
    `real`: the code only compares them and applies `+`, `-`, `*` and `/` to them,
    so exact arithmetic stands in for double precision. */
module Histograms {
  import opened ReturnCodes

  datatype Option<T> = None | Some(value: T)

  predicate Sorted(s: seq<real>)
  {
    forall i, j | 0 <= i < j < |s| :: s[i] <= s[j]
  }

  predicate StrictlySorted(s: seq<real>)
  {
    forall i, j | 0 <= i < j < |s| :: s[i] < s[j]
  }

  /** lo and hi are the smallest and the largest element of s. */
  predicate Extremes(s: seq<real>, lo: real, hi: real)
  {
    lo in s && hi in s && forall i | 0 <= i < |s| :: lo <= s[i] <= hi
  }

  // ---------------------------------------------------------------------
  // Bin lookup
  // ---------------------------------------------------------------------

  /** What a lookup reads of a histogram: its extremes and the upper bound of
      each bin (the bin count is the number of bounds). */
  datatype Geometry = Geometry(min: real, max: real, binMaxes: seq<real>) {

    /** The geometry has been computed: at least one bin, bounds in order,
        the last bound at the maximum. The last condition holds in exact
        arithmetic; in doubles the last bound can fall below max, and the
        search is then not guaranteed to terminate. */
    predicate Ready()
    {
      |binMaxes| > 0 && Sorted(binMaxes) && binMaxes[|binMaxes| - 1] == max
    }

    /** data belongs to bin b: the first bin is [min, binMaxes[0]), bin b is
        [binMaxes[b-1], binMaxes[b]), and the last bin also holds max. */
    predicate InBin(data: real, b: nat)
    {
      b < |binMaxes| &&
      (if b == 0 then min else binMaxes[b - 1]) <= data &&
      (data < binMaxes[b] || (b == |binMaxes| - 1 && data == max))
    }
  }

  /** binary_find_bin: searches binMaxes[start-1..end) for the bin of data.
      The search keeps binMaxes[start-1] <= data <= binMaxes[end-1]; the
      upper half of that invariant is what makes it terminate (without it,
      the right recursion on a range of one repeats forever).

      A value equal to the bound binMaxes[pivot] at some probe matches none of
      the three branches and the search returns the start of the range it is
      in: the result is the bin of data unless data equals a bound at or
      above the result. */
  function BinaryFindBin(data: real, binMaxes: seq<real>, start: nat, end: nat): (r: nat)
    requires 1 <= start <= end <= |binMaxes|
    requires binMaxes[start - 1] <= data <= binMaxes[end - 1]
    ensures start <= r <= end && (r == end ==> start == end)
    ensures binMaxes[r - 1] <= data
    ensures r < end ==> data < binMaxes[r] || exists k | r <= k < end :: data == binMaxes[k]
    decreases end - start
  {
    if end - start > 0 then
      var pivot := (start + end) / 2;
      if binMaxes[pivot - 1] <= data && data < binMaxes[pivot] then
        pivot
      else if data < binMaxes[pivot - 1] then
        BinaryFindBin(data, binMaxes, start, pivot)
      else if data > binMaxes[pivot] then
        BinaryFindBin(data, binMaxes, pivot, end)
      else
        start
    else
      start
  }

  /** find_bin: the bin of data, or the sentinel |binMaxes| (the bin count)
      when data lies outside [min, max]. Values below the first bound go to
      bin 0 and max to the last bin without a search. */
  function FindBin(data: real, g: Geometry): (r: nat)
    requires g.Ready()
    ensures r <= |g.binMaxes|
    ensures r == |g.binMaxes| <==> data < g.min || data > g.max
    ensures g.min <= data <= g.max && data < g.binMaxes[0] ==> r == 0
    ensures g.min <= data == g.max && g.binMaxes[0] <= data ==> r == |g.binMaxes| - 1
    ensures r < |g.binMaxes| ==> (if r == 0 then g.min else g.binMaxes[r - 1]) <= data
    ensures r < |g.binMaxes| ==>
              || data < g.binMaxes[r]
              || (r == |g.binMaxes| - 1 && data == g.max)
              || exists k | 1 <= k < |g.binMaxes| - 1 && r <= k :: data == g.binMaxes[k]
  {
    if data < g.min || data > g.max then
      |g.binMaxes|
    else if g.min <= data && data < g.binMaxes[0] then
      0
    else if data == g.max then
      |g.binMaxes| - 1
    else
      BinaryFindBin(data, g.binMaxes, 1, |g.binMaxes|)
  }

  /** Away from the interior bounds, find_bin returns the bin data belongs
      to. */
  lemma FindBinSound(g: Geometry, data: real)
    requires g.Ready() && g.min <= data <= g.max
    requires forall k | 1 <= k < |g.binMaxes| - 1 :: data != g.binMaxes[k]
    ensures g.InBin(data, FindBin(data, g))
  {
  }

  /** The search starts at bin 1, so a value at or above the first bound is
      never sent to bin 0 (when there is more than one bin). */
  lemma FindBinNotFirst(g: Geometry, data: real)
    requires g.Ready() && |g.binMaxes| > 1 && g.binMaxes[0] <= data
    ensures FindBin(data, g) >= 1
  {
  }

  /** A value belongs to at most one bin. */
  lemma InBinUnique(g: Geometry, data: real, b1: nat, b2: nat)
    requires g.Ready() && g.InBin(data, b1) && g.InBin(data, b2)
    ensures b1 == b2
  {
  }

  /** Every value of [min, max] belongs to a bin, also when bounds coincide
      (all samples equal): max to the last bin, any other value to the first
      bin whose bound lies above it. */
  lemma InBinExists(g: Geometry, data: real)
    requires g.Ready() && g.min <= data <= g.max
    ensures exists b :: g.InBin(data, b)
  {
    var n := |g.binMaxes|;
    if data == g.max {
      assert g.InBin(data, n - 1);
    } else {
      var j := n - 1;
      while j > 0 && data < g.binMaxes[j - 1]
        invariant 0 <= j < n && data < g.binMaxes[j]
        decreases j
      {
        j := j - 1;
      }
      assert g.InBin(data, j);
    }
  }

  // ---------------------------------------------------------------------
  // Bin geometry
  // ---------------------------------------------------------------------

  /** The bounds calculate_bin_maxes derives from the width calculate_bin_width
      derives from the extremes: the last bound is max, the bounds increase
      (strictly when max > min), and the first bin starts below the first
      bound. */
  lemma UniformBoundsLaws(min: real, max: real, width: real, binMaxes: seq<real>)
    requires |binMaxes| > 0 && min <= max
    requires width == (max - min) / |binMaxes| as real
    requires forall t | 0 <= t < |binMaxes| :: binMaxes[t] == min + width * (t + 1) as real
    ensures binMaxes[|binMaxes| - 1] == max
    ensures Sorted(binMaxes)
    ensures min < max ==> StrictlySorted(binMaxes) && min < binMaxes[0]
  {
    var n := |binMaxes| as real;
    assert width * n == max - min;
    assert width >= 0.0;
    forall i, j | 0 <= i < j < |binMaxes|
      ensures binMaxes[i] <= binMaxes[j]
      ensures min < max ==> binMaxes[i] < binMaxes[j]
    {
      ScaleMonotone(width, (i + 1) as real, (j + 1) as real);
    }
  }

  lemma ScaleMonotone(w: real, a: real, b: real)
    requires w >= 0.0 && a < b
    ensures w * a <= w * b
    ensures w > 0.0 ==> w * a < w * b
  {
  }

  // ---------------------------------------------------------------------
  // Counting
  // ---------------------------------------------------------------------

  /** The number of samples of s that find_bin sends to b (b == |binMaxes|
      counts the samples it rejects). */
  function CountIn(s: seq<real>, g: Geometry, b: nat): (c: nat)
    requires g.Ready()
    ensures c <= |s|
  {
    if s == [] then 0
    else CountIn(s[..|s| - 1], g, b) + (if FindBin(s[|s| - 1], g) == b then 1 else 0)
  }

  /** The number of samples of s that land in bins 0..k-1. */
  function CountBelow(s: seq<real>, g: Geometry, k: nat): (c: nat)
    requires g.Ready()
  {
    if k == 0 then 0 else CountBelow(s, g, k - 1) + CountIn(s, g, k - 1)
  }

  lemma CountInSnoc(s: seq<real>, x: real, g: Geometry, b: nat)
    requires g.Ready()
    ensures CountIn(s + [x], g, b) == CountIn(s, g, b) + (if FindBin(x, g) == b then 1 else 0)
  {
    assert (s + [x])[..|s|] == s;
  }

  lemma {:induction false} CountBelowEmpty(g: Geometry, k: nat)
    requires g.Ready()
    ensures CountBelow([], g, k) == 0
  {
    if k > 0 {
      CountBelowEmpty(g, k - 1);
    }
  }

  lemma {:induction false} CountBelowSnoc(s: seq<real>, x: real, g: Geometry, k: nat)
    requires g.Ready()
    ensures CountBelow(s + [x], g, k) == CountBelow(s, g, k) + (if FindBin(x, g) < k then 1 else 0)
  {
    if k > 0 {
      CountBelowSnoc(s, x, g, k - 1);
      CountInSnoc(s, x, g, k - 1);
    }
  }

  /** Every sample is counted exactly once: in one of the bins or as rejected.
      So the counts added by a serial pass total at most the number of
      samples. */
  lemma {:induction false} CountsPartitionSamples(s: seq<real>, g: Geometry)
    requires g.Ready()
    ensures CountBelow(s, g, |g.binMaxes|) + CountIn(s, g, |g.binMaxes|) == |s|
  {
    if s == [] {
      CountBelowEmpty(g, |g.binMaxes|);
    } else {
      var init, x := s[..|s| - 1], s[|s| - 1];
      assert s == init + [x];
      CountsPartitionSamples(init, g);
      CountBelowSnoc(init, x, g, |g.binMaxes|);
      CountInSnoc(init, x, g, |g.binMaxes|);
    }
  }

  /** When every sample lies in [min, max] (as it does when the extremes come
      from the same samples) none is rejected and the bins hold all of them. */
  lemma {:induction false} InRangeSamplesAllCounted(s: seq<real>, g: Geometry)
    requires g.Ready()
    requires forall i | 0 <= i < |s| :: g.min <= s[i] <= g.max
    ensures CountIn(s, g, |g.binMaxes|) == 0
    ensures CountBelow(s, g, |g.binMaxes|) == |s|
  {
    if s != [] {
      InRangeSamplesAllCounted(s[..|s| - 1], g);
    }
    CountsPartitionSamples(s, g);
  }

  // ---------------------------------------------------------------------
  // The histogram
  // ---------------------------------------------------------------------

  /** The histogram struct. `data` is the sample vector, absent until the
      caller attaches one. */
  class Histogram {
    const binCount: nat
    var min: real
    var max: real
    var binWidth: real
    const binMaxes: array<real>
    const binCounts: array<nat>
    var data: Option<seq<real>>

    ghost predicate Valid()
      reads this
    {
      binMaxes.Length == binCount && binCounts.Length == binCount
    }

    /** The part of the histogram a lookup reads. */
    function Geom(): (g: Geometry)
      reads this, binMaxes
    {
      Geometry(min, max, binMaxes[..])
    }

    /** init_histogram: size bins, every field and every array entry zero, no
        samples attached. */
    constructor Init(size: nat)
      ensures Valid() && fresh(binMaxes) && fresh(binCounts)
      ensures binCount == size && data == None
      ensures min == 0.0 && max == 0.0 && binWidth == 0.0
      ensures forall t | 0 <= t < size :: binMaxes[t] == 0.0 && binCounts[t] == 0
    {
      binCount := size;
      min, max, binWidth := 0.0, 0.0, 0.0;
      binMaxes := new real[size];
      binCounts := new nat[size];
      data := None;
      new;
      for t := 0 to size
        invariant min == 0.0 && max == 0.0 && binWidth == 0.0 && data == None
        invariant forall i | 0 <= i < t :: binMaxes[i] == 0.0 && binCounts[i] == 0
      {
        binMaxes[t] := 0.0;
        binCounts[t] := 0;
      }
    }

    /** find_min_max: ERROR when no samples are attached, FAIL when there are
        none, otherwise SUCCESS with min and max set to the extremes found in
        one pass. */
    method FindMinMax() returns (rc: ReturnCode)
      modifies this`min, this`max
      ensures data.None? ==> rc == Error
      ensures data.Some? && |data.value| < 1 ==> rc == Fail
      ensures data.Some? && |data.value| >= 1 ==> rc == Success && Extremes(data.value, min, max)
      ensures rc != Success ==> min == old(min) && max == old(max)
    {
      if data.None? {
        return Error;
      }
      var s := data.value;
      if |s| < 1 {
        return Fail;
      }
      var lo, hi := s[0], s[0];
      ghost var iLo, iHi := 0, 0;
      for t := 1 to |s|
        invariant 0 <= iLo < t && s[iLo] == lo
        invariant 0 <= iHi < t && s[iHi] == hi
        invariant forall i | 0 <= i < t :: lo <= s[i] <= hi
      {
        if s[t] < lo {
          lo, iLo := s[t], t;
        }
        if s[t] > hi {
          hi, iHi := s[t], t;
        }
      }
      min, max := lo, hi;
      rc := Success;
    }

    /** calculate_bin_width: the range split into binCount equal parts. */
    method CalculateBinWidth()
      requires binCount > 0
      modifies this`binWidth
      ensures binWidth == (max - min) / binCount as real
    {
      binWidth := (max - min) / binCount as real;
    }

    /** calculate_bin_maxes: bin t ends t+1 widths above min. */
    method CalculateBinMaxes()
      requires Valid()
      modifies binMaxes
      ensures Valid()
      ensures forall t | 0 <= t < binCount :: binMaxes[t] == min + binWidth * (t + 1) as real
    {
      for t := 0 to binCount
        invariant forall i | 0 <= i < t :: binMaxes[i] == min + binWidth * (i + 1) as real
      {
        binMaxes[t] := min + binWidth * (t + 1) as real;
      }
    }

    /** process_stats: the extremes, then the width, then the bounds. A
        failure of find_min_max is passed through with nothing else touched;
        on success the geometry is ready for lookups. */
    method ProcessStats() returns (rc: ReturnCode)
      requires Valid() && binCount > 0
      modifies this`min, this`max, this`binWidth, binMaxes
      ensures Valid()
      ensures data.None? ==> rc == Error
      ensures data.Some? && |data.value| == 0 ==> rc == Fail
      ensures rc == Success <==> data.Some? && |data.value| > 0
      ensures rc != Success ==>
                min == old(min) && max == old(max) && binWidth == old(binWidth) &&
                binMaxes[..] == old(binMaxes[..])
      ensures rc == Success ==>
                && Extremes(data.value, min, max)
                && binWidth == (max - min) / binCount as real
                && (forall t | 0 <= t < binCount :: binMaxes[t] == min + binWidth * (t + 1) as real)
                && Geom().Ready()
                && (min < max ==> StrictlySorted(binMaxes[..]))
    {
      rc := FindMinMax();
      if rc != Success {
        return rc;
      }
      CalculateBinWidth();
      CalculateBinMaxes();
      assert min <= max by {
        assert 0 < |data.value|;
      }
      ghost var bounds := binMaxes[..];
      UniformBoundsLaws(min, max, binWidth, bounds);
      assert Geom() == Geometry(min, max, bounds);
      return Success;
    }

    /** process_data_serial: adds to each bin the number of samples find_bin
        sends there; samples it rejects are dropped. Only the counts change,
        and a second call adds them again. */
    method ProcessDataSerial()
      requires Valid() && data.Some? && Geom().Ready()
      modifies binCounts
      ensures Valid()
      ensures forall b | 0 <= b < binCount ::
                binCounts[b] == old(binCounts[b]) + CountIn(data.value, Geom(), b)
    {
      var s := data.value;
      for t := 0 to |s|
        invariant forall b | 0 <= b < binCount ::
                    binCounts[b] == old(binCounts[b]) + CountIn(s[..t], Geom(), b)
      {
        var bin := FindBin(s[t], Geom());
        assert s[..t + 1] == s[..t] + [s[t]];
        forall b | 0 <= b < binCount {
          CountInSnoc(s[..t], s[t], Geom(), b);
        }
        if bin == binCount {
          // rejected sample: dropped (the program prints a diagnostic here)
        } else {
          binCounts[bin] := binCounts[bin] + 1;
        }
      }
      assert s[..|s|] == s;
    }
  }

  /** The per-worker state of the parallel binner (p_histogram). */
  class PHistogram {
    const graph: Histogram
    const locBinCounts: array<nat>
    const threadId: nat
    const threadCount: nat
    var divisor: nat
    var isEdge: bool

    /** init_p_histogram: zeroed local counts, one per bin of graph, no
        divisor and not an edge worker. */
    constructor Init(graph: Histogram, threadId: nat, threadCount: nat)
      requires graph.Valid()
      ensures this.graph == graph && this.threadId == threadId && this.threadCount == threadCount
      ensures fresh(locBinCounts) && locBinCounts.Length == graph.binCount
      ensures forall t | 0 <= t < graph.binCount :: locBinCounts[t] == 0
      ensures divisor == 0 && !isEdge
    {
      this.graph := graph;
      this.threadId := threadId;
      this.threadCount := threadCount;
      locBinCounts := new nat[graph.binCount];
      divisor := 0;
      isEdge := false;
      new;
      for t := 0 to graph.binCount
        invariant divisor == 0 && !isEdge
        invariant forall i | 0 <= i < t :: locBinCounts[i] == 0
      {
        locBinCounts[t] := 0;
      }
    }
  }
}
