# multi-histogram: a Dafny model of the binning core

The program bins numeric samples into `bin_count` equal-width ranges and counts
the samples in each. This project models its sequential core in Dafny and
proves properties of it:

- `process_stats` finds the extremes of the samples, derives the bin width and
  the upper bound of every bin.
- `find_bin` and `binary_find_bin` map a value to its bin, or to the sentinel
  `bin_count` when it lies outside `[min, max]`.
- `process_data_serial` counts every sample into its bin.
- The initialisers build a zeroed histogram and a zeroed per-worker record.
- The parallel helpers split `size` samples among `thread_count` workers, clamp
  a worker's child count, and compute floor/ceil log2 and the nearest powers
  of two.

Files:

- `return_code.dfy` (module `ReturnCodes`): the SUCCESS/FAIL/ERROR code.
- `histogram.dfy` (module `Histograms`): the lookup functions, the counting
  specification and its lemmas, and two classes. `Histogram` has
  `binMaxes`/`binCounts` arrays and `min`/`max`/`binWidth` fields that its
  methods update. `PHistogram` is the per-worker record.
- `parallel_helpers.dfy` (module `ParallelHelpers`): pure integer functions
  and the tiling and log2 laws.
- `scenario.dfy` (module `Scenario`): the four-bin example over the samples
  1..8, and the lookup defect described below.

Samples, extremes, width and bounds are `real`. The code only compares these
values and applies `+`, `-`, `*` and `/` to them, so exact arithmetic replaces
IEEE doubles. In exact arithmetic the last bound equals `max`, and the bounds
increase strictly when `max > min`. The logarithms are exact integer floor
and ceil log2.

The model keeps the following behaviour of the code as written:

- Worker ranges have an inclusive end, `(id+1)*size/count - 1`, and the last
  worker ends at `size-1`. They are not half-open ranges ending at `size`.
- The two geometry errors are the codes ERROR (no sample vector) and FAIL
  (empty vector).
- The lookup does not give every in-range value its bin. A value equal to a
  bound that the binary search probes takes none of its three branches, and
  the search returns the start of the current range. With 4 bins over 1..8,
  6.25 is the upper bound of bin 2, so it belongs to bin 3. The lookup
  returns bin 1 (`Scenario.ProbedBoundMisbinned`). The model keeps this
  behaviour. The contracts of `BinaryFindBin` and `FindBin` say exactly when
  the result is the right bin.
- `calculate_thread_spawn_size` passes the undeclared name `value` to
  `find_smallest_expo_of_two` (parallel_helpers.c:28). The model passes the
  `divisor` parameter (parallel_helpers.h:29), the only parameter the body
  does not otherwise use.

## Model

| member | source | states |
|---|---|---|
| `ReturnCodes.ReturnCode.Code` | return_code.h:17-21 | SUCCESS is 0, FAIL is positive, ERROR is negative. This is how `process_stats` and its caller test the code. |
| `Histograms.BinaryFindBin` | histogram.c:55-69 | Terminates whenever `binMaxes[start-1] <= data <= binMaxes[end-1]`; these facts do not need the bounds to be sorted. For `start < end` the result `r` is in `[start, end)`. `binMaxes[r-1] <= data` always holds. `data < binMaxes[r]` holds unless `data` equals a bound `binMaxes[k]` with `r <= k < end`. |
| `Histograms.FindBin` | histogram.c:117-133 | Returns the sentinel `bin_count` exactly when `data < min` or `data > max`; otherwise the result is below `bin_count`. Returns 0 for `min <= data < binMaxes[0]`, and `bin_count-1` for `data == max` not below `binMaxes[0]`. The result is the bin of `data`, except when `data` equals an interior bound at or above the result. |
| `Histograms.FindBinNotFirst` | histogram.c:117-133 | With more than one bin, a value at or above the first bound is never sent to bin 0: the search starts at bin 1, and `max` goes to the last bin. |
| `Histograms.FindBinSound` | histogram.h:32-38 | For an in-range value that equals no interior bound, `find_bin` returns the bin the value belongs to. |
| `Histograms.InBinUnique` | histogram.h:32-38 | With sorted bounds, a value belongs to at most one bin. |
| `Histograms.InBinExists` | histogram.h:32-38 | For any ready geometry, every value in `[min, max]` belongs to some bin. This includes equal bounds, which `process_stats` builds when all samples are equal. |
| `Histograms.UniformBoundsLaws` | histogram.c:71-83 | Take `width = (max-min)/n` and `binMaxes[t] = min + width*(t+1)`. Then the last bound is `max` and the bounds are non-decreasing. When `max > min` they are strictly increasing and the first bound is above `min`. |
| `Histograms.CountsPartitionSamples` | histogram.c:250-266 | Every sample is counted once: in one of the bins, or as rejected by the sentinel. So the bin counts gained in one serial pass total at most the number of samples. |
| `Histograms.InRangeSamplesAllCounted` | histogram.c:250-266 | If every sample lies in `[min, max]`, none is rejected, and the bins gain exactly the number of samples. |
| `Histograms.Histogram.Init` | histogram.c:181-199 | `bin_count == size`. `min`, `max` and `bin_width` are 0, every `bin_maxes` and `bin_counts` entry is 0, and no samples are attached. |
| `Histograms.Histogram.FindMinMax` | histogram.c:146-179 | Returns ERROR when no vector is attached and FAIL when it is empty; in both cases `min`/`max` are untouched. Otherwise returns SUCCESS with `min` and `max` elements of the samples and every sample between them. |
| `Histograms.Histogram.CalculateBinWidth` | histogram.c:81-83 | `bin_width` becomes `(max-min)/bin_count`. |
| `Histograms.Histogram.CalculateBinMaxes` | histogram.c:71-79 | `bin_maxes[t] == min + bin_width*(t+1)` for every bin. |
| `Histograms.Histogram.ProcessStats` | histogram.c:268-281 | Returns SUCCESS exactly when a non-empty vector is attached. A non-SUCCESS code from `find_min_max` passes through, and width and bounds are untouched. On SUCCESS: `min`/`max` are the extremes, width and bounds follow the uniform formulas, and the geometry is ready for lookups. That means sorted bounds, the last equal to `max`, strictly increasing when `max > min`. |
| `Histograms.Histogram.ProcessDataSerial` | histogram.c:250-266 | Adds to every `bin_counts[b]` the number of samples that `find_bin` sends to `b`, and drops sentinel results. Only `bin_counts` changes, and a second call adds the counts again. |
| `Histograms.PHistogram.Init` | histogram.c:201-218 | One zero local count per bin of the graph, `divisor == 0`, `is_edge == false`, and the graph, id and count as given. |
| `ParallelHelpers.CalculateStartIndex` | parallel_helpers.c:17-19 | The result is `id*size/count` rounded down: `r*count <= id*size < r*count + count`. |
| `ParallelHelpers.CalculateEndIndex` | parallel_helpers.c:13-15 | The result is `(id+1)*size/count` rounded down, minus one (an inclusive end), and never below -1. |
| `ParallelHelpers.PartitionBoundaries` | parallel_helpers.c:13-19 | `start(0) == 0`, `end(count-1) == size-1`, and `end(id)+1 == start(id+1)` for every `id < count-1`. |
| `ParallelHelpers.RangesDisjoint` | parallel_helpers.c:13-19 | Distinct workers' ranges do not overlap. |
| `ParallelHelpers.RangesCover` | parallel_helpers.c:13-19 | Every index in `[0, size)` lies in some worker's range, so the ranges tile `[0, size)`. |
| `ParallelHelpers.RangesNonEmpty` | parallel_helpers.c:13-19 | With `1 <= count <= size` (main.c:160-163 rejects more workers than samples), every worker's range is non-empty. |
| `ParallelHelpers.CalculateThreadSpawnSize` | parallel_helpers.c:21-34 | 0 for an id at or beyond the count. Otherwise the smaller of `floor(log2(divisor))` and `count-id-1`, so a worker never spawns more children than there are ids above it. |
| `ParallelHelpers.FindSmallestExpoOfTwo` | parallel_helpers.c:48-50 | Floor log2: `2^r <= value < 2^(r+1)`. |
| `ParallelHelpers.FindLargestExpoOfTwo` | parallel_helpers.c:40-42 | Ceil log2: `value <= 2^r`, and `r == 0` or `2^(r-1) < value`. |
| `ParallelHelpers.FindSmallerPowerOfTwo` | parallel_helpers.c:44-46 | The result `p` satisfies `p <= value < 2p`. |
| `ParallelHelpers.FindLargerPowerOfTwo` | parallel_helpers.c:36-38 | The result `q` satisfies `value <= q < 2*value`. |
| `ParallelHelpers.PowersOfTwoAreFixed` | parallel_helpers.c:36-50 | On `2^k` both exponents are `k`, and both power helpers return `2^k` itself. |
| `ParallelHelpers.CeilIsFloorOrNext` | parallel_helpers.c:36-50 | Ceil log2 equals floor log2 on a power of two, and is one more otherwise. So the larger power of two is the smaller one or twice it. |
| `Scenario.FourBinsOverOneToEight` | histogram.c:250-281 | 4 bins over the samples 1..8 give width 1.75, bounds `[2.75, 4.5, 6.25, 8]` and counts `[2, 2, 2, 2]`. |
| `Scenario.ProbedBoundMisbinned` | histogram.c:55-69 | With those bounds, 6.25 belongs to bin 3, but `find_bin` returns 1. |

## Left out

- `process_data_parallel` (histogram.c:230-248) is unfinished: the call at line 244 is cut off, so there is no spawn/join/fold protocol to model. Its subject is also pthread concurrency.
- Console output is not modelled: `print_bins`, the progress messages and the stray `printf("test\n")` in `binary_find_bin`. A dropped sample is silently skipped instead of reported.
- `delete_histogram`, `delete_p_histogram` and `malloc` failure (memory management).
- `log_base` and IEEE-754 rounding. Samples and geometry are `real`; the `log`/`pow`/`floor`/`ceil` calls are replaced by exact integer log2. In doubles the last bound `min + width*bin_count` can fall below `max`: for example 19 bins with min 2.3 and max 16.0 give a last bound of 15.999999999999996. An in-range sample above it, such as 15.999999999999998, then takes the right branch at every probe, and `binary_find_bin(..., 18, 19)` calls itself forever. The model's `Ready` holds the last bound at `max`, so `FindBin` always terminates there; this hang is not modelled. The logarithms round too: in doubles `log(2^29)/log(2)` is 29.000000000000004, so `find_largest_expo_of_two(2^29)` is 30 and `find_larger_power_of_two(2^29)` is 2^30.
- vector.c (reading samples from a file, random samples), main.c argument parsing and the config.h messages. The sample vector is a field that the caller sets, as main.c does.
- `Histograms.Histogram.Init`: `init_histogram` leaves the `data` pointer uninitialised. The model starts it as "no samples attached".
- `Histograms.BinaryFindBin`: its comment promises "the bin data belongs to". The contract promises that only for values that equal no probed bound, because the code does not keep the promise for such values.
- `Histograms.FindBin`: weaker than its header comment in the same way, for values equal to an interior bound.
- `Histograms.Histogram.ProcessStats`: requires at least one bin. With zero bins `calculate_bin_width` divides by zero, which gives an infinite or NaN width in doubles and has no `real` counterpart.
- `Histograms.Histogram.ProcessDataSerial`: counts are unbounded naturals, so `unsigned long` wrap-around is not modelled.
- `ParallelHelpers.CalculateStartIndex`: ids, counts and sizes are unbounded, so `int`/`unsigned long` overflow of `(thread_id+1)*size` is not modelled. The same holds for `CalculateEndIndex`.
- `ParallelHelpers.FindLargerPowerOfTwo`: the upper bound `q < 2*value` holds for the exact model only. In doubles `find_larger_power_of_two(2^29)` returns 2^30, which is `2*value`.
- `ParallelHelpers.PowersOfTwoAreFixed`: holds for the exact model only. In doubles it fails for the ceil exponent and the larger power at k = 29. The floor exponent and the smaller power agree with the double computation.
- `ParallelHelpers.FindSmallestExpoOfTwo`: requires `value >= 1` (the log of a non-positive value is not finite). The same holds for the other log2 and power helpers, and for `CalculateThreadSpawnSize` when it takes the log.
