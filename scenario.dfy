/** A worked example: four bins over the samples 1..8, and
    what the lookup does with a value that equals one of its bounds. */
module Scenario {
  import opened Histograms

  function FourBins(): (g: Geometry)
    ensures g.Ready() && |g.binMaxes| == 4
  {
    Geometry(1.0, 8.0, [2.75, 4.5, 6.25, 8.0])
  }

  /** Four bins over 1..8: width 1.75, bounds 2.75, 4.5, 6.25, 8 and two
      samples in every bin after one serial pass. */
  method FourBinsOverOneToEight() returns (width: real, bounds: seq<real>, counts: seq<nat>)
    ensures width == 1.75
    ensures bounds == [2.75, 4.5, 6.25, 8.0]
    ensures counts == [2, 2, 2, 2]
  {
    var samples := OneToEight();
    var h := new Histogram.Init(4);
    h.data := Some(samples);
    var rc := h.ProcessStats();
    OneToEightExtremes(h.min, h.max);
    FourBinsBounds(h.binWidth, h.binMaxes[..]);
    assert h.Geom() == FourBins();
    FourBinsCounts();
    h.ProcessDataSerial();
    width := h.binWidth;
    bounds := h.binMaxes[..];
    counts := h.binCounts[..];
    AllTwo(counts);
  }

  lemma AllTwo(counts: seq<nat>)
    requires |counts| == 4 && forall b | 0 <= b < 4 :: counts[b] == 2
    ensures counts == [2, 2, 2, 2]
  {
  }

  lemma OneToEightExtremes(lo: real, hi: real)
    requires Extremes(OneToEight(), lo, hi)
    ensures lo == 1.0 && hi == 8.0
  {
    var s := OneToEight();
    assert lo <= s[0] && s[7] <= hi;
  }

  lemma FourBinsBounds(width: real, binMaxes: seq<real>)
    requires width == (8.0 - 1.0) / 4 as real
    requires |binMaxes| == 4
    requires forall t | 0 <= t < 4 :: binMaxes[t] == 1.0 + width * (t + 1) as real
    ensures width == 1.75 && binMaxes == [2.75, 4.5, 6.25, 8.0]
  {
    assert binMaxes[0] == 2.75 && binMaxes[1] == 4.5 && binMaxes[2] == 6.25 && binMaxes[3] == 8.0;
  }

  /** The samples 1, 2, ..., 8. */
  function OneToEight(): (s: seq<real>)
    ensures |s| == 8 && forall i | 0 <= i < 8 :: s[i] == (i + 1) as real
  {
    seq(8, i => (i + 1) as real)
  }

  /** Where find_bin sends each of the samples 1..8: two to every bin. None
      of them equals an interior bound, so the lookup returns its bin. */
  lemma FourBinsLookup(i: nat)
    requires i < 8
    ensures FourBins().Ready()
    ensures FindBin((i + 1) as real, FourBins()) == i / 2
  {
    var g, x := FourBins(), (i + 1) as real;
    assert g.InBin(x, i / 2);
    FindBinSound(g, x);
    InBinUnique(g, x, FindBin(x, g), i / 2);
  }

  lemma FourBinsCounts()
    ensures FourBins().Ready()
    ensures forall b | 0 <= b < 4 :: CountIn(OneToEight(), FourBins(), b) == 2
  {
    var g, samples := FourBins(), OneToEight();
    for i := 0 to 8
      invariant forall b | 0 <= b < 4 :: CountIn(samples[..i], g, b) == PrefixCount(i, b)
    {
      ghost var next := samples[..i + 1];
      forall b | 0 <= b < 4
        ensures CountIn(next, g, b) == PrefixCount(i + 1, b)
      {
        CountStep(i, b);
      }
    }
    assert samples[..8] == samples;
  }

  /** How many of the samples 1..i lie in bin b: bin b holds 2b+1 and 2b+2. */
  function PrefixCount(i: nat, b: nat): (c: nat)
    ensures c <= 2
  {
    if i <= 2 * b then 0 else if i >= 2 * b + 2 then 2 else i - 2 * b
  }

  /** Sample i+1 adds one to bin i/2 and nothing to the other bins. */
  lemma CountStep(i: nat, b: nat)
    requires i < 8
    ensures CountIn(OneToEight()[..i + 1], FourBins(), b) ==
            CountIn(OneToEight()[..i], FourBins(), b) + (if i / 2 == b then 1 else 0)
    ensures PrefixCount(i + 1, b) == PrefixCount(i, b) + (if i / 2 == b then 1 else 0)
  {
    var samples := OneToEight();
    assert samples[..i + 1] == samples[..i] + [samples[i]];
    FourBinsLookup(i);
    CountInSnoc(samples[..i], samples[i], FourBins(), b);
  }

  /** The search defect: 6.25 is the upper bound of bin 2 and so belongs to
      bin 3, but the first probe compares it equal to that bound and the
      search returns the start of its range, bin 1. */
  lemma ProbedBoundMisbinned()
    ensures FourBins().Ready()
    ensures FourBins().InBin(6.25, 3) && !FourBins().InBin(6.25, 1)
    ensures FindBin(6.25, FourBins()) == 1
  {
  }
}
