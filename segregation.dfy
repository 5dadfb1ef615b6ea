/** The experimental segregation table (GamTools/__init__.py, class
    GamExperimentalData): which genomic windows were detected in which
    samples, and the 2x2 contingency tally of two windows over all samples. */
module Segregation {

  /** A presence/absence call: 0 (absent) or 1 (present). */
  type Bit = x: int | 0 <= x < 2

  /** One sample's calls for the two windows of interest: (first, second). */
  type Sample = (Bit, Bit)

  /** A 2x2 tally indexed [first][second] exactly as the code fills it:
      c00 = neither window present, c01 = only the second present,
      c10 = only the first present, c11 = both present. */
  datatype Counts = Counts(c00: int, c01: int, c10: int, c11: int) {

    function At(a: Bit, b: Bit): int {
      if a == 0 then (if b == 0 then c00 else c01)
      else (if b == 0 then c10 else c11)
    }

    function Sum(): int {
      c00 + c01 + c10 + c11
    }

    /** The tally with the two windows exchanged. */
    function Transpose(): Counts {
      Counts(c00, c10, c01, c11)
    }
  }

  /** The value of an uncomputed cache cell. */
  const Zero := Counts(0, 0, 0, 0)

  /** Number of samples whose first call is `a` and second call is `b`. */
  function PresenceCount(samples: seq<Sample>, a: Bit, b: Bit): nat {
    if samples == [] then 0
    else
      var last := samples[|samples| - 1];
      PresenceCount(samples[..|samples| - 1], a, b) + (if last == (a, b) then 1 else 0)
  }

  /** The tally count_frequency returns: every cell counts the samples in
      that bucket, plus the pseudocount. */
  function Frequency(samples: seq<Sample>, pseudocount: int): Counts {
    Counts(PresenceCount(samples, 0, 0) + pseudocount, PresenceCount(samples, 0, 1) + pseudocount,
           PresenceCount(samples, 1, 0) + pseudocount, PresenceCount(samples, 1, 1) + pseudocount)
  }

  /** count_frequency: a zeroed 2x2 array, one increment of cell
      [s.0][s.1] per sample, then the pseudocount added to every cell. */
  method CountFrequency(samples: seq<Sample>, pseudocount: int) returns (t: Counts)
    ensures forall a: Bit, b: Bit :: t.At(a, b) == PresenceCount(samples, a, b) + pseudocount
    ensures t == Frequency(samples, pseudocount)
  {
    var counts := new int[2, 2]((_, _) => 0);
    var i := 0;
    while i < |samples|
      invariant 0 <= i <= |samples|
      invariant forall a: Bit, b: Bit :: counts[a, b] == PresenceCount(samples[..i], a, b)
    {
      var s := samples[i];
      assert samples[..i + 1][..i] == samples[..i];
      counts[s.0, s.1] := counts[s.0, s.1] + 1;
      i := i + 1;
    }
    assert samples[..i] == samples;
    t := Counts(counts[0, 0] + pseudocount, counts[0, 1] + pseudocount,
                counts[1, 0] + pseudocount, counts[1, 1] + pseudocount);
  }

  /** Every sample lands in exactly one of the four buckets. */
  lemma {:induction false} PresenceCountsTotal(samples: seq<Sample>)
    ensures PresenceCount(samples, 0, 0) + PresenceCount(samples, 0, 1)
          + PresenceCount(samples, 1, 0) + PresenceCount(samples, 1, 1) == |samples|
  {
    if samples != [] {
      PresenceCountsTotal(samples[..|samples| - 1]);
    }
  }

  /** The four cells of a tally add up to the number of samples plus four
      pseudocounts. */
  lemma FrequencyTotal(samples: seq<Sample>, pseudocount: int)
    ensures Frequency(samples, pseudocount).Sum() == |samples| + 4 * pseudocount
  {
    PresenceCountsTotal(samples);
  }

  /** The samples with the two windows' calls exchanged. */
  function Swapped(samples: seq<Sample>): (r: seq<Sample>)
    ensures |r| == |samples|
  {
    seq(|samples|, k requires 0 <= k < |samples| => (samples[k].1, samples[k].0))
  }

  lemma {:induction false} PresenceCountSwapped(samples: seq<Sample>, a: Bit, b: Bit)
    ensures PresenceCount(Swapped(samples), a, b) == PresenceCount(samples, b, a)
  {
    if samples != [] {
      var init := samples[..|samples| - 1];
      assert Swapped(samples)[..|samples| - 1] == Swapped(init);
      PresenceCountSwapped(init, a, b);
    }
  }

  /** Exchanging the two windows transposes the tally: the "only one
      present" cells swap, "both" and "neither" stay. */
  lemma FrequencySwap(samples: seq<Sample>, pseudocount: int)
    ensures Frequency(Swapped(samples), pseudocount) == Frequency(samples, pseudocount).Transpose()
  {
    PresenceCountSwapped(samples, 0, 0);
    PresenceCountSwapped(samples, 0, 1);
    PresenceCountSwapped(samples, 1, 0);
    PresenceCountSwapped(samples, 1, 1);
  }

  /** Appending one sample adds one to exactly its own bucket. */
  lemma PresenceCountAppend(samples: seq<Sample>, x: Sample, a: Bit, b: Bit)
    ensures PresenceCount(samples + [x], a, b) == PresenceCount(samples, a, b) + (if x == (a, b) then 1 else 0)
  {
    assert (samples + [x])[..|samples|] == samples;
  }

  /** The docstring of count_frequency documents the layout
      [[both, first only], [second only, neither]]; the code puts "both" in
      [1][1] and "neither" in [0][0]. A single sample with both windows
      present shows the difference. */
  lemma DocumentedLayoutIsReversed()
    ensures Frequency([(1, 1)], 0) == Counts(0, 0, 0, 1)
    ensures Frequency([(1, 0)], 0) == Counts(0, 0, 1, 0)
  {
    var both: seq<Sample> := [(1, 1)];
    var firstOnly: seq<Sample> := [(1, 0)];
    assert both == [] + [(1, 1)] && firstOnly == [] + [(1, 0)];
    forall a: Bit, b: Bit
      ensures PresenceCount(both, a, b) == (if (a, b) == (1, 1) then 1 else 0)
      ensures PresenceCount(firstOnly, a, b) == (if (a, b) == (1, 0) then 1 else 0)
    {
      PresenceCountAppend([], (1, 1), a, b);
      PresenceCountAppend([], (1, 0), a, b);
    }
  }

  /** Four samples covering every combination once give a tally of all ones. */
  lemma FourSampleExample()
    ensures Frequency([(1, 1), (1, 0), (0, 1), (0, 0)], 0) == Counts(1, 1, 1, 1)
  {
    var s1: seq<Sample> := [(1, 1)];
    var s2: seq<Sample> := s1 + [(1, 0)];
    var s3: seq<Sample> := s2 + [(0, 1)];
    var s4: seq<Sample> := s3 + [(0, 0)];
    assert s1 == [] + [(1, 1)];
    assert s4 == [(1, 1), (1, 0), (0, 1), (0, 0)];
    forall a: Bit, b: Bit
      ensures PresenceCount(s4, a, b) == 1
    {
      PresenceCountAppend([], (1, 1), a, b);
      PresenceCountAppend(s1, (1, 0), a, b);
      PresenceCountAppend(s2, (0, 1), a, b);
      PresenceCountAppend(s3, (0, 0), a, b);
    }
  }

  /** The segregation table: one row per sample, one 0/1 call per window. */
  datatype ExperimentalData = ExperimentalData(segmentation: seq<seq<Bit>>, noWindows: nat, pseudocount: int) {

    ghost predicate Valid() {
      forall k :: 0 <= k < |segmentation| ==> |segmentation[k]| == noWindows
    }

    /** The two-column table of calls for windows loc1 and loc2. */
    function LocationSamples(loc1: nat, loc2: nat): (r: seq<Sample>)
      requires Valid() && loc1 < noWindows && loc2 < noWindows
      ensures |r| == |segmentation|
      ensures forall k :: 0 <= k < |r| ==> r[k] == (segmentation[k][loc1], segmentation[k][loc2])
    {
      seq(|segmentation|, k requires 0 <= k < |segmentation| => (segmentation[k][loc1], segmentation[k][loc2]))
    }

    /** get_location_frequency: the tally of windows loc1 and loc2. */
    function LocationFrequency(loc1: nat, loc2: nat): (r: Counts)
      requires Valid() && loc1 < noWindows && loc2 < noWindows
      ensures forall a: Bit, b: Bit :: pseudocount <= r.At(a, b) <= |segmentation| + pseudocount
    {
      PresenceCountsTotal(LocationSamples(loc1, loc2));
      Frequency(LocationSamples(loc1, loc2), pseudocount)
    }
  }

  /** Every tally of two windows totals the number of samples plus four
      pseudocounts. */
  lemma LocationFrequencyTotal(d: ExperimentalData, loc1: nat, loc2: nat)
    requires d.Valid() && loc1 < d.noWindows && loc2 < d.noWindows
    ensures d.LocationFrequency(loc1, loc2).Sum() == |d.segmentation| + 4 * d.pseudocount
  {
    FrequencyTotal(d.LocationSamples(loc1, loc2), d.pseudocount);
  }

  /** Asking for (loc2, loc1) instead of (loc1, loc2) transposes the tally. */
  lemma LocationFrequencySymmetric(d: ExperimentalData, loc1: nat, loc2: nat)
    requires d.Valid() && loc1 < d.noWindows && loc2 < d.noWindows
    ensures d.LocationFrequency(loc2, loc1) == d.LocationFrequency(loc1, loc2).Transpose()
  {
    assert d.LocationSamples(loc2, loc1) == Swapped(d.LocationSamples(loc1, loc2));
    FrequencySwap(d.LocationSamples(loc1, loc2), d.pseudocount);
  }
}
