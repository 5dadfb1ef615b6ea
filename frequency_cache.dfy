/** The frequency-matrix cache (GamTools/__init__.py, class
    GamFrequencyMatrix): an n x n array of 2x2 tallies in which an all-zero
    tally marks a pair that has not been computed yet. The HDF5 dataset is
    modelled as an in-memory two-dimensional array. */
module FrequencyCache {
  import opened Wrappers
  import opened Segregation

  /** A block of tallies, indexed [row offset][column offset]. */
  type Block = seq<seq<Counts>>

  predicate IsBlock(b: Block, rows: nat, cols: nat) {
    |b| == rows && forall a :: 0 <= a < rows ==> |b[a]| == cols
  }

  class FrequencyMatrix {
    /** The "frequencies" dataset of shape (no_windows, no_windows, 2, 2). */
    const data: array2<Counts>

    /** create_freq_matrix / from_no_windows: a zero-filled square matrix. */
    constructor (noWindows: nat)
      ensures data.Length0 == noWindows && data.Length1 == noWindows && fresh(data)
      ensures forall i, j :: 0 <= i < noWindows && 0 <= j < noWindows ==> data[i, j] == Zero
      ensures forall r0, r1, c0, c1 :: 0 <= r0 < r1 <= noWindows && 0 <= c0 < c1 <= noWindows ==>
                HasEmptyCell(r0, r1, c0, c1)
    {
      data := new Counts[noWindows, noWindows]((_, _) => Zero);
      new;
      forall r0, r1, c0, c1 | 0 <= r0 < r1 <= noWindows && 0 <= c0 < c1 <= noWindows
        ensures HasEmptyCell(r0, r1, c0, c1)
      {
        assert data[r0, c0].Sum() == 0;
      }
    }

    /** A half-open rectangular region [r0, r1) x [c0, c1) inside the matrix. */
    predicate InRange(r0: nat, r1: nat, c0: nat, c1: nat) {
      r0 <= r1 <= data.Length0 && c0 <= c1 <= data.Length1
    }

    /** Some pair in the region holds a tally whose entries sum to zero. */
    ghost predicate HasEmptyCell(r0: nat, r1: nat, c0: nat, c1: nat)
      requires InRange(r0, r1, c0, c1)
      reads data
    {
      exists i, j :: r0 <= i < r1 && c0 <= j < c1 && data[i, j].Sum() == 0
    }

    /** any_empty: scans the region row by row and stops at the first
        tally that sums to zero. */
    method AnyEmpty(r0: nat, r1: nat, c0: nat, c1: nat) returns (empty: bool)
      requires InRange(r0, r1, c0, c1)
      ensures empty <==> HasEmptyCell(r0, r1, c0, c1)
      ensures r0 == r1 || c0 == c1 ==> !empty
    {
      var i := r0;
      while i < r1
        invariant r0 <= i <= r1
        invariant forall i', j :: r0 <= i' < i && c0 <= j < c1 ==> data[i', j].Sum() != 0
      {
        var j := c0;
        while j < c1
          invariant c0 <= j <= c1
          invariant forall j' :: c0 <= j' < j ==> data[i, j'].Sum() != 0
        {
          if data[i, j].Sum() == 0 {
            return true;
          }
          j := j + 1;
        }
        i := i + 1;
      }
      return false;
    }

    /** The stored tallies of a region, as a fresh block value. */
    function Region(r0: nat, r1: nat, c0: nat, c1: nat): (b: Block)
      requires InRange(r0, r1, c0, c1)
      reads data
      ensures IsBlock(b, r1 - r0, c1 - c0)
      ensures forall a, b' :: 0 <= a < r1 - r0 && 0 <= b' < c1 - c0 ==> b[a][b'] == data[r0 + a, c0 + b']
    {
      var m := data;
      seq(r1 - r0, a requires 0 <= a < r1 - r0 reads m =>
        seq(c1 - c0, b requires 0 <= b < c1 - c0 reads m => m[r0 + a, c0 + b]))
    }

    /** get_matrix: a miss (None) exactly when some tally in the region sums
        to zero; otherwise the stored region. Nothing is written. */
    method GetMatrix(r0: nat, r1: nat, c0: nat, c1: nat) returns (r: Option<Block>)
      requires InRange(r0, r1, c0, c1)
      ensures r.None? <==> HasEmptyCell(r0, r1, c0, c1)
      ensures r.None? ==> r0 < r1 && c0 < c1
      ensures r.Some? ==> IsBlock(r.value, r1 - r0, c1 - c0)
      ensures r.Some? ==> forall a, b :: 0 <= a < r1 - r0 && 0 <= b < c1 - c0 ==>
                r.value[a][b] == data[r0 + a, c0 + b] && r.value[a][b].Sum() != 0
    {
      var empty := AnyEmpty(r0, r1, c0, c1);
      if empty {
        r := None;
      } else {
        r := Some(Region(r0, r1, c0, c1));
      }
    }

    /** cache_freqs: overwrites the region with `freqs`; every pair outside
        the region keeps its tally. */
    method CacheFreqs(r0: nat, r1: nat, c0: nat, c1: nat, freqs: Block)
      requires InRange(r0, r1, c0, c1) && IsBlock(freqs, r1 - r0, c1 - c0)
      modifies data
      ensures forall i, j :: 0 <= i < data.Length0 && 0 <= j < data.Length1 ==>
                data[i, j] == if r0 <= i < r1 && c0 <= j < c1 then freqs[i - r0][j - c0] else old(data[i, j])
    {
      forall i, j | r0 <= i < r1 && c0 <= j < c1 {
        data[i, j] := freqs[i - r0][j - c0];
      }
    }
  }

  /** A region with no empty tally has none in any of its sub-regions. */
  lemma SubregionHit(m: FrequencyMatrix, r0: nat, r1: nat, c0: nat, c1: nat, s0: nat, s1: nat, t0: nat, t1: nat)
    requires m.InRange(r0, r1, c0, c1) && !m.HasEmptyCell(r0, r1, c0, c1)
    requires r0 <= s0 <= s1 <= r1 && c0 <= t0 <= t1 <= c1
    ensures m.InRange(s0, s1, t0, t1) && !m.HasEmptyCell(s0, s1, t0, t1)
  {
  }
}
