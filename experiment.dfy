/** The experiment (GamTools/__init__.py, class GamExperiment): serves
    blocks of tallies from the frequency cache, computing and storing a
    whole block whenever any pair in it is missing. */
module Experiment {
  import opened Segregation
  import opened FrequencyCache

  /** The window positions start, start + 1, ..., stop - 1: the columns
      the slice columns[start:stop] selects. */
  function Positions(start: nat, stop: nat): (ps: seq<nat>)
    requires start <= stop
    ensures |ps| == stop - start
    ensures forall t :: 0 <= t < |ps| ==> ps[t] == start + t
  {
    seq(stop - start, t requires 0 <= t < stop - start => start + t)
  }

  /** rows * cols, counted row by row. */
  function Area(rows: nat, cols: nat): nat {
    if rows == 0 then 0 else cols + Area(rows - 1, cols)
  }

  /** Counting row by row gives the product. */
  lemma {:induction false} AreaIsProduct(rows: nat, cols: nat)
    ensures Area(rows, cols) == rows * cols
  {
    if rows > 0 {
      AreaIsProduct(rows - 1, cols);
      assert rows * cols == cols + (rows - 1) * cols;
    }
  }

  /** The pairs of the product whose first component is x. */
  function ProductRow(x: nat, ys: seq<nat>): (row: seq<(nat, nat)>)
    ensures |row| == |ys|
    ensures forall b :: 0 <= b < |ys| ==> row[b] == (x, ys[b])
  {
    seq(|ys|, b requires 0 <= b < |ys| => (x, ys[b]))
  }

  /** itertools.product(xs, ys): every pair, the first component varying
      slowest. */
  function Product(xs: seq<nat>, ys: seq<nat>): (pairs: seq<(nat, nat)>)
    ensures |pairs| == Area(|xs|, |ys|)
  {
    if |xs| == 0 then [] else ProductRow(xs[0], ys) + Product(xs[1..], ys)
  }

  /** Every entry of `ps` is a window position below n. */
  predicate AllBelow(ps: seq<nat>, n: nat) {
    forall t :: 0 <= t < |ps| ==> ps[t] < n
  }

  /** Both windows of every pair are below n. */
  predicate PairsBelow(pairs: seq<(nat, nat)>, n: nat) {
    forall t :: 0 <= t < |pairs| ==> pairs[t].0 < n && pairs[t].1 < n
  }

  /** The product of in-range positions holds only in-range pairs. */
  lemma {:induction false} ProductInRange(xs: seq<nat>, ys: seq<nat>, n: nat)
    requires AllBelow(xs, n) && AllBelow(ys, n)
    ensures PairsBelow(Product(xs, ys), n)
  {
    if |xs| > 0 {
      ProductInRange(xs[1..], ys, n);
      assert Product(xs, ys) == ProductRow(xs[0], ys) + Product(xs[1..], ys);
    }
  }

  /** The tally of every pair, in order: the map over the product. */
  function Tallies(d: ExperimentalData, pairs: seq<(nat, nat)>): (freqs: seq<Counts>)
    requires d.Valid() && PairsBelow(pairs, d.noWindows)
    ensures |freqs| == |pairs|
    ensures forall t :: 0 <= t < |pairs| ==> freqs[t] == d.LocationFrequency(pairs[t].0, pairs[t].1)
  {
    seq(|pairs|, t requires 0 <= t < |pairs| => d.LocationFrequency(pairs[t].0, pairs[t].1))
  }

  /** Where cell [a][b] of a row-major block with `cols` columns sits in
      the flat sequence, counted row by row. */
  function Offset(a: nat, b: nat, cols: nat): nat {
    if a == 0 then b else cols + Offset(a - 1, b, cols)
  }

  /** The count row by row is the row-major index a * cols + b. */
  lemma {:induction false} OffsetIsRowMajor(a: nat, b: nat, cols: nat)
    ensures Offset(a, b, cols) == a * cols + b
  {
    if a > 0 {
      OffsetIsRowMajor(a - 1, b, cols);
      assert a * cols == cols + (a - 1) * cols;
    }
  }

  /** freqs.reshape((rows, cols, 2, 2)): consecutive runs of `cols`
      entries become the rows, in order. */
  function Reshape<T>(flat: seq<T>, rows: nat, cols: nat): (b: seq<seq<T>>)
    requires |flat| == Area(rows, cols)
    ensures |b| == rows && forall a :: 0 <= a < rows ==> |b[a]| == cols
  {
    if rows == 0 then [] else [flat[..cols]] + Reshape(flat[cols..], rows - 1, cols)
  }

  /** Row a, column b of the reshaped sequence is its entry at Offset(a, b, cols). */
  lemma {:induction false} ReshapeCell<T>(flat: seq<T>, rows: nat, cols: nat, a: nat, b: nat)
    requires |flat| == Area(rows, cols) && a < rows && b < cols
    ensures Offset(a, b, cols) < |flat|
    ensures Reshape(flat, rows, cols)[a][b] == flat[Offset(a, b, cols)]
  {
    if a > 0 {
      ReshapeCell(flat[cols..], rows - 1, cols, a - 1, b);
    }
  }

  /** The pair at Offset(a, b, |ys|) of the product is (xs[a], ys[b]). */
  lemma {:induction false} ProductCell(xs: seq<nat>, ys: seq<nat>, a: nat, b: nat)
    requires a < |xs| && b < |ys|
    ensures Offset(a, b, |ys|) < |Product(xs, ys)|
    ensures Product(xs, ys)[Offset(a, b, |ys|)] == (xs[a], ys[b])
  {
    assert Product(xs, ys) == ProductRow(xs[0], ys) + Product(xs[1..], ys);
    if a > 0 {
      ProductCell(xs[1..], ys, a - 1, b);
      assert xs[1..][a - 1] == xs[a];
    }
  }

  /** The block of tallies of the region [r0, r1) x [c0, c1): row a,
      column b holds the tally of windows r0+a and c0+b. */
  function TallyBlock(d: ExperimentalData, r0: nat, r1: nat, c0: nat, c1: nat): (b: Block)
    requires d.Valid() && r0 <= r1 <= d.noWindows && c0 <= c1 <= d.noWindows
    ensures IsBlock(b, r1 - r0, c1 - c0)
  {
    seq(r1 - r0, a requires 0 <= a < r1 - r0 =>
      seq(c1 - c0, b requires 0 <= b < c1 - c0 => d.LocationFrequency(r0 + a, c0 + b)))
  }

  /** Row a, column b of a region's block is the tally of windows r0 + a and c0 + b. */
  lemma TallyBlockCell(d: ExperimentalData, r0: nat, r1: nat, c0: nat, c1: nat, a: nat, b: nat)
    requires d.Valid() && r0 <= r1 <= d.noWindows && c0 <= c1 <= d.noWindows
    requires a < r1 - r0 && b < c1 - c0
    ensures TallyBlock(d, r0, r1, c0, c1)[a][b] == d.LocationFrequency(r0 + a, c0 + b)
  {
  }

  /** Two blocks of the same shape with the same cells are equal. */
  lemma SameBlock(x: Block, y: Block, rows: nat, cols: nat)
    requires IsBlock(x, rows, cols) && IsBlock(y, rows, cols)
    requires forall a, b :: 0 <= a < rows && 0 <= b < cols ==> x[a][b] == y[a][b]
    ensures x == y
  {
    forall a | 0 <= a < rows
      ensures x[a] == y[a]
    {
      assert forall b :: 0 <= b < cols ==> x[a][b] == y[a][b];
    }
  }

  /** Row a, column b of the reshaped tallies of the product of the row
      and column positions of a region is the tally of windows r0 + a and
      c0 + b. */
  lemma CalculatedCell(d: ExperimentalData, r0: nat, r1: nat, c0: nat, c1: nat, a: nat, b: nat)
    requires d.Valid() && r0 <= r1 <= d.noWindows && c0 <= c1 <= d.noWindows
    requires PairsBelow(Product(Positions(r0, r1), Positions(c0, c1)), d.noWindows)
    requires a < r1 - r0 && b < c1 - c0
    ensures var rows, cols := Positions(r0, r1), Positions(c0, c1);
            Reshape(Tallies(d, Product(rows, cols)), |rows|, |cols|)[a][b] == d.LocationFrequency(r0 + a, c0 + b)
  {
    var rows, cols := Positions(r0, r1), Positions(c0, c1);
    var flat := Tallies(d, Product(rows, cols));
    ReshapeCell(flat, |rows|, |cols|, a, b);
    ProductCell(rows, cols, a, b);
    var t := Offset(a, b, |cols|);
    var pair := Product(rows, cols)[t];
    assert pair == (r0 + a, c0 + b);
    assert flat[t] == d.LocationFrequency(pair.0, pair.1);
  }

  /** The reshaped tallies of the product of the row and column positions
      of a region are that region's block of tallies. */
  lemma CalculatedBlock(d: ExperimentalData, r0: nat, r1: nat, c0: nat, c1: nat)
    requires d.Valid() && r0 <= r1 <= d.noWindows && c0 <= c1 <= d.noWindows
    requires PairsBelow(Product(Positions(r0, r1), Positions(c0, c1)), d.noWindows)
    ensures var rows, cols := Positions(r0, r1), Positions(c0, c1);
            Reshape(Tallies(d, Product(rows, cols)), |rows|, |cols|) == TallyBlock(d, r0, r1, c0, c1)
  {
    var rows, cols := Positions(r0, r1), Positions(c0, c1);
    var block := Reshape(Tallies(d, Product(rows, cols)), |rows|, |cols|);
    forall a, b | 0 <= a < r1 - r0 && 0 <= b < c1 - c0
      ensures block[a][b] == TallyBlock(d, r0, r1, c0, c1)[a][b]
    {
      CalculatedCell(d, r0, r1, c0, c1, a, b);
      TallyBlockCell(d, r0, r1, c0, c1, a, b);
    }
    SameBlock(block, TallyBlock(d, r0, r1, c0, c1), r1 - r0, c1 - c0);
  }

  /** calculate_loc_frequency_matrix: the tallies of the product of rows
      [r0, r1) and columns [c0, c1), reshaped to len(rows) x len(cols).
      The result is the block of tallies of the region: cell [a][b] is the
      tally of windows r0+a and c0+b. */
  function CalculateLocFrequencyMatrix(d: ExperimentalData, r0: nat, r1: nat, c0: nat, c1: nat): (b: Block)
    requires d.Valid() && r0 <= r1 <= d.noWindows && c0 <= c1 <= d.noWindows
    ensures b == TallyBlock(d, r0, r1, c0, c1)
  {
    var rows, cols := Positions(r0, r1), Positions(c0, c1);
    ProductInRange(rows, cols, d.noWindows);
    CalculatedBlock(d, r0, r1, c0, c1);
    Reshape(Tallies(d, Product(rows, cols)), |rows|, |cols|)
  }

  /** Every tally of a computed block sums to the number of samples plus
      four pseudocounts, so a block is all non-empty unless that total is 0. */
  lemma CalculatedCellsTotal(d: ExperimentalData, r0: nat, r1: nat, c0: nat, c1: nat)
    requires d.Valid() && r0 <= r1 <= d.noWindows && c0 <= c1 <= d.noWindows
    ensures forall a, b :: 0 <= a < r1 - r0 && 0 <= b < c1 - c0 ==>
              TallyBlock(d, r0, r1, c0, c1)[a][b].Sum() == |d.segmentation| + 4 * d.pseudocount
  {
    forall a, b | 0 <= a < r1 - r0 && 0 <= b < c1 - c0
      ensures TallyBlock(d, r0, r1, c0, c1)[a][b].Sum() == |d.segmentation| + 4 * d.pseudocount
    {
      LocationFrequencyTotal(d, r0 + a, c0 + b);
    }
  }

  /** The cache is sized to the table, and every stored tally is either
      the uncomputed marker or the true tally of its pair. */
  ghost predicate Coherent(m: FrequencyMatrix, d: ExperimentalData)
    reads m.data
  {
    && d.Valid()
    && m.data.Length0 == d.noWindows
    && m.data.Length1 == d.noWindows
    && forall i, j :: 0 <= i < d.noWindows && 0 <= j < d.noWindows ==>
         m.data[i, j] == Zero || m.data[i, j] == d.LocationFrequency(i, j)
  }

  /** The cache-aside step of get_loc_frequency_matrix: on a hit the stored
      block is returned and nothing is written; on a miss the whole block is
      computed, written back and returned. Either way the result is the
      computed block. */
  method ServeBlock(m: FrequencyMatrix, d: ExperimentalData, r0: nat, r1: nat, c0: nat, c1: nat) returns (freqs: Block)
    requires Coherent(m, d)
    requires r0 <= r1 <= d.noWindows && c0 <= c1 <= d.noWindows
    modifies m.data
    ensures Coherent(m, d)
    ensures freqs == TallyBlock(d, r0, r1, c0, c1)
    ensures !old(m.HasEmptyCell(r0, r1, c0, c1)) ==> unchanged(m.data) && freqs == old(m.Region(r0, r1, c0, c1))
    ensures forall i, j :: 0 <= i < m.data.Length0 && 0 <= j < m.data.Length1 ==>
              m.data[i, j] ==
                if old(m.HasEmptyCell(r0, r1, c0, c1)) && r0 <= i < r1 && c0 <= j < c1
                then freqs[i - r0][j - c0] else old(m.data[i, j])
    ensures m.HasEmptyCell(r0, r1, c0, c1) <==>
              old(m.HasEmptyCell(r0, r1, c0, c1)) && |d.segmentation| + 4 * d.pseudocount == 0
  {
    var cached := m.GetMatrix(r0, r1, c0, c1);
    if cached.None? {
      freqs := Refill(m, d, r0, r1, c0, c1);
    } else {
      freqs := cached.value;
      StoredBlockIsCalculated(m, d, r0, r1, c0, c1, freqs);
      var stored := m.Region(r0, r1, c0, c1);
      forall a | 0 <= a < r1 - r0
        ensures freqs[a] == stored[a]
      {
        assert forall b :: 0 <= b < c1 - c0 ==> freqs[a][b] == stored[a][b];
      }
    }
  }

  /** The miss path of get_loc_frequency_matrix: computes the whole block,
      writes it back over the region and leaves the rest of the cache as it
      was. The region is afterwards a hit unless every tally sums to zero. */
  method Refill(m: FrequencyMatrix, d: ExperimentalData, r0: nat, r1: nat, c0: nat, c1: nat) returns (freqs: Block)
    requires Coherent(m, d)
    requires r0 <= r1 <= d.noWindows && c0 <= c1 <= d.noWindows
    modifies m.data
    ensures Coherent(m, d)
    ensures freqs == TallyBlock(d, r0, r1, c0, c1)
    ensures forall i, j :: 0 <= i < m.data.Length0 && 0 <= j < m.data.Length1 ==>
              m.data[i, j] == if r0 <= i < r1 && c0 <= j < c1 then freqs[i - r0][j - c0] else old(m.data[i, j])
    ensures m.HasEmptyCell(r0, r1, c0, c1) <==> r0 < r1 && c0 < c1 && |d.segmentation| + 4 * d.pseudocount == 0
  {
    freqs := CalculateLocFrequencyMatrix(d, r0, r1, c0, c1);
    m.CacheFreqs(r0, r1, c0, c1, freqs);
    assert forall i, j :: 0 <= i < d.noWindows && 0 <= j < d.noWindows && !(r0 <= i < r1 && c0 <= j < c1) ==>
             m.data[i, j] == old(m.data[i, j]);
    WrittenBlockCoherent(m, d, r0, r1, c0, c1);
    WrittenBlockHit(m, d, r0, r1, c0, c1);
  }

  /** A cache whose region holds that region's block of tallies and whose
      other cells are each empty or their tally is coherent. */
  lemma WrittenBlockCoherent(m: FrequencyMatrix, d: ExperimentalData, r0: nat, r1: nat, c0: nat, c1: nat)
    requires d.Valid()
    requires m.data.Length0 == d.noWindows == m.data.Length1
    requires r0 <= r1 <= d.noWindows && c0 <= c1 <= d.noWindows
    requires forall i, j :: r0 <= i < r1 && c0 <= j < c1 ==>
               m.data[i, j] == TallyBlock(d, r0, r1, c0, c1)[i - r0][j - c0]
    requires forall i, j :: 0 <= i < d.noWindows && 0 <= j < d.noWindows && !(r0 <= i < r1 && c0 <= j < c1) ==>
               m.data[i, j] == Zero || m.data[i, j] == d.LocationFrequency(i, j)
    ensures Coherent(m, d)
  {
    forall i, j | r0 <= i < r1 && c0 <= j < c1
      ensures m.data[i, j] == d.LocationFrequency(i, j)
    {
      TallyBlockCell(d, r0, r1, c0, c1, i - r0, j - c0);
    }
  }

  class Experiment {
    const experimentalData: ExperimentalData
    const freqMatrix: FrequencyMatrix

    ghost predicate Valid()
      reads freqMatrix.data
    {
      Coherent(freqMatrix, experimentalData)
    }

    /** from_multibam without the file I/O: an experiment over an already
        parsed table, with a zero-filled cache sized to its windows. */
    constructor FromExperimentalData(d: ExperimentalData)
      requires d.Valid()
      ensures Valid() && experimentalData == d
      ensures fresh(freqMatrix) && fresh(freqMatrix.data)
      ensures forall i, j :: 0 <= i < d.noWindows && 0 <= j < d.noWindows ==> freqMatrix.data[i, j] == Zero
    {
      experimentalData := d;
      freqMatrix := new FrequencyMatrix(d.noWindows);
    }

    /** get_loc_frequency_matrix: serves the block from this experiment's
        cache, computing and storing it on a miss. */
    method GetLocFrequencyMatrix(r0: nat, r1: nat, c0: nat, c1: nat) returns (freqs: Block)
      requires Valid()
      requires r0 <= r1 <= experimentalData.noWindows && c0 <= c1 <= experimentalData.noWindows
      modifies freqMatrix.data
      ensures Valid()
      ensures freqs == TallyBlock(experimentalData, r0, r1, c0, c1)
      ensures IsBlock(freqs, r1 - r0, c1 - c0)
      ensures !old(freqMatrix.HasEmptyCell(r0, r1, c0, c1)) ==>
                unchanged(freqMatrix.data) && freqs == old(freqMatrix.Region(r0, r1, c0, c1))
      ensures forall i, j :: 0 <= i < freqMatrix.data.Length0 && 0 <= j < freqMatrix.data.Length1 ==>
                freqMatrix.data[i, j] ==
                  if old(freqMatrix.HasEmptyCell(r0, r1, c0, c1)) && r0 <= i < r1 && c0 <= j < c1
                  then freqs[i - r0][j - c0] else old(freqMatrix.data[i, j])
      ensures freqMatrix.HasEmptyCell(r0, r1, c0, c1) <==>
                old(freqMatrix.HasEmptyCell(r0, r1, c0, c1)) && |experimentalData.segmentation| + 4 * experimentalData.pseudocount == 0
    {
      freqs := ServeBlock(freqMatrix, experimentalData, r0, r1, c0, c1);
    }
  }

  /** On a hit, the stored block of a consistent cache is the computed one. */
  lemma StoredBlockIsCalculated(m: FrequencyMatrix, d: ExperimentalData, r0: nat, r1: nat, c0: nat, c1: nat, stored: Block)
    requires Coherent(m, d)
    requires r0 <= r1 <= d.noWindows && c0 <= c1 <= d.noWindows
    requires IsBlock(stored, r1 - r0, c1 - c0)
    requires forall a, b :: 0 <= a < r1 - r0 && 0 <= b < c1 - c0 ==>
               stored[a][b] == m.data[r0 + a, c0 + b] && stored[a][b].Sum() != 0
    ensures stored == TallyBlock(d, r0, r1, c0, c1)
  {
    var expected := TallyBlock(d, r0, r1, c0, c1);
    forall a | 0 <= a < r1 - r0
      ensures stored[a] == expected[a]
    {
      forall b | 0 <= b < c1 - c0
        ensures stored[a][b] == expected[a][b]
      {
        assert stored[a][b].Sum() != 0;
        assert m.data[r0 + a, c0 + b] != Zero;
      }
    }
  }

  /** After the computed block is written, the region is a hit unless it is
      non-empty and every computed tally sums to zero. */
  lemma WrittenBlockHit(m: FrequencyMatrix, d: ExperimentalData, r0: nat, r1: nat, c0: nat, c1: nat)
    requires d.Valid()
    requires m.data.Length0 == d.noWindows == m.data.Length1
    requires r0 <= r1 <= d.noWindows && c0 <= c1 <= d.noWindows
    requires forall i, j :: r0 <= i < r1 && c0 <= j < c1 ==>
               m.data[i, j] == TallyBlock(d, r0, r1, c0, c1)[i - r0][j - c0]
    ensures m.HasEmptyCell(r0, r1, c0, c1) <==>
              r0 < r1 && c0 < c1 && |d.segmentation| + 4 * d.pseudocount == 0
  {
    CalculatedCellsTotal(d, r0, r1, c0, c1);
    if r0 < r1 && c0 < c1 && |d.segmentation| + 4 * d.pseudocount == 0 {
      assert m.data[r0, c0].Sum() == 0;
    }
  }

  /** Serving the same region twice from a consistent cache yields the same
      block both times, whether it was computed or read back. */
  method RepeatedQuery(e: Experiment, r0: nat, r1: nat, c0: nat, c1: nat) returns (first: Block, second: Block)
    requires e.Valid()
    requires r0 <= r1 <= e.experimentalData.noWindows && c0 <= c1 <= e.experimentalData.noWindows
    modifies e.freqMatrix.data
    ensures e.Valid() && first == second
    ensures |e.experimentalData.segmentation| + 4 * e.experimentalData.pseudocount != 0 ==>
              !e.freqMatrix.HasEmptyCell(r0, r1, c0, c1)
  {
    first := e.GetLocFrequencyMatrix(r0, r1, c0, c1);
    second := e.GetLocFrequencyMatrix(r0, r1, c0, c1);
  }
}
