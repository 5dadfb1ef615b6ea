# GAM frequency cache and matrix utilities in Dafny

This project models two parts of gamtools, a toolkit for Genome Architecture
Mapping (GAM).

The first part is the experiment layer in `GamTools/__init__.py`:
- A segregation table records, for every sample (nuclear profile), whether each
  genomic window was detected (1) or not (0).
- `count_frequency` turns the calls of two windows into a 2x2 contingency
  tally, with a pseudocount added to every cell.
- `GamFrequencyMatrix` is an n x n cache of such tallies. A tally that sums to
  zero means "not computed yet".
- `GamExperiment.get_loc_frequency_matrix` serves a rectangular block of
  tallies from that cache. If any tally in the block is missing, it computes
  the whole block (`calculate_loc_frequency_matrix`) and writes it back.

The second part is the utility layer in `gamtools/matrix.py`:
- file format detection from a file name (`detect_file_type`, `supported_formats`);
- UCSC-style window names (`get_name_strings`);
- the window/shape check (`check_windows`);
- indices of the k-th diagonal (`kth_diag_indices`);
- per-distance thresholding of a proximity matrix (`apply_threshold`);
- the record selection behind the csv writer (`write_csv`).

Modules:
- `Segregation`: tallies and the segregation table.
- `FrequencyCache`: the `FrequencyMatrix` class over a two-dimensional array of tallies.
- `Experiment`: the `Experiment` class and its cache-aside query.
- `Strings`: the Python string behaviour the utilities rely on: `str.split`,
  `str.join`, `os.path.basename` and decimal rendering of integers.
- `Matrix`: the `gamtools/matrix.py` utilities.
- `Wrappers`: `Option` and `Result`.

The model follows the code where it and its documentation disagree:
- The tally layout is `counts[first][second]`. Cell [0][0] counts samples where
  neither window is present, and [1][1] counts samples where both are. The
  docstring of `count_frequency` lists them the other way round
  (`Segregation.DocumentedLayoutIsReversed`).
- The last documented example of `detect_file_type` reports the extension
  "doc" for `my_file.data`. The code reports "data"
  (`Matrix.DetectUnsupportedExample`).
- The docstring of `apply_threshold` describes thresholds by position: the
  first threshold applies to the first diagonal, and the last is repeated.
  The code looks each distance up by its label in the table and falls back
  to the table's last row (`Matrix.ThresholdFor`,
  `Matrix.ThresholdLookupByLabel`).

## Model

| member | source | states |
|---|---|---|
| Segregation.CountFrequency | GamTools/__init__.py:104-112 | the loop's tally holds, in cell [a][b], the number of samples whose calls are (a, b), plus the pseudocount; it equals the reference `Frequency` |
| Segregation.PresenceCountsTotal | GamTools/__init__.py:107-110 | every sample is counted in exactly one of the four cells: the four counts sum to the number of samples |
| Segregation.FrequencyTotal | GamTools/__init__.py:104-112 | a tally sums to the number of samples plus four pseudocounts |
| Segregation.PresenceCountSwapped | GamTools/__init__.py:109-110 | exchanging the two columns of the sample table moves the count of (a, b) to (b, a) |
| Segregation.FrequencySwap | GamTools/__init__.py:104-112 | the tally of the column-swapped table is the transposed tally |
| Segregation.PresenceCountAppend | GamTools/__init__.py:109-110 | one more sample adds one to exactly the cell its calls index and nothing elsewhere |
| Segregation.DocumentedLayoutIsReversed | GamTools/__init__.py:104-110 | a sample with both windows present lands in cell [1][1], and one with only the first present in [1][0], so the docstring's order is reversed |
| Segregation.FourSampleExample | GamTools/__init__.py:104-112 | four samples, one per combination of calls, give a 1 in every cell |
| Segregation.ExperimentalData.LocationSamples | GamTools/__init__.py:97-100 | the two-column table for windows loc1 and loc2 has one row per sample, holding that sample's calls for loc1 and loc2 |
| Segregation.ExperimentalData.LocationFrequency | GamTools/__init__.py:97-102 | the tally of two windows over the whole table: each cell is at least the pseudocount and at most the number of samples plus the pseudocount |
| Segregation.LocationFrequencyTotal | GamTools/__init__.py:97-112 | the tally of any two windows sums to the number of samples plus four pseudocounts |
| Segregation.LocationFrequencySymmetric | GamTools/__init__.py:97-102 | the tally of (loc2, loc1) is the transpose of the tally of (loc1, loc2) |
| FrequencyCache.FrequencyMatrix.constructor | GamTools/__init__.py:50-65 | the new dataset is n x n and zero-filled, so every non-empty region is a miss |
| FrequencyCache.FrequencyMatrix.AnyEmpty | GamTools/__init__.py:26-35 | the row-by-row scan answers true exactly when some tally in the region sums to zero; an empty region is never empty-marked |
| FrequencyCache.FrequencyMatrix.Region | GamTools/__init__.py:44 | the slice of the region has the region's shape, and cell [a][b] is the stored tally at (r0 + a, c0 + b) |
| FrequencyCache.FrequencyMatrix.GetMatrix | GamTools/__init__.py:37-44 | None exactly when any_empty holds, which needs a non-empty region; otherwise the stored region, all of whose tallies are non-zero |
| FrequencyCache.FrequencyMatrix.CacheFreqs | GamTools/__init__.py:46-48 | the region is overwritten by the block, and every cell outside it keeps its tally |
| FrequencyCache.SubregionHit | GamTools/__init__.py:26-44 | a region that is a hit has only hits as sub-regions |
| Experiment.Positions | GamTools/__init__.py:188-189 | the slice columns[start:stop] selects the positions start, ..., stop-1, in order |
| Experiment.AreaIsProduct | GamTools/__init__.py:195 | counting rows of `cols` items gives rows x cols items |
| Experiment.ProductRow | GamTools/__init__.py:191 | the run of the product for one first component pairs it with every ys[b], in order |
| Experiment.Product | GamTools/__init__.py:191 | itertools.product yields |xs| x |ys| pairs |
| Experiment.ProductInRange | GamTools/__init__.py:188-191 | the product of in-range window positions holds only in-range pairs, so every pair can be tallied |
| Experiment.ProductCell | GamTools/__init__.py:191 | the pair at row-major offset (a, b) of itertools.product(xs, ys) is (xs[a], ys[b]) |
| Experiment.Tallies | GamTools/__init__.py:193 | the map over the pairs gives one tally per pair, in order: the tally of that pair's two windows |
| Experiment.Reshape | GamTools/__init__.py:195 | reshaping rows x cols entries gives rows rows of cols entries each |
| Experiment.OffsetIsRowMajor | GamTools/__init__.py:195 | counting row by row, cell (a, b) sits at the row-major index a * cols + b |
| Experiment.ReshapeCell | GamTools/__init__.py:195 | row a, column b of the reshape is the flat entry at that row-major offset |
| Experiment.TallyBlock | GamTools/__init__.py:186-195 | the reference block of a region: (r1-r0) x (c1-c0) cells |
| Experiment.TallyBlockCell | GamTools/__init__.py:186-195 | row a, column b of the reference block is the tally of windows r0+a and c0+b |
| Experiment.CalculatedCell | GamTools/__init__.py:186-195 | after the product, the map and the reshape to len(rows) x len(cols), row a, column b holds the tally of windows r0+a and c0+b |
| Experiment.CalculatedBlock | GamTools/__init__.py:186-195 | the product of the row and column windows, mapped to tallies and reshaped, is exactly the reference block of the region |
| Experiment.CalculateLocFrequencyMatrix | GamTools/__init__.py:186-195 | calculate_loc_frequency_matrix returns the reference block: a (r1-r0) x (c1-c0) block whose cell [a][b] is the tally of windows r0+a and c0+b |
| Experiment.CalculatedCellsTotal | GamTools/__init__.py:186-195 | every computed tally sums to the number of samples plus four pseudocounts |
| Experiment.ServeBlock | GamTools/__init__.py:197-207 | the block returned is always the computed one (the reference block, by CalculateLocFrequencyMatrix); on a hit nothing is written and the stored region is returned; on a miss exactly the region is written; coherence is kept; afterwards the region is a miss only if it was one and every tally sums to zero |
| Experiment.WrittenBlockCoherent | GamTools/__init__.py:201-205 | a cache whose region holds the region's tallies and whose other cells are empty or their own tally stays coherent |
| Experiment.Refill | GamTools/__init__.py:201-205 | the miss path writes the computed block over the region and nothing else, keeps the cache coherent, and leaves the region a hit unless it is non-empty with all-zero totals |
| Experiment.Experiment.FromExperimentalData | GamTools/__init__.py:228-245 | a new experiment over a table has a zero-filled cache sized to its windows, which is coherent |
| Experiment.Experiment.GetLocFrequencyMatrix | GamTools/__init__.py:197-207 | serves a block through the experiment's own cache with the guarantees of ServeBlock: the result equals calculate_loc_frequency_matrix, hits write nothing, and misses write exactly the region |
| Experiment.StoredBlockIsCalculated | GamTools/__init__.py:37-44 | in a coherent cache, a region with no zero tally holds exactly the computed block |
| Experiment.WrittenBlockHit | GamTools/__init__.py:201-207 | once the computed block is stored, the region is a hit unless it is non-empty and samples plus four pseudocounts is zero |
| Experiment.RepeatedQuery | GamTools/__init__.py:197-207 | asking for the same block twice gives the same block; afterwards the region is a hit whenever samples plus four pseudocounts is non-zero |
| Strings.Split | gamtools/matrix.py:317 | str.split with a separator always returns at least one piece |
| Strings.Join | gamtools/matrix.py:325 | joining no pieces gives the empty string; JoinSplit and SplitJoin make it the inverse of Split |
| Strings.JoinSplit | gamtools/matrix.py:317 | joining the pieces of a split with the separator gives the string back |
| Strings.SplitJoin | gamtools/matrix.py:317-325 | separator-free pieces joined and split again come back unchanged |
| Strings.NoSeparatorSplit | gamtools/matrix.py:317-319 | a string without the separator splits into itself alone |
| Strings.SplitAround | gamtools/matrix.py:317 | a separator-free prefix before one separator becomes the first piece, followed by the pieces of the rest |
| Strings.SplitConcat | gamtools/matrix.py:317 | the pieces of a + sep + b are the pieces of a followed by the pieces of b |
| Strings.SingleSplitIffNoSeparator | gamtools/matrix.py:317-320 | a split has exactly one piece if and only if the separator does not occur |
| Strings.JoinLast | gamtools/matrix.py:322-325 | a join of two or more pieces ends with the separator and the last piece |
| Strings.BasenameAppend | gamtools/matrix.py:316 | appending a tail without '/' to a path appends it to the basename |
| Strings.Basename | gamtools/matrix.py:316 | the basename of a POSIX path holds no '/' |
| Strings.BasenameIsSuffix | gamtools/matrix.py:316 | the basename is the end of its path |
| Strings.NatToString | gamtools/matrix.py:41 | the decimal rendering is a non-empty run of digits with no leading zero |
| Strings.ParseNatToString | gamtools/matrix.py:41 | reading the rendered digits back gives the number |
| Strings.NatToStringInjective | gamtools/matrix.py:41 | distinct numbers render differently |
| Strings.IntToString | gamtools/matrix.py:41 | a rendered integer is non-empty, and all digits when the integer is not negative |
| Matrix.DetectFileType | gamtools/matrix.py:296-330 | a detected format is always supported; the no-extension error happens exactly when the name is not "-" and its basename has no '.' |
| Matrix.Extension | gamtools/matrix.py:322-325 | the looked-up extension, the last piece or the last two joined when the last is "gz", is always the end of the joined name |
| Matrix.ExtensionIsSuffix | gamtools/matrix.py:322-325 | both the last piece and the last two pieces joined by '.' end the joined name |
| Matrix.DetectFromPieces | gamtools/matrix.py:316-330 | past "-", the result depends only on the '.'-pieces of the basename: the extension if supported, otherwise an unrecognised-extension error |
| Matrix.DetectPlainExtension | gamtools/matrix.py:316-330 | for any path, a name ending in "." plus a plain extension yields that extension if it is supported and the unrecognised-extension error otherwise |
| Matrix.DetectZippedExtension | gamtools/matrix.py:322-330 | for any path, a name ending in "." + stem + ".gz" yields stem + ".gz" if that is supported and the unrecognised-extension error otherwise |
| Matrix.ZippedPieces | gamtools/matrix.py:316-317 | the pieces of such a name are the basename's pieces followed by the stem and "gz" |
| Matrix.DetectFileTypeOfExtension | gamtools/matrix.py:285-330 | every supported format, appended to any path after a '.', is detected as itself |
| Matrix.DetectedFormatEndsBasename | gamtools/matrix.py:316-328 | a detected format is literally a suffix of the file's basename |
| Matrix.DetectSupportedExamples | gamtools/matrix.py:305-314 | "-" and my_file.txt give txt, and my_file.png gives png |
| Matrix.DetectUnsupportedExample | gamtools/matrix.py:309-310 | my_file.data is rejected with the extension "data" |
| Matrix.GetNameStrings | gamtools/matrix.py:33-41 | one name per window, in order, each formatted as chrom:start-stop |
| Matrix.NameString | gamtools/matrix.py:41 | a name starts with the chromosome followed by ':' and ends with the rendered stop coordinate |
| Matrix.NameStringPieces | gamtools/matrix.py:41 | a name splits on ':' back into the chromosome and the coordinates, which split on '-' into start and stop, and those parse back to the numbers |
| Matrix.CoordinatesPieces | gamtools/matrix.py:41 | the coordinate text has no ':' and splits on '-' into its two numbers |
| Matrix.NameStringInjective | gamtools/matrix.py:41 | windows whose chromosome has no ':' and whose coordinates are not negative get equal names only if they are equal |
| Matrix.GetNameStringsInjective | gamtools/matrix.py:33-41 | distinct such windows in a list get distinct names |
| Matrix.CheckAxesFrom | gamtools/matrix.py:355-362 | the loop from a given axis passes exactly when every remaining axis has a window list of its length; a mismatch names the first mismatched axis; a missing window list names its axis |
| Matrix.CheckWindows | gamtools/matrix.py:345-362 | passes if and only if every axis of the matrix has a window list of its length; otherwise it reports the first failing axis and the reason |
| Matrix.SliceBound | gamtools/matrix.py:399-402 | a normalised slice bound never exceeds the length |
| Matrix.DiagIndices | gamtools/matrix.py:398 | np.diag_indices_from on an n x n matrix gives the n indices 0, ..., n-1 |
| Matrix.KthDiagIndices | gamtools/matrix.py:372-404 | both index lists have length n - abs(k); position t holds (t + max(k,0), t + max(-k,0)), so every pair is inside the matrix with row - column = k |
| Matrix.KthDiagIndicesComplete | gamtools/matrix.py:398-404 | every cell with row - column = k appears on diagonal k, at position min(row, column) |
| Matrix.KthDiagIndicesExamples | gamtools/matrix.py:382-395 | on a 4 x 4 matrix, diagonal 1 is ([1,2,3],[0,1,2]) and diagonal -2 is ([0,1],[2,3]) |
| Matrix.RowFor | gamtools/matrix.py:429 | finds a row holding distance d, or reports that no row holds it |
| Matrix.ThresholdFor | gamtools/matrix.py:428-431 | the threshold is the value of d's own row, and the last row's value when d has no row |
| Matrix.ThresholdLookupByLabel | gamtools/matrix.py:428-431 | with distance 2 listed before distance 1, distance 1 gets the second row's value and an unlisted distance gets the last row's, not the first threshold or the largest distance |
| Matrix.KeptValue | gamtools/matrix.py:433-434 | the value is kept or set to 0; it is kept unchanged exactly when it reaches the threshold (or is already 0) |
| Matrix.ThresholdedEntry | gamtools/matrix.py:423-436 | a result cell is 0 on the main diagonal; off it, 0 or the upper-triangle input value at that distance, kept only if it reaches the threshold for the distance |
| Matrix.ThresholdedEntryShape | gamtools/matrix.py:407-438 | the result is symmetric and zero on the main diagonal; an upper cell is zero or the input value, and a kept value is at least the threshold for its distance |
| Matrix.ThresholdIdempotent | gamtools/matrix.py:407-438 | thresholding a thresholded matrix again changes nothing |
| Matrix.SetDiagonal | gamtools/matrix.py:435-436 | writes the values along diagonal k, the value at position min(i, j) going to cell (i, j), and leaves every other cell unchanged |
| Matrix.ApplyThreshold | gamtools/matrix.py:407-438 | fails exactly when the matrix has rows and either the table is empty (no last row) or the matrix is not square; otherwise every cell of the new matrix is the thresholded entry |
| Matrix.UnstackFromCells | gamtools/matrix.py:240 | unstacking yields exactly the matrix cells, each once, with Pos_A the column and Pos_B the row, column by column |
| Matrix.UnstackFrom | gamtools/matrix.py:240 | every unstacked cell from column a on lies in the matrix, in column a or later, and carries the matrix value at its position |
| Matrix.Filter | gamtools/matrix.py:241-244 | boolean selection keeps exactly the cells the mask accepts |
| Matrix.FilterOrdered | gamtools/matrix.py:241-244 | selection keeps the order of what it selects from |
| Matrix.PositiveCells | gamtools/matrix.py:240-241 | the cells kept by the first mask are exactly the matrix cells with a positive value |
| Matrix.LowerCells | gamtools/matrix.py:240-244 | the cells kept by both masks are exactly the positive cells with row position above column position |
| Matrix.ToRecords | gamtools/matrix.py:245-247 | one record per selected cell, in order, with its positions and value, the given chromosome, and dist = Pos_B - Pos_A |
| Matrix.CsvRecords | gamtools/matrix.py:240-248 | fails exactly when there is no first window to take the chromosome from |
| Matrix.LowerCellsExact | gamtools/matrix.py:240-244 | the selected cells are exactly the positive cells with Pos_B > Pos_A, in column-then-row order |
| Matrix.CsvRecordsSound | gamtools/matrix.py:240-248 | every written row is a positive interaction with Pos_A < Pos_B, dist = Pos_B - Pos_A, and the chromosome of the first x-axis window |
| Matrix.CsvRecordsComplete | gamtools/matrix.py:240-248 | every positive cell below the main diagonal is written |
| Matrix.CsvRecordsOrdered | gamtools/matrix.py:240-248 | rows come out strictly ordered by Pos_A, then Pos_B, so none is repeated |
| Matrix.CsvRecordsExample | gamtools/matrix.py:230-237 | the documented 3 x 3 example gives exactly the rows (chr1, 0, 2, 2, 5) and (chr1, 1, 2, 1, 3) |

## Left out

- The HDF5 store lifecycle is not modelled: create_store, open_store, close, data_from_store, data_to_store, read_multibam and the file-existence errors. This is I/O. The cache's dataset is an in-memory array, and an experiment is built from an already parsed table (`Experiment.Experiment.FromExperimentalData`).
- get_index_frequency, get_chrom_processed_matrix, get_index_processed_matrix, get_loc_processed_matrix and odds_ratio are not modelled. They work on pandas labels and floating-point logarithms, outside the frequency cache.
- The "Using cache" message that get_matrix prints is not modelled. It is output only.
- The 32-bit integer type of the HDF5 dataset is not modelled: tallies are unbounded integers.
- Segregation.CountFrequency: calls are 0 or 1. numpy's negative-index wrap-around for other values is not modelled.
- Experiment.Experiment.GetLocFrequencyMatrix: requires 0 <= start <= stop <= no_windows on both axes. numpy's clamping of out-of-range or reversed slice bounds is not modelled. The same holds for ServeBlock, Refill and CalculateLocFrequencyMatrix.
- The readers and writers themselves are not modelled: file contents, npz/txt/png encoding, gzip and matplotlib. This is I/O. write_csv is modelled as the list of records it selects (`Matrix.CsvRecords`).
- windows_from_name_strings is not modelled: parse_location_string is not part of this model. The name format is still shown to be invertible (`Matrix.NameStringPieces`).
- Matrix.CheckWindows: the text of the ValueError message is not modelled, only which axis fails and why.
- Matrix.KthDiagIndices: takes only the side n of a square matrix. The ValueError that np.diag_indices_from raises for a non-square matrix is not modelled here; ApplyThreshold reports it as NotSquare.
- Matrix.ApplyThreshold: the table is a sequence of (distance, value) rows without repeated distances. pandas' behaviour for duplicate labels is not modelled, nor are threshold tables with more than one value column.
- Matrix.ApplyThreshold: values are reals. NaN comparisons are not modelled.
- Matrix.ApplyThreshold: the source copies the diagonal before looking up the threshold. Copying a diagonal has no effect that the model could observe, so the model checks for errors first.
- Matrix.CsvRecords: matrix values are reals. NaN cells are not modelled. The tab-separated text layout is not modelled.
- os.path.basename is modelled for POSIX paths only.
- read_file and read_thresholds are not modelled. They only dispatch to readers (I/O).
