/** The index, string and matrix utilities of gamtools/matrix.py: file
    format detection, window name strings, the window/shape check, k-th
    diagonal indices, per-diagonal thresholding and the record selection
    behind the csv writer. */
module Matrix {
  import opened Wrappers
  import opened Strings

  // ---------------------------------------------------------------------
  // File formats
  // ---------------------------------------------------------------------

  /** The keys of input_formats. */
  const InputFormats: set<string> := {"npz", "txt", "txt.gz", "triangular"}

  /** The keys of output_formats. */
  const OutputFormats: set<string> := {"npz", "txt", "txt.gz", "csv", "csv.gz", "png"}

  /** supported_formats: every format that can be read or written. */
  const SupportedFormats: set<string> := InputFormats + OutputFormats

  datatype FileTypeError =
    | NoExtension(fileName: string)       // ValueError: the basename has no '.'
    | UnrecognizedExtension(ext: string)  // TypeError: not a supported format

  /** The extension detect_file_type looks up: the last '.'-separated piece,
      or the last two joined by '.' when the last one is "gz". It is always
      the end of the joined pieces. */
  function Extension(parts: seq<string>): (ext: string)
    requires |parts| >= 2
    ensures IsSuffix(ext, Join(parts, '.'))
  {
    ExtensionIsSuffix(parts);
    var last := parts[|parts| - 1];
    if last == "gz" then parts[|parts| - 2] + "." + last else last
  }

  /** The last piece, and the last two joined by '.', both end the join. */
  lemma ExtensionIsSuffix(parts: seq<string>)
    requires |parts| >= 2
    ensures IsSuffix(parts[|parts| - 1], Join(parts, '.'))
    ensures IsSuffix(parts[|parts| - 2] + "." + parts[|parts| - 1], Join(parts, '.'))
  {
    var n := |parts|;
    JoinLast(parts, '.');
    SuffixOfConcat(Join(parts[..n - 1], '.') + ['.'], parts[n - 1]);
    if n == 2 {
      assert Join(parts, '.') == parts[0] + "." + parts[1];
      SuffixOfConcat("", parts[0] + "." + parts[1]);
    } else {
      LastPairIsSuffix(parts);
    }
  }

  /** With three or more pieces, the last two joined by '.' follow a
      separator at the end of the join. */
  lemma LastPairIsSuffix(parts: seq<string>)
    requires |parts| >= 3
    ensures IsSuffix(parts[|parts| - 2] + "." + parts[|parts| - 1], Join(parts, '.'))
  {
    var n := |parts|;
    var init := parts[..n - 1];
    JoinLast(parts, '.');
    JoinLast(init, '.');
    var front, b, c := Join(init[..n - 2], '.'), parts[n - 2], parts[n - 1];
    assert init[n - 2] == b && init[..n - 2] == parts[..n - 2];
    var whole := Join(init, '.');
    assert whole == front + ['.'] + b;
    assert Join(parts, '.') == whole + ['.'] + c;
    SeparatorRegroup(front, b, c);
    SuffixOfConcat(front + ['.'], b + "." + c);
  }

  /** detect_file_type: "-" (standard input or output) is text; otherwise
      the extension of the basename decides, and it must be supported. */
  function DetectFileType(fileName: string): (r: Result<string, FileTypeError>)
    ensures r.Ok? ==> r.value in SupportedFormats
    ensures r.Err? && r.error.NoExtension? <==> fileName != "-" && '.' !in Basename(fileName)
  {
    if fileName == "-" then Ok("txt")
    else
      var base := Basename(fileName);
      var parts := Split(base, '.');
      SingleSplitIffNoSeparator(base, '.');
      if |parts| == 1 then Err(NoExtension(base))
      else
        var ext := Extension(parts);
        if ext in SupportedFormats then Ok(ext) else Err(UnrecognizedExtension(ext))
  }

  /** Past the "-" case, detection depends only on the '.'-separated
      pieces of the basename. */
  lemma DetectFromPieces(fileName: string, parts: seq<string>)
    requires fileName != "-" && |parts| >= 2
    requires Split(Basename(fileName), '.') == parts
    ensures DetectFileType(fileName) ==
              if Extension(parts) in SupportedFormats then Ok(Extension(parts)) else Err(UnrecognizedExtension(Extension(parts)))
  {
  }

  /** A file whose name ends in "." and a plain extension (no '.', no
      '/', not "gz") is detected as that extension when it is supported and
      rejected with it otherwise, whatever the path before it. */
  lemma DetectPlainExtension(path: string, ext: string)
    requires '.' !in ext && '/' !in ext && ext != "gz"
    ensures DetectFileType(path + "." + ext) ==
              if ext in SupportedFormats then Ok(ext) else Err(UnrecognizedExtension(ext))
  {
    var fileName := path + "." + ext;
    var tail := "." + ext;
    assert fileName == path + tail;
    BasenameAppend(path, tail);
    var base := Basename(path);
    assert Basename(fileName) == base + ['.'] + ext;
    SplitConcat(base, ext, '.');
    NoSeparatorSplit(ext, '.');
    var parts := Split(base, '.') + [ext];
    assert fileName != "-" by {
      assert |fileName| >= 1 && fileName[|path|] == '.';
    }
    DetectFromPieces(fileName, parts);
  }

  /** A file whose name ends in "." + stem + ".gz" is detected as
      stem + ".gz" when that is supported and rejected with it otherwise. */
  lemma DetectZippedExtension(path: string, stem: string)
    requires '.' !in stem && '/' !in stem
    ensures DetectFileType(path + "." + stem + ".gz") ==
              if stem + ".gz" in SupportedFormats then Ok(stem + ".gz") else Err(UnrecognizedExtension(stem + ".gz"))
  {
    var fileName := path + "." + stem + ".gz";
    ZippedPieces(path, stem);
    var parts := Split(Basename(path), '.') + [stem] + ["gz"];
    assert parts[|parts| - 1] == "gz" && parts[|parts| - 2] == stem;
    assert Extension(parts) == stem + ".gz";
    assert fileName != "-" by {
      assert |fileName| >= 3;
    }
    DetectFromPieces(fileName, parts);
  }

  /** The pieces of the basename of path + "." + stem + ".gz". */
  lemma ZippedPieces(path: string, stem: string)
    requires '.' !in stem && '/' !in stem
    ensures Split(Basename(path + "." + stem + ".gz"), '.') == Split(Basename(path), '.') + [stem] + ["gz"]
  {
    var tail := "." + stem + ".gz";
    assert path + "." + stem + ".gz" == path + tail;
    BasenameAppend(path, tail);
    var base := Basename(path);
    assert base + tail == (base + ['.'] + stem) + ['.'] + "gz";
    SplitConcat(base + ['.'] + stem, "gz", '.');
    SplitConcat(base, stem, '.');
    NoSeparatorSplit(stem, '.');
    NoSeparatorSplit("gz", '.');
  }

  /** Every supported format is recognised at the end of any path. */
  lemma DetectFileTypeOfExtension(path: string, format: string)
    requires format in SupportedFormats
    ensures DetectFileType(path + "." + format) == Ok(format)
  {
    if format == "txt.gz" || format == "csv.gz" {
      var stem := format[..3];
      assert format == stem + ".gz";
      assert path + "." + format == path + "." + stem + ".gz";
      DetectZippedExtension(path, stem);
    } else {
      assert format in {"npz", "txt", "triangular", "csv", "png"};
      DetectPlainExtension(path, format);
    }
  }

  /** A detected format is literally the end of the file's basename. */
  lemma DetectedFormatEndsBasename(fileName: string)
    requires fileName != "-" && DetectFileType(fileName).Ok?
    ensures IsSuffix(DetectFileType(fileName).value, Basename(fileName))
  {
    var base := Basename(fileName);
    SingleSplitIffNoSeparator(base, '.');
    JoinSplit(base, '.');
  }

  lemma SeparatorRegroup(front: string, b: string, c: string)
    ensures (front + ['.'] + b) + ['.'] + c == (front + ['.']) + (b + "." + c)
  {
    assert "." == ['.'];
  }

  lemma SuffixOfConcat(front: string, back: string)
    ensures IsSuffix(back, front + back)
  {
    assert (front + back)[|front|..] == back;
  }

  /** The examples of detect_file_type's documentation that are accepted:
      "-" (standard input) and my_file.txt are text, my_file.png is png. */
  lemma DetectSupportedExamples(txtName: string, pngName: string)
    requires txtName == "my_file.txt" && pngName == "my_file.png"
    ensures DetectFileType("-") == Ok("txt")
    ensures DetectFileType(txtName) == Ok("txt")
    ensures DetectFileType(pngName) == Ok("png")
  {
    var stem := "my_file";
    assert txtName == stem + "." + "txt";
    assert pngName == stem + "." + "png";
    DetectPlainExtension(stem, "txt");
    DetectPlainExtension(stem, "png");
  }

  /** The last example of detect_file_type's documentation: my_file.data is
      rejected with the extension "data". */
  lemma DetectUnsupportedExample(dataName: string)
    requires dataName == "my_file.data"
    ensures DetectFileType(dataName) == Err(UnrecognizedExtension("data"))
  {
    var stem := "my_file";
    assert dataName == stem + "." + "data";
    DetectPlainExtension(stem, "data");
    assert "data" !in SupportedFormats;
  }

  // ---------------------------------------------------------------------
  // Window names
  // ---------------------------------------------------------------------

  /** A genomic window (chrom, start, stop). */
  datatype Window = Window(chrom: string, start: int, stop: int)

  /** '{}:{}-{}'.format(chrom, start, stop). */
  function NameString(w: Window): (name: string)
    ensures |w.chrom| < |name| && name[..|w.chrom|] == w.chrom && name[|w.chrom|] == ':'
    ensures IsSuffix(IntToString(w.stop), name)
  {
    w.chrom + ":" + IntToString(w.start) + "-" + IntToString(w.stop)
  }

  /** get_name_strings: one UCSC-like location string per window, in order. */
  function GetNameStrings(windows: seq<Window>): (names: seq<string>)
    ensures |names| == |windows|
    ensures forall k :: 0 <= k < |windows| ==> names[k] == NameString(windows[k])
  {
    seq(|windows|, k requires 0 <= k < |windows| => NameString(windows[k]))
  }

  /** A window whose chromosome has no ':' and whose coordinates are not
      negative, the form location strings are parsed back from. */
  predicate Nameable(w: Window) {
    ':' !in w.chrom && w.start >= 0 && w.stop >= 0
  }

  /** A location string splits back into chromosome and coordinates. */
  lemma NameStringPieces(w: Window)
    requires Nameable(w)
    ensures Split(NameString(w), ':') == [w.chrom, NatToString(w.start) + "-" + NatToString(w.stop)]
    ensures Split(NatToString(w.start) + "-" + NatToString(w.stop), '-') == [NatToString(w.start), NatToString(w.stop)]
    ensures ParseNat(NatToString(w.start)) == w.start && ParseNat(NatToString(w.stop)) == w.stop
  {
    var startText, stopText := NatToString(w.start), NatToString(w.stop);
    var coords := startText + "-" + stopText;
    assert NameString(w) == w.chrom + [':'] + coords;
    CoordinatesPieces(startText, stopText);
    SplitAround(w.chrom, coords, ':');
    NoSeparatorSplit(coords, ':');
    ParseNatToString(w.start);
    ParseNatToString(w.stop);
  }

  /** Two digit strings joined by '-' hold no ':' and split back on '-'. */
  lemma CoordinatesPieces(startText: string, stopText: string)
    requires forall k :: 0 <= k < |startText| ==> IsDigit(startText[k])
    requires forall k :: 0 <= k < |stopText| ==> IsDigit(stopText[k])
    ensures ':' !in startText + "-" + stopText
    ensures Split(startText + "-" + stopText, '-') == [startText, stopText]
  {
    var coords := startText + "-" + stopText;
    assert forall k :: 0 <= k < |coords| ==> coords[k] == '-' || IsDigit(coords[k]);
    assert '-' !in startText && '-' !in stopText;
    assert coords == startText + ['-'] + stopText;
    SplitAround(startText, stopText, '-');
    NoSeparatorSplit(stopText, '-');
  }

  /** Distinct nameable windows get distinct location strings. */
  lemma NameStringInjective(v: Window, w: Window)
    requires Nameable(v) && Nameable(w)
    requires NameString(v) == NameString(w)
    ensures v == w
  {
    NameStringPieces(v);
    NameStringPieces(w);
    NatToStringInjective(v.start, w.start);
    NatToStringInjective(v.stop, w.stop);
  }

  /** get_name_strings keeps distinct nameable windows apart. */
  lemma GetNameStringsInjective(windows: seq<Window>, k: nat, l: nat)
    requires k < |windows| && l < |windows|
    requires Nameable(windows[k]) && Nameable(windows[l])
    requires windows[k] != windows[l]
    ensures GetNameStrings(windows)[k] != GetNameStrings(windows)[l]
  {
    if GetNameStrings(windows)[k] == GetNameStrings(windows)[l] {
      NameStringInjective(windows[k], windows[l]);
    }
  }

  // ---------------------------------------------------------------------
  // Window check
  // ---------------------------------------------------------------------

  datatype WindowsError =
    | SizeMismatch(axis: nat)  // ValueError: the axis length differs from its window count
    | MissingAxis(axis: nat)   // IndexError: there is no window list for the axis

  /** The axes from `axis` on agree with their window counts. */
  predicate AxesMatchFrom(shape: seq<nat>, sizes: seq<nat>, axis: nat, stop: nat)
    requires stop <= |shape| && stop <= |sizes|
  {
    forall i :: axis <= i < stop ==> shape[i] == sizes[i]
  }

  /** The loop of check_windows from `axis` on: the first axis whose length
      differs from its window count, or which has no window list. */
  function CheckAxesFrom(shape: seq<nat>, sizes: seq<nat>, axis: nat): (r: Option<WindowsError>)
    requires axis <= |shape| && axis <= |sizes|
    decreases |shape| - axis
    ensures r.None? <==> |shape| <= |sizes| && AxesMatchFrom(shape, sizes, axis, |shape|)
    ensures r.Some? && r.value.SizeMismatch? ==>
              axis <= r.value.axis < |shape| && r.value.axis < |sizes| && shape[r.value.axis] != sizes[r.value.axis] &&
              AxesMatchFrom(shape, sizes, axis, r.value.axis)
    ensures r.Some? && r.value.MissingAxis? ==>
              axis <= r.value.axis == |sizes| < |shape| && AxesMatchFrom(shape, sizes, axis, |sizes|)
  {
    if axis == |shape| then None
    else if axis >= |sizes| then Some(MissingAxis(axis))
    else if shape[axis] != sizes[axis] then Some(SizeMismatch(axis))
    else CheckAxesFrom(shape, sizes, axis + 1)
  }

  /** check_windows: the matrix shape against the window lists, axis by
      axis; None when every axis matches. */
  function CheckWindows(shape: seq<nat>, windows: seq<seq<Window>>): (r: Option<WindowsError>)
    ensures r.None? <==> |shape| <= |windows| && forall i :: 0 <= i < |shape| ==> shape[i] == |windows[i]|
    ensures r.Some? && r.value.SizeMismatch? ==>
              r.value.axis < |shape| && r.value.axis < |windows| && shape[r.value.axis] != |windows[r.value.axis]| &&
              forall i :: 0 <= i < r.value.axis ==> shape[i] == |windows[i]|
    ensures r.Some? && r.value.MissingAxis? ==>
              r.value.axis == |windows| < |shape| && forall i :: 0 <= i < |windows| ==> shape[i] == |windows[i]|
  {
    var sizes := seq(|windows|, k requires 0 <= k < |windows| => |windows[k]|);
    CheckAxesFrom(shape, sizes, 0)
  }

  // ---------------------------------------------------------------------
  // Diagonal indices
  // ---------------------------------------------------------------------

  function Abs(k: int): nat {
    if k < 0 then -k else k
  }

  function Max(a: int, b: int): int {
    if a < b then b else a
  }

  function Min(a: int, b: int): int {
    if a < b then a else b
  }

  /** The number of cells on diagonal k of an n x n matrix. */
  function DiagLength(n: nat, k: int): nat {
    if Abs(k) <= n then n - Abs(k) else 0
  }

  /** Python's normalisation of a slice bound k against a length n. */
  function SliceBound(n: nat, k: int): (b: nat)
    ensures b <= n
  {
    if k < 0 then (if n + k < 0 then 0 else n + k) else if k > n then n else k
  }

  /** np.diag_indices_from on an n x n matrix: 0, 1, ..., n-1 for both axes. */
  function DiagIndices(n: nat): (idx: seq<nat>)
    ensures |idx| == n && forall i :: 0 <= i < n ==> idx[i] == i
  {
    seq(n, i requires 0 <= i < n => i)
  }

  /** kth_diag_indices: row and column indices of diagonal k, which lies
      below the main diagonal for k > 0 and above it for k < 0. */
  function KthDiagIndices(n: nat, k: int): (idx: (seq<nat>, seq<nat>))
    ensures |idx.0| == |idx.1| == DiagLength(n, k)
    ensures forall t :: 0 <= t < |idx.0| ==> idx.0[t] == t + Max(k, 0) && idx.1[t] == t + Max(-k, 0)
    ensures forall t :: 0 <= t < |idx.0| ==> idx.0[t] < n && idx.1[t] < n && idx.0[t] as int - idx.1[t] as int == k
  {
    var rows := DiagIndices(n);
    var cols := DiagIndices(n);
    if k < 0 then (rows[..SliceBound(n, k)], cols[SliceBound(n, -k)..])
    else if k > 0 then (rows[SliceBound(n, k)..], cols[..SliceBound(n, -k)])
    else (rows, cols)
  }

  /** Every cell (i, j) with i - j == k is on the k-th diagonal, at
      position min(i, j). */
  lemma KthDiagIndicesComplete(n: nat, k: int, i: nat, j: nat)
    requires i < n && j < n && i - j == k
    ensures Min(i, j) < |KthDiagIndices(n, k).0|
    ensures KthDiagIndices(n, k).0[Min(i, j)] == i && KthDiagIndices(n, k).1[Min(i, j)] == j
  {
  }

  /** The examples of kth_diag_indices' documentation on a 4 x 4 matrix. */
  lemma KthDiagIndicesExamples()
    ensures KthDiagIndices(4, 1) == ([1, 2, 3], [0, 1, 2])
    ensures KthDiagIndices(4, -2) == ([0, 1], [2, 3])
  {
    var below := KthDiagIndices(4, 1);
    assert below.0 == [1, 2, 3] && below.1 == [0, 1, 2];
    var above := KthDiagIndices(4, -2);
    assert above.0 == [0, 1] && above.1 == [2, 3];
  }

  // ---------------------------------------------------------------------
  // Thresholds
  // ---------------------------------------------------------------------

  /** One row of the thresholds table: a distance and its minimum value. */
  datatype Threshold = Threshold(distance: int, value: real)

  datatype ThresholdError =
    | NoThresholds  // IndexError: the table is empty and has no last row
    | NotSquare     // ValueError: diagonal indices need a square matrix

  /** The table is indexed by distance without repeats. */
  predicate DistinctDistances(ts: seq<Threshold>) {
    forall s, t :: 0 <= s < t < |ts| ==> ts[s].distance != ts[t].distance
  }

  /** thresholds.loc[d]: the position of the row for distance d, if any. */
  function RowFor(ts: seq<Threshold>, d: int): (r: Option<nat>)
    ensures r.Some? ==> r.value < |ts| && ts[r.value].distance == d
    ensures r.None? ==> forall t :: 0 <= t < |ts| ==> ts[t].distance != d
  {
    if |ts| == 0 then None
    else if ts[0].distance == d then Some(0)
    else match RowFor(ts[1..], d)
      case None => None
      case Some(t) => Some(t + 1)
  }

  /** The threshold for distance d: its own row, or else the last row. */
  function ThresholdFor(ts: seq<Threshold>, d: int): (v: real)
    requires |ts| > 0 && DistinctDistances(ts)
    ensures forall t :: 0 <= t < |ts| && ts[t].distance == d ==> v == ts[t].value
    ensures (forall t :: 0 <= t < |ts| ==> ts[t].distance != d) ==> v == ts[|ts| - 1].value
  {
    match RowFor(ts, d)
    case Some(t) => ts[t].value
    case None => ts[|ts| - 1].value
  }

  /** Thresholds are looked up by distance, not by position: in a table
      listing distance 2 before distance 1, distance 1 gets the second
      row's value, and a distance with no row gets the last row's value,
      which here is not the one for the largest distance. */
  lemma ThresholdLookupByLabel(ts: seq<Threshold>)
    requires ts == [Threshold(2, 5.0), Threshold(1, 1.0)]
    ensures DistinctDistances(ts)
    ensures ThresholdFor(ts, 1) == 1.0 && ThresholdFor(ts, 2) == 5.0 && ThresholdFor(ts, 3) == 1.0
  {
  }

  /** A value below its threshold is discarded (set to 0). */
  function KeptValue(v: real, threshold: real): (kept: real)
    ensures kept == v || kept == 0.0
    ensures kept == v <==> v >= threshold || v == 0.0
  {
    if v < threshold then 0.0 else v
  }

  /** The cell (i, j) of apply_threshold's result: zero on the main
      diagonal, and otherwise the upper-triangle value at the same distance
      kept or discarded against that distance's threshold. */
  function ThresholdedEntry(m: array2<real>, ts: seq<Threshold>, i: nat, j: nat): (v: real)
    requires m.Length0 == m.Length1 && i < m.Length0 && j < m.Length0
    requires |ts| > 0 && DistinctDistances(ts)
    reads m
    ensures i == j ==> v == 0.0
    ensures i < j ==> v == 0.0 || (v == m[i, j] && v >= ThresholdFor(ts, j - i))
    ensures j < i ==> v == 0.0 || (v == m[j, i] && v >= ThresholdFor(ts, i - j))
  {
    if i == j then 0.0
    else if i < j then KeptValue(m[i, j], ThresholdFor(ts, j - i))
    else KeptValue(m[j, i], ThresholdFor(ts, i - j))
  }

  /** The thresholded matrix is symmetric, zero on its main diagonal, and
      each cell is either 0 or the input's upper-triangle value at least as
      large as the threshold for its distance. */
  lemma ThresholdedEntryShape(m: array2<real>, ts: seq<Threshold>, i: nat, j: nat)
    requires m.Length0 == m.Length1 && i < m.Length0 && j < m.Length0
    requires |ts| > 0 && DistinctDistances(ts)
    ensures ThresholdedEntry(m, ts, i, j) == ThresholdedEntry(m, ts, j, i)
    ensures i == j ==> ThresholdedEntry(m, ts, i, j) == 0.0
    ensures i < j ==> ThresholdedEntry(m, ts, i, j) == 0.0 ||
                      (ThresholdedEntry(m, ts, i, j) == m[i, j] && m[i, j] >= ThresholdFor(ts, j - i))
  {
  }

  /** Thresholding a thresholded matrix changes nothing. */
  lemma ThresholdIdempotent(m: array2<real>, out: array2<real>, ts: seq<Threshold>)
    requires m.Length0 == m.Length1 && out.Length0 == m.Length0 && out.Length1 == m.Length0
    requires |ts| > 0 && DistinctDistances(ts)
    requires forall i, j :: 0 <= i < m.Length0 && 0 <= j < m.Length0 ==> out[i, j] == ThresholdedEntry(m, ts, i, j)
    ensures forall i, j :: 0 <= i < m.Length0 && 0 <= j < m.Length0 ==> ThresholdedEntry(out, ts, i, j) == out[i, j]
  {
    forall i, j | 0 <= i < m.Length0 && 0 <= j < m.Length0
      ensures ThresholdedEntry(out, ts, i, j) == out[i, j]
    {
      if i < j {
        assert out[i, j] == ThresholdedEntry(m, ts, i, j);
      } else if j < i {
        assert out[j, i] == ThresholdedEntry(m, ts, j, i);
        ThresholdedEntryShape(m, ts, i, j);
      }
    }
  }

  /** out_matr[kth_diag_indices(out_matr, k)] = values: writes `values`
      along diagonal k and leaves every other cell as it was. */
  method SetDiagonal(out: array2<real>, k: int, values: seq<real>)
    requires out.Length0 == out.Length1
    requires |values| == DiagLength(out.Length0, k)
    modifies out
    ensures forall i, j :: 0 <= i < out.Length0 && 0 <= j < out.Length1 ==>
              out[i, j] == if i - j == k then values[Min(i, j)] else old(out[i, j])
  {
    var idx := KthDiagIndices(out.Length0, k);
    forall t | 0 <= t < |values| {
      out[idx.0[t], idx.1[t]] := values[t];
    }
  }

  /** apply_threshold: for each distance d = 1..n, the d-th upper diagonal
      is copied, its values below the threshold for d are set to 0, and the
      result is written to both the d-th lower and upper diagonals of a
      zero-filled matrix. An empty table or a non-square matrix fails on the
      first distance; a matrix with no rows has no distance to fail on. */
  method ApplyThreshold(m: array2<real>, ts: seq<Threshold>) returns (r: Result<array2<real>, ThresholdError>)
    requires DistinctDistances(ts)
    ensures r.Err? <==> m.Length0 > 0 && (|ts| == 0 || m.Length0 != m.Length1)
    ensures r.Err? ==> r.error == if |ts| == 0 then NoThresholds else NotSquare
    ensures r.Ok? ==> fresh(r.value) && r.value.Length0 == m.Length0 && r.value.Length1 == m.Length1
    ensures r.Ok? ==> forall i, j :: 0 <= i < m.Length0 && 0 <= j < m.Length1 ==>
                        r.value[i, j] == ThresholdedEntry(m, ts, i, j)
  {
    var n := m.Length0;
    var out := new real[n, m.Length1]((_, _) => 0.0);
    var d := 1;
    while d <= n
      invariant 1 <= d <= n + 1
      invariant out.Length0 == n && out.Length1 == m.Length1
      invariant d > 1 ==> |ts| > 0 && m.Length1 == n
      invariant forall i, j :: 0 <= i < n && 0 <= j < m.Length1 ==>
                  out[i, j] == if i != j && Abs(i - j) < d then ThresholdedEntry(m, ts, i, j) else 0.0
    {
      if |ts| == 0 {
        return Err(NoThresholds);
      }
      var threshold := ThresholdFor(ts, d);
      if m.Length1 != n {
        return Err(NotSquare);
      }
      var diagonal := seq(n - d, t requires 0 <= t < n - d reads m => m[t, t + d]);
      var kept := seq(n - d, t requires 0 <= t < n - d => KeptValue(diagonal[t], threshold));
      SetDiagonal(out, d, kept);
      SetDiagonal(out, -d, kept);
      d := d + 1;
    }
    return Ok(out);
  }

  // ---------------------------------------------------------------------
  // Csv records
  // ---------------------------------------------------------------------

  /** One cell of the unstacked matrix: column (Pos_A), row (Pos_B) and
      value. */
  datatype Cell = Cell(posA: nat, posB: nat, value: real)

  /** A matrix of |m| rows, each `width` long. */
  predicate IsRectangular(m: seq<seq<real>>, width: nat) {
    forall b :: 0 <= b < |m| ==> |m[b]| == width
  }

  /** Column a of the matrix, top to bottom. */
  function Column(m: seq<seq<real>>, width: nat, a: nat): seq<Cell>
    requires IsRectangular(m, width) && a < width
  {
    seq(|m|, b requires 0 <= b < |m| => Cell(a, b, m[b][a]))
  }

  /** DataFrame(m).unstack() from column a on: every cell, column by
      column. */
  function UnstackFrom(m: seq<seq<real>>, width: nat, a: nat): (cells: seq<Cell>)
    requires IsRectangular(m, width) && a <= width
    decreases width - a
    ensures forall t :: 0 <= t < |cells| ==>
              a <= cells[t].posA < width && cells[t].posB < |m| && cells[t].value == m[cells[t].posB][cells[t].posA]
  {
    if a == width then [] else Column(m, width, a) + UnstackFrom(m, width, a + 1)
  }

  /** Column-then-row order, the order of an unstacked series. */
  predicate Before(x: Cell, y: Cell) {
    x.posA < y.posA || (x.posA == y.posA && x.posB < y.posB)
  }

  predicate StrictlyOrdered(cells: seq<Cell>) {
    forall s, t :: 0 <= s < t < |cells| ==> Before(cells[s], cells[t])
  }

  /** The unstacked cells from column a on are exactly the matrix cells of
      those columns, each once, in column-then-row order. */
  lemma {:induction false} UnstackFromCells(m: seq<seq<real>>, width: nat, a: nat)
    requires IsRectangular(m, width) && a <= width
    decreases width - a
    ensures forall c :: c in UnstackFrom(m, width, a) <==>
              a <= c.posA < width && c.posB < |m| && c.value == m[c.posB][c.posA]
    ensures StrictlyOrdered(UnstackFrom(m, width, a))
    ensures forall c :: c in UnstackFrom(m, width, a) ==> a <= c.posA
  {
    if a < width {
      UnstackFromCells(m, width, a + 1);
      var column, rest := Column(m, width, a), UnstackFrom(m, width, a + 1);
      assert forall c :: c in column <==> c.posA == a && c.posB < |m| && c.value == m[c.posB][a] by {
        forall c: Cell | c.posA == a && c.posB < |m| && c.value == m[c.posB][a]
          ensures c in column
        {
          assert column[c.posB] == c;
        }
      }
      ConcatOrdered(column, rest);
    }
  }

  /** Two ordered runs, the first entirely before the second, make one. */
  lemma ConcatOrdered(first: seq<Cell>, second: seq<Cell>)
    requires StrictlyOrdered(first) && StrictlyOrdered(second)
    requires forall x, y :: x in first && y in second ==> Before(x, y)
    ensures StrictlyOrdered(first + second)
  {
    var both := first + second;
    forall s, t | 0 <= s < t < |both|
      ensures Before(both[s], both[t])
    {
      if s < |first| && |first| <= t {
        assert both[s] in first && both[t] in second;
      }
    }
  }

  /** Boolean-mask selection of a series: the cells `keep` accepts, in
      order. */
  function Filter(cells: seq<Cell>, keep: Cell -> bool): (kept: seq<Cell>)
    ensures forall c :: c in kept <==> c in cells && keep(c)
  {
    if |cells| == 0 then []
    else (if keep(cells[0]) then [cells[0]] else []) + Filter(cells[1..], keep)
  }

  /** Selection keeps the order of what it selects from. */
  lemma {:induction false} FilterOrdered(cells: seq<Cell>, keep: Cell -> bool)
    requires StrictlyOrdered(cells)
    ensures StrictlyOrdered(Filter(cells, keep))
  {
    if |cells| > 0 {
      FilterOrdered(cells[1..], keep);
      var rest := Filter(cells[1..], keep);
      forall y | y in rest
        ensures Before(cells[0], y)
      {
        var t :| 0 <= t < |cells[1..]| && cells[1..][t] == y;
        assert cells[t + 1] == y;
      }
      ConcatOrdered(if keep(cells[0]) then [cells[0]] else [], rest);
    }
  }

  /** One output row of write_csv. */
  datatype CsvRecord = CsvRecord(chrom: string, posA: nat, posB: nat, dist: int, interaction: real)

  datatype CsvError = NoWindows  // IndexError: windows[0][0][0] does not exist

  /** The output columns of each selected cell: the chromosome, both
      positions, their distance and the value. */
  function ToRecords(cells: seq<Cell>, chrom: string): (records: seq<CsvRecord>)
    ensures |records| == |cells|
    ensures forall t :: 0 <= t < |cells| ==>
              records[t].chrom == chrom && records[t].posA == cells[t].posA && records[t].posB == cells[t].posB &&
              records[t].interaction == cells[t].value && records[t].dist == records[t].posB - records[t].posA
  {
    seq(|cells|, t requires 0 <= t < |cells| =>
      CsvRecord(chrom, cells[t].posA, cells[t].posB, cells[t].posB - cells[t].posA, cells[t].value))
  }

  /** The mask of write_csv's first selection: the interaction value is
      strictly positive. */
  predicate IsPositive(c: Cell) {
    c.value > 0.0
  }

  /** The mask of write_csv's second selection: the row position is
      greater than the column position, so the cell lies strictly below the
      main diagonal. */
  predicate IsBelowDiagonal(c: Cell) {
    c.posB > c.posA
  }

  /** The positive cells of the unstacked matrix, in series order. */
  function PositiveCells(m: seq<seq<real>>, width: nat): (cells: seq<Cell>)
    requires IsRectangular(m, width)
    ensures forall c :: c in cells <==>
              c.posA < width && c.posB < |m| && c.value == m[c.posB][c.posA] && c.value > 0.0
  {
    UnstackFromCells(m, width, 0);
    Filter(UnstackFrom(m, width, 0), IsPositive)
  }

  /** The cells write_csv emits: positive and strictly below the main
      diagonal (Pos_B > Pos_A). */
  function LowerCells(m: seq<seq<real>>, width: nat): (cells: seq<Cell>)
    requires IsRectangular(m, width)
    ensures forall c :: c in cells <==>
              c.posA < c.posB < |m| && c.posA < width && c.value == m[c.posB][c.posA] && c.value > 0.0
  {
    Filter(PositiveCells(m, width), IsBelowDiagonal)
  }

  /** The rows write_csv writes for `windows` (x-axis list first) and the
      matrix m of |m| rows and `width` columns. */
  function CsvRecords(windows: seq<seq<Window>>, m: seq<seq<real>>, width: nat): (r: Result<seq<CsvRecord>, CsvError>)
    requires IsRectangular(m, width)
    ensures r.Err? <==> |windows| == 0 || |windows[0]| == 0
  {
    var lower := LowerCells(m, width);
    if |windows| == 0 || |windows[0]| == 0 then Err(NoWindows)
    else Ok(ToRecords(lower, windows[0][0].chrom))
  }

  /** The lower cells are exactly the positive matrix cells with row index
      above column index, in column-then-row order. */
  lemma LowerCellsExact(m: seq<seq<real>>, width: nat)
    requires IsRectangular(m, width)
    ensures forall c :: c in LowerCells(m, width) <==>
              c.posA < c.posB < |m| && c.posA < width && c.value == m[c.posB][c.posA] && c.value > 0.0
    ensures StrictlyOrdered(LowerCells(m, width))
  {
    UnstackFromCells(m, width, 0);
    FilterOrdered(UnstackFrom(m, width, 0), IsPositive);
    FilterOrdered(PositiveCells(m, width), IsBelowDiagonal);
  }

  /** Every row written is a positive interaction between a window and a
      later one, with their distance and the x-axis chromosome. */
  lemma CsvRecordsSound(windows: seq<seq<Window>>, m: seq<seq<real>>, width: nat)
    requires IsRectangular(m, width) && CsvRecords(windows, m, width).Ok?
    ensures forall r :: r in CsvRecords(windows, m, width).value ==>
              r.posA < r.posB < |m| && r.posA < width &&
              r.interaction == m[r.posB][r.posA] && r.interaction > 0.0 &&
              r.dist == r.posB - r.posA && r.chrom == windows[0][0].chrom
  {
    LowerCellsExact(m, width);
    var lower := LowerCells(m, width);
    var rs := CsvRecords(windows, m, width).value;
    forall r | r in rs
      ensures r.posA < r.posB < |m| && r.posA < width
      ensures r.interaction == m[r.posB][r.posA] && r.interaction > 0.0
      ensures r.dist == r.posB - r.posA && r.chrom == windows[0][0].chrom
    {
      var t :| 0 <= t < |rs| && rs[t] == r;
      assert lower[t] in lower;
    }
  }

  /** Every positive interaction below the main diagonal is written. */
  lemma CsvRecordsComplete(windows: seq<seq<Window>>, m: seq<seq<real>>, width: nat, a: nat, b: nat)
    requires IsRectangular(m, width) && CsvRecords(windows, m, width).Ok?
    requires a < b < |m| && a < width && m[b][a] > 0.0
    ensures exists t :: 0 <= t < |CsvRecords(windows, m, width).value| &&
              CsvRecords(windows, m, width).value[t].posA == a && CsvRecords(windows, m, width).value[t].posB == b
  {
    LowerCellsExact(m, width);
    var lower := LowerCells(m, width);
    assert Cell(a, b, m[b][a]) in lower;
    var t :| 0 <= t < |lower| && lower[t] == Cell(a, b, m[b][a]);
    assert CsvRecords(windows, m, width).value[t].posA == a;
  }

  /** Rows come out ordered by Pos_A, then Pos_B, without repeats. */
  lemma CsvRecordsOrdered(windows: seq<seq<Window>>, m: seq<seq<real>>, width: nat)
    requires IsRectangular(m, width) && CsvRecords(windows, m, width).Ok?
    ensures forall s, t :: 0 <= s < t < |CsvRecords(windows, m, width).value| ==>
              var x, y := CsvRecords(windows, m, width).value[s], CsvRecords(windows, m, width).value[t];
              x.posA < y.posA || (x.posA == y.posA && x.posB < y.posB)
  {
    LowerCellsExact(m, width);
    var lower := LowerCells(m, width);
    var rs := CsvRecords(windows, m, width).value;
    forall s, t | 0 <= s < t < |rs|
      ensures rs[s].posA < rs[t].posA || (rs[s].posA == rs[t].posA && rs[s].posB < rs[t].posB)
    {
      assert Before(lower[s], lower[t]);
    }
  }

  /** The example of write_csv's documentation: a symmetric 3 x 3 matrix on
      chr1 gives the rows (chr1, 0, 2, 2, 5) and (chr1, 1, 2, 1, 3). */
  lemma CsvRecordsExample(m: seq<seq<real>>, windows: seq<Window>)
    requires m == [[10.0, 0.0, 5.0], [0.0, 10.0, 3.0], [5.0, 3.0, 10.0]]
    requires windows == [Window("chr1", 0, 10), Window("chr1", 10, 20), Window("chr1", 20, 30)]
    ensures IsRectangular(m, 3)
    ensures CsvRecords([windows, windows], m, 3) == Ok([CsvRecord("chr1", 0, 2, 2, 5.0), CsvRecord("chr1", 1, 2, 1, 3.0)])
  {
    var x, y := Cell(0, 2, 5.0), Cell(1, 2, 3.0);
    LowerCellsExact(m, 3);
    var lower := LowerCells(m, 3);
    forall k | 0 <= k < |lower|
      ensures lower[k] == x || lower[k] == y
    {
      var c := lower[k];
      assert c in lower;
      assert c.posA < c.posB < 3 && c.value == m[c.posB][c.posA] && c.value > 0.0;
    }
    assert x in lower && y in lower;
    OrderedPair(lower, x, y);
    var rows := ToRecords(lower, "chr1");
    assert rows[0] == CsvRecord("chr1", 0, 2, 2, 5.0);
    assert rows[1] == CsvRecord("chr1", 1, 2, 1, 3.0);
    assert rows == [CsvRecord("chr1", 0, 2, 2, 5.0), CsvRecord("chr1", 1, 2, 1, 3.0)];
  }

  /** The first three cells of a strictly ordered sequence differ. */
  lemma OrderedFirstThree(cells: seq<Cell>)
    requires StrictlyOrdered(cells) && |cells| > 2
    ensures cells[0] != cells[1] && cells[1] != cells[2] && cells[0] != cells[2]
  {
    assert Before(cells[0], cells[1]) && Before(cells[1], cells[2]) && Before(cells[0], cells[2]);
  }

  /** A strictly ordered sequence holding exactly x and y, x first, is [x, y]. */
  lemma OrderedPair(cells: seq<Cell>, x: Cell, y: Cell)
    requires StrictlyOrdered(cells) && Before(x, y)
    requires x in cells && y in cells
    requires forall k :: 0 <= k < |cells| ==> cells[k] == x || cells[k] == y
    ensures cells == [x, y]
  {
    var s :| 0 <= s < |cells| && cells[s] == x;
    var t :| 0 <= t < |cells| && cells[t] == y;
    if s >= t {
      assert false;
    }
    if |cells| > 2 {
      OrderedFirstThree(cells);
      assert false;
    }
  }
}
