/**
 * The summary helpers of utils.py: the human-readable file size, the rows of
 * the results table, the quality summary, the colour-space distribution and
 * the print-readiness validation, all read off the analyzer's image records.
 */
module Utils {
  import opened Common
  import opened Records

  // ---------------------------------------------------------------------------
  // format_file_size
  // ---------------------------------------------------------------------------

  const SIZE_NAMES: seq<string> := ["B", "KB", "MB", "GB", "TB"]

  function Pow1024(i: nat): (p: nat)
    ensures p >= 1
  {
    if i == 0 then 1 else 1024 * Pow1024(i - 1)
  }

  /**
   * The unit a size is shown in: the largest power of 1024 not above it,
   * capped at terabytes; bytes for anything below 1024 (negative sizes too).
   */
  function UnitIndex(size: int): (i: nat)
    ensures i < |SIZE_NAMES|
    ensures i > 0 ==> Pow1024(i) <= size
    ensures i < |SIZE_NAMES| - 1 ==> size < Pow1024(i + 1)
  {
    if size >= Pow1024(4) then 4
    else if size >= Pow1024(3) then 3
    else if size >= Pow1024(2) then 2
    else if size >= Pow1024(1) then 1
    else 0
  }

  /** The two shapes of the text: a whole number of bytes, or an amount with one decimal. */
  datatype FileSizeText =
    | Exact(text: string)
    | Scaled(amount: real, unit: string)

  /** What `format_file_size` shows; the `.1f` rounding of the amount is left to the renderer. */
  function FileSizeLabel(size: int): FileSizeText {
    if size == 0 then Exact("0 B")
    else
      var i := UnitIndex(size);
      if i == 0 then Exact(IntToDecimal(size) + " " + SIZE_NAMES[0])
      else Scaled(size as real / Pow1024(i) as real, SIZE_NAMES[i])
  }

  /** The unit is the only one whose range holds the size. */
  lemma UnitIndexUnique(size: int, i: nat)
    requires i < |SIZE_NAMES|
    requires i > 0 ==> Pow1024(i) <= size
    requires i < |SIZE_NAMES| - 1 ==> size < Pow1024(i + 1)
    ensures UnitIndex(size) == i
  {
    assert Pow1024(1) == 1024;
    assert Pow1024(2) == 1024 * 1024;
    assert Pow1024(3) == 1024 * 1024 * 1024;
    assert Pow1024(4) == 1024 * 1024 * 1024 * 1024;
  }

  lemma QuotientTimes(a: real, n: real)
    requires n > 0.0
    ensures (a / n) * n == a
  {
  }

  lemma LessTimes(a: real, b: real, c: real)
    requires c > 0.0 && a < b
    ensures a * c < b * c
  {
    assert b * c - a * c == (b - a) * c;
  }

  lemma IntProductAsReal(a: int, b: int)
    ensures (a * b) as real == a as real * b as real
  {
  }

  lemma DivLower(a: real, n: real, lo: real)
    requires n > 0.0 && n * lo <= a
    ensures lo <= a / n
  {
    QuotientTimes(a, n);
    if a / n < lo {
      LessTimes(a / n, lo, n);
    }
  }

  lemma DivUpper(a: real, n: real, hi: real)
    requires n > 0.0 && a <= n * hi
    ensures a / n <= hi
  {
    QuotientTimes(a, n);
    if hi < a / n {
      LessTimes(hi, a / n, n);
    }
  }

  /** `part / total * 100`: the percentage that times the total gives back the part, scaled by 100. */
  function Percentage(part: int, total: int): (pct: real)
    requires total > 0
    ensures pct * total as real == part as real * 100.0
  {
    part as real / total as real * 100.0
  }

  /** A share of a total lies between 0 and 100 percent, and is positive when the part is. */
  lemma PercentageBounds(part: int, total: int)
    requires 0 <= part <= total && total > 0
    ensures 0.0 <= Percentage(part, total) <= 100.0
    ensures part > 0 ==> 0.0 < Percentage(part, total)
  {
    var t := total as real;
    IntProductAsReal(total, 100);
    DivUpper(part as real * 100.0, t, 100.0);
    DivLower(part as real * 100.0, t, 0.0);
    assert Percentage(part, total) == part as real * 100.0 / t;
    if part > 0 {
      DivLower(part as real * 100.0, t, 100.0 / t);
      assert 100.0 / t > 0.0;
    }
  }

  lemma ScaleStep(size: real, p: nat, n: int)
    requires p >= 1 && size * p as real == n as real
    ensures (size / 1024.0) * (1024 * p) as real == n as real
    ensures size >= 1024.0 ==> 1024 * p <= n
    ensures size < 1024.0 ==> n < 1024 * p
  {
  }

  lemma ScaleQuotient(size: real, p: nat, n: int)
    requires p >= 1 && size * p as real == n as real
    ensures size == n as real / p as real
  {
  }

  method FormatFileSize(sizeBytes: int) returns (shown: FileSizeText)
    ensures shown == FileSizeLabel(sizeBytes)
  {
    if sizeBytes == 0 {
      return Exact("0 B");
    }
    var size: real := sizeBytes as real;
    var i: nat := 0;
    while size >= 1024.0 && i < |SIZE_NAMES| - 1
      invariant i < |SIZE_NAMES|
      invariant size * Pow1024(i) as real == sizeBytes as real
      invariant i > 0 ==> Pow1024(i) <= sizeBytes
    {
      ScaleStep(size, Pow1024(i), sizeBytes);
      size := size / 1024.0;
      i := i + 1;
    }
    LoopExitLabel(sizeBytes, size, i);
    if i == 0 {
      shown := Exact(IntToDecimal(size.Floor) + " " + SIZE_NAMES[i]);
    } else {
      shown := Scaled(size, SIZE_NAMES[i]);
    }
  }

  /** Where the loop of FormatFileSize stops, the scaled size and its unit are the label's. */
  lemma LoopExitLabel(sizeBytes: int, size: real, i: nat)
    requires sizeBytes != 0 && i < |SIZE_NAMES|
    requires size * Pow1024(i) as real == sizeBytes as real
    requires i > 0 ==> Pow1024(i) <= sizeBytes
    requires size < 1024.0 || i == |SIZE_NAMES| - 1
    ensures i == 0 ==> FileSizeLabel(sizeBytes) == Exact(IntToDecimal(size.Floor) + " " + SIZE_NAMES[i])
    ensures i > 0 ==> FileSizeLabel(sizeBytes) == Scaled(size, SIZE_NAMES[i])
  {
    if i == 0 {
      assert size == sizeBytes as real;
      assert size.Floor == sizeBytes;
      assert UnitIndex(sizeBytes) == 0;
    } else {
      ScaleStep(size, Pow1024(i), sizeBytes);
      UnitIndexUnique(sizeBytes, i);
      ScaleQuotient(size, Pow1024(i), sizeBytes);
    }
  }

  /**
   * Sizes under a kilobyte are shown exactly in bytes; larger ones as an
   * amount of at least 1 in the largest unit that fits, below 1024 except in
   * terabytes, where the scale stops.
   */
  lemma FileSizeLabelRange(size: int)
    ensures 0 <= size < 1024 ==> FileSizeLabel(size) == Exact(NatToDecimal(size) + " B")
    ensures size < 0 ==> FileSizeLabel(size) == Exact("-" + NatToDecimal(-size) + " B")
    ensures size >= 1024 ==>
      var t := FileSizeLabel(size);
      t.Scaled? && t.unit != "B" && 1.0 <= t.amount &&
      (t.unit != "TB" ==> t.amount < 1024.0) &&
      t.amount * Pow1024(UnitIndex(size)) as real == size as real
  {
    if size >= 1024 {
      ScaledLabelRange(size, UnitIndex(size), Pow1024(UnitIndex(size)));
    }
  }

  /** The scaled amount of a size of at least 1 KB, in unit `i` of scale `p`. */
  lemma ScaledLabelRange(size: int, i: nat, p: nat)
    requires size >= 1024 && i == UnitIndex(size) && p == Pow1024(i)
    ensures var q := size as real / p as real;
      1.0 <= q && (i < |SIZE_NAMES| - 1 ==> q < 1024.0) && q * p as real == size as real
  {
    var q := size as real / p as real;
    QuotientTimes(size as real, p as real);
    if i < |SIZE_NAMES| - 1 {
      assert size < 1024 * p;
      assert q < 1024.0 by {
        if q >= 1024.0 {
          ScaleStep(q, p, size);
        }
      }
    }
    DivLower(size as real, p as real, 1.0);
  }

  /** The unit boundaries and where the scale stops. */
  lemma FileSizeExamples()
    ensures FileSizeLabel(1023) == Exact("1023 B")
    ensures FileSizeLabel(1024) == Scaled(1.0, "KB")
    ensures FileSizeLabel(1536) == Scaled(1.5, "KB")
    ensures FileSizeLabel(1024 * 1024) == Scaled(1.0, "MB")
    ensures FileSizeLabel(1024 * 1024 * 1024 * 1024 * 1024) == Scaled(1024.0, "TB")
  {
    assert NatToDecimal(1023) == NatToDecimal(102) + ['3'];
    assert NatToDecimal(102) == NatToDecimal(10) + ['2'];
    assert NatToDecimal(10) == NatToDecimal(1) + ['0'];
    UnitIndexUnique(1024 * 1024, 2);
    UnitIndexUnique(1024 * 1024 * 1024 * 1024 * 1024, 4);
  }

  // ---------------------------------------------------------------------------
  // create_results_dataframe
  // ---------------------------------------------------------------------------

  datatype Status = Pass | Fail

  datatype Quality = Excellent | Good | Acceptable | Poor

  /** The 'DPI' cell: the value, or the text "Unknown" when the DPI is falsy. */
  datatype DpiCell = DpiValue(dpi: int) | DpiUnknown

  /** One row of the results table; `printSize` None is the cell "Unknown". */
  datatype Row = Row(
    imageNumber: int,
    page: int,
    dimensions: string,
    dpi: DpiCell,
    colorSpace: string,
    format: Option<string>,
    fileSize: FileSizeText,
    printSize: Option<(real, real)>,
    quality: Quality,
    dpiStatus: Status,
    colorStatus: Status,
    overallStatus: Status)

  /** The quality bands: at least 300, 250 to 299, 150 to 249, and the rest. */
  function QualityBand(dpi: Option<int>): (q: Quality)
    ensures q == Excellent <==> IntTruthy(dpi) && dpi.value >= 300
    ensures q == Good <==> IntTruthy(dpi) && 250 <= dpi.value < 300
    ensures q == Acceptable <==> IntTruthy(dpi) && 150 <= dpi.value < 250
    ensures q == Poor <==> !IntTruthy(dpi) || dpi.value < 150
  {
    if IntTruthy(dpi) && dpi.value >= 300 then Excellent
    else if IntTruthy(dpi) && dpi.value >= 250 then Good
    else if IntTruthy(dpi) && dpi.value >= 150 then Acceptable
    else Poor
  }

  /** The band only improves as the DPI grows. */
  lemma {:induction false} QualityBandMonotone(a: int, b: int)
    requires 0 < a <= b
    ensures QualityRank(QualityBand(Some(a))) <= QualityRank(QualityBand(Some(b)))
  {
  }

  function QualityRank(q: Quality): nat {
    match q
    case Poor => 0
    case Acceptable => 1
    case Good => 2
    case Excellent => 3
  }

  /** `f"{width} × {height}"`, or "Unknown" when either side is 0. */
  function Dimensions(width: int, height: int): (text: string)
    ensures text == "Unknown" <==> width == 0 || height == 0
  {
    if width != 0 && height != 0 then
      var text := IntToDecimal(width) + " × " + IntToDecimal(height);
      IntToDecimalHead(width);
      assert text[0] == IntToDecimal(width)[0];
      text
    else "Unknown"
  }

  /** Width and height in inches when printed at `dpi`. */
  function PrintSize(width: int, height: int, dpi: int): (inches: (real, real))
    requires dpi != 0
    ensures inches.0 * dpi as real == width as real && inches.1 * dpi as real == height as real
  {
    var d := dpi as real;
    if dpi > 0 then
      QuotientTimes(width as real, d);
      QuotientTimes(height as real, d);
      (width as real / d, height as real / d)
    else
      QuotientTimes(-width as real, -d);
      QuotientTimes(-height as real, -d);
      (width as real / d, height as real / d)
  }

  /** The row of the `i`-th image (counted from 1). */
  function RowFor(img: ImageRecord, i: int, minDpi: int, preferred: seq<string>): (row: Row)
    ensures row.imageNumber == i && row.page == img.page
    ensures row.dpiStatus == Pass <==> DpiMeets(img, minDpi)
    ensures row.colorStatus == Pass <==> ColorPreferred(img, preferred)
    ensures row.overallStatus == Pass <==> MeetsCriteria(img, minDpi, preferred)
    ensures row.dpi == DpiUnknown <==> !IntTruthy(DpiOf(img))
    ensures row.dpi.DpiValue? ==> Some(row.dpi.dpi) == DpiOf(img)
    ensures row.dimensions == "Unknown" <==> WidthOf(img) == 0 || HeightOf(img) == 0
    ensures row.printSize.None? <==> WidthOf(img) == 0 || HeightOf(img) == 0 || !IntTruthy(DpiOf(img))
    ensures row.printSize.Some? ==> row.printSize.value == PrintSize(WidthOf(img), HeightOf(img), DpiOf(img).value)
    ensures row.quality == QualityBand(DpiOf(img))
    ensures !IntTruthy(DpiOf(img)) ==> row.dpiStatus == Fail && row.overallStatus == Fail && row.quality == Poor
    ensures row.colorSpace == ColorModeOf(img) && row.format == FormatOf(img)
    ensures row.fileSize == FileSizeLabel(FileSizeOf(img))
  {
    var width, height, dpi := WidthOf(img), HeightOf(img), DpiOf(img);
    var printSize := if width != 0 && height != 0 && IntTruthy(dpi) then Some(PrintSize(width, height, dpi.value)) else None;
    var dpiStatus := if IntTruthy(dpi) && dpi.value >= minDpi then Pass else Fail;
    var colorStatus := if ColorModeOf(img) in preferred then Pass else Fail;
    var overallStatus := if dpiStatus == Pass && colorStatus == Pass then Pass else Fail;
    Row(i, img.page, Dimensions(width, height),
        if IntTruthy(dpi) then DpiValue(dpi.value) else DpiUnknown,
        ColorModeOf(img), FormatOf(img), FileSizeLabel(FileSizeOf(img)), printSize,
        QualityBand(dpi), dpiStatus, colorStatus, overallStatus)
  }

  /** One row per image, in order, numbered from 1; no rows for no images. */
  method CreateResultsTable(images: seq<ImageRecord>, minDpi: int, preferred: seq<string>)
    returns (data: seq<Row>)
    ensures |data| == |images|
    ensures forall i :: 0 <= i < |images| ==> data[i] == RowFor(images[i], i + 1, minDpi, preferred)
  {
    if images == [] {
      return [];
    }
    data := [];
    var i := 0;
    while i < |images|
      invariant 0 <= i <= |images|
      invariant |data| == i
      invariant forall k :: 0 <= k < i ==> data[k] == RowFor(images[k], k + 1, minDpi, preferred)
    {
      var fileSize := FormatFileSize(FileSizeOf(images[i]));
      var row := RowFor(images[i], i + 1, minDpi, preferred).(fileSize := fileSize);
      data := data + [row];
      i := i + 1;
    }
  }

  /** The rows that pass. */
  function PassedRows(rows: seq<Row>): seq<Row> {
    Filter(rows, (row: Row) => row.overallStatus == Pass)
  }

  // ---------------------------------------------------------------------------
  // get_quality_summary
  // ---------------------------------------------------------------------------

  function PassingImages(images: seq<ImageRecord>, minDpi: int, preferred: seq<string>): seq<ImageRecord> {
    Filter(images, (img: ImageRecord) => MeetsCriteria(img, minDpi, preferred))
  }

  function HighQualityImages(images: seq<ImageRecord>): seq<ImageRecord> {
    Filter(images, HighQuality)
  }

  /** The truthy DPI values, in order. */
  function DpiValues(images: seq<ImageRecord>): (values: seq<int>)
    ensures |values| <= |images|
    ensures forall k :: 0 <= k < |values| ==> values[k] != 0
    ensures values == [] <==> forall i :: 0 <= i < |images| ==> !IntTruthy(DpiOf(images[i]))
  {
    if images == [] then []
    else
      var last := images[|images| - 1];
      DpiValues(images[..|images| - 1]) + (if IntTruthy(DpiOf(last)) then [DpiOf(last).value] else [])
  }

  function Sum(s: seq<int>): int {
    if s == [] then 0 else Sum(s[..|s| - 1]) + s[|s| - 1]
  }

  /** `sum(values) / len(values)`, 0 for no values. */
  function Mean(s: seq<int>): real {
    if s == [] then 0.0 else Sum(s) as real / |s| as real
  }

  lemma {:induction false} SumBounds(s: seq<int>, lo: int, hi: int)
    requires forall k :: 0 <= k < |s| ==> lo <= s[k] <= hi
    ensures |s| * lo <= Sum(s) <= |s| * hi
  {
    if s != [] {
      SumBounds(s[..|s| - 1], lo, hi);
    }
  }

  /** The average DPI lies between the smallest and the largest value. */
  lemma MeanBounds(s: seq<int>, lo: int, hi: int)
    requires s != []
    requires forall k :: 0 <= k < |s| ==> lo <= s[k] <= hi
    ensures lo as real <= Mean(s) <= hi as real
  {
    SumBounds(s, lo, hi);
    IntProductAsReal(|s|, lo);
    IntProductAsReal(|s|, hi);
    DivLower(Sum(s) as real, |s| as real, lo as real);
    DivUpper(Sum(s) as real, |s| as real, hi as real);
  }

  /** When every truthy DPI lies in [lo, hi], so does every collected value. */
  lemma {:induction false} DpiValuesWithin(images: seq<ImageRecord>, lo: int, hi: int)
    requires forall i :: 0 <= i < |images| && IntTruthy(DpiOf(images[i])) ==> lo <= DpiOf(images[i]).value <= hi
    ensures forall k :: 0 <= k < |DpiValues(images)| ==> lo <= DpiValues(images)[k] <= hi
  {
    if images != [] {
      DpiValuesWithin(images[..|images| - 1], lo, hi);
    }
  }

  /**
   * The summary's average DPI lies between any bounds on the images' truthy
   * DPIs, when there is at least one; with none it is 0.
   */
  lemma AverageDpiWithin(images: seq<ImageRecord>, lo: int, hi: int)
    requires forall i :: 0 <= i < |images| && IntTruthy(DpiOf(images[i])) ==> lo <= DpiOf(images[i]).value <= hi
    ensures (exists i :: 0 <= i < |images| && IntTruthy(DpiOf(images[i]))) ==>
              lo as real <= Mean(DpiValues(images)) <= hi as real
    ensures (forall i :: 0 <= i < |images| ==> !IntTruthy(DpiOf(images[i]))) ==> Mean(DpiValues(images)) == 0.0
  {
    if DpiValues(images) != [] {
      DpiValuesWithin(images, lo, hi);
      MeanBounds(DpiValues(images), lo, hi);
    }
  }

  /** What one more image adds to each of the summary's tallies. */
  lemma SummaryStep(s: seq<ImageRecord>, x: ImageRecord, minDpi: int, preferred: seq<string>)
    ensures |PassingImages(s + [x], minDpi, preferred)| ==
            |PassingImages(s, minDpi, preferred)| + (if MeetsCriteria(x, minDpi, preferred) then 1 else 0)
    ensures |HighQualityImages(s + [x])| == |HighQualityImages(s)| + (if HighQuality(x) then 1 else 0)
    ensures DpiValues(s + [x]) == DpiValues(s) + (if IntTruthy(DpiOf(x)) then [DpiOf(x).value] else [])
  {
    assert (s + [x])[..|s|] == s;
  }

  datatype QualitySummary = QualitySummary(
    totalImages: int,
    passCount: int,
    failCount: int,
    passRate: real,
    highQualityCount: int,
    averageDpi: real)

  method GetQualitySummary(images: seq<ImageRecord>, minDpi: int, preferred: seq<string>)
    returns (summary: QualitySummary)
    ensures images == [] ==> summary == QualitySummary(0, 0, 0, 0.0, 0, 0.0)
    ensures summary.totalImages == |images|
    ensures summary.passCount == |PassingImages(images, minDpi, preferred)|
    ensures summary.failCount == |images| - summary.passCount
    ensures 0 <= summary.passCount <= summary.totalImages
    ensures summary.highQualityCount == |HighQualityImages(images)|
    ensures 0 <= summary.highQualityCount <= summary.totalImages
    ensures images != [] ==> summary.passRate == Percentage(summary.passCount, |images|)
    ensures 0.0 <= summary.passRate <= 100.0
    ensures summary.averageDpi == Mean(DpiValues(images))
  {
    if images == [] {
      return QualitySummary(0, 0, 0, 0.0, 0, 0.0);
    }
    var totalImages := |images|;
    var passCount := 0;
    var highQualityCount := 0;
    var dpiValues: seq<int> := [];
    var i := 0;
    while i < |images|
      invariant 0 <= i <= |images|
      invariant passCount == |PassingImages(images[..i], minDpi, preferred)|
      invariant highQualityCount == |HighQualityImages(images[..i])|
      invariant dpiValues == DpiValues(images[..i])
    {
      var img := images[i];
      assert images[..i + 1] == images[..i] + [img];
      SummaryStep(images[..i], img, minDpi, preferred);
      var dpi := DpiOf(img);
      if IntTruthy(dpi) {
        dpiValues := dpiValues + [dpi.value];
      }
      if MeetsCriteria(img, minDpi, preferred) {
        passCount := passCount + 1;
      }
      if HighQuality(img) {
        highQualityCount := highQualityCount + 1;
      }
      i := i + 1;
    }
    assert images[..i] == images;
    var averageDpi := Mean(dpiValues);
    var passRate := Percentage(passCount, totalImages);
    PercentageBounds(passCount, totalImages);
    summary := QualitySummary(totalImages, passCount, totalImages - passCount, passRate,
                              highQualityCount, averageDpi);
  }

  /** The summary's pass count is the number of rows the results table marks PASS. */
  lemma {:induction false} PassCountMatchesTable(images: seq<ImageRecord>, rows: seq<Row>,
                                                 minDpi: int, preferred: seq<string>)
    requires |rows| == |images|
    requires forall i :: 0 <= i < |images| ==> rows[i] == RowFor(images[i], i + 1, minDpi, preferred)
    ensures |PassedRows(rows)| == |PassingImages(images, minDpi, preferred)|
  {
    if images != [] {
      var n := |images| - 1;
      PassCountMatchesTable(images[..n], rows[..n], minDpi, preferred);
      assert rows[n] == RowFor(images[n], n + 1, minDpi, preferred);
    }
  }

  // ---------------------------------------------------------------------------
  // get_color_space_distribution
  // ---------------------------------------------------------------------------

  /** How many images carry the colour mode `mode`. */
  function CountMode(images: seq<ImageRecord>, mode: string): (n: nat)
    ensures n <= |images|
  {
    if images == [] then 0
    else CountMode(images[..|images| - 1], mode) + (if ColorModeOf(images[|images| - 1]) == mode then 1 else 0)
  }

  /** Appending an image adds its colour mode to the set of modes. */
  lemma ColorModesSnoc(s: seq<ImageRecord>, x: ImageRecord)
    ensures ColorModes(s + [x]) == ColorModes(s) + {ColorModeOf(x)}
  {
    var t := s + [x];
    forall m | m in ColorModes(t) ensures m in ColorModes(s) + {ColorModeOf(x)} {
      var i :| 0 <= i < |t| && ColorModeOf(t[i]) == m;
      if i < |s| {
        assert ColorModeOf(s[i]) == m;
      }
    }
    forall m | m in ColorModes(s) ensures m in ColorModes(t) {
      var i :| 0 <= i < |s| && ColorModeOf(s[i]) == m;
      assert ColorModeOf(t[i]) == m;
    }
    assert ColorModeOf(t[|s|]) == ColorModeOf(x);
  }

  lemma {:induction false} CountModeOccurs(images: seq<ImageRecord>, mode: string)
    ensures CountMode(images, mode) > 0 <==> mode in ColorModes(images)
  {
    if images != [] {
      var init := images[..|images| - 1];
      CountModeOccurs(init, mode);
      assert init + [images[|images| - 1]] == images;
      ColorModesSnoc(init, images[|images| - 1]);
    }
  }

  /**
   * The tally `color_counts[mode] = color_counts.get(mode, 0) + 1`, one image
   * after the other.
   */
  function ModeCounts(images: seq<ImageRecord>): map<string, nat> {
    if images == [] then map[]
    else
      var before := ModeCounts(images[..|images| - 1]);
      var c := ColorModeOf(images[|images| - 1]);
      before[c := (if c in before then before[c] else 0) + 1]
  }

  /** The tally holds the modes that occur, each with the number of images that carry it. */
  lemma {:induction false} ModeCountsCount(images: seq<ImageRecord>)
    ensures ModeCounts(images).Keys == ColorModes(images)
    ensures forall m :: m in ModeCounts(images) ==> ModeCounts(images)[m] == CountMode(images, m)
  {
    if images == [] {
      assert ColorModes(images) == {};
    } else {
      var init := images[..|images| - 1];
      var x := images[|images| - 1];
      ModeCountsCount(init);
      assert init + [x] == images;
      ColorModesSnoc(init, x);
      var c := ColorModeOf(x);
      if c !in ModeCounts(init) {
        CountModeOccurs(init, c);
      }
    }
  }

  /** The sum of a map's values. */
  ghost function MapSum(m: map<string, nat>): nat
    decreases |m|
  {
    if m == map[] then 0
    else
      var k :| k in m;
      m[k] + MapSum(m - {k})
  }

  lemma {:induction false} MapSumRemove(m: map<string, nat>, k: string)
    requires k in m
    ensures MapSum(m) == m[k] + MapSum(m - {k})
    decreases |m|
  {
    var j :| j in m && MapSum(m) == m[j] + MapSum(m - {j});
    if j != k {
      MapSumRemove(m - {j}, k);
      MapSumRemove(m - {k}, j);
      assert (m - {j}) - {k} == (m - {k}) - {j};
    }
  }

  /** Every image is counted exactly once. */
  lemma {:induction false} ModeCountsSum(images: seq<ImageRecord>)
    ensures MapSum(ModeCounts(images)) == |images|
    decreases |images|
  {
    if images != [] {
      var s := images[..|images| - 1];
      ModeCountsSum(s);
      var c := ColorModeOf(images[|images| - 1]);
      var m := ModeCounts(s);
      var m' := ModeCounts(images);
      MapSumRemove(m', c);
      assert m' - {c} == m - {c};
      if c in m {
        MapSumRemove(m, c);
      } else {
        assert m - {c} == m;
      }
    }
  }

  datatype ColorShare = ColorShare(count: nat, percentage: real)

  method GetColorSpaceDistribution(images: seq<ImageRecord>) returns (distribution: map<string, ColorShare>)
    ensures distribution.Keys == ColorModes(images)
    ensures forall m :: m in distribution ==> distribution[m].count == CountMode(images, m)
    ensures forall m :: m in distribution ==>
      |images| > 0 && distribution[m].percentage == Percentage(distribution[m].count, |images|)
  {
    var colorCounts := TallyColorModes(images);
    ModeCountsCount(images);
    var total := |images|;
    assert colorCounts != map[] ==> total > 0 by {
      if colorCounts != map[] {
        var m :| m in colorCounts;
        var k :| 0 <= k < |images| && ColorModeOf(images[k]) == m;
      }
    }
    distribution := SharesOf(colorCounts, total);
  }

  /** The first loop of `get_color_space_distribution`: the tally per colour mode. */
  method TallyColorModes(images: seq<ImageRecord>) returns (colorCounts: map<string, nat>)
    ensures colorCounts == ModeCounts(images)
  {
    colorCounts := map[];
    var i := 0;
    while i < |images|
      invariant 0 <= i <= |images|
      invariant colorCounts == ModeCounts(images[..i])
    {
      var colorMode := ColorModeOf(images[i]);
      assert images[..i + 1][..i] == images[..i];
      colorCounts := colorCounts[colorMode := (if colorMode in colorCounts then colorCounts[colorMode] else 0) + 1];
      i := i + 1;
    }
    assert images[..i] == images;
  }

  /**
   * The second loop, `for color_mode, count in color_counts.items()` (in an
   * unspecified order): each mode's count beside its share of `total` in percent.
   */
  method SharesOf(colorCounts: map<string, nat>, total: nat) returns (distribution: map<string, ColorShare>)
    ensures distribution.Keys == colorCounts.Keys
    ensures forall m :: m in distribution ==>
      distribution[m].count == colorCounts[m] &&
      distribution[m].percentage == if total > 0 then Percentage(colorCounts[m], total) else 0.0
  {
    distribution := map[];
    var remaining := colorCounts.Keys;
    while remaining != {}
      invariant remaining <= colorCounts.Keys
      invariant distribution.Keys == colorCounts.Keys - remaining
      invariant forall m :: m in distribution ==>
        distribution[m].count == colorCounts[m] &&
        distribution[m].percentage == if total > 0 then Percentage(colorCounts[m], total) else 0.0
      decreases remaining
    {
      var colorMode :| colorMode in remaining;
      var count := colorCounts[colorMode];
      var percentage := if total > 0 then Percentage(count, total) else 0.0;
      distribution := distribution[colorMode := ColorShare(count, percentage)];
      remaining := remaining - {colorMode};
    }
  }

  /** Every mode that occurs has a count of at least one, so its share is positive. */
  lemma ModeCountsPositive(images: seq<ImageRecord>, m: string)
    requires m in ColorModes(images)
    ensures 1 <= CountMode(images, m) <= |images|
  {
    CountModeOccurs(images, m);
  }

  /** Every share in the distribution is a positive percentage of at most 100. */
  lemma ShareBounds(images: seq<ImageRecord>, m: string)
    requires m in ColorModes(images)
    ensures 0.0 < Percentage(CountMode(images, m), |images|) <= 100.0
  {
    ModeCountsPositive(images, m);
    PercentageBounds(CountMode(images, m), |images|);
  }

  /** An image whose analysis failed is counted under "Unknown". */
  lemma FailedCountedAsUnknown(images: seq<ImageRecord>, i: int)
    requires 0 <= i < |images| && images[i].Failed?
    ensures "Unknown" in ColorModes(images) && CountMode(images, "Unknown") >= 1
  {
    assert ColorModeOf(images[i]) == "Unknown";
    CountModeOccurs(images, "Unknown");
  }

  // ---------------------------------------------------------------------------
  // validate_pdf_for_print
  // ---------------------------------------------------------------------------

  /** The problems the checks report; the counts and lists are those of the messages. */
  datatype Issue =
    | NoImagesFound
    | LowDpiImages(count: nat, minDpi: int)
    | NonPreferredColorImages(count: nat, modes: set<string>)
    | VeryLargeImages(count: nat)
    | NotFullyAnalyzed(count: nat)

  datatype Recommendation =
    | EnsureEmbeddedImages
    | IncreaseResolutionTo(minDpi: int)
    | ConvertToPreferred(preferred: seq<string>)
    | OptimizeLargeImages
    | CheckCorruptedImages
    | IncreaseResolutionOrQuality
    | EnsureProperlyEmbedded

  const DEFAULT_PREFERRED_MODES: seq<string> := ["CMYK", "Grayscale"]

  /** More than 10 megapixels. */
  const LARGE_PIXEL_COUNT := 10000000

  /** `preferred_modes`, with None replaced by the default list. */
  function PreferredOrDefault(preferredModes: Option<seq<string>>): seq<string> {
    if preferredModes.None? then DEFAULT_PREFERRED_MODES else preferredModes.value
  }

  predicate VeryLarge(img: ImageRecord) {
    WidthOf(img) * HeightOf(img) > LARGE_PIXEL_COUNT
  }

  /** The error is set, or the DPI or the colour mode is missing. */
  predicate Incomplete(img: ImageRecord) {
    OptStrTruthy(ErrorOf(img)) || !IntTruthy(DpiOf(img)) || !StrTruthy(ColorModeOf(img))
  }

  function LowDpiImagesOf(images: seq<ImageRecord>, minDpi: int): seq<ImageRecord> {
    Filter(images, (img: ImageRecord) => LowDpi(img, minDpi))
  }

  function NonPreferredImagesOf(images: seq<ImageRecord>, preferred: seq<string>): seq<ImageRecord> {
    Filter(images, (img: ImageRecord) => NonPreferredColor(img, preferred))
  }

  function VeryLargeImagesOf(images: seq<ImageRecord>): seq<ImageRecord> {
    Filter(images, VeryLarge)
  }

  function IncompleteImagesOf(images: seq<ImageRecord>): seq<ImageRecord> {
    Filter(images, Incomplete)
  }

  /** The order in which the checks run. */
  function IssueRank(issue: Issue): nat {
    match issue
    case NoImagesFound => 0
    case LowDpiImages(_, _) => 1
    case NonPreferredColorImages(_, _) => 2
    case VeryLargeImages(_) => 3
    case NotFullyAnalyzed(_) => 4
  }

  /** The recommendation that goes with each issue. */
  function PrintAdvice(issue: Issue, minDpi: int, preferred: seq<string>): Recommendation {
    match issue
    case NoImagesFound => EnsureEmbeddedImages
    case LowDpiImages(_, _) => IncreaseResolutionTo(minDpi)
    case NonPreferredColorImages(_, _) => ConvertToPreferred(preferred)
    case VeryLargeImages(_) => OptimizeLargeImages
    case NotFullyAnalyzed(_) => CheckCorruptedImages
  }

  /** Issues and recommendations are parallel lists and the issues follow the check order. */
  predicate Paired(issues: seq<Issue>, recommendations: seq<Recommendation>, minDpi: int, preferred: seq<string>) {
    && |issues| == |recommendations|
    && (forall k :: 0 <= k < |issues| ==> recommendations[k] == PrintAdvice(issues[k], minDpi, preferred))
    && (forall j, k :: 0 <= j < k < |issues| ==> IssueRank(issues[j]) < IssueRank(issues[k]))
  }

  /** The count an issue reports (none for the no-images issue). */
  function IssueCount(issue: Issue): nat {
    match issue
    case NoImagesFound => 0
    case LowDpiImages(count, _) => count
    case NonPreferredColorImages(count, _) => count
    case VeryLargeImages(count) => count
    case NotFullyAnalyzed(count) => count
  }

  /** A check reports its issue when the list it filtered is non-empty. */
  predicate Reported(issue: Issue) {
    IssueCount(issue) > 0
  }

  /** Keeping the reported issues of a list in rank order leaves them in rank order. */
  lemma {:induction false} ReportedKeepsOrder(s: seq<Issue>)
    requires forall j, k :: 0 <= j < k < |s| ==> IssueRank(s[j]) < IssueRank(s[k])
    ensures forall j, k :: 0 <= j < k < |Filter(s, Reported)| ==>
      IssueRank(Filter(s, Reported)[j]) < IssueRank(Filter(s, Reported)[k])
  {
    if s != [] {
      var init := s[..|s| - 1];
      ReportedKeepsOrder(init);
      var front := Filter(init, Reported);
      var r := Filter(s, Reported);
      forall j, k | 0 <= j < k < |r| ensures IssueRank(r[j]) < IssueRank(r[k]) {
        if k >= |front| {
          assert r[k] == s[|s| - 1];
          assert r[j] == front[j] && front[j] in init;
          var i :| 0 <= i < |init| && init[i] == front[j];
          assert s[i] == r[j];
        } else {
          assert r[j] == front[j] && r[k] == front[k];
        }
      }
    }
  }

  /** The checks of a non-empty document in the order they run. */
  function CheckList(lowCount: nat, wrongCount: nat, wrongModes: set<string>, largeCount: nat,
                     incompleteCount: nat, minDpi: int): (checks: seq<Issue>)
    ensures forall k :: 0 <= k < |checks| ==> IssueRank(checks[k]) == k + 1
  {
    [LowDpiImages(lowCount, minDpi), NonPreferredColorImages(wrongCount, wrongModes),
     VeryLargeImages(largeCount), NotFullyAnalyzed(incompleteCount)]
  }

  /**
   * The four checks of a non-empty document, from the sizes of the lists they
   * filter: each reports its issue, with its recommendation beside it, when its
   * list is non-empty, and the issues keep the order of the checks.
   */
  function PrintChecks(lowCount: nat, wrongCount: nat, wrongModes: set<string>, largeCount: nat,
                       incompleteCount: nat, minDpi: int, preferred: seq<string>)
    : (result: (seq<Issue>, seq<Recommendation>))
    ensures Paired(result.0, result.1, minDpi, preferred)
    ensures |result.0| <= 4
  {
    var checks := CheckList(lowCount, wrongCount, wrongModes, largeCount, incompleteCount, minDpi);
    var issues := Filter(checks, Reported);
    ReportedKeepsOrder(checks);
    (issues, seq(|issues|, k requires 0 <= k < |issues| => PrintAdvice(issues[k], minDpi, preferred)))
  }

  /** Which issues the checks report: exactly those whose count is positive. */
  lemma PrintChecksReport(lowCount: nat, wrongCount: nat, wrongModes: set<string>, largeCount: nat,
                          incompleteCount: nat, minDpi: int, preferred: seq<string>)
    ensures var issues := PrintChecks(lowCount, wrongCount, wrongModes, largeCount, incompleteCount, minDpi, preferred).0;
      && (LowDpiImages(lowCount, minDpi) in issues <==> lowCount > 0)
      && (NonPreferredColorImages(wrongCount, wrongModes) in issues <==> wrongCount > 0)
      && (VeryLargeImages(largeCount) in issues <==> largeCount > 0)
      && (NotFullyAnalyzed(incompleteCount) in issues <==> incompleteCount > 0)
      && (forall issue :: issue in issues ==>
            issue in CheckList(lowCount, wrongCount, wrongModes, largeCount, incompleteCount, minDpi))
  {
    var checks := CheckList(lowCount, wrongCount, wrongModes, largeCount, incompleteCount, minDpi);
    var issues := Filter(checks, Reported);
    forall k | 0 <= k < |checks|
      ensures checks[k] in issues <==> Reported(checks[k])
    {
      if Reported(checks[k]) {
        FilterKeeps(checks, Reported, k);
      }
      if checks[k] in issues {
        var j :| 0 <= j < |issues| && issues[j] == checks[k];
      }
    }
    assert checks[0] == LowDpiImages(lowCount, minDpi);
    assert checks[1] == NonPreferredColorImages(wrongCount, wrongModes);
    assert checks[2] == VeryLargeImages(largeCount);
    assert checks[3] == NotFullyAnalyzed(incompleteCount);
  }

  function ValidatePdfForPrint(images: seq<ImageRecord>, minDpi: int := 300,
                               preferredModes: Option<seq<string>> := None)
    : (result: (seq<Issue>, seq<Recommendation>))
    ensures images == [] ==> result == ([NoImagesFound], [EnsureEmbeddedImages])
    ensures Paired(result.0, result.1, minDpi, PreferredOrDefault(preferredModes))
    ensures |result.0| <= 4
  {
    var preferred := PreferredOrDefault(preferredModes);
    if images == [] then ([NoImagesFound], [EnsureEmbeddedImages])
    else
      var low := LowDpiImagesOf(images, minDpi);
      var wrong := NonPreferredImagesOf(images, preferred);
      var large := VeryLargeImagesOf(images);
      var corrupted := IncompleteImagesOf(images);
      PrintChecks(|low|, |wrong|, ColorModes(wrong), |large|, |corrupted|, minDpi, preferred)
  }

  /**
   * For a document with images, each issue is reported, with the size of its
   * list, exactly when some image fails that check, and nothing else is
   * reported.
   */
  lemma ValidateReportsIssues(images: seq<ImageRecord>, minDpi: int, preferredModes: Option<seq<string>>)
    requires images != []
    ensures var issues := ValidatePdfForPrint(images, minDpi, preferredModes).0;
      var preferred := PreferredOrDefault(preferredModes);
      var wrong := NonPreferredImagesOf(images, preferred);
      && (LowDpiImages(|LowDpiImagesOf(images, minDpi)|, minDpi) in issues <==>
          exists i :: 0 <= i < |images| && LowDpi(images[i], minDpi))
      && (NonPreferredColorImages(|wrong|, ColorModes(wrong)) in issues <==>
          exists i :: 0 <= i < |images| && NonPreferredColor(images[i], preferred))
      && (VeryLargeImages(|VeryLargeImagesOf(images)|) in issues <==>
          exists i :: 0 <= i < |images| && VeryLarge(images[i]))
      && (NotFullyAnalyzed(|IncompleteImagesOf(images)|) in issues <==>
          exists i :: 0 <= i < |images| && Incomplete(images[i]))
  {
    var preferred := PreferredOrDefault(preferredModes);
    var low := LowDpiImagesOf(images, minDpi);
    var wrong := NonPreferredImagesOf(images, preferred);
    var large := VeryLargeImagesOf(images);
    var corrupted := IncompleteImagesOf(images);
    FilterEmptyIff(images, (img: ImageRecord) => LowDpi(img, minDpi));
    FilterEmptyIff(images, (img: ImageRecord) => NonPreferredColor(img, preferred));
    FilterEmptyIff(images, VeryLarge);
    FilterEmptyIff(images, Incomplete);
    PrintChecksReport(|low|, |wrong|, ColorModes(wrong), |large|, |corrupted|, minDpi, preferred);
  }

  /** Only the four checks' issues are ever reported for a document with images. */
  lemma ValidateReportsNothingElse(images: seq<ImageRecord>, minDpi: int, preferredModes: Option<seq<string>>)
    requires images != []
    ensures var issues := ValidatePdfForPrint(images, minDpi, preferredModes).0;
      var wrong := NonPreferredImagesOf(images, PreferredOrDefault(preferredModes));
      forall issue :: issue in issues ==>
        issue == LowDpiImages(|LowDpiImagesOf(images, minDpi)|, minDpi) ||
        issue == NonPreferredColorImages(|wrong|, ColorModes(wrong)) ||
        issue == VeryLargeImages(|VeryLargeImagesOf(images)|) ||
        issue == NotFullyAnalyzed(|IncompleteImagesOf(images)|)
  {
    var preferred := PreferredOrDefault(preferredModes);
    var low := LowDpiImagesOf(images, minDpi);
    var wrong := NonPreferredImagesOf(images, preferred);
    var large := VeryLargeImagesOf(images);
    var corrupted := IncompleteImagesOf(images);
    PrintChecksReport(|low|, |wrong|, ColorModes(wrong), |large|, |corrupted|, minDpi, preferred);
  }

  /** The default criteria are 300 DPI and CMYK or grayscale. */
  lemma ValidateDefaults(images: seq<ImageRecord>)
    ensures ValidatePdfForPrint(images) == ValidatePdfForPrint(images, 300, Some(["CMYK", "Grayscale"]))
  {
  }

  /** A failed record is always reported as not fully analyzed. */
  lemma FailedIsIncomplete(images: seq<ImageRecord>, i: int, minDpi: int, preferredModes: Option<seq<string>>)
    requires 0 <= i < |images| && images[i].Failed?
    ensures NotFullyAnalyzed(|IncompleteImagesOf(images)|) in ValidatePdfForPrint(images, minDpi, preferredModes).0
  {
    assert Incomplete(images[i]);
    ValidateReportsIssues(images, minDpi, preferredModes);
  }
}
