# PDF image quality analyzer — a verified model

pdf-analyzer is a desktop/web tool for print preflight. It opens a PDF, walks
every embedded image page by page, and gives each image a resolution (DPI),
a colour mode, a format and a file size. The DPI is read from the JFIF or
PNG `pHYs` header of the stored bytes; when those give nothing, it is
estimated from the pixel count. The tool then judges the images against a
minimum DPI and a list of preferred colour modes. It shows:

- a results table;
- quality summary statistics;
- a colour-space distribution;
- a list of print issues with a recommendation for each;
- an overall PASS / FAIL / N/A verdict;
- an image grid.

This project models that core:

- the analyzer (`pdf_analyzer.py`);
- the reporting helpers (`utils.py`);
- the decision logic embedded in the Streamlit front end (`main.py`).

It proves what each operation computes and how the operations relate.

Modules:

- `Common` (common.dfy) holds shared building blocks:
  - an Option type and bytes;
  - ASCII `lower`/`upper`;
  - decimal rendering of integers, with its inverse;
  - the list-comprehension filter, with its membership and emptiness lemmas.
- `Records` (records.dfy) holds the per-image record. It has two shapes: the
  full dict of a successful analysis, and the short dict of the per-image
  exception handler. The accessors reproduce `img.get(key, default)` and
  Python truthiness. The rules shared by the table, the summary and the
  front end live here as well: DPI meets the minimum, colour preferred, high
  quality, low DPI, non-preferred colour.
- `PdfAnalyzer` (pdf_analyzer.dfy) holds the analyzer:
  - `bytes.find` and big-endian unpacking;
  - the JPEG/PNG/TIFF DPI extractors and the format dispatch;
  - the colour-mode and DPI-estimate rules;
  - one image's record;
  - the page walk of `analyze_pdf`.

  The PDF library is abstracted as a `Document`, which holds the open error
  (if any) and, per page, its image entries. Each entry holds what the
  library reports for it: pixmap size, channels, alpha, the exceptions
  raised, the `extract_image` result and the preview.
- `Utils` (utils.py's five functions) holds:
  - file-size text;
  - results-table rows;
  - quality summary;
  - colour distribution;
  - print validation.
- `MainRules` (main.py's decision logic) holds:
  - the upload size gate;
  - the overall verdict;
  - the recommendations panel;
  - the grid's summary counts;
  - the single-image card's status and quality badge.

Strings shown to the user are modelled as data:

- Issues and recommendations are datatypes carrying the counts and mode
  sets that the messages interpolate.
- A file size is either exact byte text or a scaled amount with its unit.

The PNG reader truncates: `int(3937 / 39.3701)` is `int(99.9997)`, so a PNG
storing 3937 px/m reads as 99 DPI, and one written at 300 DPI (11811 px/m)
reads as 299.

## Model

| member | source | states |
|---|---|---|
| PdfAnalyzer.Find | pdf_analyzer.py:184 | The offset returned is the first occurrence of the tag; None means the tag occurs nowhere (Python's -1) |
| PdfAnalyzer.FindFrom | pdf_analyzer.py:184 | A hit at or after `start` has no earlier hit at or after `start`; None means none exists from `start` on |
| PdfAnalyzer.FirstOccurrenceUnique | pdf_analyzer.py:184 | The first occurrence of a tag is unique, so the extractors read a well-defined position |
| PdfAnalyzer.BigEndian16 | pdf_analyzer.py:190 | `struct.unpack('>H')` yields a value below 2^16 |
| PdfAnalyzer.BigEndian32 | pdf_analyzer.py:209 | `struct.unpack('>I')` yields a value below 2^32 |
| PdfAnalyzer.Bytes16 | pdf_analyzer.py:190 | Packing a 16-bit value big-endian and unpacking it gives the value back |
| PdfAnalyzer.Bytes32 | pdf_analyzer.py:209 | Packing a 32-bit value big-endian and unpacking it gives the value back |
| PdfAnalyzer.BigEndian32Halves | pdf_analyzer.py:209 | A 32-bit big-endian value is its high 16-bit half times 2^16 plus its low half |
| PdfAnalyzer.ExtractJpegDpi | pdf_analyzer.py:180-198 | No JFIF marker, or too few bytes after the first one, gives no value. Otherwise unit 1 gives the X density, unit 2 gives the density times 2.54 truncated, and any other unit gives no value. Results are bounded by 166458 |
| PdfAnalyzer.ExtractPngDpi | pdf_analyzer.py:200-216 | No pHYs marker, or the unit byte at offset 12 outside the buffer, gives no value. Otherwise unit 1 (metres) gives X pixels per metre divided by 39.3701, truncated; any other unit gives no value |
| PdfAnalyzer.ExtractDpiFromImageData | pdf_analyzer.py:166-178 | Dispatches on the lower-cased format. jpg/jpeg go to the JPEG reader and png to the PNG reader. Only those formats can yield a value; tif/tiff and everything else give none |
| PdfAnalyzer.ExtractTiffDpi | pdf_analyzer.py:218-226 | The TIFF reader never yields a DPI, so TIFF images always get the estimate |
| PdfAnalyzer.DpcmToDpi | pdf_analyzer.py:195 | `int(x * 2.54)`: the largest whole number of dots per inch not above x dots per centimetre |
| PdfAnalyzer.PpmToDpi | pdf_analyzer.py:213 | `int(x / 39.3701)`: the largest whole number of dots per inch not above x pixels per metre |
| PdfAnalyzer.FirstOccurrenceAfterPrefix | pdf_analyzer.py:184 | A marker placed after a marker-free prefix is found exactly there, because no marker byte repeats its first byte |
| PdfAnalyzer.JfifFields | pdf_analyzer.py:187-190 | The APP0 field layout that the JPEG reader expects: identifier, NUL, version, unit, two 16-bit densities |
| PdfAnalyzer.JpegDensityRoundTrip | pdf_analyzer.py:180-198 | Any buffer holding a well-formed JFIF header after a marker-free prefix reads back its unit's DPI: the density, its dpcm conversion, or none |
| PdfAnalyzer.PhysChunk | pdf_analyzer.py:207-210 | The pHYs chunk layout that the PNG reader expects: type, two 32-bit densities, unit |
| PdfAnalyzer.PngDensityRoundTrip | pdf_analyzer.py:200-216 | Any buffer holding a well-formed pHYs chunk after a marker-free prefix reads back the converted X density when the unit is metres, and nothing otherwise |
| PdfAnalyzer.JpegExamples | pdf_analyzer.py:192-195 | Worked values: 300 dpi stays 300; 100 dots/cm become 254; unit 0 and a marker-less buffer give no value |
| PdfAnalyzer.PngExamples | pdf_analyzer.py:212-213 | Worked values: 3937 px/m reads as 99 DPI, not 100; unit 0 gives no value |
| PdfAnalyzer.Png300DpiReadsAs299 | pdf_analyzer.py:213 | A PNG stored at 300 DPI (11811 px/m) is read back as 299 DPI |
| PdfAnalyzer.DispatchIgnoresCase | pdf_analyzer.py:169-174 | "JPG" and "PNG" reach the same readers as their lower-case names; "TIFF" yields no value |
| PdfAnalyzer.ColorMode | pdf_analyzer.py:131-145 | Every channel count gets a non-empty colour label |
| PdfAnalyzer.ColorModeInjective | pdf_analyzer.py:131-145 | The label determines the channel count, and for four channels it also determines the alpha flag (RGBA vs CMYK) |
| PdfAnalyzer.EstimateDpi | pdf_analyzer.py:147-164 | The estimate is always one of 72, 150, 180, 240, 300 |
| PdfAnalyzer.EstimateDpiMonotone | pdf_analyzer.py:152-164 | More pixels never lower the estimate |
| PdfAnalyzer.EstimateDpiBoundaries | pdf_analyzer.py:155-162 | The thresholds are strict: a pixel count exactly at 6M, 2M, 1M or 0.5M falls to the lower band |
| PdfAnalyzer.MetadataDpi | pdf_analyzer.py:86-97 | A metadata DPI exists only when `extract_image` succeeded and its extension is one of the case-sensitive jpg, jpeg, png (tiff is listed but yields nothing); for a listed extension it is the dispatcher's reading of the bytes |
| PdfAnalyzer.RecordFor | pdf_analyzer.py:64-129 | A failure while reading the pixmap gives the short error record with the same page and number. Otherwise the record carries the pixmap's size, channels and colour label, bit depth 8, and the preview. The DPI is always positive: it is the metadata DPI (method "extracted") exactly when that is truthy, and else the estimate. Without `extract_image` the file size is 0 and the format is unset; with it they are the byte length and the upper-cased extension |
| PdfAnalyzer.AnalyzeImage | pdf_analyzer.py:64-129 | The field-by-field construction of the image dict yields exactly the record described by RecordFor |
| PdfAnalyzer.PreviewIndependent | pdf_analyzer.py:110-114 | Whether the preview succeeds changes no field of the record other than the preview |
| PdfAnalyzer.UnlistedExtensionIsEstimated | pdf_analyzer.py:93 | The extension check is case-sensitive and omits 'tif', so for 'tif', 'JPG', 'PNG' and 'TIFF' the DPI is always estimated |
| PdfAnalyzer.FirstPixmapErrorAppend | pdf_analyzer.py:30-39 | The first pixmap failure of a concatenated walk is the left part's, if it has one |
| PdfAnalyzer.WalkRecordsSnoc | pdf_analyzer.py:34-45 | Adding one more entry to the walk appends exactly its record, numbered by the walk length |
| PdfAnalyzer.PageSlotsSnoc | pdf_analyzer.py:34 | Enumerating one more image of a page appends that image, tagged with its page |
| PdfAnalyzer.AnalyzePageImages | pdf_analyzer.py:32-48 | The inner loop reports the page's first pixmap failure. Without one, it appends the records of all the page's entries, numbered on from the running count |
| PdfAnalyzer.WalkStep | pdf_analyzer.py:30-48 | After one page, either its first failure becomes the whole analysis's error result, or the walk continues with no failure so far |
| PdfAnalyzer.AnalyzePdf | pdf_analyzer.py:14-62 | The page loop returns exactly the analysis of the document. An open error or the first pixmap error gives the zeroed error result. Otherwise the result is the page count, the number of records, and the records in walk order |
| PdfAnalyzer.SlotsFromShape | pdf_analyzer.py:30-35 | The walk has one slot per entry, page numbers in range and never decreasing |
| PdfAnalyzer.Analysis | pdf_analyzer.py:14-62 | The result errs exactly when the open fails or some pixmap creation fails; an open failure gives the zeroed error result with its message; on success the page count is the document's and the image total is the number of records, one per image entry |
| PdfAnalyzer.AnalysisOrder | pdf_analyzer.py:35-45 | On success the images are numbered 1..n in walk order; their pages lie in 1..total_pages and never decrease |
| PdfAnalyzer.AnalysisCounts | pdf_analyzer.py:20-50 | On success `total_images` equals the number of records, which equals the number of image entries, and `total_pages` is the page count |
| PdfAnalyzer.AnalysisErrorShape | pdf_analyzer.py:55-62 | On error the totals are 0 and the image list is empty |
| PdfAnalyzer.FirstPixmapErrorIff | pdf_analyzer.py:39 | A first pixmap failure exists iff some entry's pixmap creation fails |
| PdfAnalyzer.SlotsFromFailureSource | pdf_analyzer.py:30-39 | Every failing slot of the walk comes from a failing entry on one of the walked pages |
| PdfAnalyzer.SlotsFromFailureShown | pdf_analyzer.py:30-39 | Every failing entry on a walked page shows up among the walk's slots |
| PdfAnalyzer.AnalysisErrorIff | pdf_analyzer.py:14-62 | The analysis errs iff the document fails to open or some image's pixmap cannot be created |
| PdfAnalyzer.NoEntriesNoSlots | pdf_analyzer.py:30-34 | Pages without image entries contribute nothing to the walk |
| PdfAnalyzer.AnalysisWithoutImages | pdf_analyzer.py:20-53 | A document whose pages hold no images gives no error, its page count, and zero images |
| PdfAnalyzer.AnalysisDpiPositive | pdf_analyzer.py:102-105 | Every successfully analysed record has a positive DPI and a non-empty colour mode |
| Utils.Pow1024 | utils.py:12-14 | The unit scale 1024^i is at least 1 |
| Utils.UnitIndex | utils.py:8-14 | The chosen unit is the largest of B..TB whose scale does not exceed the size |
| Utils.UnitIndexUnique | utils.py:12-14 | Only one unit index satisfies the loop's exit bounds |
| Utils.Percentage | utils.py:114 | `part / total * 100`, characterised by percentage × total = part × 100 |
| Utils.PercentageBounds | utils.py:114 | A part of a total is between 0 and 100 percent, and positive when the part is |
| Utils.FormatFileSize | utils.py:3-19 | The divide-by-1024 loop yields the label of FileSizeLabel: "0 B", exact bytes below 1 KB, otherwise the size scaled to its unit |
| Utils.LoopExitLabel | utils.py:12-19 | Whichever bound stops the loop, the value it ends with, rendered in its unit, is the file-size label |
| Utils.FileSizeLabelRange | utils.py:3-19 | Below 1024 the label is the byte count. At 1024 or more it is a scaled amount with a unit above bytes, at least 1, below 1024 unless the unit is TB, and exactly the size divided by the unit's scale |
| Utils.ScaledLabelRange | utils.py:12-19 | For 1 KB or more, the size divided by its unit's scale is at least 1, below 1024 unless the unit is TB, and times the scale gives the size back |
| Utils.FileSizeExamples | utils.py:3-19 | Worked values: 1023 B, 1.0 KB, 1.5 KB, 1.0 MB, and 1024.0 TB (TB is the largest unit) |
| Utils.QualityBand | utils.py:51-59 | Excellent iff DPI ≥ 300, Good iff 250 ≤ DPI < 300, Acceptable iff 150 ≤ DPI < 250, Poor iff DPI is missing, zero, or below 150 |
| Utils.QualityBandMonotone | utils.py:51-59 | A higher DPI never gives a lower quality band |
| Utils.Dimensions | utils.py:64 | The dimension text is "Unknown" exactly when width or height is zero |
| Utils.PrintSize | utils.py:39-41 | Each print side in inches times the DPI equals its pixel length |
| Utils.RowFor | utils.py:28-74 | Each row's three statuses pass exactly under the shared rules. The DPI cell is "Unknown" iff the DPI is falsy. The print size is unknown iff width, height or DPI is falsy, and otherwise is pixels / DPI. The Quality cell is `QualityBand` of the DPI and the File Size cell is `FileSizeLabel` of the file size. A falsy DPI always means FAIL and Poor. A failed record shows colour "Unknown" and format "Unknown" |
| Utils.CreateResultsTable | utils.py:21-76 | One row per image, in order, the i-th numbered i+1 and equal to RowFor; no images give an empty table |
| Utils.DpiValues | utils.py:99-101 | The collected DPI values are all non-zero, at most one per image, and empty iff no image has a truthy DPI |
| Utils.SumBounds | utils.py:113 | A sum of values in [lo, hi] lies between n × lo and n × hi |
| Utils.MeanBounds | utils.py:113 | The average of values in [lo, hi] lies in [lo, hi] |
| Utils.DpiValuesWithin | utils.py:99-101 | Every collected DPI value lies within any bounds that hold for the images' truthy DPIs |
| Utils.AverageDpiWithin | utils.py:113 | The average DPI lies within any bounds on the truthy DPIs when at least one image has one, and is 0 when none has |
| Utils.SummaryStep | utils.py:95-111 | One more image raises the pass, high-quality and DPI tallies exactly by its own contribution |
| Utils.GetQualitySummary | utils.py:78-123 | The totals are the image count, the number of images meeting the criteria, and the number with DPI ≥ 300. The fail count is the rest. The pass rate is the pass share in percent, between 0 and 100. The average DPI is the mean of the truthy DPIs. No images give all zeros |
| Utils.PassCountMatchesTable | utils.py:47-108 | The summary's pass count equals the number of table rows whose overall status is PASS |
| Utils.CountMode | utils.py:129-131 | A mode's count never exceeds the number of images |
| Utils.ColorModesSnoc | utils.py:129-131 | One more image adds exactly its own colour mode to the set of modes |
| Utils.CountModeOccurs | utils.py:129-131 | A mode's count is positive exactly when the mode occurs |
| Utils.ModeCountsCount | utils.py:127-131 | The tally's keys are exactly the colour modes that occur; each key maps to the number of images carrying it |
| Utils.MapSumRemove | utils.py:136 | Summing a map's values may start with any key |
| Utils.ModeCountsSum | utils.py:127-131 | The counts sum to the number of images: every image is counted once |
| Utils.GetColorSpaceDistribution | utils.py:125-143 | The distribution's keys are exactly the modes that occur. Each holds the number of images with that mode and its share of all images in percent |
| Utils.TallyColorModes | utils.py:127-131 | The first loop leaves exactly the tally ModeCounts, which ModeCountsCount ties to the per-mode counts |
| Utils.SharesOf | utils.py:133-141 | The loop over the tally's items, in any order, gives every mode and no other its count and its share of the total in percent (0 for an empty total) |
| Utils.ModeCountsPositive | utils.py:131 | A mode that occurs is counted at least once and at most once per image |
| Utils.ShareBounds | utils.py:137 | Every share in the distribution is positive and at most 100 percent |
| Utils.FailedCountedAsUnknown | utils.py:130 | A failed image is counted under "Unknown" |
| Utils.ReportedKeepsOrder | utils.py:158-181 | Dropping checks that found nothing keeps the issues in check order |
| Utils.CheckList | utils.py:158-181 | The four checks run in the order low DPI, colour, size, incomplete |
| Utils.PrintChecks | utils.py:158-183 | The issues are paired one-to-one with their recommendations, in check order, at most four |
| Utils.PrintChecksReport | utils.py:158-181 | A check's issue is reported exactly when its count is positive, and only the four checks' issues are reported |
| Utils.ValidatePdfForPrint | utils.py:145-183 | No images give only "no images found" / "ensure embedded images". Otherwise the issues and recommendations are paired one-to-one, in check order, at most four |
| Utils.ValidateReportsIssues | utils.py:158-181 | For a non-empty image list, each of the four issues is reported iff some image has a truthy DPI below the minimum, has a truthy non-preferred colour mode, exceeds 10 megapixels, or has an error or lacks a truthy DPI or colour mode (respectively) |
| Utils.ValidateReportsNothingElse | utils.py:150-181 | Nothing but those four issues is ever reported for a non-empty list |
| Utils.ValidateDefaults | utils.py:145-148 | The defaults are minimum 300 DPI and preferred modes CMYK and Grayscale |
| Utils.FailedIsIncomplete | utils.py:178-181 | A failed image always makes the "could not be fully analyzed" issue appear |
| MainRules.OversizedNames | main.py:242-246 | The list holds the name of every file above the limit and only names of such files |
| MainRules.CheckUploadSizes | main.py:241-250 | The loop collects exactly the oversized names; the upload proceeds iff no file exceeds the limit |
| MainRules.OversizedNamesEmptyIff | main.py:248 | The error branch is taken iff some file is above the limit |
| MainRules.UploadLimitBoundary | main.py:245 | A file of exactly the limit passes, and one byte more is rejected |
| MainRules.AnyViolation | main.py:511-518 | The scan finds a violation iff some image has a truthy DPI below the minimum or a truthy non-preferred colour mode |
| MainRules.DetermineOverallStatus | main.py:506-520 | N/A iff the total is zero; otherwise FAIL iff some image violates a rule, and PASS otherwise |
| MainRules.StatusOfAnalysis | main.py:508-509 | For an analysed document the verdict is N/A exactly when no image records were produced |
| MainRules.AllMeetingImpliesPass | main.py:510-520 | If every image meets the criteria the verdict is PASS |
| MainRules.StatusOfAnalyzedImages | main.py:506-520 | For an analysed document with images, and preferred modes that do not include "Unknown", the verdict is PASS iff every image meets the criteria |
| MainRules.PanelChecks | main.py:529-546 | The panel runs three checks, in the order low DPI, colour, missing data |
| MainRules.DisplayRecommendations | main.py:522-546 | At most three issues, in check order, each paired with its recommendation |
| MainRules.PanelChecksReport | main.py:531-546 | Each of the panel's checks is reported exactly when its count is positive |
| MainRules.PanelReportsIssues | main.py:529-546 | The panel's issues are reported iff some image has a low truthy DPI, a non-preferred truthy colour mode, or lacks a truthy DPI or colour mode (respectively) |
| MainRules.PanelReportsNothingElse | main.py:526-546 | The panel shows nothing but those three issues |
| MainRules.StatusMatchesPanel | main.py:506-546 | For a document with images, the verdict is FAIL iff the panel reports low-DPI or non-preferred colour images |
| MainRules.UnknownIffIncomplete | main.py:543 | An image lacks a truthy DPI or colour mode exactly when the print validation's incomplete test (utils.py:178) holds for it: error records never carry a DPI |
| MainRules.UnknownImagesAreIncompleteImages | main.py:543 | The panel's "missing data" list and the print validation's "could not be fully analyzed" list are the same list |
| MainRules.DisplayImageGridCounts | main.py:559-606 | No images give no summary. Otherwise the counts are the image count, the images meeting the criteria, and those with DPI ≥ 300, and the pass rate is the passing images' share of all images, between 0 and 100 percent |
| MainRules.SingleImageBadge | main.py:627-649 | The card passes exactly when the DPI meets the minimum and the colour is preferred; Excellent iff DPI ≥ 300; Poor iff DPI is falsy or below 150 |
| MainRules.BadgeMatchesRow | main.py:627-649 | The card's own pass test and band chain agree with the results-table row for the same image: same verdict, same quality band |

## Left out

- Streamlit layout, HTML and CSS, the charts, and the PASS/FAIL cell colouring of the pandas DataFrame styler (main.py:410-418 and main.py:471-480) are left out. Only the decisions that choose what is shown are modelled.
- The `.1f`, `.2f` and `.0f` number formatting in the file-size text, the print size and the grid's pass rate are not modelled. The model keeps the exact real values, including the grid's pass rate in `MainRules.GridCounts`. `get_quality_summary` returns its pass rate and average DPI unformatted; the model keeps them as exact reals.
- The PDF library (PyMuPDF) is not modelled. `Document` and `ImageEntry` stand for what it reports for each page and image, including the exceptions it raises.
- A failure of `page.get_images` or `doc.close` is not modelled as a separate case.
- `_create_preview`, the PIL thumbnailing and the base64 encoding are not modelled. The preview is an opaque value of the entry.
- `extract_image` is modelled as either raising or returning a well-formed dict. A dict missing 'image' or 'ext' halfway through is not modelled.
- The 'pixel_density' and 'original_colorspace' keys are not stored. Nothing in the core reads them.
- Floating point is not modelled:
  - `int(x * 2.54)` is modelled as `x * 254 / 100`, truncated.
  - `int(x / 39.3701)` is modelled as `x * 10000 / 393701`, truncated.
  - The file-size division uses exact reals, which differ from `float` above 2^53 bytes.
- The order of the colour modes in the ", "-joined issue text comes from Python set iteration. It is modelled as a set.
- `get_color_space_distribution` returns a dict whose modes follow first-occurrence order (utils.py:127-141). The model returns an unordered map, so that order is not captured; nothing in the core reads it.
- `Lower` and `Upper` map ASCII letters only. Python's Unicode case mapping of other letters is not modelled.
- Logging is left out; an exception handler whose only effect is a log line is modelled as doing nothing.
- The averages shown elsewhere in main.py are left out, as are setup.py, dmg_settings.py and app_launcher.py. They are packaging and page rendering.
- Utils.ValidatePdfForPrint: the function's own contract states only the empty case, the pairing and the order. Which issues appear is stated by Utils.ValidateReportsIssues and Utils.ValidateReportsNothingElse.
- MainRules.DisplayRecommendations: the function's own contract states the pairing and the order. Which issues appear is stated by MainRules.PanelReportsIssues and MainRules.PanelReportsNothingElse.
- Recommendations are built as a map over the reported issues, where the source appends to two parallel lists. The resulting lists are the same.
