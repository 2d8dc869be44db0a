/**
 * The decisions the Streamlit front end (main.py) takes on the analysis
 * results, as opposed to how it draws them: the upload size gate, the overall
 * PASS/FAIL/N/A verdict, the recommendations panel, the counts above the image
 * grid and the badge of a single image card.
 */
module MainRules {
  import opened Common
  import opened Records
  import opened PdfAnalyzer
  import opened Utils

  // ---------------------------------------------------------------------------
  // The upload size gate
  // ---------------------------------------------------------------------------

  /** An uploaded file: its name and the length of its content in bytes. */
  datatype Upload = Upload(name: string, size: nat)

  const MEBIBYTE: nat := 1024 * 1024

  /** Larger than the limit, which is given in megabytes. */
  predicate Oversized(size: int, maxFileSizeMb: int) {
    size > maxFileSizeMb * MEBIBYTE
  }

  /** The names of the oversized files, in upload order. */
  function OversizedNames(files: seq<Upload>, maxFileSizeMb: int): (names: seq<string>)
    ensures |names| <= |files|
    ensures forall i :: 0 <= i < |files| && Oversized(files[i].size, maxFileSizeMb) ==> files[i].name in names
    ensures forall n :: n in names ==>
      exists i :: 0 <= i < |files| && files[i].name == n && Oversized(files[i].size, maxFileSizeMb)
  {
    if files == [] then []
    else
      var last := files[|files| - 1];
      OversizedNames(files[..|files| - 1], maxFileSizeMb) +
      (if Oversized(last.size, maxFileSizeMb) then [last.name] else [])
  }

  /**
   * Collects the oversized files; the analysis goes ahead only when there are
   * none.
   */
  method CheckUploadSizes(files: seq<Upload>, maxFileSizeMb: int) returns (oversized: seq<string>, proceed: bool)
    ensures oversized == OversizedNames(files, maxFileSizeMb)
    ensures proceed <==> forall i :: 0 <= i < |files| ==> !Oversized(files[i].size, maxFileSizeMb)
  {
    oversized := [];
    var i := 0;
    while i < |files|
      invariant 0 <= i <= |files|
      invariant oversized == OversizedNames(files[..i], maxFileSizeMb)
    {
      assert files[..i + 1][..i] == files[..i];
      var fileSize := files[i].size;
      if fileSize > maxFileSizeMb * 1024 * 1024 {
        oversized := oversized + [files[i].name];
      }
      i := i + 1;
    }
    assert files[..i] == files;
    OversizedNamesEmptyIff(files, maxFileSizeMb);
    proceed := oversized == [];
  }

  /** No names are collected exactly when no file is over the limit. */
  lemma OversizedNamesEmptyIff(files: seq<Upload>, maxFileSizeMb: int)
    ensures OversizedNames(files, maxFileSizeMb) == [] <==>
      forall i :: 0 <= i < |files| ==> !Oversized(files[i].size, maxFileSizeMb)
  {
    var names := OversizedNames(files, maxFileSizeMb);
    if names != [] {
      assert names[0] in names;
    }
  }

  /** A file of exactly the limit is accepted; one byte more is not. */
  lemma UploadLimitBoundary(maxFileSizeMb: nat)
    ensures !Oversized(maxFileSizeMb * 1024 * 1024, maxFileSizeMb)
    ensures Oversized(maxFileSizeMb * 1024 * 1024 + 1, maxFileSizeMb)
  {
  }

  // ---------------------------------------------------------------------------
  // determine_overall_status
  // ---------------------------------------------------------------------------

  datatype OverallStatus = NotApplicable | OverallPass | OverallFail

  /** An image that makes the whole document fail: a truthy DPI below the minimum, or a truthy colour mode that is not preferred. */
  predicate Violates(img: ImageRecord, minDpi: int, preferred: seq<string>) {
    LowDpi(img, minDpi) || NonPreferredColor(img, preferred)
  }

  /** The scan over the images, stopping at the first one that violates the criteria. */
  function AnyViolation(images: seq<ImageRecord>, minDpi: int, preferred: seq<string>): (found: bool)
    ensures found <==> exists i :: 0 <= i < |images| && Violates(images[i], minDpi, preferred)
  {
    if images == [] then false
    else if LowDpi(images[0], minDpi) then true
    else if NonPreferredColor(images[0], preferred) then true
    else
      var rest := images[1..];
      assert forall i :: 1 <= i < |images| ==> images[i] == rest[i - 1];
      AnyViolation(rest, minDpi, preferred)
  }

  function DetermineOverallStatus(results: AnalysisResult, minDpi: int, preferred: seq<string>): (status: OverallStatus)
    ensures status == NotApplicable <==> results.totalImages == 0
    ensures results.totalImages != 0 ==>
      (status == OverallFail <==> exists i :: 0 <= i < |results.images| && Violates(results.images[i], minDpi, preferred))
  {
    if results.totalImages == 0 then NotApplicable
    else if AnyViolation(results.images, minDpi, preferred) then OverallFail
    else OverallPass
  }

  /** On the analyzer's output the verdict is "N/A" exactly when the document has no images (or could not be read). */
  lemma StatusOfAnalysis(doc: Document, minDpi: int, preferred: seq<string>)
    ensures var res := Analysis(doc);
      DetermineOverallStatus(res, minDpi, preferred) == NotApplicable <==> res.images == []
  {
    AnalysisCounts(doc);
  }

  /** When every image meets the criteria, the document passes. */
  lemma AllMeetingImpliesPass(results: AnalysisResult, minDpi: int, preferred: seq<string>)
    requires results.totalImages != 0
    requires forall i :: 0 <= i < |results.images| ==> MeetsCriteria(results.images[i], minDpi, preferred)
    ensures DetermineOverallStatus(results, minDpi, preferred) == OverallPass
  {
    forall i | 0 <= i < |results.images|
      ensures !Violates(results.images[i], minDpi, preferred)
    {
      assert MeetsCriteria(results.images[i], minDpi, preferred);
    }
  }

  /**
   * On the analyzer's records, and when "Unknown" is not an accepted colour
   * space, the converse holds too: the document passes exactly when every
   * image meets the criteria. (A failed record has no DPI and the colour mode
   * "Unknown", so it fails on colour.)
   */
  lemma StatusOfAnalyzedImages(doc: Document, minDpi: int, preferred: seq<string>)
    requires "Unknown" !in preferred
    ensures var res := Analysis(doc);
      res.totalImages != 0 ==>
        (DetermineOverallStatus(res, minDpi, preferred) == OverallPass <==>
         forall i :: 0 <= i < |res.images| ==> MeetsCriteria(res.images[i], minDpi, preferred))
  {
    var res := Analysis(doc);
    AnalysisDpiPositive(doc);
    forall i | 0 <= i < |res.images|
      ensures Violates(res.images[i], minDpi, preferred) <==> !MeetsCriteria(res.images[i], minDpi, preferred)
    {
    }
  }

  // ---------------------------------------------------------------------------
  // display_recommendations
  // ---------------------------------------------------------------------------

  /**
   * `not img.get('dpi') or not img.get('color_mode')`. Unlike the print
   * validation it does not test 'error', which makes no difference: an error
   * record never has a DPI.
   */
  predicate Unknown(img: ImageRecord) {
    !IntTruthy(DpiOf(img)) || !StrTruthy(ColorModeOf(img))
  }

  function UnknownImagesOf(images: seq<ImageRecord>): seq<ImageRecord> {
    Filter(images, Unknown)
  }

  /** The panel's recommendation for each issue. */
  function PanelAdvice(issue: Issue, preferred: seq<string>): Recommendation {
    match issue
    case LowDpiImages(_, _) => IncreaseResolutionOrQuality
    case NonPreferredColorImages(_, _) => ConvertToPreferred(preferred)
    case _ => EnsureProperlyEmbedded
  }

  /** The panel's three checks, in their order, from the sizes of the lists they filter. */
  function PanelChecks(lowCount: nat, wrongCount: nat, wrongModes: set<string>, unknownCount: nat,
                       minDpi: int): (checks: seq<Issue>)
    ensures |checks| == 3
    ensures IssueRank(checks[0]) == 1 && IssueRank(checks[1]) == 2 && IssueRank(checks[2]) == 4
  {
    [LowDpiImages(lowCount, minDpi), NonPreferredColorImages(wrongCount, wrongModes), NotFullyAnalyzed(unknownCount)]
  }

  /**
   * The issues and recommendations the panel lists; with no issues it shows
   * that all images meet the criteria.
   */
  function DisplayRecommendations(results: AnalysisResult, minDpi: int, preferred: seq<string>)
    : (panel: (seq<Issue>, seq<Recommendation>))
    ensures |panel.0| == |panel.1| <= 3
    ensures forall k :: 0 <= k < |panel.0| ==> panel.1[k] == PanelAdvice(panel.0[k], preferred)
    ensures forall j, k :: 0 <= j < k < |panel.0| ==> IssueRank(panel.0[j]) < IssueRank(panel.0[k])
  {
    var images := results.images;
    var low := LowDpiImagesOf(images, minDpi);
    var wrong := NonPreferredImagesOf(images, preferred);
    var unknown := UnknownImagesOf(images);
    var checks := PanelChecks(|low|, |wrong|, ColorModes(wrong), |unknown|, minDpi);
    var issues := Filter(checks, Reported);
    ReportedKeepsOrder(checks);
    (issues, seq(|issues|, k requires 0 <= k < |issues| => PanelAdvice(issues[k], preferred)))
  }

  /** Of the panel's three checks, exactly those with a positive count are reported. */
  lemma PanelChecksReport(lowCount: nat, wrongCount: nat, wrongModes: set<string>, unknownCount: nat, minDpi: int)
    ensures var issues := Filter(PanelChecks(lowCount, wrongCount, wrongModes, unknownCount, minDpi), Reported);
      && (LowDpiImages(lowCount, minDpi) in issues <==> lowCount > 0)
      && (NonPreferredColorImages(wrongCount, wrongModes) in issues <==> wrongCount > 0)
      && (NotFullyAnalyzed(unknownCount) in issues <==> unknownCount > 0)
  {
    var checks := PanelChecks(lowCount, wrongCount, wrongModes, unknownCount, minDpi);
    var issues := Filter(checks, Reported);
    forall k | 0 <= k < |checks|
      ensures checks[k] in issues <==> Reported(checks[k])
    {
      if Reported(checks[k]) {
        FilterKeeps(checks, Reported, k);
      }
      if checks[k] in issues {
        var j :| 0 <= j < |issues| && issues[j] == checks[k];
      }
    }
    assert checks[0] == LowDpiImages(lowCount, minDpi);
    assert checks[1] == NonPreferredColorImages(wrongCount, wrongModes);
    assert checks[2] == NotFullyAnalyzed(unknownCount);
  }

  /** Which issues the panel reports: each check's issue exactly when some image fails it. */
  lemma PanelReportsIssues(results: AnalysisResult, minDpi: int, preferred: seq<string>)
    ensures var images := results.images;
      var issues := DisplayRecommendations(results, minDpi, preferred).0;
      var wrong := NonPreferredImagesOf(images, preferred);
      && (LowDpiImages(|LowDpiImagesOf(images, minDpi)|, minDpi) in issues <==>
          exists i :: 0 <= i < |images| && LowDpi(images[i], minDpi))
      && (NonPreferredColorImages(|wrong|, ColorModes(wrong)) in issues <==>
          exists i :: 0 <= i < |images| && NonPreferredColor(images[i], preferred))
      && (NotFullyAnalyzed(|UnknownImagesOf(images)|) in issues <==>
          exists i :: 0 <= i < |images| && Unknown(images[i]))
  {
    var images := results.images;
    var low := LowDpiImagesOf(images, minDpi);
    var wrong := NonPreferredImagesOf(images, preferred);
    var unknown := UnknownImagesOf(images);
    FilterEmptyIff(images, (img: ImageRecord) => LowDpi(img, minDpi));
    assert |low| > 0 <==> exists i :: 0 <= i < |images| && LowDpi(images[i], minDpi);
    FilterEmptyIff(images, (img: ImageRecord) => NonPreferredColor(img, preferred));
    assert |wrong| > 0 <==> exists i :: 0 <= i < |images| && NonPreferredColor(images[i], preferred);
    FilterEmptyIff(images, Unknown);
    assert |unknown| > 0 <==> exists i :: 0 <= i < |images| && Unknown(images[i]);
    PanelChecksReport(|low|, |wrong|, ColorModes(wrong), |unknown|, minDpi);
  }

  /** The panel reports nothing but its three checks' issues. */
  lemma PanelReportsNothingElse(results: AnalysisResult, minDpi: int, preferred: seq<string>)
    ensures var images := results.images;
      var wrong := NonPreferredImagesOf(images, preferred);
      forall issue :: issue in DisplayRecommendations(results, minDpi, preferred).0 ==>
        issue == LowDpiImages(|LowDpiImagesOf(images, minDpi)|, minDpi) ||
        issue == NonPreferredColorImages(|wrong|, ColorModes(wrong)) ||
        issue == NotFullyAnalyzed(|UnknownImagesOf(images)|)
  {
  }

  /**
   * The verdict and the panel agree: a document with images fails exactly when
   * the panel reports low-DPI or non-preferred-colour images.
   */
  lemma StatusMatchesPanel(results: AnalysisResult, minDpi: int, preferred: seq<string>)
    requires results.totalImages != 0
    ensures var images := results.images;
      var issues := DisplayRecommendations(results, minDpi, preferred).0;
      var wrong := NonPreferredImagesOf(images, preferred);
      DetermineOverallStatus(results, minDpi, preferred) == OverallFail <==>
        LowDpiImages(|LowDpiImagesOf(images, minDpi)|, minDpi) in issues ||
        NonPreferredColorImages(|wrong|, ColorModes(wrong)) in issues
  {
    PanelReportsIssues(results, minDpi, preferred);
  }

  /**
   * The panel's "missing data" test and the print validation's "could not be
   * fully analyzed" test pick out the same images.
   */
  lemma UnknownIffIncomplete(img: ImageRecord)
    ensures Unknown(img) <==> Incomplete(img)
  {
  }

  /** So the panel and the print validation count the same images as not fully analyzed. */
  lemma {:induction false} UnknownImagesAreIncompleteImages(images: seq<ImageRecord>)
    ensures UnknownImagesOf(images) == IncompleteImagesOf(images)
  {
    if images != [] {
      UnknownImagesAreIncompleteImages(images[..|images| - 1]);
      UnknownIffIncomplete(images[|images| - 1]);
    }
  }

  // ---------------------------------------------------------------------------
  // display_image_grid (the counts above the grid) and display_single_image
  // ---------------------------------------------------------------------------

  datatype GridCounts = GridCounts(totalImages: int, passCount: int, highQualityCount: int, passRate: real)

  /** The summary above the grid; None is the "No images found" card. */
  method DisplayImageGridCounts(images: seq<ImageRecord>, minDpi: int, preferred: seq<string>)
    returns (counts: Option<GridCounts>)
    ensures counts.None? <==> images == []
    ensures counts.Some? ==>
      && counts.value.totalImages == |images|
      && counts.value.passCount == |PassingImages(images, minDpi, preferred)|
      && counts.value.highQualityCount == |HighQualityImages(images)|
      && counts.value.passRate == Percentage(counts.value.passCount, |images|)
      && 0.0 <= counts.value.passRate <= 100.0
  {
    if images == [] {
      return None;
    }
    var totalImages := |images|;
    var passCount := 0;
    var highQualityCount := 0;
    var i := 0;
    while i < |images|
      invariant 0 <= i <= |images|
      invariant passCount == |PassingImages(images[..i], minDpi, preferred)|
      invariant highQualityCount == |HighQualityImages(images[..i])|
    {
      var img := images[i];
      assert images[..i + 1] == images[..i] + [img];
      SummaryStep(images[..i], img, minDpi, preferred);
      var dpi := DpiOf(img);
      if (IntTruthy(dpi) && dpi.value >= minDpi) && ColorModeOf(img) in preferred {
        passCount := passCount + 1;
      }
      if IntTruthy(dpi) && dpi.value >= 300 {
        highQualityCount := highQualityCount + 1;
      }
      i := i + 1;
    }
    assert images[..i] == images;
    PercentageBounds(passCount, totalImages);
    counts := Some(GridCounts(totalImages, passCount, highQualityCount,
                              passCount as real / totalImages as real * 100.0));
  }

  /** The pass mark and the quality label of one image card. */
  datatype Badge = Badge(overallPass: bool, quality: Quality)

  function SingleImageBadge(img: ImageRecord, minDpi: int, preferred: seq<string>): (badge: Badge)
    ensures badge.overallPass <==> DpiMeets(img, minDpi) && ColorPreferred(img, preferred)
    ensures badge.quality == Excellent <==> HighQuality(img)
    ensures badge.quality == Poor <==> !IntTruthy(DpiOf(img)) || DpiOf(img).value < 150
  {
    var dpi := if IntTruthy(DpiOf(img)) then DpiOf(img).value else 0;
    var dpiPass := dpi != 0 && dpi >= minDpi;
    var colorPass := ColorModeOf(img) in preferred;
    var quality :=
      if dpi != 0 && dpi >= 300 then Excellent
      else if dpi != 0 && dpi >= 250 then Good
      else if dpi != 0 && dpi >= 150 then Acceptable
      else Poor;
    Badge(dpiPass && colorPass, quality)
  }

  /** The card of an image and its row in the results table agree on pass and quality. */
  lemma BadgeMatchesRow(img: ImageRecord, i: int, minDpi: int, preferred: seq<string>)
    ensures var badge := SingleImageBadge(img, minDpi, preferred);
      var row := RowFor(img, i, minDpi, preferred);
      (badge.overallPass <==> row.overallStatus == Pass) && badge.quality == row.quality
  {
  }
}
