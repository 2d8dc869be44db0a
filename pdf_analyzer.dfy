/**
 * The image engine of pdf_analyzer.py: DPI hints read from the compressed
 * image bytes (JPEG JFIF density fields, the PNG `pHYs` chunk of section
 * 11.3.5.3 of the PNG specification), the colour-mode label, the pixel-count
 * DPI estimate, the per-image record and the walk over a document.
 *
 * The document stands for what PyMuPDF would report: its pages, each with the
 * image entries `page.get_images` lists, and for each entry what the pixmap
 * and `doc.extract_image` give or whether they raise.
 */
module PdfAnalyzer {
  import opened Common
  import opened Records

  // ===========================================================================
  // Byte scanning: `bytes.find` and `struct.unpack`
  // ===========================================================================

  /** b'JFIF' */
  const JFIF: seq<byte> := [0x4A, 0x46, 0x49, 0x46]

  /** b'pHYs' */
  const PHYS: seq<byte> := [0x70, 0x48, 0x59, 0x73]

  predicate OccursAt(data: seq<byte>, tag: seq<byte>, pos: int) {
    0 <= pos && pos + |tag| <= |data| && data[pos..pos + |tag|] == tag
  }

  /** `data.find(tag) == pos`: an occurrence with none before it. */
  predicate FirstOccurrence(data: seq<byte>, tag: seq<byte>, pos: int) {
    OccursAt(data, tag, pos) && forall q :: 0 <= q < pos ==> !OccursAt(data, tag, q)
  }

  lemma FirstOccurrenceUnique(data: seq<byte>, tag: seq<byte>, p: int, q: int)
    requires FirstOccurrence(data, tag, p) && FirstOccurrence(data, tag, q)
    ensures p == q
  {
  }

  function FindFrom(data: seq<byte>, tag: seq<byte>, start: nat): (r: Option<nat>)
    ensures r.Some? ==> start <= r.value && OccursAt(data, tag, r.value)
    ensures r.Some? ==> forall q :: start <= q < r.value ==> !OccursAt(data, tag, q)
    ensures r.None? ==> forall q :: start <= q ==> !OccursAt(data, tag, q)
    decreases |data| - start
  {
    if start + |tag| > |data| then None
    else if data[start..start + |tag|] == tag then Some(start)
    else FindFrom(data, tag, start + 1)
  }

  /** `data.find(tag)`, with None where Python returns -1. */
  function Find(data: seq<byte>, tag: seq<byte>): (r: Option<nat>)
    ensures r.Some? ==> FirstOccurrence(data, tag, r.value)
    ensures r.None? ==> forall q :: !OccursAt(data, tag, q)
  {
    FindFrom(data, tag, 0)
  }

  /** `struct.unpack('>H', b)[0]` */
  function BigEndian16(b: seq<byte>): (v: nat)
    requires |b| == 2
    ensures v < 0x1_0000
  {
    b[0] as int * 0x100 + b[1] as int
  }

  /** `struct.unpack('>I', b)[0]` */
  function BigEndian32(b: seq<byte>): (v: nat)
    requires |b| == 4
    ensures v < 0x1_0000_0000
  {
    ((b[0] as int * 0x100 + b[1] as int) * 0x100 + b[2] as int) * 0x100 + b[3] as int
  }

  /** `struct.pack('>H', v)`, the inverse of BigEndian16. */
  function Bytes16(v: nat): (b: seq<byte>)
    requires v < 0x1_0000
    ensures |b| == 2 && BigEndian16(b) == v
  {
    [(v / 0x100) as byte, (v % 0x100) as byte]
  }

  /** `struct.pack('>I', v)`, the inverse of BigEndian32. */
  function Bytes32(v: nat): (b: seq<byte>)
    requires v < 0x1_0000_0000
    ensures |b| == 4 && BigEndian32(b) == v
  {
    var b := Bytes16(v / 0x1_0000) + Bytes16(v % 0x1_0000);
    BigEndian32Halves(b);
    b
  }

  /** A 32-bit big-endian number is its high half times 2^16 plus its low half. */
  lemma BigEndian32Halves(b: seq<byte>)
    requires |b| == 4
    ensures BigEndian32(b) == BigEndian16(b[..2]) * 0x1_0000 + BigEndian16(b[2..])
  {
  }

  // ===========================================================================
  // DPI hints in the compressed bytes
  // ===========================================================================

  /** `int(x_density * 2.54)`: dots per centimetre to dots per inch, truncated. */
  function DpcmToDpi(xDensity: nat): (dpi: nat)
    ensures dpi * 100 <= xDensity * 254 < (dpi + 1) * 100
  {
    xDensity * 254 / 100
  }

  /** `int(x_pixels_per_unit / 39.3701)`: pixels per metre to dots per inch, truncated. */
  function PpmToDpi(pixelsPerMetre: nat): (dpi: nat)
    ensures dpi * 393701 <= pixelsPerMetre * 10000 < (dpi + 1) * 393701
  {
    pixelsPerMetre * 10000 / 393701
  }

  /**
   * `_extract_jpeg_dpi`: after the first `JFIF` at `pos` come a NUL, two
   * version bytes, the density unit at pos + 7 and the big-endian horizontal
   * density at pos + 8 .. pos + 9. The fields are read only when pos + 11 is
   * inside the buffer.
   */
  function ExtractJpegDpi(data: seq<byte>): (r: Option<int>)
    ensures r.Some? ==> 0 <= r.value <= 166458
    ensures (forall q :: !OccursAt(data, JFIF, q)) ==> r.None?
    ensures forall pos :: FirstOccurrence(data, JFIF, pos) && pos + 11 >= |data| ==> r.None?
    ensures forall pos :: FirstOccurrence(data, JFIF, pos) && pos + 11 < |data| ==>
              r == (if data[pos + 7] == 1 then Some(BigEndian16(data[pos + 8..pos + 10]))
                    else if data[pos + 7] == 2 then Some(DpcmToDpi(BigEndian16(data[pos + 8..pos + 10])))
                    else None)
  {
    match Find(data, JFIF)
    case None => None
    case Some(pos) =>
      var densityPos := pos + 7;
      if densityPos + 4 < |data| then
        var units := data[densityPos];
        var xDensity := BigEndian16(data[densityPos + 1..densityPos + 3]);
        if units == 1 then Some(xDensity)
        else if units == 2 then Some(DpcmToDpi(xDensity))
        else None
      else None
  }

  /**
   * `_extract_png_dpi`: after the first `pHYs` at `pos` come the big-endian
   * pixels per unit on the X axis (pos + 4 .. pos + 7), the Y axis
   * (pos + 8 .. pos + 11) and the unit specifier at pos + 12, which must be
   * inside the buffer.
   */
  function ExtractPngDpi(data: seq<byte>): (r: Option<int>)
    ensures r.Some? ==> 0 <= r.value <= 109092110
    ensures (forall q :: !OccursAt(data, PHYS, q)) ==> r.None?
    ensures forall pos :: FirstOccurrence(data, PHYS, pos) && pos + 12 >= |data| ==> r.None?
    ensures forall pos :: FirstOccurrence(data, PHYS, pos) && pos + 12 < |data| ==>
              r == (if data[pos + 12] == 1 then Some(PpmToDpi(BigEndian32(data[pos + 4..pos + 8])))
                    else None)
  {
    match Find(data, PHYS)
    case None => None
    case Some(pos) =>
      var dataPos := pos + 4;
      if dataPos + 8 < |data| then
        var xPixelsPerUnit := BigEndian32(data[dataPos..dataPos + 4]);
        var unitSpecifier := data[dataPos + 8];
        if unitSpecifier == 1 then Some(PpmToDpi(xPixelsPerUnit)) else None
      else None
  }

  /** `_extract_tiff_dpi`: not implemented in the source, always no value. */
  function ExtractTiffDpi(data: seq<byte>): (r: Option<int>)
    ensures r.None?
  {
    None
  }

  /** `_extract_dpi_from_image_data`: dispatch on the lower-cased format name. */
  function ExtractDpiFromImageData(imageData: seq<byte>, format: string): (r: Option<int>)
    ensures r.Some? ==> Lower(format) in ["jpg", "jpeg", "png"]
    ensures Lower(format) in ["jpg", "jpeg"] ==> r == ExtractJpegDpi(imageData)
    ensures Lower(format) == "png" ==> r == ExtractPngDpi(imageData)
  {
    var f := Lower(format);
    if f in ["jpg", "jpeg"] then ExtractJpegDpi(imageData)
    else if f == "png" then ExtractPngDpi(imageData)
    else if f in ["tif", "tiff"] then ExtractTiffDpi(imageData)
    else None
  }

  // ---------------------------------------------------------------------------
  // Round trips: a buffer holding well-formed density fields yields them back
  // ---------------------------------------------------------------------------

  /** The tag's first byte does not reappear in it, so no earlier partial match can complete. */
  lemma FirstOccurrenceAfterPrefix(prefix: seq<byte>, tag: seq<byte>, rest: seq<byte>)
    requires |tag| >= 1
    requires forall k :: 1 <= k < |tag| ==> tag[k] != tag[0]
    requires forall q :: !OccursAt(prefix, tag, q)
    ensures FirstOccurrence(prefix + tag + rest, tag, |prefix|)
  {
    var data := prefix + tag + rest;
    assert data[|prefix|..|prefix| + |tag|] == tag;
    forall q | 0 <= q < |prefix|
      ensures !OccursAt(data, tag, q)
    {
      if q + |tag| <= |prefix| {
        assert data[q..q + |tag|] == prefix[q..q + |tag|];
        assert !OccursAt(prefix, tag, q);
      } else {
        var k := |prefix| - q;
        assert 1 <= k < |tag|;
        assert data[q..q + |tag|][k] == data[|prefix|] == tag[0] != tag[k];
      }
    }
  }

  /** The JFIF identifier, version 1.02, the unit and both densities of an APP0 segment. */
  function JfifFields(units: byte, xDensity: nat, yDensity: nat): (b: seq<byte>)
    requires xDensity < 0x1_0000 && yDensity < 0x1_0000
    ensures |b| == 12 && b[..4] == JFIF
  {
    JFIF + [0x00, 0x01, 0x02, units] + Bytes16(xDensity) + Bytes16(yDensity)
  }

  lemma JpegDensityRoundTrip(prefix: seq<byte>, units: byte, xDensity: nat, yDensity: nat, rest: seq<byte>)
    requires forall q :: !OccursAt(prefix, JFIF, q)
    requires xDensity < 0x1_0000 && yDensity < 0x1_0000
    ensures ExtractJpegDpi(prefix + JfifFields(units, xDensity, yDensity) + rest)
            == (if units == 1 then Some(xDensity)
                else if units == 2 then Some(DpcmToDpi(xDensity))
                else None)
  {
    var fields := JfifFields(units, xDensity, yDensity);
    var data := prefix + fields + rest;
    var tail := fields[4..] + rest;
    assert fields == JFIF + fields[4..];
    assert data == prefix + JFIF + tail;
    FirstOccurrenceAfterPrefix(prefix, JFIF, tail);
    var pos := |prefix|;
    assert data[pos + 7] == units;
    assert data[pos + 8..pos + 10] == Bytes16(xDensity);
  }

  /** The `pHYs` chunk type and its nine data bytes. */
  function PhysChunk(xPixelsPerUnit: nat, yPixelsPerUnit: nat, unit: byte): (b: seq<byte>)
    requires xPixelsPerUnit < 0x1_0000_0000 && yPixelsPerUnit < 0x1_0000_0000
    ensures |b| == 13 && b[..4] == PHYS
  {
    PHYS + Bytes32(xPixelsPerUnit) + Bytes32(yPixelsPerUnit) + [unit]
  }

  lemma PngDensityRoundTrip(prefix: seq<byte>, xPixelsPerUnit: nat, yPixelsPerUnit: nat, unit: byte, rest: seq<byte>)
    requires forall q :: !OccursAt(prefix, PHYS, q)
    requires xPixelsPerUnit < 0x1_0000_0000 && yPixelsPerUnit < 0x1_0000_0000
    ensures ExtractPngDpi(prefix + PhysChunk(xPixelsPerUnit, yPixelsPerUnit, unit) + rest)
            == (if unit == 1 then Some(PpmToDpi(xPixelsPerUnit)) else None)
  {
    var chunk := PhysChunk(xPixelsPerUnit, yPixelsPerUnit, unit);
    var data := prefix + chunk + rest;
    var tail := chunk[4..] + rest;
    assert chunk == PHYS + chunk[4..];
    assert data == prefix + PHYS + tail;
    FirstOccurrenceAfterPrefix(prefix, PHYS, tail);
    var pos := |prefix|;
    assert data[pos + 12] == unit;
    assert data[pos + 4..pos + 8] == Bytes32(xPixelsPerUnit);
  }

  /** Worked values: 300 dpi stays 300; 100 dots/cm become 254 dpi; no marker, no value. */
  lemma JpegExamples()
    ensures ExtractJpegDpi(JfifFields(1, 300, 300)) == Some(300)
    ensures ExtractJpegDpi(JfifFields(2, 100, 100)) == Some(254)
    ensures ExtractJpegDpi(JfifFields(0, 72, 72)) == None
    ensures ExtractJpegDpi([0xFF, 0xD8, 0xFF, 0xE0]) == None
  {
    assert [] + JfifFields(1, 300, 300) + [] == JfifFields(1, 300, 300);
    JpegDensityRoundTrip([], 1, 300, 300, []);
    assert [] + JfifFields(2, 100, 100) + [] == JfifFields(2, 100, 100);
    JpegDensityRoundTrip([], 2, 100, 100, []);
    assert [] + JfifFields(0, 72, 72) + [] == JfifFields(0, 72, 72);
    JpegDensityRoundTrip([], 0, 72, 72, []);
  }

  /** Worked values: 3937 px/m (99.9997 dpi) truncates to 99; unit 0 (no unit) gives no value. */
  lemma PngExamples()
    ensures ExtractPngDpi(PhysChunk(3937, 3937, 1)) == Some(99)
    ensures ExtractPngDpi(PhysChunk(3937, 3937, 0)) == None
  {
    assert [] + PhysChunk(3937, 3937, 1) + [] == PhysChunk(3937, 3937, 1);
    PngDensityRoundTrip([], 3937, 3937, 1, []);
    assert [] + PhysChunk(3937, 3937, 0) + [] == PhysChunk(3937, 3937, 0);
    PngDensityRoundTrip([], 3937, 3937, 0, []);
  }

  /** 11811 px/m, the value a 300 dpi PNG stores, truncates to 299 dpi. */
  lemma Png300DpiReadsAs299()
    ensures ExtractPngDpi(PhysChunk(11811, 11811, 1)) == Some(299)
  {
    assert [] + PhysChunk(11811, 11811, 1) + [] == PhysChunk(11811, 11811, 1);
    PngDensityRoundTrip([], 11811, 11811, 1, []);
  }

  /** Upper-case format names reach the same extractor (`format.lower()`). */
  lemma DispatchIgnoresCase(imageData: seq<byte>)
    ensures ExtractDpiFromImageData(imageData, "JPG") == ExtractJpegDpi(imageData)
    ensures ExtractDpiFromImageData(imageData, "PNG") == ExtractPngDpi(imageData)
    ensures ExtractDpiFromImageData(imageData, "TIFF") == None
  {
    assert Lower("JPG") == "jpg";
    assert Lower("PNG") == "png";
    assert Lower("TIFF") == "tiff";
  }

  // ===========================================================================
  // Pixmap properties
  // ===========================================================================

  /** `_get_color_mode` */
  function ColorMode(channels: nat, alpha: bool): (mode: string)
    ensures StrTruthy(mode)
  {
    if channels == 1 then "Grayscale"
    else if channels == 3 then "RGB"
    else if channels == 4 then (if alpha then "RGBA" else "CMYK")
    else if channels == 2 then "Grayscale + Alpha"
    else NatToDecimal(channels) + "-channel"
  }

  /** The label determines the channel count, and for four channels the alpha flag. */
  lemma ColorModeInjective(m: nat, a: bool, n: nat, b: bool)
    requires ColorMode(m, a) == ColorMode(n, b)
    ensures m == n
    ensures m == 4 ==> a == b
  {
    var s := ColorMode(m, a);
    var named := m in {1, 2, 3, 4};
    var namedN := n in {1, 2, 3, 4};
    if !named {
      var d := NatToDecimal(m);
      assert s == d + "-channel";
      assert s[|s| - 1] == 'l';
    }
    if !namedN {
      var d := NatToDecimal(n);
      assert s == d + "-channel";
      assert s[|s| - 1] == 'l';
    }
    if !named && !namedN {
      var dm, dn := NatToDecimal(m), NatToDecimal(n);
      assert |dm| == |dn|;
      assert dm == s[..|dm|] == dn;
      NatToDecimalInjective(m, n);
    }
  }

  /** `_estimate_dpi`: a step function of the pixel count with strict breakpoints. */
  function EstimateDpi(width: int, height: int): (dpi: int)
    ensures dpi in {72, 150, 180, 240, 300}
  {
    var pixelCount := width * height;
    if pixelCount > 6000000 then 300
    else if pixelCount > 2000000 then 240
    else if pixelCount > 1000000 then 180
    else if pixelCount > 500000 then 150
    else 72
  }

  /** More pixels never lower the estimate; equal pixel counts give equal estimates. */
  lemma EstimateDpiMonotone(w1: int, h1: int, w2: int, h2: int)
    requires w1 * h1 <= w2 * h2
    ensures EstimateDpi(w1, h1) <= EstimateDpi(w2, h2)
  {
  }

  /** A pixel count exactly on a breakpoint falls to the lower band. */
  lemma EstimateDpiBoundaries()
    ensures EstimateDpi(3000, 2000) == 240 && EstimateDpi(3000, 2001) == 300
    ensures EstimateDpi(2000, 1000) == 180 && EstimateDpi(1000, 1000) == 150
    ensures EstimateDpi(1000, 500) == 72
  {
  }

  // ===========================================================================
  // One image: `_analyze_image`
  // ===========================================================================

  /** What `doc.extract_image(xref)` returns: the compressed bytes and their extension. */
  datatype ExtractedImage = ExtractedImage(image: seq<byte>, ext: string)

  /**
   * One entry of `page.get_images(full=True)` with what the foreign library
   * does for it: the pixmap's size, channel count and alpha flag; the message
   * when `fitz.Pixmap(doc, xref)` raises; the message when reading the
   * pixmap inside `_analyze_image` raises; the result of `doc.extract_image`
   * (None when it raises); and what `_create_preview` returns.
   */
  datatype ImageEntry = ImageEntry(
    xref: int,
    width: nat, height: nat, channels: nat, alpha: bool,
    pixmapError: Option<string>,
    propertyError: Option<string>,
    extracted: Option<ExtractedImage>,
    preview: Option<string>)

  /** Extraction is attempted only for these extensions, compared case-sensitively. */
  const DPI_EXTENSIONS: seq<string> := ["jpg", "jpeg", "png", "tiff"]

  /** The DPI read from the compressed bytes, if extraction is attempted and finds one. */
  function MetadataDpi(e: ImageEntry): (r: Option<int>)
    ensures r.Some? ==> e.extracted.Some? && e.extracted.value.ext in DPI_EXTENSIONS
    ensures r.Some? ==> e.extracted.value.ext in ["jpg", "jpeg", "png"]
    ensures e.extracted.Some? && e.extracted.value.ext in DPI_EXTENSIONS ==>
              r == ExtractDpiFromImageData(e.extracted.value.image, e.extracted.value.ext)
  {
    match e.extracted
    case None => None
    case Some(x) =>
      assert Lower("tiff") == "tiff";
      if x.ext in DPI_EXTENSIONS then ExtractDpiFromImageData(x.image, x.ext) else None
  }

  /** The record `_analyze_image` returns for entry `e`, on page `pageNum`, as image `imgNumber`. */
  function RecordFor(e: ImageEntry, pageNum: int, imgNumber: int): (r: ImageRecord)
    ensures r.page == pageNum && r.imageNumber == imgNumber
    ensures r.Failed? <==> e.propertyError.Some?
    ensures r.Failed? ==> r.error == e.propertyError.value
    ensures r.Analyzed? ==> r.dpi.Some? && r.dpi.value > 0
    ensures r.Analyzed? ==> (r.dpiMethod == Extracted <==> IntTruthy(MetadataDpi(e)))
    ensures r.Analyzed? && r.dpiMethod == Extracted ==> r.dpi == MetadataDpi(e)
    ensures r.Analyzed? && r.dpiMethod == Estimated ==> r.dpi == Some(EstimateDpi(e.width, e.height))
    ensures r.Analyzed? && e.extracted.None? ==> r.fileSize == 0 && r.format.None? && r.dpiMethod == Estimated
    ensures r.Analyzed? && e.extracted.Some? ==>
              r.fileSize == |e.extracted.value.image| && r.format == Some(Upper(e.extracted.value.ext))
    ensures r.Analyzed? ==> r.width == e.width && r.height == e.height && r.channels == e.channels
    ensures r.Analyzed? ==> r.colorMode == ColorMode(e.channels, e.alpha) && r.bitDepth == Some(8)
    ensures r.Analyzed? ==> r.preview == e.preview && r.xref == e.xref
  {
    if e.propertyError.Some? then
      Failed(pageNum, imgNumber, e.propertyError.value)
    else
      var extracted := MetadataDpi(e);
      var useExtracted := IntTruthy(extracted);
      Analyzed(pageNum, imgNumber, e.xref, e.width, e.height, e.channels,
               if e.extracted.Some? then Some(Upper(e.extracted.value.ext)) else None,
               ColorMode(e.channels, e.alpha),
               if useExtracted then extracted else Some(EstimateDpi(e.width, e.height)),
               Some(8),
               if e.extracted.Some? then |e.extracted.value.image| else 0,
               e.preview,
               if useExtracted then Extracted else Estimated)
  }

  /** `_analyze_image`: the dict is built with defaults and then overwritten field by field. */
  method AnalyzeImage(e: ImageEntry, pageNum: int, imgNumber: int) returns (img: ImageRecord)
    ensures img == RecordFor(e, pageNum, imgNumber)
  {
    if e.propertyError.Some? {
      img := Failed(pageNum, imgNumber, e.propertyError.value);
      return;
    }
    img := Analyzed(pageNum, imgNumber, e.xref, e.width, e.height, e.channels,
                    None, ColorMode(e.channels, e.alpha), None, None, 0, None, Estimated);
    if e.extracted.Some? {
      var imgDict := e.extracted.value;
      img := img.(fileSize := |imgDict.image|, format := Some(Upper(imgDict.ext)));
      if imgDict.ext in DPI_EXTENSIONS {
        var dpi := ExtractDpiFromImageData(imgDict.image, imgDict.ext);
        if IntTruthy(dpi) {
          img := img.(dpi := dpi, dpiMethod := Extracted);
        }
      }
    }
    if !IntTruthy(img.dpi) {
      img := img.(dpi := Some(EstimateDpi(e.width, e.height)), dpiMethod := Estimated);
    }
    img := img.(bitDepth := Some(8));
    img := img.(preview := e.preview);
  }

  /** A preview failure (or any other preview) changes no other field of the record. */
  lemma PreviewIndependent(e: ImageEntry, p: Option<string>, pageNum: int, imgNumber: int)
    ensures RecordFor(e.(preview := p), pageNum, imgNumber)
            == (var r := RecordFor(e, pageNum, imgNumber); if r.Analyzed? then r.(preview := p) else r)
  {
  }

  /** 'tif' and upper-case extensions are not in the case-sensitive list, so their DPI is estimated. */
  lemma UnlistedExtensionIsEstimated(e: ImageEntry, pageNum: int, imgNumber: int)
    requires e.propertyError.None? && e.extracted.Some?
    requires e.extracted.value.ext in ["tif", "JPG", "PNG", "TIFF"]
    ensures RecordFor(e, pageNum, imgNumber).dpiMethod == Estimated
    ensures RecordFor(e, pageNum, imgNumber).dpi == Some(EstimateDpi(e.width, e.height))
  {
  }

  // ===========================================================================
  // The document walk: `analyze_pdf`
  // ===========================================================================

  /** `openError` is the message when `fitz.open` raises. */
  datatype Document = Document(openError: Option<string>, pages: seq<seq<ImageEntry>>)

  /** An image entry together with its 1-based page number, in walk order. */
  datatype Slot = Slot(page: nat, entry: ImageEntry)

  datatype AnalysisResult = AnalysisResult(
    error: Option<string>, totalPages: int, totalImages: int, images: seq<ImageRecord>)

  function ErrorResult(msg: string): AnalysisResult {
    AnalysisResult(Some(msg), 0, 0, [])
  }

  function PageSlots(page: nat, entries: seq<ImageEntry>): seq<Slot> {
    seq(|entries|, k requires 0 <= k < |entries| => Slot(page, entries[k]))
  }

  /** The entries of pages p, p + 1, ... in page order, then list order. */
  function SlotsFrom(pages: seq<seq<ImageEntry>>, p: nat): seq<Slot>
    decreases |pages| - p
  {
    if p >= |pages| then [] else PageSlots(p + 1, pages[p]) + SlotsFrom(pages, p + 1)
  }

  function Slots(doc: Document): seq<Slot> {
    SlotsFrom(doc.pages, 0)
  }

  /** The number of image entries on pages p, p + 1, ... */
  function EntryCount(pages: seq<seq<ImageEntry>>, p: nat): nat
    decreases |pages| - p
  {
    if p >= |pages| then 0 else |pages[p]| + EntryCount(pages, p + 1)
  }

  /** The records of the walk: the j-th slot becomes image number j + 1. */
  function WalkRecords(slots: seq<Slot>): seq<ImageRecord> {
    seq(|slots|, j requires 0 <= j < |slots| => RecordFor(slots[j].entry, slots[j].page, j + 1))
  }

  /** The message of the first pixmap creation that raises, in walk order. */
  function FirstPixmapError(slots: seq<Slot>): Option<string> {
    if slots == [] then None
    else if slots[0].entry.pixmapError.Some? then slots[0].entry.pixmapError
    else FirstPixmapError(slots[1..])
  }

  /** What `analyze_pdf` returns for a document. */
  function Analysis(doc: Document): (res: AnalysisResult)
    ensures res.error.Some? <==> doc.openError.Some? || FirstPixmapError(Slots(doc)).Some?
    ensures doc.openError.Some? ==> res == ErrorResult(doc.openError.value)
    ensures res.error.None? ==>
              res.totalPages == |doc.pages| && res.totalImages == |res.images| == |Slots(doc)|
  {
    if doc.openError.Some? then ErrorResult(doc.openError.value)
    else match FirstPixmapError(Slots(doc))
      case Some(msg) => ErrorResult(msg)
      case None => AnalysisResult(None, |doc.pages|, |Slots(doc)|, WalkRecords(Slots(doc)))
  }

  /** The first failure of a concatenation is the first of its left part, if any. */
  lemma {:induction false} FirstPixmapErrorAppend(a: seq<Slot>, b: seq<Slot>)
    ensures FirstPixmapError(a + b)
            == if FirstPixmapError(a).Some? then FirstPixmapError(a) else FirstPixmapError(b)
    decreases |a|
  {
    if a == [] {
      assert a + b == b;
    } else {
      assert (a + b)[0] == a[0];
      assert (a + b)[1..] == a[1..] + b;
      FirstPixmapErrorAppend(a[1..], b);
    }
  }

  lemma WalkRecordsSnoc(done: seq<Slot>, slot: Slot)
    ensures WalkRecords(done + [slot]) == WalkRecords(done) + [RecordFor(slot.entry, slot.page, |done| + 1)]
  {
  }

  lemma PageSlotsSnoc(page: nat, entries: seq<ImageEntry>, k: nat)
    requires k < |entries|
    ensures PageSlots(page, entries[..k + 1]) == PageSlots(page, entries[..k]) + [Slot(page, entries[k])]
  {
  }

  /**
   * The inner loop of `analyze_pdf` over the images of one page. `done` is the
   * walk so far; a pixmap failure stops the walk with its message.
   */
  method AnalyzePageImages(imageList: seq<ImageEntry>, pageNum: nat,
                           images0: seq<ImageRecord>, imageCount0: nat, ghost done: seq<Slot>)
    returns (images: seq<ImageRecord>, imageCount: nat, failure: Option<string>)
    requires images0 == WalkRecords(done) && imageCount0 == |done|
    ensures failure == FirstPixmapError(PageSlots(pageNum, imageList))
    ensures failure.None? ==> images == WalkRecords(done + PageSlots(pageNum, imageList))
    ensures failure.None? ==> imageCount == imageCount0 + |imageList|
  {
    images, imageCount := images0, imageCount0;
    var imgIndex := 0;
    while imgIndex < |imageList|
      invariant 0 <= imgIndex <= |imageList|
      invariant FirstPixmapError(PageSlots(pageNum, imageList[..imgIndex])) == None
      invariant images == WalkRecords(done + PageSlots(pageNum, imageList[..imgIndex]))
      invariant imageCount == imageCount0 + imgIndex
    {
      imageCount := imageCount + 1;
      var img := imageList[imgIndex];
      ghost var before := PageSlots(pageNum, imageList[..imgIndex]);
      ghost var slot := Slot(pageNum, img);
      PageSlotsSnoc(pageNum, imageList, imgIndex);
      FirstPixmapErrorAppend(before, [slot]);
      if img.pixmapError.Some? {
        assert imageList == imageList[..imgIndex + 1] + imageList[imgIndex + 1..];
        assert PageSlots(pageNum, imageList)
               == PageSlots(pageNum, imageList[..imgIndex + 1]) + PageSlots(pageNum, imageList[imgIndex + 1..]);
        FirstPixmapErrorAppend(PageSlots(pageNum, imageList[..imgIndex + 1]), PageSlots(pageNum, imageList[imgIndex + 1..]));
        return images, imageCount, img.pixmapError;
      }
      var imgData := AnalyzeImage(img, pageNum, imageCount);
      images := images + [imgData];
      WalkRecordsSnoc(done + before, slot);
      assert done + before + [slot] == done + (before + [slot]);
      imgIndex := imgIndex + 1;
    }
    assert imageList[..imgIndex] == imageList;
    failure := None;
  }

  /** One page of the walk: its first failure ends the analysis, else the walk goes on. */
  lemma WalkStep(doc: Document, done: seq<Slot>, p: nat)
    requires doc.openError.None? && p < |doc.pages|
    requires Slots(doc) == done + SlotsFrom(doc.pages, p) && FirstPixmapError(done) == None
    ensures var page := PageSlots(p + 1, doc.pages[p]);
            && Slots(doc) == (done + page) + SlotsFrom(doc.pages, p + 1)
            && (FirstPixmapError(page).Some? ==> Analysis(doc) == ErrorResult(FirstPixmapError(page).value))
            && (FirstPixmapError(page).None? ==> FirstPixmapError(done + page) == None)
  {
    var page, later := PageSlots(p + 1, doc.pages[p]), SlotsFrom(doc.pages, p + 1);
    FirstPixmapErrorAppend(done, page + later);
    FirstPixmapErrorAppend(page, later);
    FirstPixmapErrorAppend(done, page);
    assert Slots(doc) == done + (page + later);
  }

  /** `analyze_pdf`: the loop over pages, appending each page's records. */
  method AnalyzePdf(doc: Document) returns (result: AnalysisResult)
    ensures result == Analysis(doc)
  {
    if doc.openError.Some? {
      return ErrorResult(doc.openError.value);
    }
    var images: seq<ImageRecord> := [];
    var imageCount := 0;
    ghost var done: seq<Slot> := [];
    var pageNum := 0;
    while pageNum < |doc.pages|
      invariant 0 <= pageNum <= |doc.pages|
      invariant Slots(doc) == done + SlotsFrom(doc.pages, pageNum)
      invariant FirstPixmapError(done) == None
      invariant imageCount == |done|
      invariant images == WalkRecords(done)
    {
      var failure;
      ghost var page := PageSlots(pageNum + 1, doc.pages[pageNum]);
      images, imageCount, failure := AnalyzePageImages(doc.pages[pageNum], pageNum + 1, images, imageCount, done);
      WalkStep(doc, done, pageNum);
      if failure.Some? {
        return ErrorResult(failure.value);
      }
      done := done + page;
      pageNum := pageNum + 1;
    }
    assert Slots(doc) == done + [];
    assert done + [] == done;
    result := AnalysisResult(None, |doc.pages|, |images|, images);
  }

  // ---------------------------------------------------------------------------
  // Properties of the walk
  // ---------------------------------------------------------------------------

  lemma {:induction false} SlotsFromShape(pages: seq<seq<ImageEntry>>, p: nat)
    ensures |SlotsFrom(pages, p)| == EntryCount(pages, p)
    ensures forall j :: 0 <= j < |SlotsFrom(pages, p)| ==>
              p + 1 <= SlotsFrom(pages, p)[j].page <= |pages|
    ensures forall i, j :: 0 <= i < j < |SlotsFrom(pages, p)| ==>
              SlotsFrom(pages, p)[i].page <= SlotsFrom(pages, p)[j].page
    decreases |pages| - p
  {
    if p < |pages| {
      SlotsFromShape(pages, p + 1);
      var head, tail := PageSlots(p + 1, pages[p]), SlotsFrom(pages, p + 1);
      assert SlotsFrom(pages, p) == head + tail;
    }
  }

  /** On success the images are numbered 1..k in walk order and their pages never decrease. */
  lemma AnalysisOrder(doc: Document)
    ensures var res := Analysis(doc);
            res.error.None? ==>
              && (forall j :: 0 <= j < |res.images| ==> res.images[j].imageNumber == j + 1)
              && (forall j :: 0 <= j < |res.images| ==> 1 <= res.images[j].page <= res.totalPages)
              && (forall i, j :: 0 <= i < j < |res.images| ==> res.images[i].page <= res.images[j].page)
  {
    SlotsFromShape(doc.pages, 0);
  }

  /** On success every entry of every page yields exactly one record. */
  lemma AnalysisCounts(doc: Document)
    ensures var res := Analysis(doc);
            res.error.None? ==>
              res.totalImages == |res.images| == EntryCount(doc.pages, 0) && res.totalPages == |doc.pages|
  {
    SlotsFromShape(doc.pages, 0);
  }

  /** On error the totals are zero and the list is empty. */
  lemma AnalysisErrorShape(doc: Document)
    ensures var res := Analysis(doc);
            res.error.Some? ==> res.totalPages == 0 && res.totalImages == 0 && res.images == []
  {
  }

  lemma {:induction false} FirstPixmapErrorIff(slots: seq<Slot>)
    ensures FirstPixmapError(slots).Some? <==>
            exists j :: 0 <= j < |slots| && slots[j].entry.pixmapError.Some?
  {
    if slots != [] {
      FirstPixmapErrorIff(slots[1..]);
      if slots[0].entry.pixmapError.None? {
        forall j | 0 < j < |slots| ensures slots[j] == slots[1..][j - 1] { }
      }
    }
  }

  /** A failing slot comes from a failing entry of one of the pages p, p + 1, ... */
  lemma {:induction false} SlotsFromFailureSource(pages: seq<seq<ImageEntry>>, p: nat, j: int)
    requires 0 <= j < |SlotsFrom(pages, p)| && SlotsFrom(pages, p)[j].entry.pixmapError.Some?
    ensures exists q, k :: p <= q < |pages| && 0 <= k < |pages[q]| && pages[q][k].pixmapError.Some?
    decreases |pages| - p
  {
    var head, tail := PageSlots(p + 1, pages[p]), SlotsFrom(pages, p + 1);
    assert SlotsFrom(pages, p) == head + tail;
    if j < |head| {
      assert pages[p][j].pixmapError.Some?;
    } else {
      assert tail[j - |head|] == SlotsFrom(pages, p)[j];
      SlotsFromFailureSource(pages, p + 1, j - |head|);
    }
  }

  /** A failing entry of page q >= p shows up among the slots of pages p, p + 1, ... */
  lemma {:induction false} SlotsFromFailureShown(pages: seq<seq<ImageEntry>>, p: nat, q: int, k: int)
    requires p <= q < |pages| && 0 <= k < |pages[q]| && pages[q][k].pixmapError.Some?
    ensures exists j :: 0 <= j < |SlotsFrom(pages, p)| && SlotsFrom(pages, p)[j].entry.pixmapError.Some?
    decreases |pages| - p
  {
    var head, tail := PageSlots(p + 1, pages[p]), SlotsFrom(pages, p + 1);
    var all := SlotsFrom(pages, p);
    assert all == head + tail;
    if q == p {
      assert all[k] == head[k];
    } else {
      SlotsFromFailureShown(pages, p + 1, q, k);
      var j :| 0 <= j < |tail| && tail[j].entry.pixmapError.Some?;
      assert all[|head| + j] == tail[j];
    }
  }

  /** The analysis errors exactly when opening fails or some pixmap cannot be created. */
  lemma AnalysisErrorIff(doc: Document)
    ensures Analysis(doc).error.Some? <==>
            doc.openError.Some? ||
            exists q, k :: 0 <= q < |doc.pages| && 0 <= k < |doc.pages[q]| && doc.pages[q][k].pixmapError.Some?
  {
    FirstPixmapErrorIff(Slots(doc));
    if doc.openError.None? {
      assert Analysis(doc).error.Some? <==> FirstPixmapError(Slots(doc)).Some?;
      if exists j :: 0 <= j < |Slots(doc)| && Slots(doc)[j].entry.pixmapError.Some? {
        var j :| 0 <= j < |Slots(doc)| && Slots(doc)[j].entry.pixmapError.Some?;
        SlotsFromFailureSource(doc.pages, 0, j);
      }
      if exists q, k :: 0 <= q < |doc.pages| && 0 <= k < |doc.pages[q]| && doc.pages[q][k].pixmapError.Some? {
        var q, k :| 0 <= q < |doc.pages| && 0 <= k < |doc.pages[q]| && doc.pages[q][k].pixmapError.Some?;
        SlotsFromFailureShown(doc.pages, 0, q, k);
      }
    }
  }

  lemma {:induction false} NoEntriesNoSlots(pages: seq<seq<ImageEntry>>, p: nat)
    requires forall q :: 0 <= q < |pages| ==> pages[q] == []
    ensures SlotsFrom(pages, p) == []
    decreases |pages| - p
  {
    if p < |pages| {
      NoEntriesNoSlots(pages, p + 1);
    }
  }

  /** Pages without images give zero images and no error. */
  lemma AnalysisWithoutImages(doc: Document)
    requires doc.openError.None?
    requires forall q :: 0 <= q < |doc.pages| ==> doc.pages[q] == []
    ensures Analysis(doc) == AnalysisResult(None, |doc.pages|, 0, [])
  {
    NoEntriesNoSlots(doc.pages, 0);
  }

  /** Every analysed record of a walk carries a positive DPI and a non-empty colour mode. */
  lemma AnalysisDpiPositive(doc: Document)
    ensures var res := Analysis(doc);
            forall j :: 0 <= j < |res.images| && res.images[j].Analyzed? ==>
              res.images[j].dpi.Some? && res.images[j].dpi.value > 0 && res.images[j].colorMode != ""
  {
  }
}
