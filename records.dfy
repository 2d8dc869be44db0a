/**
 * The per-image record that the analyzer produces (a Python dict) and the way
 * the summary and display code reads it back with `img.get(key, default)` and
 * Python truthiness.
 *
 * The analyzer builds two shapes of dict: the full one of a successful
 * analysis (pdf_analyzer.py:67-84) and the short one of its exception handler
 * (pdf_analyzer.py:120-129), which lacks 'format', 'channels' and the rest.
 */
module Records {
  import opened Common

  /** The 'dpi_method' entry. */
  datatype DpiMethod = Estimated | Extracted

  datatype ImageRecord =
    | Analyzed(page: int, imageNumber: int, xref: int,
               width: int, height: int, channels: int,
               format: Option<string>, colorMode: string, dpi: Option<int>,
               bitDepth: Option<int>, fileSize: int, preview: Option<string>,
               dpiMethod: DpiMethod)
    | Failed(page: int, imageNumber: int, error: string)

  // ---------------------------------------------------------------------------
  // `img.get(key, default)` for the keys the summary code reads
  // ---------------------------------------------------------------------------

  /** `img.get('dpi')`: the error dict holds 'dpi': None. */
  function DpiOf(r: ImageRecord): Option<int> {
    if r.Analyzed? then r.dpi else None
  }

  /** `img.get('color_mode', ...)`: the error dict holds 'Unknown'. */
  function ColorModeOf(r: ImageRecord): string {
    if r.Analyzed? then r.colorMode else "Unknown"
  }

  /** `img.get('width', 0)`: the error dict holds 0. */
  function WidthOf(r: ImageRecord): int {
    if r.Analyzed? then r.width else 0
  }

  /** `img.get('height', 0)`: the error dict holds 0. */
  function HeightOf(r: ImageRecord): int {
    if r.Analyzed? then r.height else 0
  }

  /** `img.get('file_size', 0)`: the error dict holds 0. */
  function FileSizeOf(r: ImageRecord): int {
    if r.Analyzed? then r.fileSize else 0
  }

  /** `img.get('format', 'Unknown')`: the error dict has no 'format' key. */
  function FormatOf(r: ImageRecord): Option<string> {
    if r.Analyzed? then r.format else Some("Unknown")
  }

  /** `img.get('error')`: the full dict holds 'error': None. */
  function ErrorOf(r: ImageRecord): Option<string> {
    if r.Analyzed? then None else Some(r.error)
  }

  // ---------------------------------------------------------------------------
  // Python truthiness
  // ---------------------------------------------------------------------------

  /** An optional number is truthy when present and non-zero. */
  predicate IntTruthy(v: Option<int>) {
    v.Some? && v.value != 0
  }

  /** A string is truthy when non-empty. */
  predicate StrTruthy(s: string) {
    s != ""
  }

  predicate OptStrTruthy(v: Option<string>) {
    v.Some? && StrTruthy(v.value)
  }

  // ---------------------------------------------------------------------------
  // The per-image tests the summary and display code share
  // ---------------------------------------------------------------------------

  /** `dpi and dpi >= min_dpi` */
  predicate DpiMeets(r: ImageRecord, minDpi: int) {
    IntTruthy(DpiOf(r)) && DpiOf(r).value >= minDpi
  }

  /** `color_mode in preferred_modes` */
  predicate ColorPreferred(r: ImageRecord, preferred: seq<string>) {
    ColorModeOf(r) in preferred
  }

  /** The pass rule of the results table, the summary and the image grid. */
  predicate MeetsCriteria(r: ImageRecord, minDpi: int, preferred: seq<string>) {
    DpiMeets(r, minDpi) && ColorPreferred(r, preferred)
  }

  /** `dpi and dpi >= 300` */
  predicate HighQuality(r: ImageRecord) {
    IntTruthy(DpiOf(r)) && DpiOf(r).value >= 300
  }

  /** `img.get('dpi') and img['dpi'] < min_dpi` */
  predicate LowDpi(r: ImageRecord, minDpi: int) {
    IntTruthy(DpiOf(r)) && DpiOf(r).value < minDpi
  }

  /** `img.get('color_mode') and img['color_mode'] not in preferred_modes` */
  predicate NonPreferredColor(r: ImageRecord, preferred: seq<string>) {
    StrTruthy(ColorModeOf(r)) && ColorModeOf(r) !in preferred
  }

  /** The colour modes that occur in a list of records. */
  function ColorModes(images: seq<ImageRecord>): set<string> {
    set i | 0 <= i < |images| :: ColorModeOf(images[i])
  }
}
