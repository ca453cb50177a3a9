# CI exposures, calibration, telemetry and thumbnails in Dafny

A model of the core of the DESI commissioning-instrument (CI) toolkit:

- **Exposure access** (`CI/data.py`). `openCI` finds a raw multi-extension
  container by night and exposure id. It checks the container's `IMAGECAM`
  camera manifest against the extensions present, and relabels the swapped
  cameras (CIW/CIE and CIC/CIN) of exposures taken before 2 April 2019.
  `CIfiles` streams the validated exposures of a candidate table.
  `calibrate` applies up to three pointwise corrections (bias, dark current,
  gain over exposure time) to each of the five camera images.
- **Telemetry** (`CI/db.py`). `DB.select` assembles SQL text.
  `NightTelemetry` answers lookups by night. It keeps a bounded cache of
  whole-night windows, evicted in insertion order.
- **Thumbnails** (`CI/display.py`). `block_view` and `downsample` reduce an
  image by blocks. `thumbnail` resolves the colour limits, refuses an empty
  colour range, and places the five downsampled images, flipped and
  transposed, into one square mosaic.

I/O is kept abstract:

- The filesystem is a map from path to container.
- A container maps lower-case extension names to (header, pixels).
- The telemetry table is a sequence of timestamped records.
- The database, the exponential, the summary statistic (`np.median`), the
  percentile, the sigma-clipped offsets and the calendar (`dayStart`, the
  start of a night's window) are parameters.

Modules, one per file: `Wrappers`, `Text` (string helpers: lower case,
decimal digits, split/join), `Grids` (2-D images, `block_view`, `downsample`),
`Relabel` (`swap_cameras`), `Exposure` (`openCI`), `Stream` (`CIfiles`),
`Calibration` (`calibrate`), `Query` (`DB.select`), `Telemetry`
(`NightTelemetry`) and `Mosaic` (the thumbnail pipeline and its geometry).

Points of the code worth stating, because they are easy to get wrong:

- `openCI` checks the manifest against the extension names as stored in the
  container, and relabels only afterwards (CI/data.py:36-49).
  `Exposure.ManifestCheckedBeforeRelabel` exhibits an early exposure that is
  accepted in this order but would be rejected if the relabel came first.
- The cameras' relabel is computed from the original map in one pass
  (CI/data.py:12-21). `Relabel.SwapsCommute` shows that the order of the four
  pair writes cannot matter.
- An interpolation request on a non-numeric column raises (CI/db.py:94-98).
  There is no nearest-neighbour lookup.
- The constructor's test query reads `telemetry.<tablename>`
  (CI/db.py:36). The fetch reads `<tablename>`, without the prefix
  (CI/db.py:75-76).

## Model

| member | source | states |
|---|---|---|
| Relabel.Relabelled | CI/data.py:12-21 | reference relabel: a name is present afterwards iff its partner (cie/ciw, cic/cin, any other name itself) was present before, and it holds the partner's original value |
| Relabel.SwapCameras | CI/data.py:12-21 | the loop of four pair writes, each reading the original map, equals the reference relabel |
| Relabel.SwapsCommute | CI/data.py:14-20 | performing the four pair writes in any order and with any repetition gives the same map: no write can clobber another |
| Relabel.SwapPairs | CI/data.py:15-19 | both members of a pair present: values exchanged; one present: its value moves to the partner and its own name disappears; neither: neither appears |
| Relabel.SwapOthersUntouched | CI/data.py:14-20 | names other than ciw/cie/cic/cin keep their presence and value |
| Relabel.SwapTwice | CI/data.py:12-21 | relabelling twice restores the original map |
| Relabel.RelabelledTwice | CI/data.py:12-21 | the reference relabel is its own inverse |
| Text.FormatZeroPaddedRoundTrip | CI/data.py:25 | `f'{expid:08d}'` of an id below 10^8 has exactly eight digits that read back as the id; a longer id is written in full |
| Exposure.ExposurePathLayout | CI/data.py:25-26 | the path is ROOT/night/tag/ci-tag.fits.fz with one eight-digit tag, used twice, that reads back as the exposure id |
| Exposure.MissingCameras | CI/data.py:36-40 | a camera is reported missing iff the manifest lists it and the container (case-insensitively) lacks it |
| Exposure.MissingCamerasConcat | CI/data.py:38-40 | missing cameras are reported in manifest order: the report for a concatenated manifest is the concatenation of the reports |
| Exposure.OpenCI | CI/data.py:24-50 | absent path: NotFound and nothing opened; no IMAGECAM: error after closing; otherwise success iff every manifest camera has an extension, and the error names exactly the missing ones after closing; on success the handle stays open, the header is HDU 1's, and the extensions are relabelled iff night < 20190402 |
| Exposure.ManifestCheckedBeforeRelabel | CI/data.py:36-49 | an exposure from before the cutoff whose manifest lists CIW and whose only extension is ciw is accepted, and comes back with a CIE extension and no CIW one |
| Stream.OpenerConsistent | CI/data.py:64-68 | the opener used by the stream returns an open handle exactly when `openCI` succeeded |
| Stream.CIFiles | CI/data.py:53-56 | a table without an `id` column, or else without a `night` column, raises before any row is read; otherwise, for containers that open and have an HDU 1, only a header lacking a keyword ends the stream, at a row of the table |
| Stream.AfterOpenFailure | CI/data.py:70-75 | after a successful open, a row ends the stream iff its header lacks NIGHT, or has the right NIGHT and lacks EXPID |
| Stream.AfterOpenYields | CI/data.py:64-77 | a row that was opened yields its record iff `openCI` succeeded and the header's NIGHT and EXPID equal the row's; the record yielded is the container and header `openCI` returned |
| Stream.AfterOpenCloses | CI/data.py:64-79 | for one row: every yield is followed by its close; an accepted row is closed once; a row whose header disagrees or lacks a keyword is opened and never closed; a failed open that had opened the file closes it |
| Stream.RowEventsStop | CI/data.py:57-75 | a row ends the stream iff its night is valid, it opens and its header lacks a keyword |
| Stream.RowEventsYields | CI/data.py:57-77 | a row yields its own index iff its night is in [20190317, 20190701], it opens, and its header agrees |
| Stream.RunReach | CI/data.py:57-79 | the stream reaches exactly the rows before the first row whose header lacks a keyword, and that row if any |
| Stream.RunYields | CI/data.py:57-79 | a row is yielded iff it is reached and accepted, and nothing else is yielded |
| Stream.RunYieldsOpened | CI/data.py:64-77 | every record the stream yields is the (container, header) pair `openCI` returned for the row it came from |
| Stream.RunYieldsOrdered | CI/data.py:57-79 | yields come in table order, each row at most once |
| Stream.RunClosesAfterYield | CI/data.py:76-79 | every yielded container is closed as soon as the consumer resumes the generator |
| Stream.RunClosedOnce | CI/data.py:76-79 | every yielded container is closed exactly once |
| Stream.RunLeaks | CI/data.py:69-75 | a container opened for a row whose header disagrees, or lacks a keyword, is never closed |
| Stream.CIFilesYieldsAccepted | CI/data.py:53-79 | for a table with both columns, the whole stream: where it stops, exactly the accepted rows in order, each record carrying the container and header `openCI` returned for its row, closes after yields, closed once, leaks on rejected headers |
| Calibration.StageLabel | CI/data.py:96-121 | the label and units depend on `steps` alone: Raw Data (<=0), Bias Subtracted (1), Dark Subtracted (2), all in ADU; Gain Corrected in elec/s iff steps >= 3 |
| Calibration.Temperature | CI/data.py:106 | a present non-zero CCDTEMP is used; a missing or zero one gives the default; none at all only when the default is missing |
| Calibration.CalibrateCamera | CI/data.py:93-122 | each error (missing bias, missing temperature, missing D0/T0, zero temperature, missing or non-positive EXPTIME, missing gain) exactly when the source raises it, in the source's order; otherwise the image is raw - bias, then - D0*exp(-T0/T), then * gain/EXPTIME, pixel by pixel |
| Calibration.CameraStagesCompose | CI/data.py:97-121 | each stage succeeds only if the previous does and is the previous image with one more pointwise correction; stages beyond three change nothing |
| Calibration.CalibrateAll | CI/data.py:92-122 | on success the images are keyed by exactly the cameras present, each the camera's own calibration; success iff every present camera calibrates; a failure is the first failing camera in camera order |
| Calibration.Calibrate | CI/data.py:84-123 | the header is HDU 1's, the images are exactly those of the cameras present, the label comes from `steps`; NoCameras iff no camera is present; an error is the first failing camera's |
| Query.Clause | CI/db.py:22-27 | a clause contributes nothing iff its argument is None |
| Query.Select | CI/db.py:20-28 | the text starts with `select what from table`, and is exactly that when no clause is given |
| Query.SelectWhere | CI/db.py:22-23 | a given where clause follows the head directly |
| Query.SelectOrder | CI/db.py:24-25 | a given order clause follows the head and the where clause |
| Query.SelectLimit | CI/db.py:26-27 | a given limit clause follows the other two and ends the text |
| Query.SelectNoLimit | CI/db.py:26-27 | without a limit the text ends after the order clause |
| Query.SelectDefault | CI/db.py:20 | with every argument at its default the text is the head followed by ` limit 10` |
| Query.LimitReadsBack | CI/db.py:26-27 | the text ends with ` limit ` and digits that read back as the limit asked for |
| Telemetry.TestQuery | CI/db.py:36 | the constructor's test query is exactly the head over `telemetry.<tablename>` and the requested columns followed by ` limit 1` |
| Telemetry.Init | CI/db.py:34-47 | the timestamp column is among the columns; the columns found come first, in order, and the timestamp is appended only if absent; `what` is their comma join; the cache starts empty |
| Telemetry.InitWhatSplits | CI/db.py:40-43 | when no column name contains a comma, `what` splits back into exactly the columns |
| Telemetry.Fetch | CI/db.py:75-77 | a record is fetched iff its time lies in the window, both ends included |
| Telemetry.FetchQuery | CI/db.py:75-77 | the fetch query is the head over `tablename` and `what`, then exactly the inclusive window condition, with no limit |
| Telemetry.Evict | CI/db.py:83-85 | eviction keeps the newest `cachesize` entries (none for a negative bound), dropping the oldest-inserted ones first |
| Telemetry.Validate | CI/db.py:52-72 | an unknown column is refused first; requested times pass iff there are some and all lie in the closed window; a refused time is a requested time outside the window |
| Telemetry.Lookup | CI/db.py:51-98 | a bad column, no times or a time outside the window leaves the state unchanged; a hit changes nothing, even with times; a miss appends the fetched night and evicts down to the bound; the call fails with Evicted iff it passed validation and the night is not cached afterwards |
| Telemetry.Points | CI/db.py:91 | one (time, value) pair per record of the window, in order |
| Telemetry.NewestSurvives | CI/db.py:81-87 | the entry just inserted survives eviction iff the bound is at least one |
| Telemetry.MissDistinct | CI/db.py:81-84 | inserting a night not cached and evicting keeps every night cached at most once |
| Telemetry.LookupKeepsInv | CI/db.py:73-85 | every lookup keeps the cache invariant: nights distinct, at most `cachesize` entries, every entry equal to a fresh fetch of its window |
| Telemetry.LookupMatchesDirect | CI/db.py:51-98 | while the invariant holds, every lookup answers exactly what an uncached validate-fetch-shape answers |
| Telemetry.Miss | CI/db.py:73-84 | a whole-night lookup of an uncached night appends it and evicts |
| Telemetry.EvictionIgnoresHits | CI/db.py:54-87 | with room for two, looking up A, B, A, C leaves B and C: a hit does not protect a night from eviction |
| Telemetry.LookupAsWritten | CI/db.py:51-62 | as written, any call that needs the window raises NameError for `datetime` once the column check has passed, and the state never changes |
| Telemetry.NeverAnswersAsWritten | CI/db.py:54-56 | as written, a freshly constructed object fails every request of any sequence |
| Grids.BlockView | CI/display.py:13-25 | succeeds iff both block sides are positive and divide the image sides; the result is (rows/a) x (cols/b) blocks, each a x b |
| Grids.BlockViewElements | CI/display.py:13-25 | element (k, l) of block (i, j) is A[i*a+k][j*b+l] |
| Grids.UnblockBlockView | CI/display.py:13-25 | reassembling the blocks gives back the image: the view loses and invents nothing |
| Grids.Downsample | CI/display.py:28-29 | succeeds iff the block view does; the result is (rows/d) x (cols/d) and each pixel is the summary of its d x d block |
| Grids.DownsampleByOne | CI/display.py:28-29 | downsampling by one, summarising each 1 x 1 block by its element, gives back the image |
| Mosaic.WiderThanHigh | CI/display.py:95 | for every positive downsampling, 0 <= ny <= nx |
| Mosaic.Region | CI/display.py:102-112 | each camera's slice lies inside the square of side nx + 2ny: CIS, CIN and CIC are ny x nx and CIE, CIW are nx x ny |
| Mosaic.Source | CI/display.py:102-112 | every slice position shows a pixel inside the ny x nx image (CIS as is, CIE `[:, ::-1].T`, CIW `[::-1].T`, CIN and CIC `[::-1, ::-1]`) |
| Mosaic.Target | CI/display.py:102-112 | every image pixel lands inside its camera's slice |
| Mosaic.TargetThenSource | CI/display.py:102-112 | every image pixel is shown, at the place `Target` gives |
| Mosaic.SourceThenTarget | CI/display.py:102-112 | every slice position shows a different pixel |
| Mosaic.RegionsDisjoint | CI/display.py:102-112 | the five slices do not overlap |
| Mosaic.Blank | CI/display.py:96 | the empty mosaic is side x side and all NaN |
| Mosaic.Paste | CI/display.py:102-112 | one slice assignment changes exactly the positions of that slice |
| Mosaic.PasteAllAt | CI/display.py:97-112 | after the loop, each position shows its owner's pixel if the owner is present, and is unchanged otherwise |
| Mosaic.Owner | CI/display.py:102-112 | the owner of a position is the camera whose slice holds it, and there is none only if no slice holds it |
| Mosaic.Misfit | CI/display.py:97-112 | the first present camera, in camera order, whose image does not fit its slice: every present camera before it fits; none iff all present cameras fit |
| Mosaic.Layout | CI/display.py:95-112 | a non-positive downsampling fails; success iff every present camera's image is ny x nx; the mosaic is square with side nx + 2ny |
| Mosaic.LayoutPixel | CI/display.py:95-112 | each mosaic pixel is its owner's flipped pixel if the owner is present, and NaN otherwise |
| Mosaic.FullFramesFit | CI/display.py:95 | a full 2048 x 3072 image downsampled by a divisor of 1024 fits its slice |
| Mosaic.Offset | CI/display.py:57 | `data[camera] - offset[camera]` is the image shifted pixel by pixel |
| Mosaic.DownsampleAll | CI/display.py:52-57 | every present camera is downsampled after its offset, and only those; success iff every present camera can be downsampled; otherwise the error is the first refusal in camera order, every present camera before it downsampling; a non-positive downsampling with a camera present fails |
| Mosaic.Thumbnail | CI/display.py:36-67 | a downsampling refusal escapes first; then NoPixels iff a percentile is asked with no camera present; then EmptyRange iff the resolved limits (fixed values, or percentiles of the pooled downsampled pixels) have vmin >= vmax; then success whenever the mosaic can be laid out, with the resolved limits (vmin < vmax) and the mosaic of the downsampled images at side nx + 2 ny |
| Mosaic.ThumbnailPixel | CI/display.py:52-112 | end to end: pixel (i, j) of a present camera, the summary of block (i, j) of its offset image, appears in the thumbnail where the camera's flip puts it |

## Left out

- FITS reading, YAML loading and the database connection (`fitsio`,
  `yaml.safe_load`, `psycopg2`, `pd.read_sql`) are foreign I/O. Containers,
  coefficient maps and query results are values.
- The lazily loaded globals `default_calib` and `db_config` are file-loading
  side effects. The default calibration is a parameter of `Calibrate`.
- Logging and `print` are left out. A skipped row is an event in the
  stream's trace instead.
- float32 upcasting and NaN are not modelled: pixel values are reals.
  `np.exp` is a parameter. A missing or NaN night is `None`, and nights are
  integers, so `int(round(night))` has nothing left to do.
- Times are integers on one scale. The MJD/timestamp conversion is not
  modelled, and requested times are taken as already converted. The window
  start `dayStart(night)` is a parameter, standing for 07:00 on the night's
  date.
- `np.interp` is not computed: an interpolation answer carries the
  requested times and the (time, value) points.
- Pandas dtype inference is approximated by `Numeric`: every value is a
  number or NULL, and at least one is a number.
- Telemetry.Lookup: with a negative `cachesize` the trimming loop empties
  the cache and then calls `popitem` on the empty dictionary, which raises
  `KeyError`. With a zero one the loop drops the new entry, and the read of
  `self.cache[night]` that follows raises `KeyError`. Both are the single
  error `Evicted`, with the cache emptied.
- Stream.CIFiles: a row's `id` is modelled as an integer. Pandas can hand
  the loop a float `id`: a column with a missing id is stored as floats, and
  `iterrows` gives a row of an all-numeric table one common dtype, float as
  soon as `night` holds a NaN. `openCI` then fails at the `:08d` format with
  `ValueError`. The loop catches only `RuntimeError`, so that error ends the
  stream. The model neither has float ids nor ends the stream this way.
  Likewise, every existing path holds a container that opens and has an
  HDU 1. In the source, a file that exists but cannot be opened fails in
  `fitsio.FITS` (CI/data.py:29), and one without an HDU 1 fails at
  `hdus[1]` (CI/data.py:31), leaving its handle open. Neither error is a
  `RuntimeError`, so either one ends the stream. The model does not have
  these files.
- Mosaic.Thumbnail: sigma-clipped offsets, the percentile and the summary
  statistic are parameters. Percentile strings are given already parsed as
  `Percent`. A percentile over an empty pool of pixels is left to the
  percentile parameter, except when no camera at all is present.
- Mosaic.Layout: numpy broadcasting is not modelled. An image must have
  exactly the slice's shape, and any other shape is `ShapeMismatch`.
- Grids.BlockView: the 2-D assertion is implied by the image type. A zero
  block side raises `ZeroDivisionError` at the divisibility test. A negative
  one can pass that test and gives a negative shape, which `as_strided`
  refuses. Both are refused here without reproducing the two exceptions.
- Rendering is left out: the figure, histogram, colour bar, `imshow`,
  metadata text and URL.
- `DB.query` is not modelled apart from the SQL text it receives.
- nightsummary.py, merge.py and the web page script are batch and UI glue
  and are not part of this model.

## Findings

| source | as written | input that shows it | evidently intended | confidence | as-written member | corrected member |
|---|---|---|---|---|---|---|
| CI/db.py:56 | `datetime.datetime.strptime` is called, but `datetime` is not among the imports at CI/db.py:1-7, so computing the window raises NameError | the first lookup on a new object, e.g. night 20190401 with no column and no times | compute the 07:00-to-07:00 window of the night and fetch it | high (not executed) | Telemetry.NeverAnswersAsWritten | Telemetry.LookupMatchesDirect |
