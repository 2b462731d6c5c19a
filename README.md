# ANPR access control — Dafny model

A model of the decision logic of a licence-plate access controller (`anpr.py`). The system
fetches the most recent booking's plate, reads a plate from every camera frame (find the
largest contour, keep it only if it approximates to four vertices, label the corners,
rectify, crop the left 10%, OCR, sanitise to `A-Z0-9`) and grants access at the first frame
whose non-empty reading equals the registered plate. The image processing, the OCR engine and
the database are foreign code. The model covers the logic around them:

- `PlateText`: `re.sub(r'[^A-Z0-9]', '', s.upper())` with ASCII upper-casing.
- `Booking`: choosing the booking with the greatest key in Python's string order, and reading
  its `plate` field (`""` when absent), upper-cased.
- `Corners`: labelling the four vertices as top-left, top-right, bottom-right, bottom-left by
  numpy `argmin`/`argmax` of `x+y` and `y-x` (first index on ties).
- `Localizer`: the three outcomes of `get_inner_plate`, the target size
  `max(int(a), int(b))` and the crop `warp[0:h, int(w*0.10):w]`.
- `Stability`: the `last_detected`/`stable_count` state as a class `Tracker` with a `Step`
  method, and the frame loop `Run`, proved against the functions `Replay` and `FirstGrant`.
- `Session`: `anpr_system`, from the fetched bookings and what each frame yields (no contour,
  a contour that is not a quadrilateral, or OCR text) to the session's outcome and the number
  of frames read; both as written, where a contour-free frame raises, and as evidently intended.

Points of the code's behaviour worth knowing:

- Top-right is the point with the smallest `y-x` (`np.argmin(np.diff(pts, axis=1))`), that is,
  the point with the largest `x-y`.
- The target width and height have no lower bound of 1 (`TargetSizeMayBeEmpty`). A width or
  height of 0 is the size requested from `cv2.warpPerspective`, which then produces an image the
  size of the whole frame (`WarpSize`, `DegenerateQuadWarpsWholeFrame`).
- The corner labelling is order-independent only when every extreme is attained by a single
  point (`OrderPointsPermutationInvariant`). With ties, the input order decides
  (`TiedTopLeftFollowsInputOrder`).
- The streak threshold is `stable_count >= 1`. Since the count is always at least 1 after a
  non-empty reading, a grant needs only one matching frame (`Tracker.Step`, `ReplayCountPositive`).

## Model

| member | source | states |
|---|---|---|
| `PlateText.Upper` | anpr.py:105 | same length; no lower-case letter remains; `a`-`z` move down by 32 to `A`-`Z`; every other character is unchanged |
| `PlateText.Keep` | anpr.py:105 | the result holds only `A-Z0-9` characters and is no longer than the input |
| `PlateText.Sanitise` | anpr.py:105 | sanitised text holds only `A-Z0-9` characters and is never longer than the input |
| `PlateText.KeepIsSubsequence` | anpr.py:105 | the filtered text is an order-preserving subsequence of its input |
| `PlateText.KeepCountsPlateChars` | anpr.py:105 | every plate character survives the filter as often as it occurs in the input |
| `PlateText.KeepFixedPoint` | anpr.py:105 | the filter leaves a string unchanged exactly when it is already plate text |
| `PlateText.UpperOfPlateText` | anpr.py:105 | upper-casing leaves plate text unchanged |
| `PlateText.SanitiseSelects` | anpr.py:105 | sanitised text is a subsequence of the upper-cased input that keeps every plate character with its multiplicity and nothing else |
| `PlateText.SanitiseIdempotent` | anpr.py:115 | sanitising twice gives the same as sanitising once (the registered plate is sanitised after an upper-casing) |
| `PlateText.SanitiseFixedPoint` | anpr.py:115 | sanitising is a no-op exactly on strings already in `A-Z0-9` (both directions) |
| `PlateText.SanitiseExample` | anpr.py:105 | `"ka-01"` sanitises to `"KA01"` |
| `Booking.LexIrreflexive` | anpr.py:24 | no key sorts before itself |
| `Booking.LexTransitive` | anpr.py:24 | the key order is transitive |
| `Booking.LexTotal` | anpr.py:24 | any two distinct keys are ordered one way or the other |
| `Booking.LexLess` | anpr.py:24 | Python's `str` order as `sorted` uses it: a proper prefix sorts first, and a smaller first character decides |
| `Booking.GreatestExists` | anpr.py:24 | a non-empty set of keys has a last key in sorted order |
| `Booking.GreatestUnique` | anpr.py:24 | that last key is unique |
| `Booking.GreatestIsUnique` | anpr.py:24 | the uniqueness, stated for all pairs of keys at once |
| `Booking.LatestKey` | anpr.py:24 | `sorted(keys)[-1]` is a key of the map and every other key sorts before it |
| `Booking.PlateOf` | anpr.py:25 | definition without a contract: `.get("plate", "")`, the `plate` field when present and `""` otherwise |
| `Booking.LatestBookingPlate` | anpr.py:21-26 | `None` exactly when there are no bookings; otherwise the upper-cased `plate` field (or `""`) of the booking with the greatest key |
| `Booking.LatestBookingExample` | anpr.py:23-25 | with keys `b1`, `b2` the plate of `b2` is taken; a missing `plate` field gives `""` |
| `Corners.ArgMin` | anpr.py:56-61 | `np.argmin`: an index of a smallest entry, and the first such index |
| `Corners.ArgMax` | anpr.py:56-62 | `np.argmax`: an index of a largest entry, and the first such index |
| `Corners.FirstMinPointUnique` | anpr.py:56-62 | at most one point is "the first point with the smallest key", so each label is well defined |
| `Corners.OrderPoints` | anpr.py:53-62 | each label is one of the four input points: top-left has the smallest `x+y`, bottom-right the largest `x+y`, top-right the smallest `y-x`, bottom-left the largest `y-x`, each the earliest-listed on ties |
| `Corners.OrderPointsPermutationInvariant` | anpr.py:56-62 | when each of the four extremes is attained by a single point, any reordering of the input gives the same labels |
| `Corners.TiedTopLeftFollowsInputOrder` | anpr.py:56-57 | when the first two points tie for the smallest `x+y`, swapping them swaps the top-left label, so the labels differ |
| `Corners.TopLeftIsFirstListed` | anpr.py:56-57 | a first-listed point with the smallest `x+y` is labelled top-left |
| `Corners.UprightExtremes` | anpr.py:56-62 | each corner of an upright rectangle with positive sides is the strict extreme of its key |
| `Corners.UprightRectangleLabels` | anpr.py:56-62 | the corners of an upright rectangle, listed in any order, receive their true labels |
| `Localizer.TargetSize` | anpr.py:69-70 | `maxWidth` is the larger of the two width lengths and `maxHeight` the larger of the two height lengths |
| `Localizer.TargetSizeMayBeEmpty` | anpr.py:69-70 | no minimum of 1 is enforced: zero-length edges give a 0×0 target |
| `Localizer.CropStart` | anpr.py:85 | the first kept column is a tenth of the width rounded down, within `[0, w]` |
| `Localizer.Crop` | anpr.py:84-85 | the crop keeps the height, has width `w - w/10`, and pixel `(i, j)` is pixel `(i, j + w/10)` of the warp |
| `Localizer.EdgesOf` | anpr.py:64-68 | when a point is at distance 0 from itself, corners coinciding across the top and across the bottom give widths `widthA = widthB = 0`, and corners coinciding down both sides give heights of 0 |
| `Localizer.WarpSize` | anpr.py:81 | `cv2.warpPerspective` produces either the requested size or the frame's size; a request with both sides positive is honoured; for a frame with both sides positive the produced image is never empty |
| `Localizer.GetInnerPlate` | anpr.py:32-93 | no contour gives `(None, frame, None)`; a polygon without exactly 4 vertices gives `(None, None, frame)`; only 4 vertices are rectified, to the target size of the labelled corners, then cropped; the plate has the warp's height and its width less a tenth, and is never empty when the frame is not, so the OCR step at anpr.py:99 never receives an empty image |
| `Localizer.DegenerateQuadWarpsWholeFrame` | anpr.py:64-85 | corners that coincide in pairs request a target of width 0, and the plate is then cut from a warp the size of the whole frame |
| `Localizer.UprightRectangleTargetSize` | anpr.py:64-70 | an upright w×h rectangle, in any vertex order and with exact axis-aligned edge lengths, gets a w×h target |
| `Stability.Next` | anpr.py:132-139 | an empty reading changes nothing; any other becomes `last_detected` with `stable_count >= 1`; the update keeps the two variables well formed |
| `Stability.Grants` | anpr.py:141 | a grant needs the reading to equal the registered plate, and a registered plate of `""` never grants |
| `Stability.Replay` | anpr.py:119-139 | the streak after any readings is well formed: `stable_count >= 0`, and it is 0 exactly when `last_detected` is `""` |
| `Stability.FirstGrant` | anpr.py:141-147 | a stopping index is an index of the readings whose reading grants |
| `Stability.NonEmptyProperties` | anpr.py:132 | the non-empty readings are no more than the readings, each is one of them, and there are none exactly when every reading is empty |
| `Stability.ReplayIsTrailingBlock` | anpr.py:132-139 | `last_detected` is the latest non-empty reading (or `""`), and `stable_count` is the length of the block of identical readings ending the non-empty readings |
| `Stability.ReplayLastIsReading` | anpr.py:135-139 | `last_detected` is `""` or one of the readings |
| `Stability.ReplayStep` | anpr.py:132-139 | reading one more frame applies one more update to the streak |
| `Stability.ReplayCountPositive` | anpr.py:141 | after any non-empty reading `stable_count >= 1`, so that guard never blocks a grant |
| `Stability.FirstGrantSpec` | anpr.py:141-147 | the loop's stopping index is a frame whose non-empty reading equals the registered plate, and no earlier frame's is; no index means no frame matches |
| `Stability.FirstGrantAt` | anpr.py:141-147 | a granting reading with no granting reading before it is where the loop stops |
| `Stability.EmptyRegisteredNeverGrants` | anpr.py:132-141 | with registered plate `""` no frame ever grants |
| `Stability.StreakExample` | anpr.py:135-139 | readings `ABC12D, ABC12D, XYZ, ABC12D` give counts 1, 2, 1, 1 and end with `ABC12D` |
| `Stability.GrantExample` | anpr.py:141-147 | with plate `KA01AB1234` the loop stops at the first frame reading it |
| `Stability.Tracker.constructor` | anpr.py:119-120 | the streak starts at count 0 with `last_detected = ""` |
| `Stability.Tracker.Step` | anpr.py:132-150 | an empty reading changes nothing; a reading equal to `last_detected` increments the count; any other sets the count to 1 and records the reading; the frame grants exactly when the reading is non-empty and equals the registered plate |
| `Stability.Run` | anpr.py:122-147 | returns the first granting frame (or none) and the streak after exactly the frames consumed, none after the grant |
| `Session.Detected` | anpr.py:127-130 | a frame without a plate region (no contour, or not four vertices) reads `""`; a frame with one reads its OCR text as `read_plate_chars` sanitises it; every reading is plate text |
| `Session.Readings` | anpr.py:122-130 | one reading per frame, the frame's `detected_plate`; every reading is plate text, and every frame without a plate region reads `""` |
| `Session.Registered` | anpr.py:110-115 | the comparison plate is the latest booking's plate sanitised; there is none exactly when the latest booking is missing or its plate is `""` |
| `Session.RegisteredIsSanitisedLatestPlate` | anpr.py:110-115 | for the greatest booking key: no comparison plate exactly when that booking's raw plate is `""`, and otherwise the comparison plate is that raw plate upper-cased and stripped to `A-Z0-9` (the earlier upper-casing changes nothing) |
| `Session.FrameOf` | anpr.py:127-130 | from the triple `get_inner_plate` returned: a frame is contour-free exactly when both the plate and the annotated frame are `None`, and is read by OCR exactly when there is a plate, the text being the OCR of the cropped `plate_img` |
| `Session.FrameGrantsExactlyOnMatch` | anpr.py:127-141 | a frame grants exactly when `get_inner_plate` gave a plate, the OCR text of that plate sanitises to the registered plate, and that plate is not `""` (both directions) |
| `Session.NoContourIsMissingDebugFrame` | anpr.py:41-42 | for every triple `get_inner_plate` returns, the frame is contour-free exactly when no contour was found, and exactly when `debug_frame` is `None` |
| `Session.Intended` | anpr.py:122-147 | the corrected session of a registered plate ends with a grant or with the stream; a grant at frame `i` has read `i + 1` frames, and the stream's end has read every frame |
| `Session.AsWritten` | anpr.py:122-155 | the session as written never reads more frames than the stream holds; a crash happens at a contour-free frame, which is the last one read |
| `Session.FirstNoContour` | anpr.py:41-42 | the index of a frame without any contour, with no such frame before it; none means every frame had a contour |
| `Session.AsWrittenGrantsAt` | anpr.py:141-147 | a granting frame preceded only by non-granting frames that had a contour ends the session with a grant there |
| `Session.AsWrittenCrashesAt` | anpr.py:127-152 | a contour-free frame preceded only by non-granting frames that had a contour ends the session there: `debug_frame` is `None` and `cv2.imshow` raises |
| `Session.AsWrittenEndsWithStream` | anpr.py:122-125 | when no frame grants or lacks a contour, every frame is read and the stream's end ends the session |
| `Session.FrameLoop` | anpr.py:122-155 | the loop as written ends at the first grant, or by an exception at the first contour-free frame if that comes first, or at the end of the stream, having read the frames up to and including the last one handled |
| `Session.AnprSystem` | anpr.py:109-155 | no booking or an empty plate ends the session before any frame is read; otherwise the frame loop as written runs for the sanitised plate |
| `Session.AnprSystemIntended` | anpr.py:109-147 | the corrected session: a contour-free frame is a frame without a detection, and the session ends at the first granting frame or at the end of the stream |
| `Session.IntendedEndsAtFirstMatch` | anpr.py:127-147 | the corrected session grants at the first frame whose sanitised OCR text is the non-empty registered plate, having read up to it, and otherwise reads every frame, no frame matching |
| `Session.CrashIsFirstContourFreeFrame` | anpr.py:127-152 | the session as written crashes at frame `k` exactly when `k` is the first contour-free frame and no frame before it granted (both directions) |
| `Session.SessionsAgreeWithoutContourFreeFrames` | anpr.py:127-152 | when every frame has a contour, the session as written and the corrected one end alike |
| `Session.ContourFreeFrameEndsSession` | anpr.py:127-152 | plate `KA01`, frames (no contour, `KA01`): as written the session crashes at frame 0; corrected, it grants at frame 1 |
| `Session.GrantMeansMatch` | anpr.py:127-141 | a granting frame had a plate region and its sanitised text equals the non-empty registered plate; no earlier frame matched |
| `Session.PunctuationPlateNeverGrants` | anpr.py:111-115 | a booking plate such as `"--"` passes the emptiness check, sanitises to `""`, and never grants |

## Left out

- Firebase initialisation and the `db.reference(...).get()` read: network I/O. The model receives the fetched map. An absent result (`None`) is the empty map, since both are falsy.
- OpenCV (grey conversion, blur, Canny, contours, contour area, arc length, `approxPolyDP`, perspective transform, warp, resize, Otsu threshold): foreign raster and floating-point routines. `GetInnerPlate` receives the polygon approximation of the largest contour (or `None`) and the warp as a function.
- `np.linalg.norm` edge lengths: float32 square roots, whose truncation is not exactly the integer square root. They enter as a function `edgeLength` returning naturals.
- The float product `w*0.10` is modelled as `w / 10`. For image widths the two truncations agree.
- The float32 `rect` array holds the integer vertices exactly at image sizes, so the labelled corners are kept as integer points.
- Tesseract and its configuration: an external OCR engine. Each frame's OCR output is an arbitrary string; a frame without a plate region yields no OCR output.
- Localizer.GetInnerPlate: the image `cv2.warpPerspective` produces is an input; the model states only its size (`WarpSize`), which is the requested size when both sides are positive and the frame's size when either is 0, not its pixels.
- Booking.LatestBookingPlate: assumes the fetched bookings form a map from string keys to records of string fields. Three shapes the database can return make the source raise instead: a latest booking that is not an object (AttributeError at `.get`, anpr.py:25), a `plate` that is not a string (AttributeError at `.upper()`, anpr.py:25), and a list, which Firebase returns for integer-like keys (AttributeError at `.keys()`, anpr.py:24).
- Session.FrameLoop: the exception raised by `cv2.imshow` is modelled as the outcome `Crashed`; what the exception does beyond ending the session (the traceback, the camera left open) is not modelled.
- PlateText.Upper: ASCII only. Unicode `str.upper()` can expand a character (`'ﬀ'` becomes `"FF"`) or turn a non-plate letter into a plate letter (`'ſ'` becomes `'S'`, `'ı'` becomes `'I'`). So in the source a sanitised booking plate can be longer than the raw one and can keep letters the model drops; the `PlateText.Sanitise` bound "never longer than the input" holds for the model only.
- PlateText.Sanitise: its length bound and its character set are those of the ASCII `Upper`; see the line above for where Unicode `str.upper()` differs.
- Camera capture, `imshow`, `putText`, `polylines` (the green box is drawn on the frame in place), the two-second `waitKey` dwell, the `'q'` cancellation and window teardown: display and device I/O. Cancellation and a failed read both end the frame sequence.
- Console messages (`print`): not modelled.

## Findings

| source | as written | input that shows it | evidently intended | confidence | as-written member | corrected member |
|---|---|---|---|---|---|---|
| anpr.py:41-42, anpr.py:152 | a frame without any contour makes `get_inner_plate` return `(None, frame, None)`, so `debug_frame` is `None` and `cv2.imshow("ANPR Camera", None)` raises, ending the session | registered plate `KA01`; frame 0 has no contour, frame 1 reads `KA01` | the triple is `(None, None, frame)` as in the non-quadrilateral branch, the frame counts as no detection, and frame 1 grants | not executed; high | `Session.AnprSystem`, `Session.NoContourIsMissingDebugFrame`, `Session.ContourFreeFrameEndsSession` | `Session.AnprSystemIntended` |
