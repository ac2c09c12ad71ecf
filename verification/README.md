# Face-mask stylisation core, in Dafny

The application takes an image, finds faces in it with an OpenCV cascade
classifier, and paints a fixed glyph over every face: a black rectangle
over the top half of the face's bounding box, a white rectangle over the
bottom half, and a red disc drawn last on top. Its own logic is two small
pieces of `src/main/java/jjug/App.java`, and this project models both:

- `FaceTranslator.duker(Mat, Rect)`: the three drawing calls for one region.
  They use Java `int` arithmetic, so sums wrap around in two's complement
  and `/` truncates toward zero.
- `FaceDetector.detectFaces(Mat, BiConsumer<Mat, Rect>)`: runs the
  classifier once, then calls the action once per detected region, in the
  classifier's order, always on the same image.

Modules:

- `JavaInt` (`java_int.dfy`): the `int` range, wrap-around `Add` and
  truncating `Div`.
- `Drawing` (`drawing.dfy`): `Point`, `Rect`, the colour `Scalar` in BGR
  order, and `DrawCommand`. A `DrawCommand` is one `rectangle` or `circle`
  call with all of its arguments: thickness `-1` (filled), line type
  `CV_AA` (16) and shift 0. The image, `Mat`, is an object identity plus
  the log of the calls issued against it.
- `FaceTranslator` (`face_translator.dfy`): `Duker`. It is total over
  every `int` rectangle. For a `WellFormed` region it equals `Recipe`, the
  glyph written out in unbounded integers. A `WellFormed` region has
  non-negative extents, and every sum `duker` forms fits in an `int`.
- `FaceDetector` (`face_detector.dfy`): the loop as the method
  `DetectFaces` and as the reference fold `Run`. The action is modelled
  as a function that returns the drawing calls it issues on the image as
  it stands. So it can add to the image but cannot swap it for another
  object.
- `Raster` (`raster.dfy`): what a log of filled calls leaves at a pixel.
  The last call whose filled area contains the pixel decides its colour.
  A rectangle covers its corners inclusive; a disc covers every pixel
  within its radius. This is a plain fill, not OpenCV's anti-aliased
  rasteriser.
- `Pipeline` (`pipeline.dfy`): the loop run with `duker` as its action, as
  the `/duker` endpoint and the `convertFace` queue listener both run it.

The disc's centre x-coordinate is `x + h/2`: it uses the height, not the
width. The model keeps this exactly as written. `DiscCentredIff` states
exactly when the disc is still centred: when `w/2 == h/2` under
truncation. So a square region gets a centred disc, and so does a
20 × 21 region (`NonSquareCentredDisc`). A 10 × 40 region gets a disc
shifted right (`TallRegionDiscOffCentre`).

The two rectangles share the row `y + h/2`, and white is drawn there
last. So a region's top-left pixel is black only if `h >= 2` and the disc
does not reach that corner (`GlyphPixel`, `OneRowRegion`, `FlatRegionHasNoBlack`).

## Model

| member | source | states |
|---|---|---|
| JavaInt.Wrap | src/main/java/jjug/App.java:199-203 | the narrowed value is congruent to the input modulo 2^32, and equals it when it already fits in an `int` |
| JavaInt.Add | src/main/java/jjug/App.java:199-203 | Java `int` addition: the exact sum when it fits, otherwise the sum shifted by 2^32 back into range |
| JavaInt.Div | src/main/java/jjug/App.java:199-203 | Java `int` division by a positive divisor: the quotient is bracketed from the side of zero, so it rounds toward zero for negative dividends |
| JavaInt.DivAgreesOnNaturals | src/main/java/jjug/App.java:199-203 | for non-negative operands Java and Dafny division agree |
| JavaInt.DivTruncatesTowardZero | src/main/java/jjug/App.java:199-203 | Java's -3 / 2 is -1: a negative quotient is rounded toward zero |
| FaceTranslator.Duker | src/main/java/jjug/App.java:196-204 | exactly three calls: black rectangle, white rectangle, red disc, in that order; all filled, anti-aliased, shift 0; for a well-formed region they equal the unbounded-integer glyph `Recipe` |
| FaceTranslator.ExactWhenWellFormed | src/main/java/jjug/App.java:197-203 | for a well-formed region no `int` sum in `duker` wraps, and Java's halving and twelfth agree with exact division |
| FaceTranslator.HalvesTileRegion | src/main/java/jjug/App.java:199-201 | black starts at (x, y); white starts on black's lower edge y + h/2 and ends at y + h; both span x .. x + w; the white half is at most one row taller than the black |
| FaceTranslator.RadiusIsTwelfthOfExtents | src/main/java/jjug/App.java:203 | the radius is non-negative and is (w + h)/12 rounded down |
| FaceTranslator.DiscCentredIff | src/main/java/jjug/App.java:203 | the disc centre is the region centre if and only if w/2 == h/2; in particular when w == h |
| FaceTranslator.NonSquareCentredDisc | src/main/java/jjug/App.java:203 | a 20 × 21 region still gets a centred disc at (10, 10) |
| FaceTranslator.TallRegionDiscOffCentre | src/main/java/jjug/App.java:203 | a 10 × 40 region gets its disc at x + 20, outside the region's width of 10 |
| FaceTranslator.TwentyByTwentyGlyph | src/main/java/jjug/App.java:196-204 | region {10, 10, 20, 20}: black (10,10)-(30,20), white (10,20)-(30,30), red disc of radius 3 at (20,20) |
| FaceTranslator.RadiusWrapsPastIntRange | src/main/java/jjug/App.java:203 | region {0, 0, MAX, 12}: w + h wraps to MIN + 11 and the radius is -178956969; region {0, 0, MAX, MAX}: w + h wraps to -2 and the radius is 0 |
| FaceTranslator.NegativeHeightHalvesTowardZero | src/main/java/jjug/App.java:197-199 | a height of -3 puts the black rectangle's lower edge at y - 1, the Java rounding |
| FaceDetector.Run | src/main/java/jjug/App.java:172-178 | the fold over the detections, one `Accept` (the call `detectAction.accept(source, r)`, App.java:177) per region, keeps the image's identity; what was drawn before stays as a prefix; with no detection the image is unchanged |
| FaceDetector.RunAppend | src/main/java/jjug/App.java:174-178 | detecting f then g is the same as detecting f + g: regions are processed strictly in order |
| FaceDetector.DetectFaces | src/main/java/jjug/App.java:167-179 | the action is invoked exactly `numOfFaces` times; call i gets index i and region i, always on the source image; the result is the in-order fold `Run`; with zero detections there are no calls and the image is unchanged |
| FaceDetector.RunAppendsIssued | src/main/java/jjug/App.java:174-178 | with an image-independent action, the loop appends exactly the calls the action issues for every region, in detection order |
| FaceDetector.IssuedIgnoresImage | src/main/java/jjug/App.java:174-178 | for an image-independent action, the calls issued over all regions do not depend on the image either |
| Raster.Paint | src/main/java/jjug/App.java:199-203 | the plain-fill effect of the filled `rectangle` and `circle` calls at one pixel: the colour of the last call covering it, otherwise the colour underneath |
| Raster.PaintIsLastWriter | src/main/java/jjug/App.java:199-203 | last write wins: a pixel takes the colour of a covering call that no later call covers, or keeps its colour if no call covers it |
| Raster.PaintStep | src/main/java/jjug/App.java:199-203 | one more filled call decides a pixel it covers and leaves every other pixel as it was |
| Raster.PaintAppend | src/main/java/jjug/App.java:199-203 | later calls paint over what earlier calls left |
| Raster.PaintOverwrites | src/main/java/jjug/App.java:199-203 | under a covering call the prior colour is irrelevant; where nothing covers, the prior colour shows through |
| Raster.RepaintIdempotent | src/main/java/jjug/App.java:199-203 | issuing the same filled calls twice gives the same pixels as issuing them once |
| Pipeline.DukerIgnoresImage | src/main/java/jjug/App.java:196-204 | `duker` issues the same calls whatever image it is handed: they depend only on (x, y, w, h) |
| Pipeline.PrependLayout | src/main/java/jjug/App.java:174-178 | for an action issuing three calls per region, the first region's calls come first and every later region's calls move back by three |
| Pipeline.ThreeCallLayout | src/main/java/jjug/App.java:174-178 | for an action issuing three calls per region, position j of the issued calls holds call j % 3 of region j / 3 |
| Pipeline.LoopLayout | src/main/java/jjug/App.java:167-179 | for an image-independent action issuing three calls per region, the loop appends 3n calls after the existing ones, region i's at 3i .. 3i + 2 |
| Pipeline.DetectLayout | src/main/java/jjug/App.java:167-179 | n detections add exactly 3n calls after the existing ones, region i's black, white and red calls in that order; zero detections leave the image unchanged |
| Pipeline.GlyphPixel | src/main/java/jjug/App.java:199-203 | in the plain-fill model, after `duker` a pixel is red inside the disc, otherwise white in the bottom half (including the shared row y + h/2), otherwise black in the top half, otherwise unchanged |
| Pipeline.DiscCall | src/main/java/jjug/App.java:203 | for a well-formed region the disc call is the filled red disc of radius (w + h)/12 centred at (x + h/2, y + h/2) |
| Pipeline.FilledDiscCoversIff | src/main/java/jjug/App.java:203 | in the plain-fill model, that disc covers exactly the pixels within its radius of its centre |
| Pipeline.DiscCallCoversIff | src/main/java/jjug/App.java:203 | in the plain-fill model, the disc call paints exactly the pixels within (w + h)/12 of (x + h/2, y + h/2) |
| Pipeline.DiscCentreIsRed | src/main/java/jjug/App.java:203 | in the plain-fill model, the disc centre pixel is red |
| Pipeline.GlyphIdempotent | src/main/java/jjug/App.java:196-204 | in the plain-fill model, running `duker` twice on one region gives the same pixels as running it once |
| Pipeline.TwentyByTwentyPixels | src/main/java/jjug/App.java:196-204 | in the plain-fill model, region {10, 10, 20, 20}: (10,10) black, (10,29) white, (20,20) and the interior pixel (20,22) red, (31,10) unchanged |
| Pipeline.OneRowRegion | src/main/java/jjug/App.java:199-203 | in the plain-fill model, region {10, 10, 10, 1}: (10,10) red, (15,10) and (20,10) white, and (15,11) white, because the white half covers rows y .. y + 1 |
| Pipeline.FlatRegionHasNoBlack | src/main/java/jjug/App.java:199-203 | in the plain-fill model, for every well-formed region at most one row high, no pixel of the black half stays black: white is drawn over all of it |
| Pipeline.LastRegionWins | src/main/java/jjug/App.java:174-178 | in the plain-fill model, where the last detected region's glyph covers a pixel, that glyph alone decides the colour, whatever earlier regions drew |

## Left out

- Face detection itself (`CascadeClassifier.detectMultiScale`) is native code. Its result is an input sequence of regions. Classifier loading in `init` (App.java:185-192) is left out too, and so is the two-phase Spring lifecycle.
- The HTTP endpoints `hello`, `duker`, `send` and `queue`, the STOMP/WebSocket configuration and `greet`, and the JMS listener `convertFace` with its concurrency of 1-5 are left out. They only decode input, delegate and transport the result.
- PNG encoding through ImageIO and Base64 encoding are library calls whose code is not shown.
- Logging is left out: it has no effect on the image.
- Raster.Covers: OpenCV's anti-aliased edge pixels (`CV_AA`) are not modelled, only the filled interior. Outlines (thickness >= 0) are given no area because `duker` never issues one. A negative radius covers nothing, whereas OpenCV rejects it with an error.
- Pipeline.GlyphPixel: stated only for well-formed regions. Detector output always is well-formed. For other rectangles `Duker` still models the wrapped Java arithmetic, but no pixel statement is made.
- FaceDetector.Run: the action is modelled as never throwing. In Java, `duker` on a region whose Java `(w + h) / 12` is negative draws its two rectangles and then OpenCV's `circle` throws at App.java:203; the exception leaves `detectFaces` at App.java:177, so no later region is drawn. The model keeps going and draws every region. Detector output never triggers this.
- FaceDetector.DetectFaces: requires the detection count to fit in an `int`, as the Java `int numOfFaces` does. `Rect.position(i)` re-pointing one native buffer is modelled as indexing the sequence.
