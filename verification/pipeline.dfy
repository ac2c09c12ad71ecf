/**
 The detection loop driven with `FaceTranslator::duker` as its action, as
 both the `/duker` endpoint and the queue listener `convertFace` run it:
 which calls reach the image, in which order, and what the pixels show.
 */
module Pipeline {
  import opened Drawing
  import opened FaceTranslator
  import opened FaceDetector
  import opened Raster

  /** `duker` draws the same three calls whatever image it is handed. */
  lemma DukerIgnoresImage()
    ensures ImageIndependent(Duker)
  {
  }

  /**
   For an action that issues three calls per region, putting region 0's
   calls in front of the others' shifts each later region's calls by three.
   */
  lemma PrependLayout(action: Action, m: Mat, faces: seq<Rect>, rest: seq<DrawCommand>)
    requires forall r :: |action(m, r)| == 3
    requires |faces| > 0 && |rest| == 3 * (|faces| - 1)
    requires forall j :: 0 <= j < |rest| ==> rest[j] == action(m, faces[1..][j / 3])[j % 3]
    ensures var cmds := action(m, faces[0]) + rest;
      forall j :: 0 <= j < |cmds| ==> cmds[j] == action(m, faces[j / 3])[j % 3]
  {
    var cmds := action(m, faces[0]) + rest;
    forall j | 3 <= j < |cmds|
      ensures cmds[j] == action(m, faces[j / 3])[j % 3]
    {
      var j' := j - 3;
      assert j' / 3 == j / 3 - 1 && j' % 3 == j % 3;
      assert cmds[j] == rest[j'];
      assert faces[1..][j' / 3] == faces[j / 3];
    }
  }

  /**
   For an action that issues three calls per region, the issued calls are
   three per region in detection order: position j holds call j % 3 of
   region j / 3.
   */
  lemma {:induction false} ThreeCallLayout(action: Action, m: Mat, faces: seq<Rect>)
    requires forall r :: |action(m, r)| == 3
    ensures var cmds := Issued(action, m, faces);
      && |cmds| == 3 * |faces|
      && forall j :: 0 <= j < |cmds| ==> cmds[j] == action(m, faces[j / 3])[j % 3]
    decreases |faces|
  {
    if faces != [] {
      ThreeCallLayout(action, m, faces[1..]);
      PrependLayout(action, m, faces, Issued(action, m, faces[1..]));
    }
  }

  /**
   For an image-independent action issuing three calls per region, the loop
   appends 3n calls after the existing ones, region i's at 3i .. 3i + 2.
   */
  lemma LoopLayout(action: Action, m: Mat, faces: seq<Rect>)
    requires ImageIndependent(action)
    requires forall r :: |action(m, r)| == 3
    ensures var out := Run(m, faces, action);
      && |out.drawn| == |m.drawn| + 3 * |faces|
      && out.drawn[..|m.drawn|] == m.drawn
      && forall i, k :: 0 <= i < |faces| && 0 <= k < 3 ==>
           out.drawn[|m.drawn| + 3 * i + k] == action(m, faces[i])[k]
  {
    RunAppendsIssued(action, m, faces);
    ThreeCallLayout(action, m, faces);
    var out := Run(m, faces, action);
    var g := Issued(action, m, faces);
    forall i, k | 0 <= i < |faces| && 0 <= k < 3
      ensures out.drawn[|m.drawn| + 3 * i + k] == action(m, faces[i])[k]
    {
      var j := 3 * i + k;
      assert j / 3 == i && j % 3 == k;
      assert out.drawn[|m.drawn| + j] == g[j];
    }
  }

  /**
   With n detections the image receives exactly 3n new calls, and the calls
   for region i are region i's black, white and red calls, in that order.
   With no detection the image is unchanged.
   */
  lemma DetectLayout(m: Mat, faces: seq<Rect>)
    ensures var out := Run(m, faces, Duker);
      && |out.drawn| == |m.drawn| + 3 * |faces|
      && out.drawn[..|m.drawn|] == m.drawn
      && forall i, k :: 0 <= i < |faces| && 0 <= k < 3 ==>
           out.drawn[|m.drawn| + 3 * i + k] == Duker(m, faces[i])[k]
    ensures faces == [] ==> Run(m, faces, Duker) == m
  {
    DukerIgnoresImage();
    LoopLayout(Duker, m, faces);
  }

  /** Pixel (px, py) lies in the black top half of region r. */
  predicate InTopHalf(r: Rect, px: int, py: int) {
    r.x <= px <= r.x + r.width && r.y <= py <= r.y + r.height / 2
  }

  /** Pixel (px, py) lies in the white bottom half of region r. */
  predicate InBottomHalf(r: Rect, px: int, py: int) {
    r.x <= px <= r.x + r.width && r.y + r.height / 2 <= py <= r.y + r.height
  }

  /** Pixel (px, py) lies in the red disc of region r, centred (x + h/2, y + h/2) with radius (w + h)/12. */
  predicate InDisc(r: Rect, px: int, py: int) {
    var dx, dy, rad := px - (r.x + r.height / 2), py - (r.y + r.height / 2), (r.width + r.height) / 12;
    dx * dx + dy * dy <= rad * rad
  }

  /**
   After `duker` on a well-formed region, a pixel is red inside the disc,
   otherwise white in the bottom half, otherwise black in the top half
   (the row y + h/2 shared by both halves is white), and otherwise keeps
   the colour it had.
   */
  lemma GlyphPixel(base: Scalar, m: Mat, r: Rect, px: int, py: int)
    requires WellFormed(r)
    ensures Paint(base, m.drawn + Duker(m, r), px, py) ==
      if InDisc(r, px, py) then Red
      else if InBottomHalf(r, px, py) then White
      else if InTopHalf(r, px, py) then Black
      else Paint(base, m.drawn, px, py)
  {
    var g := Duker(m, r);
    var under := Paint(base, m.drawn, px, py);
    PaintAppend(base, m.drawn, g, px, py);
    DiscCallCoversIff(m, r, px, py);
    assert Covers(g[1], px, py) <==> InBottomHalf(r, px, py);
    assert Covers(g[0], px, py) <==> InTopHalf(r, px, py);
    assert g == [] + [g[0]] + [g[1]] + [g[2]];
    PaintStep(under, [], g[0], px, py);
    PaintStep(under, [g[0]], g[1], px, py);
    PaintStep(under, [g[0], g[1]], g[2], px, py);
    assert [] + [g[0]] == [g[0]] && [g[0]] + [g[1]] == [g[0], g[1]];
  }

  /** The disc call of a well-formed region paints exactly the pixels of its disc. */
  lemma DiscCallCoversIff(m: Mat, r: Rect, px: int, py: int)
    requires WellFormed(r)
    ensures Covers(Duker(m, r)[2], px, py) <==> InDisc(r, px, py)
  {
    DiscCall(m, r);
    FilledDiscCoversIff(r, px, py);
  }

  /** The disc call of a well-formed region is the filled red disc of radius (w + h)/12 at (x + h/2, y + h/2). */
  lemma DiscCall(m: Mat, r: Rect)
    requires WellFormed(r)
    ensures Duker(m, r)[2] == Circle(Point(r.x + r.height / 2, r.y + r.height / 2), (r.width + r.height) / 12, Red, FILLED, CV_AA, 0)
  {
    assert Duker(m, r)[2] == Recipe(r)[2];
  }

  /** A filled red disc at (x + h/2, y + h/2) of radius (w + h)/12 covers exactly the pixels of `InDisc`. */
  lemma FilledDiscCoversIff(r: Rect, px: int, py: int)
    requires WellFormed(r)
    ensures Covers(Circle(Point(r.x + r.height / 2, r.y + r.height / 2), (r.width + r.height) / 12, Red, FILLED, CV_AA, 0), px, py)
            <==> InDisc(r, px, py)
  {
    assert (r.width + r.height) / 12 >= 0;
  }

  /** The pixel at the disc centre of a well-formed region is red once `duker` has run. */
  lemma DiscCentreIsRed(base: Scalar, m: Mat, r: Rect)
    requires WellFormed(r)
    ensures Paint(base, m.drawn + Duker(m, r), r.x + r.height / 2, r.y + r.height / 2) == Red
  {
    var rad := (r.width + r.height) / 12;
    assert rad * rad >= 0;
    assert InDisc(r, r.x + r.height / 2, r.y + r.height / 2);
    GlyphPixel(base, m, r, r.x + r.height / 2, r.y + r.height / 2);
  }

  /** Running `duker` twice on the same region leaves the same pixels as running it once. */
  lemma GlyphIdempotent(base: Scalar, m: Mat, r: Rect, px: int, py: int)
    ensures Paint(base, m.drawn + Duker(m, r) + Duker(m, r), px, py) == Paint(base, m.drawn + Duker(m, r), px, py)
  {
    RepaintIdempotent(base, m.drawn, Duker(m, r), px, py);
  }

  /**
   The 20 x 20 region at (10, 10): its top-left pixel is black, its
   bottom-left pixel white, the disc centre (20, 20) red, a pixel two rows
   below the centre, inside the radius-3 disc, still red, and a pixel right
   of the region keeps its colour.
   */
  lemma TwentyByTwentyPixels(base: Scalar, m: Mat)
    ensures var drawn := m.drawn + Duker(m, Rect(10, 10, 20, 20));
      && Paint(base, drawn, 10, 10) == Black
      && Paint(base, drawn, 10, 29) == White
      && Paint(base, drawn, 20, 20) == Red
      && Paint(base, drawn, 20, 22) == Red
      && Paint(base, drawn, 31, 10) == Paint(base, m.drawn, 31, 10)
  {
    var r := Rect(10, 10, 20, 20);
    assert !InDisc(r, 10, 10) && !InDisc(r, 10, 29) && !InDisc(r, 31, 10);
    assert InDisc(r, 20, 20) && InDisc(r, 20, 22);
    GlyphPixel(base, m, r, 10, 10);
    GlyphPixel(base, m, r, 10, 29);
    GlyphPixel(base, m, r, 20, 20);
    GlyphPixel(base, m, r, 20, 22);
    GlyphPixel(base, m, r, 31, 10);
  }

  /**
   A region one row high: the black half is row y; the white half covers
   rows y .. y + 1 and is drawn over it, and the zero-radius disc sits on
   the top-left pixel.
   */
  lemma OneRowRegion(base: Scalar, m: Mat)
    ensures var drawn := m.drawn + Duker(m, Rect(10, 10, 10, 1));
      && Paint(base, drawn, 10, 10) == Red
      && Paint(base, drawn, 15, 10) == White
      && Paint(base, drawn, 20, 10) == White
      && Paint(base, drawn, 15, 11) == White
  {
    var r := Rect(10, 10, 10, 1);
    assert InDisc(r, 10, 10) && !InDisc(r, 15, 10) && !InDisc(r, 20, 10) && !InDisc(r, 15, 11);
    GlyphPixel(base, m, r, 10, 10);
    GlyphPixel(base, m, r, 15, 10);
    GlyphPixel(base, m, r, 20, 10);
    GlyphPixel(base, m, r, 15, 11);
  }

  /**
   In a region at most one row high the white half covers the whole black
   half, so no pixel of the black half is left black.
   */
  lemma FlatRegionHasNoBlack(base: Scalar, m: Mat, r: Rect, px: int, py: int)
    requires WellFormed(r) && r.height <= 1
    requires InTopHalf(r, px, py)
    ensures Paint(base, m.drawn + Duker(m, r), px, py) != Black
  {
    GlyphPixel(base, m, r, px, py);
  }

  /**
   Regions are painted in detection order, last write wins: where the last
   detected region's glyph covers a pixel, its glyph alone decides the
   colour, whatever earlier regions drew there.
   */
  lemma LastRegionWins(base: Scalar, other: Scalar, m: Mat, faces: seq<Rect>, r: Rect, px: int, py: int)
    requires WellFormed(r)
    requires InDisc(r, px, py) || InTopHalf(r, px, py) || InBottomHalf(r, px, py)
    ensures Paint(base, Run(m, faces + [r], Duker).drawn, px, py) == Paint(other, Duker(m, r), px, py)
  {
    RunAppend(m, faces, [r], Duker);
    var before := Run(m, faces, Duker);
    assert Run(m, faces + [r], Duker).drawn == before.drawn + Duker(before, r);
    GlyphPixel(base, before, r, px, py);
    GlyphPixel(other, Mat(0, []), r, px, py);
    assert Mat(0, []).drawn + Duker(Mat(0, []), r) == Duker(m, r);
  }
}
