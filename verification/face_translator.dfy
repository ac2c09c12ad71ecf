/**
 `FaceTranslator.duker`: the fixed glyph painted over one detected region.
 A black rectangle covers the top half, a white one the bottom half, and a
 red disc is drawn last over both. All arithmetic is Java `int` arithmetic.
 */
module FaceTranslator {
  import opened JavaInt
  import opened Drawing

  /**
   A region the detector can produce: non-negative extents, and small enough
   that every sum `duker` forms (the far corner, the disc centre, the sum of
   the extents) is still a Java `int`.
   */
  predicate WellFormed(r: Rect) {
    && r.width >= 0 && r.height >= 0
    && r.x + r.width <= MAX
    && r.x + r.height / 2 <= MAX
    && r.y + r.height <= MAX
    && r.width + r.height <= MAX
  }

  /**
   The glyph stated in unbounded integers for a well-formed region: black
   from (x, y) to (x + w, y + h/2), white from (x, y + h/2) to (x + w, y + h),
   and a red disc of radius (w + h)/12 centred at (x + h/2, y + h/2).
   */
  function Recipe(r: Rect): (glyph: seq<DrawCommand>)
    requires WellFormed(r)
  {
    var half := r.height / 2;
    [ Rectangle(Point(r.x, r.y), Point(r.x + r.width, r.y + half), Black, FILLED, CV_AA, 0),
      Rectangle(Point(r.x, r.y + half), Point(r.x + r.width, r.y + r.height), White, FILLED, CV_AA, 0),
      Circle(Point(r.x + half, r.y + half), (r.width + r.height) / 12, Red, FILLED, CV_AA, 0) ]
  }

  /**
   The drawing calls `duker(source, r)` issues against `source`, in order.
   They do not depend on the image. The x-coordinate of the disc centre is
   offset by half the HEIGHT, exactly as the Java code computes it.
   */
  function Duker(source: Mat, r: Rect): (cmds: seq<DrawCommand>)
    ensures |cmds| == 3
    ensures cmds[0].Rectangle? && cmds[0].color == Black
    ensures cmds[1].Rectangle? && cmds[1].color == White
    ensures cmds[2].Circle? && cmds[2].color == Red
    ensures forall c <- cmds :: c.thickness == FILLED && c.lineType == CV_AA && c.shift == 0
    ensures WellFormed(r) ==> cmds == Recipe(r)
  {
    var x, y, h, w := r.x, r.y, r.height, r.width;
    var half := Div(h, 2);
    var right, mid, bottom := Add(x, w), Add(y, half), Add(y, h);
    var cx, rad := Add(x, half), Div(Add(w, h), 12);
    ExactWhenWellFormed(r);
    [ Rectangle(Point(x, y), Point(right, mid), Black, FILLED, CV_AA, 0),
      Rectangle(Point(x, mid), Point(right, bottom), White, FILLED, CV_AA, 0),
      Circle(Point(cx, mid), rad, Red, FILLED, CV_AA, 0) ]
  }

  /** For a well-formed region no sum `duker` forms wraps, and its halvings are Dafny's. */
  lemma ExactWhenWellFormed(r: Rect)
    ensures WellFormed(r) ==>
      && Div(r.height, 2) == r.height / 2
      && Div(Add(r.width, r.height), 12) == (r.width + r.height) / 12
      && Add(r.x, r.width) == r.x + r.width
      && Add(r.y, r.height) == r.y + r.height
      && Add(r.x, Div(r.height, 2)) == r.x + r.height / 2
      && Add(r.y, Div(r.height, 2)) == r.y + r.height / 2
  {
    if WellFormed(r) {
      DivAgreesOnNaturals(r.height, 2);
      DivAgreesOnNaturals(r.width + r.height, 12);
    }
  }

  /**
   The two rectangles tile the region vertically: the black one starts at the
   region's top-left corner, the white one starts on the black one's lower edge
   and ends on the region's bottom edge, both span x .. x + w, and the white
   half is never shorter than the black one and at most one row taller.
   */
  lemma HalvesTileRegion(m: Mat, r: Rect)
    requires WellFormed(r)
    ensures var top, bottom := Duker(m, r)[0], Duker(m, r)[1];
      && top.pt1 == Point(r.x, r.y)
      && bottom.pt1.y == top.pt2.y
      && bottom.pt2.y == r.y + r.height
      && top.pt1.x == bottom.pt1.x == r.x
      && top.pt2.x == bottom.pt2.x == r.x + r.width
      && top.pt2.y - top.pt1.y <= bottom.pt2.y - bottom.pt1.y <= top.pt2.y - top.pt1.y + 1
  {
  }

  /** The disc radius is a non-negative twelfth of the extents' sum, rounded down. */
  lemma RadiusIsTwelfthOfExtents(m: Mat, r: Rect)
    requires WellFormed(r)
    ensures var rad := Duker(m, r)[2].radius;
      rad >= 0 && 12 * rad <= r.width + r.height < 12 * rad + 12
  {
  }

  /**
   The disc is centred on the region's centre exactly when half the width and
   half the height round to the same integer; in particular whenever w == h.
   */
  lemma DiscCentredIff(m: Mat, r: Rect)
    requires WellFormed(r)
    ensures Duker(m, r)[2].center == Point(r.x + r.width / 2, r.y + r.height / 2)
            <==> r.width / 2 == r.height / 2
    ensures r.width == r.height ==> Duker(m, r)[2].center == Point(r.x + r.width / 2, r.y + r.height / 2)
  {
  }

  /** A 20-wide, 21-high region is not square, yet its disc is centred: equal halves suffice. */
  lemma NonSquareCentredDisc(m: Mat)
    ensures Duker(m, Rect(0, 0, 20, 21))[2].center == Point(10, 10)
  {
  }

  /** A tall region gets a disc offset to the right of its centre. */
  lemma TallRegionDiscOffCentre(m: Mat)
    ensures Duker(m, Rect(0, 0, 10, 40))[2].center == Point(20, 20)
  {
  }

  /**
   The region {x: 10, y: 10, w: 20, h: 20}: black from (10, 10) to (30, 20),
   white from (10, 20) to (30, 30), red disc of radius 3 at (20, 20).
   */
  lemma TwentyByTwentyGlyph(m: Mat)
    ensures Duker(m, Rect(10, 10, 20, 20)) ==
      [ Rectangle(Point(10, 10), Point(30, 20), Black, FILLED, CV_AA, 0),
        Rectangle(Point(10, 20), Point(30, 30), White, FILLED, CV_AA, 0),
        Circle(Point(20, 20), 3, Red, FILLED, CV_AA, 0) ]
  {
  }

  /**
   Outside the well-formed range the Java arithmetic wraps. For the region
   {0, 0, MAX, 12}, w + h wraps to MIN + 11 and the radius is -178956969.
   An overflow need not give a negative radius: for {0, 0, MAX, MAX}, w + h
   wraps to -2, which truncates to a radius of 0.
   */
  lemma RadiusWrapsPastIntRange(m: Mat)
    ensures Add(MAX, 12) == MIN + 11 && Duker(m, Rect(0, 0, MAX, 12))[2].radius == -178956969
    ensures Add(MAX, MAX) == -2 && Duker(m, Rect(0, 0, MAX, MAX))[2].radius == 0
  {
  }

  /** A negative height is halved toward zero, as Java does, not toward minus infinity. */
  lemma NegativeHeightHalvesTowardZero(m: Mat)
    ensures Duker(m, Rect(0, 0, 0, -3))[0].pt2 == Point(0, -1)
  {
  }
}
