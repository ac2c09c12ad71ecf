/**
 The OpenCV values that cross the boundary between detection and drawing:
 points, rectangles, colour scalars, the drawing calls issued against an
 image, and the image itself seen as the log of those calls.
 */
module Drawing {
  import opened JavaInt

  /** An OpenCV `Point`: integer pixel coordinates. */
  datatype Point = Point(x: int32, y: int32)

  /** An OpenCV `Rect` as produced by the detector: top-left corner and extents. */
  datatype Rect = Rect(x: int32, y: int32, width: int32, height: int32)

  /** An OpenCV `Scalar`; for a colour image its channels are blue, green, red, and a fourth unused one. */
  datatype Scalar = Scalar(v0: int, v1: int, v2: int, v3: int)

  const Black: Scalar := Scalar(0, 0, 0, 0)
  const White: Scalar := Scalar(255, 255, 255, 0)
  const Red: Scalar := Scalar(0, 0, 255, 0)

  /** Thickness `-1`: the primitive is filled rather than outlined. */
  const FILLED: int := -1
  /** OpenCV's `CV_AA` line type (anti-aliased). */
  const CV_AA: int := 16

  /** One call of OpenCV's `rectangle` or `circle`, with every argument it was given. */
  datatype DrawCommand =
    | Rectangle(pt1: Point, pt2: Point, color: Scalar, thickness: int, lineType: int, shift: int)
    | Circle(center: Point, radius: int32, color: Scalar, thickness: int, lineType: int, shift: int)

  /**
   An OpenCV `Mat`. `id` stands for the Java object's identity; `drawn` is
   every drawing call issued against it so far, oldest first. The pixels
   that the calls produce are given a meaning in module Raster.
   */
  datatype Mat = Mat(id: nat, drawn: seq<DrawCommand>)
}
