/**
 What a log of filled drawing calls leaves at one pixel: the colour of the
 last call whose filled area contains the pixel, or the pixel's original
 colour if none does. Areas follow a plain scanline fill: a rectangle
 covers every pixel between its two corners inclusive, a disc every pixel
 within its radius of the centre. OpenCV's anti-aliased edges are not
 modelled; only the interior is.
 */
module Raster {
  import opened Drawing

  function Min(a: int, b: int): (lo: int) { if a <= b then a else b }
  function Max(a: int, b: int): (hi: int) { if a <= b then b else a }

  /**
   Whether the filled call `c` paints pixel (px, py). Only filled calls
   (negative thickness) are given an area; an outline paints nothing here,
   and so does a disc with negative radius, which OpenCV rejects.
   */
  predicate Covers(c: DrawCommand, px: int, py: int) {
    match c
    case Rectangle(p1, p2, _, thickness, _, _) =>
      && thickness < 0
      && Min(p1.x, p2.x) <= px <= Max(p1.x, p2.x)
      && Min(p1.y, p2.y) <= py <= Max(p1.y, p2.y)
    case Circle(ctr, rad, _, thickness, _, _) =>
      && thickness < 0
      && 0 <= rad
      && (px - ctr.x) * (px - ctr.x) + (py - ctr.y) * (py - ctr.y) <= rad * rad
  }

  /** The colour at (px, py) after the calls `cmds`, issued in order over a pixel of colour `base`. */
  function Paint(base: Scalar, cmds: seq<DrawCommand>, px: int, py: int): (colour: Scalar)
    decreases |cmds|
  {
    if cmds == [] then base
    else
      var last := cmds[|cmds| - 1];
      if Covers(last, px, py) then last.color else Paint(base, cmds[..|cmds| - 1], px, py)
  }

  /** One more call: it decides the pixel if it covers it, otherwise the pixel is as before. */
  lemma PaintStep(base: Scalar, s: seq<DrawCommand>, c: DrawCommand, px: int, py: int)
    ensures Paint(base, s + [c], px, py) == if Covers(c, px, py) then c.color else Paint(base, s, px, py)
  {
    assert (s + [c])[..|s|] == s;
  }

  /**
   Last write wins: the pixel shows the colour of a call that covers it and
   that no later call covers, or `base` when no call covers it.
   */
  lemma {:induction false} PaintIsLastWriter(base: Scalar, cmds: seq<DrawCommand>, px: int, py: int)
    ensures var c := Paint(base, cmds, px, py);
      || (exists i :: 0 <= i < |cmds| && Covers(cmds[i], px, py) && c == cmds[i].color
            && forall j :: i < j < |cmds| ==> !Covers(cmds[j], px, py))
      || ((forall i :: 0 <= i < |cmds| ==> !Covers(cmds[i], px, py)) && c == base)
    decreases |cmds|
  {
    if cmds != [] {
      var n := |cmds| - 1;
      var rest := cmds[..n];
      assert cmds == rest + [cmds[n]];
      PaintStep(base, rest, cmds[n], px, py);
      if !Covers(cmds[n], px, py) {
        PaintIsLastWriter(base, rest, px, py);
        assert forall i :: 0 <= i < |rest| ==> rest[i] == cmds[i];
      }
    }
  }

  /** Painting a concatenation: the second part paints over what the first part left. */
  lemma {:induction false} PaintAppend(base: Scalar, s: seq<DrawCommand>, t: seq<DrawCommand>, px: int, py: int)
    ensures Paint(base, s + t, px, py) == Paint(Paint(base, s, px, py), t, px, py)
    decreases |t|
  {
    if t == [] {
      assert s + t == s;
    } else {
      var n := |t| - 1;
      var front := t[..n];
      assert t == front + [t[n]];
      assert s + t == (s + front) + [t[n]];
      PaintStep(base, s + front, t[n], px, py);
      PaintStep(Paint(base, s, px, py), front, t[n], px, py);
      PaintAppend(base, s, front, px, py);
    }
  }

  /**
   Where some call of `t` covers the pixel, the colour underneath does not
   matter; where none does, the colour underneath shows through.
   */
  lemma {:induction false} PaintOverwrites(a: Scalar, b: Scalar, t: seq<DrawCommand>, px: int, py: int)
    ensures (exists i :: 0 <= i < |t| && Covers(t[i], px, py)) ==> Paint(a, t, px, py) == Paint(b, t, px, py)
    ensures (forall i :: 0 <= i < |t| ==> !Covers(t[i], px, py)) ==> Paint(a, t, px, py) == a
    decreases |t|
  {
    if t != [] && !Covers(t[|t| - 1], px, py) {
      var rest := t[..|t| - 1];
      assert forall i :: 0 <= i < |rest| ==> rest[i] == t[i];
      PaintOverwrites(a, b, rest, px, py);
    }
  }

  /**
   Issuing the same calls twice in a row leaves every pixel as issuing them
   once: the calls overwrite, they do not blend.
   */
  lemma RepaintIdempotent(base: Scalar, s: seq<DrawCommand>, t: seq<DrawCommand>, px: int, py: int)
    ensures Paint(base, s + t + t, px, py) == Paint(base, s + t, px, py)
  {
    PaintAppend(base, s + t, t, px, py);
    PaintAppend(base, s, t, px, py);
    var under := Paint(base, s, px, py);
    PaintOverwrites(Paint(under, t, px, py), under, t, px, py);
    if forall i :: 0 <= i < |t| ==> !Covers(t[i], px, py) {
      PaintOverwrites(under, under, t, px, py);
    }
  }
}
