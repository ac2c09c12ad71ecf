/**
 `FaceDetector.detectFaces`: run the classifier once, then hand every
 detected region, in the order the classifier reported them, to a
 caller-supplied action together with the same image.

 The classifier (`CascadeClassifier.detectMultiScale`) is native code whose
 result is taken here as an input sequence of regions. The action is the
 Java `BiConsumer<Mat, Rect>`: it sees the image as drawn so far and the
 region, and issues drawing calls against that image.
 */
module FaceDetector {
  import opened JavaInt
  import opened Drawing

  /** The detection action: the drawing calls it issues for one region on the image as it stands. */
  type Action = (Mat, Rect) -> seq<DrawCommand>

  /** One call `detectAction.accept(source, r)`: which image, which loop index, which region. */
  datatype Invocation = Invocation(target: nat, index: nat, region: Rect)

  /** The image after one call of the action: its calls are appended, its identity is kept. */
  function Accept(m: Mat, r: Rect, action: Action): (next: Mat) {
    m.(drawn := m.drawn + action(m, r))
  }

  /**
   Reference definition of the loop: accept every region in order, threading
   the one image through. The image keeps its identity and everything drawn
   before stays, in place, as a prefix.
   */
  function Run(m: Mat, faces: seq<Rect>, action: Action): (out: Mat)
    ensures out.id == m.id
    ensures m.drawn <= out.drawn
    ensures faces == [] ==> out == m
    decreases |faces|
  {
    if faces == [] then m else Run(Accept(m, faces[0], action), faces[1..], action)
  }

  /** Running over a concatenation is running over the first part, then the second. */
  lemma {:induction false} RunAppend(m: Mat, f: seq<Rect>, g: seq<Rect>, action: Action)
    ensures Run(m, f + g, action) == Run(Run(m, f, action), g, action)
    decreases |f|
  {
    if f == [] {
      assert f + g == g;
    } else {
      assert (f + g)[0] == f[0];
      assert (f + g)[1..] == f[1..] + g;
      RunAppend(Accept(m, f[0], action), f[1..], g, action);
    }
  }

  /** The action ignores the image it is handed: its calls depend on the region alone. */
  ghost predicate ImageIndependent(action: Action) {
    forall m1, m2, r :: action(m1, r) == action(m2, r)
  }

  /** The calls `action` issues on `m` for each region in turn, in detection order. */
  function Issued(action: Action, m: Mat, faces: seq<Rect>): (cmds: seq<DrawCommand>)
    decreases |faces|
  {
    if faces == [] then [] else action(m, faces[0]) + Issued(action, m, faces[1..])
  }

  /** For an image-independent action the issued calls do not depend on the image either. */
  lemma {:induction false} IssuedIgnoresImage(action: Action, m1: Mat, m2: Mat, faces: seq<Rect>)
    requires ImageIndependent(action)
    ensures Issued(action, m1, faces) == Issued(action, m2, faces)
    decreases |faces|
  {
    if faces != [] {
      assert action(m1, faces[0]) == action(m2, faces[0]);
      IssuedIgnoresImage(action, m1, m2, faces[1..]);
    }
  }

  /**
   With an image-independent action the loop appends exactly the calls the
   action issues for every region, in detection order, after whatever the
   image already held.
   */
  lemma {:induction false} RunAppendsIssued(action: Action, m: Mat, faces: seq<Rect>)
    requires ImageIndependent(action)
    ensures Run(m, faces, action).drawn == m.drawn + Issued(action, m, faces)
    decreases |faces|
  {
    if faces != [] {
      var first := action(m, faces[0]);
      var next := Accept(m, faces[0], action);
      var later := Issued(action, m, faces[1..]);
      RunAppendsIssued(action, next, faces[1..]);
      IssuedIgnoresImage(action, next, m, faces[1..]);
      assert next.drawn == m.drawn + first;
      assert Issued(action, m, faces) == first + later;
      assert (m.drawn + first) + later == m.drawn + (first + later);
    }
  }

  /**
   The loop of `detectFaces`. `faces` is what the classifier reported; its
   length is the Java `int` `numOfFaces`. Returns the image after the loop
   and the log of the action's invocations.
   */
  method DetectFaces(source: Mat, faces: seq<Rect>, action: Action) returns (result: Mat, calls: seq<Invocation>)
    requires |faces| <= MAX
    ensures |calls| == |faces|
    ensures forall i :: 0 <= i < |calls| ==> calls[i] == Invocation(source.id, i, faces[i])
    ensures result == Run(source, faces, action)
    ensures result.id == source.id && source.drawn <= result.drawn
    ensures faces == [] ==> result == source && calls == []
  {
    var numOfFaces: int32 := |faces|;
    result, calls := source, [];
    var i: int32 := 0;
    while i < numOfFaces
      invariant 0 <= i <= numOfFaces
      invariant result.id == source.id
      invariant Run(result, faces[i..], action) == Run(source, faces, action)
      invariant |calls| == i
      invariant forall j :: 0 <= j < i ==> calls[j] == Invocation(source.id, j, faces[j])
    {
      var r := faces[i];
      calls := calls + [Invocation(result.id, i, r)];
      assert faces[i..][1..] == faces[i + 1..];
      result := Accept(result, r, action);
      i := i + 1;
    }
    assert faces[i..] == [];
  }
}
