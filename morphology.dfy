/** Binary erosion and dilation with a rectangular structuring element, as
    OpenCV's erode and dilate compute them with the default anchor and the
    default border: pixels outside the raster are neutral (they never make
    an erosion fail nor a dilation succeed), so the window is clipped to the
    raster. */
module Morphology {
  import opened Grids

  /** A kernel size as OpenCV takes it: (width, height). */
  datatype Kernel = Kernel(width: int, height: int)

  /** OpenCV rejects a structuring element with a non-positive side. */
  predicate ValidKernel(k: Kernel) {
    k.width >= 1 && k.height >= 1
  }

  /** A window of `rows` x `cols` cells whose anchor cell is at offset
      (anchorRow, anchorCol) inside it; the anchor sits on the output pixel. */
  datatype Window = Window(anchorRow: int, rows: int, anchorCol: int, cols: int)

  predicate ValidWindow(w: Window) {
    0 <= w.anchorRow < w.rows && 0 <= w.anchorCol < w.cols
  }

  /** The default anchor is the kernel centre, (size / 2) on each axis. */
  function KernelWindow(k: Kernel): (w: Window)
    ensures ValidKernel(k) ==> ValidWindow(w)
  {
    Window(k.height / 2, k.height, k.width / 2, k.width)
  }

  /** Cell (y, x) lies in the window placed on pixel (i, j). */
  predicate Covers(w: Window, i: int, j: int, y: int, x: int) {
    i - w.anchorRow <= y < i - w.anchorRow + w.rows &&
    j - w.anchorCol <= x < j - w.anchorCol + w.cols
  }

  /** Every in-raster cell of the window on (i, j) is foreground. */
  predicate AllIn(m: seq<seq<int>>, w: Window, i: int, j: int) {
    forall y, x | i - w.anchorRow <= y < i - w.anchorRow + w.rows && 0 <= y < |m| &&
                  j - w.anchorCol <= x < j - w.anchorCol + w.cols && 0 <= x < |m[y]| ::
      m[y][x] != 0
  }

  /** Some in-raster cell of the window on (i, j) is foreground. */
  predicate AnyIn(m: seq<seq<int>>, w: Window, i: int, j: int) {
    exists y, x | i - w.anchorRow <= y < i - w.anchorRow + w.rows && 0 <= y < |m| &&
                  j - w.anchorCol <= x < j - w.anchorCol + w.cols && 0 <= x < |m[y]| ::
      m[y][x] != 0
  }

  /** Erosion of a mask by a window. */
  function ErodeBy(m: seq<seq<int>>, w: Window): (e: seq<seq<int>>)
    ensures SameShape(e, m) && IsBinary(e)
    ensures ValidWindow(w) ==> Within(e, m)
  {
    var e := seq(|m|, i requires 0 <= i < |m| =>
      seq(|m[i]|, j requires 0 <= j < |m[i]| => if AllIn(m, w, i, j) then 255 else 0));
    assert ValidWindow(w) ==> forall i, j :: 0 <= i < |m| && 0 <= j < |m[i]| && e[i][j] != 0 ==>
      Covers(w, i, j, i, j) && m[i][j] != 0;
    e
  }

  /** Dilation of a mask by a window. */
  function DilateBy(m: seq<seq<int>>, w: Window): (d: seq<seq<int>>)
    ensures SameShape(d, m) && IsBinary(d)
    ensures ValidWindow(w) ==> Within(m, d)
  {
    var d := seq(|m|, i requires 0 <= i < |m| =>
      seq(|m[i]|, j requires 0 <= j < |m[i]| => if AnyIn(m, w, i, j) then 255 else 0));
    assert ValidWindow(w) ==> forall i, j :: 0 <= i < |m| && 0 <= j < |m[i]| && m[i][j] != 0 ==>
      Covers(w, i, j, i, j) && d[i][j] != 0;
    d
  }

  /** cv2.erode(m, kernel, iterations=1): never adds foreground. */
  function Erode(m: seq<seq<int>>, k: Kernel): (e: seq<seq<int>>)
    requires ValidKernel(k)
    ensures SameShape(e, m) && IsBinary(e) && Within(e, m)
  {
    ErodeBy(m, KernelWindow(k))
  }

  /** cv2.dilate(m, kernel, iterations=1): never removes foreground. */
  function Dilate(m: seq<seq<int>>, k: Kernel): (d: seq<seq<int>>)
    requires ValidKernel(k)
    ensures SameShape(d, m) && IsBinary(d) && Within(m, d)
  {
    DilateBy(m, KernelWindow(k))
  }

  /** Erosion is monotone: a larger mask erodes to a larger mask. */
  lemma ErodeMonotone(a: seq<seq<int>>, b: seq<seq<int>>, w: Window)
    requires Within(a, b)
    ensures Within(ErodeBy(a, w), ErodeBy(b, w))
  {
    var ea, eb := ErodeBy(a, w), ErodeBy(b, w);
    forall i, j | 0 <= i < |ea| && 0 <= j < |ea[i]| && ea[i][j] != 0
      ensures eb[i][j] != 0
    {
      assert AllIn(a, w, i, j);
    }
  }

  /** Dilation is monotone: a larger mask dilates to a larger mask. */
  lemma DilateMonotone(a: seq<seq<int>>, b: seq<seq<int>>, w: Window)
    requires Within(a, b)
    ensures Within(DilateBy(a, w), DilateBy(b, w))
  {
    var da, db := DilateBy(a, w), DilateBy(b, w);
    forall i, j | 0 <= i < |da| && 0 <= j < |da[i]| && da[i][j] != 0
      ensures db[i][j] != 0
    {
      var y, x :| i - w.anchorRow <= y < i - w.anchorRow + w.rows && 0 <= y < |a| &&
                  j - w.anchorCol <= x < j - w.anchorCol + w.cols && 0 <= x < |a[y]| &&
                  a[y][x] != 0;
      assert b[y][x] != 0;
    }
  }

  /** An all-background mask stays all-background under both operations. */
  lemma BackgroundStays(m: seq<seq<int>>, w: Window)
    requires ValidWindow(w)
    requires AllBackground(m)
    ensures AllBackground(ErodeBy(m, w)) && AllBackground(DilateBy(m, w))
  {
    var e := ErodeBy(m, w);
    forall i, j | 0 <= i < |e| && 0 <= j < |e[i]|
      ensures e[i][j] == 0
    {
      assert Covers(w, i, j, i, j) && m[i][j] == 0;
    }
  }

  /** An all-foreground mask stays all-foreground under both operations:
      with the clipped border, the raster edge does not erode. */
  lemma ForegroundStays(m: seq<seq<int>>, w: Window)
    requires ValidWindow(w)
    requires AllForeground(m)
    ensures AllForeground(ErodeBy(m, w)) && AllForeground(DilateBy(m, w))
  {
    var d := DilateBy(m, w);
    forall i, j | 0 <= i < |d| && 0 <= j < |d[i]|
      ensures d[i][j] == 255
    {
      assert Covers(w, i, j, i, j) && m[i][j] != 0;
    }
  }

  /** The single window OpenCV substitutes for two iterations of a
      rectangular window: each side grows to 2 * size - 1 and the anchor
      offset doubles. */
  function Twice(w: Window): (t: Window)
    ensures ValidWindow(w) ==> ValidWindow(t)
  {
    Window(2 * w.anchorRow, 2 * w.rows - 1, 2 * w.anchorCol, 2 * w.cols - 1)
  }

  /** On one axis: a cell t reached from i through two window placements can
      be reached through an intermediate cell that stays inside the raster. */
  lemma Intermediate(i: int, a: int, n: int, t: int, size: int) returns (y: int)
    requires 0 <= a < n && 0 <= i < size && 0 <= t < size
    requires i - 2 * a <= t < i - 2 * a + 2 * n - 1
    ensures i - a <= y < i - a + n && 0 <= y < size
    ensures y - a <= t < y - a + n
  {
    if t < i - a {
      y := i - a;
    } else if t >= i - a + n {
      y := i - a + n - 1;
    } else {
      y := t;
    }
  }

  /** A pixel of the dilated mask is foreground iff its window reaches one. */
  lemma DilateAt(m: seq<seq<int>>, w: Window, y: int, x: int)
    requires 0 <= y < |m| && 0 <= x < |m[y]|
    ensures DilateBy(m, w)[y][x] != 0 <==> AnyIn(m, w, y, x)
  {
  }

  /** A foreground cell reached by the window on (i, j). */
  lemma AnyInWitness(m: seq<seq<int>>, w: Window, i: int, j: int) returns (y: int, x: int)
    requires AnyIn(m, w, i, j)
    ensures Covers(w, i, j, y, x) && 0 <= y < |m| && 0 <= x < |m[y]| && m[y][x] != 0
  {
    y, x :| i - w.anchorRow <= y < i - w.anchorRow + w.rows && 0 <= y < |m| &&
            j - w.anchorCol <= x < j - w.anchorCol + w.cols && 0 <= x < |m[y]| &&
            m[y][x] != 0;
  }

  lemma AnyInFrom(m: seq<seq<int>>, w: Window, i: int, j: int, y: int, x: int)
    requires Covers(w, i, j, y, x) && 0 <= y < |m| && 0 <= x < |m[y]| && m[y][x] != 0
    ensures AnyIn(m, w, i, j)
  {
  }

  /** One pixel of the twice-dilated mask is foreground only if the merged
      window on it reaches a foreground cell. */
  lemma TwiceReaches(m: seq<seq<int>>, w: Window, i: int, j: int)
    requires Rectangular(m) && ValidWindow(w)
    requires AnyIn(DilateBy(m, w), w, i, j)
    ensures AnyIn(m, Twice(w), i, j)
  {
    var y, x := AnyInWitness(DilateBy(m, w), w, i, j);
    DilateAt(m, w, y, x);
    var y2, x2 := AnyInWitness(m, w, y, x);
    AnyInFrom(m, Twice(w), i, j, y2, x2);
  }

  /** Conversely, a foreground cell under the merged window on an in-raster
      pixel is reached by two placements of the window. */
  lemma ReachedTwice(m: seq<seq<int>>, w: Window, i: int, j: int)
    requires Rectangular(m) && ValidWindow(w)
    requires 0 <= i < |m| && 0 <= j < |m[i]|
    requires AnyIn(m, Twice(w), i, j)
    ensures AnyIn(DilateBy(m, w), w, i, j)
  {
    var y2, x2 := AnyInWitness(m, Twice(w), i, j);
    var y := Intermediate(i, w.anchorRow, w.rows, y2, |m|);
    var x := Intermediate(j, w.anchorCol, w.cols, x2, Width(m));
    AnyInFrom(m, w, y, x, y2, x2);
    DilateAt(m, w, y, x);
    AnyInFrom(DilateBy(m, w), w, i, j, y, x);
  }

  /** Dilating twice by a window equals dilating once by the enlarged window,
      so modelling `iterations=2` as two dilations agrees with OpenCV's
      rectangular-kernel shortcut. */
  lemma DilateTwiceMerged(m: seq<seq<int>>, w: Window)
    requires Rectangular(m) && ValidWindow(w)
    ensures DilateBy(DilateBy(m, w), w) == DilateBy(m, Twice(w))
  {
    var lhs, rhs := DilateBy(DilateBy(m, w), w), DilateBy(m, Twice(w));
    forall i | 0 <= i < |m|
      ensures lhs[i] == rhs[i]
    {
      forall j | 0 <= j < |m[i]|
        ensures lhs[i][j] == rhs[i][j]
      {
        if AnyIn(DilateBy(m, w), w, i, j) {
          TwiceReaches(m, w, i, j);
        }
        if AnyIn(m, Twice(w), i, j) {
          ReachedTwice(m, w, i, j);
        }
      }
    }
  }
}
