/** Shared raster vocabulary. A raster is a sequence of rows; a position is
    (row, col), i.e. (y, x) in image coordinates. */
module Grids {

  datatype Point = Pt(row: int, col: int)

  /** Number of columns, read from the first row (0 for an empty raster). */
  function Width<T>(g: seq<seq<T>>): nat {
    if |g| == 0 then 0 else |g[0]|
  }

  /** Every row has the same length, as in a numpy array. */
  predicate Rectangular<T>(g: seq<seq<T>>) {
    forall i :: 0 <= i < |g| ==> |g[i]| == Width(g)
  }

  /** Two rasters with the same height and the same row lengths. */
  predicate SameShape<T, U>(a: seq<seq<T>>, b: seq<seq<U>>) {
    |a| == |b| && forall i :: 0 <= i < |a| ==> |a[i]| == |b[i]|
  }

  predicate InBounds<T>(g: seq<seq<T>>, p: Point) {
    0 <= p.row < |g| && 0 <= p.col < |g[p.row]|
  }

  /** A binary mask holds only 0 (background) and 255 (foreground). */
  predicate IsBinary(m: seq<seq<int>>) {
    forall i, j :: 0 <= i < |m| && 0 <= j < |m[i]| ==> m[i][j] == 0 || m[i][j] == 255
  }

  /** A foreground pixel: inside the raster and non-zero. */
  predicate Fg(m: seq<seq<int>>, p: Point) {
    InBounds(m, p) && m[p.row][p.col] != 0
  }

  /** Every foreground pixel of `a` is a foreground pixel of `b`. */
  predicate Within(a: seq<seq<int>>, b: seq<seq<int>>) {
    SameShape(a, b) &&
    forall i, j :: 0 <= i < |a| && 0 <= j < |a[i]| && a[i][j] != 0 ==> b[i][j] != 0
  }

  /** No pixel of the mask is foreground. */
  predicate AllBackground(m: seq<seq<int>>) {
    forall i, j :: 0 <= i < |m| && 0 <= j < |m[i]| ==> m[i][j] == 0
  }

  /** Every pixel of the mask is foreground. */
  predicate AllForeground(m: seq<seq<int>>) {
    forall i, j :: 0 <= i < |m| && 0 <= j < |m[i]| ==> m[i][j] == 255
  }

  /** 8-connectivity: distinct pixels at most one step apart on each axis. */
  predicate Adjacent(p: Point, q: Point) {
    p != q && -1 <= p.row - q.row <= 1 && -1 <= p.col - q.col <= 1
  }

  /** Raster-scan order: row by row, left to right within a row. */
  predicate RasterBefore(p: Point, q: Point) {
    p.row < q.row || (p.row == q.row && p.col < q.col)
  }
}
