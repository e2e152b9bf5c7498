/** Connected foreground regions of a cleaned mask and their bounding boxes.
    OpenCV's external-contour tracing is replaced by 8-connected component
    labelling: a raster scan that starts a flood fill at every foreground
    pixel not yet seen, so regions come out in discovery order. */
module Regions {
  import opened Grids

  /** [x, y, w, h] as cv2.boundingRect returns it. */
  datatype Box = Box(x: int, y: int, w: int, h: int)

  /** Running extent of a region during the flood fill. */
  datatype Extent = Extent(minRow: int, maxRow: int, minCol: int, maxCol: int)

  /** The box of an extent: w = maxx - minx + 1, h = maxy - miny + 1. */
  function ToBox(e: Extent): (b: Box)
    ensures b.x == e.minCol && b.y == e.minRow
    ensures e.minCol <= e.maxCol && e.minRow <= e.maxRow ==>
              b.w >= 1 && b.h >= 1 && b.x + b.w - 1 == e.maxCol && b.y + b.h - 1 == e.maxRow
  {
    Box(e.minCol, e.minRow, e.maxCol - e.minCol + 1, e.maxRow - e.minRow + 1)
  }

  /** `b` is the bounding rectangle of `c`: it holds every point of `c` and
      each of its four sides touches a point of `c`. */
  ghost predicate BoundingBox(b: Box, c: set<Point>) {
    (forall p :: p in c ==> b.x <= p.col < b.x + b.w && b.y <= p.row < b.y + b.h) &&
    (exists p :: p in c && p.col == b.x) &&
    (exists p :: p in c && p.col == b.x + b.w - 1) &&
    (exists p :: p in c && p.row == b.y) &&
    (exists p :: p in c && p.row == b.y + b.h - 1)
  }

  /** A box inside a raster of the given height and width. */
  predicate InsideImage(b: Box, height: int, width: int) {
    0 <= b.x && 0 <= b.y && 1 <= b.w && 1 <= b.h && b.x + b.w <= width && b.y + b.h <= height
  }

  /** A walk from `p` to `q` through adjacent points of `c`. */
  ghost predicate IsPath(path: seq<Point>, c: set<Point>, p: Point, q: Point) {
    |path| >= 1 && path[0] == p && path[|path| - 1] == q &&
    (forall k :: 0 <= k < |path| ==> path[k] in c) &&
    (forall k :: 0 <= k < |path| - 1 ==> Adjacent(path[k], path[k + 1]))
  }

  /** Some walk inside `c` joins `p` to `q`. */
  ghost predicate Linked(c: set<Point>, p: Point, q: Point) {
    exists path :: IsPath(path, c, p, q)
  }

  /** Any two points of `c` are joined by a walk inside `c`. */
  ghost predicate Connected(c: set<Point>) {
    forall p, q {:trigger Linked(c, p, q)} :: p in c && q in c ==> Linked(c, p, q)
  }

  /** No foreground pixel adjacent to `c` is left outside it. */
  ghost predicate Closed(m: seq<seq<int>>, c: set<Point>) {
    forall p, q :: p in c && Adjacent(p, q) && Fg(m, q) ==> q in c
  }

  /** A maximal 8-connected set of foreground pixels. */
  ghost predicate IsComponent(m: seq<seq<int>>, c: set<Point>) {
    c != {} && (forall p :: p in c ==> Fg(m, p)) && Closed(m, c) && Connected(c)
  }

  /** The union of a list of sets. */
  ghost function Union(comps: seq<set<Point>>): set<Point> {
    if comps == [] then {} else Union(comps[..|comps| - 1]) + comps[|comps| - 1]
  }

  lemma {:induction false} UnionMember(comps: seq<set<Point>>, p: Point)
    ensures p in Union(comps) <==> exists k :: 0 <= k < |comps| && p in comps[k]
  {
    if comps != [] {
      var init := comps[..|comps| - 1];
      UnionMember(init, p);
      if p in Union(init) {
        var k :| 0 <= k < |init| && p in init[k];
        assert p in comps[k];
      }
      forall k | 0 <= k < |init| && p in comps[k]
        ensures p in Union(init)
      {
        assert p in init[k];
      }
    }
  }

  /** `comps` lists distinct components whose union is exactly `v`. */
  ghost predicate Partition(m: seq<seq<int>>, comps: seq<set<Point>>, v: set<Point>) {
    (forall k :: 0 <= k < |comps| ==> IsComponent(m, comps[k])) &&
    (forall k, l :: 0 <= k < l < |comps| ==> comps[k] !! comps[l]) &&
    v == Union(comps)
  }

  /** `comps` lists every component of the mask exactly once. */
  ghost predicate IsLabelling(m: seq<seq<int>>, comps: seq<set<Point>>) {
    (forall k :: 0 <= k < |comps| ==> IsComponent(m, comps[k])) &&
    (forall k, l :: 0 <= k < l < |comps| ==> comps[k] !! comps[l]) &&
    (forall p :: Fg(m, p) ==> p in Union(comps))
  }

  /** Component `k` starts at `seeds[k]`, its first pixel in raster order,
      and the seeds increase in raster order. */
  ghost predicate InDiscoveryOrder(comps: seq<set<Point>>, seeds: seq<Point>) {
    |seeds| == |comps| &&
    (forall k :: 0 <= k < |comps| ==> seeds[k] in comps[k]) &&
    (forall k, p :: 0 <= k < |comps| && p in comps[k] ==> p == seeds[k] || RasterBefore(seeds[k], p)) &&
    (forall k, l :: 0 <= k < l < |seeds| ==> RasterBefore(seeds[k], seeds[l]))
  }

  // ---------------------------------------------------------------------
  // Flood fill

  /** The k-th of the eight neighbours of p, in raster order of the 3 x 3 block around p. */
  function Neighbour(p: Point, k: int): (q: Point)
    requires 0 <= k < 8
    ensures Adjacent(p, q)
  {
    var t := if k < 4 then k else k + 1;
    Pt(p.row + t / 3 - 1, p.col + t % 3 - 1)
  }

  /** The eight offsets enumerate every 8-neighbour. */
  lemma NeighbourEnumeration(p: Point, q: Point) returns (k: int)
    requires Adjacent(p, q)
    ensures 0 <= k < 8 && Neighbour(p, k) == q
  {
    var dy, dx := q.row - p.row, q.col - p.col;
    k := if dy == -1 then dx + 1 else if dy == 0 then (if dx == -1 then 3 else 4) else dx + 6;
  }

  /** The cells of an h x w raster. */
  ghost function Cells(h: int, w: int): set<Point> {
    set y, x | 0 <= y < h && 0 <= x < w :: Pt(y, x)
  }

  ghost function RowCells(y: int, w: int): set<Point> {
    set x | 0 <= x < w :: Pt(y, x)
  }

  lemma {:induction false} RowCard(y: int, w: nat)
    ensures |RowCells(y, w)| == w
  {
    if w > 0 {
      RowCard(y, w - 1);
      assert RowCells(y, w) == RowCells(y, w - 1) + {Pt(y, w - 1)};
    } else {
      assert RowCells(y, 0) == {};
    }
  }

  lemma CellsSplit(h: int, w: int)
    requires h > 0
    ensures Cells(h, w) == Cells(h - 1, w) + RowCells(h - 1, w)
    ensures Cells(h - 1, w) !! RowCells(h - 1, w)
  {
  }

  lemma MulStep(h: int, w: int)
    ensures (h - 1) * w + w == h * w
  {
  }

  lemma {:induction false} CellsCard(h: nat, w: nat)
    ensures |Cells(h, w)| == h * w
  {
    if h > 0 {
      CellsCard(h - 1, w);
      RowCard(h - 1, w);
      CellsSplit(h, w);
      MulStep(h, w);
    } else {
      assert Cells(0, w) == {};
    }
  }

  lemma SubsetCard(a: set<Point>, b: set<Point>)
    requires a <= b
    ensures |a| <= |b|
  {
    assert b == a + (b - a);
    assert a !! (b - a);
  }

  /** A set of in-raster cells has at most height x width elements, which
      bounds the flood fill's termination measure. */
  lemma SeenCard(m: seq<seq<int>>, v: set<Point>, c: set<Point>)
    requires forall p :: p in v + c ==> 0 <= p.row < |m| && 0 <= p.col < Width(m)
    requires v !! c
    ensures |v| + |c| <= |m| * Width(m)
  {
    var s := v + c;
    assert |s| == |v| + |c|;
    assert s <= Cells(|m|, Width(m));
    SubsetCard(s, Cells(|m|, Width(m)));
    CellsCard(|m|, Width(m));
  }

  /** The `seen` array marks exactly the cells in `s`. */
  ghost predicate SeenIs(seen: array2<bool>, m: seq<seq<int>>, s: set<Point>)
    reads seen
  {
    seen.Length0 == |m| && seen.Length1 == Width(m) &&
    (forall p :: p in s ==> 0 <= p.row < |m| && 0 <= p.col < Width(m)) &&
    (forall y, x :: 0 <= y < seen.Length0 && 0 <= x < seen.Length1 ==> (seen[y, x] <==> Pt(y, x) in s))
  }

  /** Every foreground neighbour of `p` is in `s`. */
  ghost predicate NeighboursSeen(m: seq<seq<int>>, p: Point, s: set<Point>) {
    forall q :: Adjacent(p, q) && Fg(m, q) ==> q in s
  }

  lemma PathWiden(path: seq<Point>, c: set<Point>, c2: set<Point>, x: Point, y: Point)
    requires IsPath(path, c, x, y) && c <= c2
    ensures IsPath(path, c2, x, y)
  {
  }

  lemma PathPrepend(path: seq<Point>, c: set<Point>, q: Point, p: Point, y: Point)
    requires IsPath(path, c, p, y) && Adjacent(q, p) && q in c
    ensures IsPath([q] + path, c, q, y)
  {
    var path2 := [q] + path;
    forall k | 0 <= k < |path2| - 1
      ensures Adjacent(path2[k], path2[k + 1])
    {
      if k > 0 {
        assert path2[k] == path[k - 1] && path2[k + 1] == path[k];
      }
    }
  }

  lemma PathAppend(path: seq<Point>, c: set<Point>, x: Point, p: Point, q: Point)
    requires IsPath(path, c, x, p) && Adjacent(p, q) && q in c
    ensures IsPath(path + [q], c, x, q)
  {
    var path2 := path + [q];
    forall k | 0 <= k < |path2| - 1
      ensures Adjacent(path2[k], path2[k + 1])
    {
      if k < |path| - 1 {
        assert path2[k] == path[k] && path2[k + 1] == path[k + 1];
      }
    }
  }

  /** Adding a neighbour of a member keeps a set connected. */
  lemma ConnectedExtend(c: set<Point>, p: Point, q: Point)
    requires Connected(c) && p in c && Adjacent(p, q)
    ensures Connected(c + {q})
  {
    var c2 := c + {q};
    forall x, y | x in c2 && y in c2
      ensures Linked(c2, x, y)
    {
      if x == q && y == q {
        assert IsPath([q], c2, q, q);
      } else if x == q {
        assert Linked(c, p, y);
        var path :| IsPath(path, c, p, y);
        PathWiden(path, c, c2, p, y);
        PathPrepend(path, c2, q, p, y);
      } else if y == q {
        assert Linked(c, x, p);
        var path :| IsPath(path, c, x, p);
        PathWiden(path, c, c2, x, p);
        PathAppend(path, c2, x, p, q);
      } else {
        assert Linked(c, x, y);
        var path :| IsPath(path, c, x, y);
        PathWiden(path, c, c2, x, y);
      }
    }
  }

  /** Once no member has an unseen foreground neighbour, the fill is closed:
      a neighbour seen earlier would put the member in an earlier region. */
  lemma FillClosed(m: seq<seq<int>>, v: set<Point>, c: set<Point>)
    requires Closed(m, v) && v !! c
    requires forall p :: p in c ==> Fg(m, p) && NeighboursSeen(m, p, v + c)
    ensures Closed(m, c)
  {
    forall p, q | p in c && Adjacent(p, q) && Fg(m, q)
      ensures q in c
    {
      assert q in v + c;
      assert Adjacent(q, p) && Fg(m, p);
      assert q in v ==> p in v;
    }
  }

  /** The extent widened to take in `q`. */
  function Grow(e: Extent, q: Point): Extent {
    Extent(if q.row < e.minRow then q.row else e.minRow,
           if q.row > e.maxRow then q.row else e.maxRow,
           if q.col < e.minCol then q.col else e.minCol,
           if q.col > e.maxCol then q.col else e.maxCol)
  }

  /** Growing the extent by a point keeps it the bounding box of the region. */
  lemma GrowBounds(e: Extent, c: set<Point>, q: Point)
    requires BoundingBox(ToBox(e), c)
    ensures BoundingBox(ToBox(Grow(e, q)), c + {q})
  {
    var g := Grow(e, q);
    var p1 :| p1 in c && p1.col == e.minCol;
    var p2 :| p2 in c && p2.col == e.maxCol;
    var p3 :| p3 in c && p3.row == e.minRow;
    var p4 :| p4 in c && p4.row == e.maxRow;
    assert (if q.col < e.minCol then q else p1).col == g.minCol;
    assert (if q.col > e.maxCol then q else p2).col == g.maxCol;
    assert (if q.row < e.minRow then q else p3).row == g.minRow;
    assert (if q.row > e.maxRow then q else p4).row == g.maxRow;
  }

  /** What the flood fill keeps about the region `c` it is growing from
      `seed`: the region is foreground, disjoint from the earlier regions
      `v`, starts at its raster-first pixel, is connected, and `e` is its
      extent. */
  ghost predicate Fill(m: seq<seq<int>>, v: set<Point>, c: set<Point>, e: Extent, seed: Point) {
    seed in c && v !! c &&
    (forall p :: Fg(m, p) && RasterBefore(p, seed) ==> p in v) &&
    (forall p :: p in c ==> Fg(m, p) && (p == seed || RasterBefore(seed, p))) &&
    Connected(c) && BoundingBox(ToBox(e), c)
  }

  /** Growing the region by an unseen foreground neighbour `q` of a member
      keeps the flood-fill facts. */
  lemma AddMember(m: seq<seq<int>>, v: set<Point>, c: set<Point>, e: Extent,
                  seed: Point, from: Point, q: Point)
    requires Fill(m, v, c, e, seed)
    requires from in c && Adjacent(from, q) && Fg(m, q) && q !in v + c
    ensures Fill(m, v, c + {q}, Grow(e, q), seed)
  {
    ConnectedExtend(c, from, q);
    GrowBounds(e, c, q);
  }

  /** Mark in-raster cell `q` as seen. */
  method Mark(seen: array2<bool>, ghost m: seq<seq<int>>, ghost s: set<Point>, q: Point)
    requires SeenIs(seen, m, s)
    requires 0 <= q.row < |m| && 0 <= q.col < Width(m)
    modifies seen
    ensures SeenIs(seen, m, s + {q})
  {
    seen[q.row, q.col] := true;
  }

  /** Visit candidate `q`, a neighbour of member `from`: if it is an unseen
      foreground pixel, mark it, push it and grow the extent. */
  method Push(m: seq<seq<int>>, seen: array2<bool>, q: Point, stack: seq<Point>, e: Extent,
              ghost v: set<Point>, ghost c: set<Point>, ghost seed: Point, ghost from: Point)
    returns (stack': seq<Point>, e': Extent, ghost c': set<Point>)
    requires Rectangular(m) && SeenIs(seen, m, v + c) && Fill(m, v, c, e, seed)
    requires from in c && Adjacent(from, q)
    modifies seen
    ensures SeenIs(seen, m, v + c') && Fill(m, v, c', e', seed)
    ensures (stack' == stack && c' == c) || (stack' == stack + [q] && c' == c + {q})
    ensures Fg(m, q) ==> q in v + c'
    ensures |c'| - |stack'| == |c| - |stack|
  {
    if 0 <= q.row < |m| && 0 <= q.col < Width(m) && m[q.row][q.col] != 0 && !seen[q.row, q.col] {
      Mark(seen, m, v + c, q);
      stack' := stack + [q];
      c' := c + {q};
      e' := Grow(e, q);
      AddMember(m, v, c, e, seed, from, q);
    } else {
      stack', e', c' := stack, e, c;
    }
  }

  /** Visit the eight neighbours of member `p`. */
  ghost predicate Processed(m: seq<seq<int>>, p: Point, k: int, s: set<Point>)
    requires 0 <= k <= 8
  {
    forall j :: 0 <= j < k && Fg(m, Neighbour(p, j)) ==> Neighbour(p, j) in s
  }

  lemma ProcessedStep(m: seq<seq<int>>, p: Point, k: int, s: set<Point>, s2: set<Point>)
    requires 0 <= k < 8 && Processed(m, p, k, s) && s <= s2
    requires Fg(m, Neighbour(p, k)) ==> Neighbour(p, k) in s2
    ensures Processed(m, p, k + 1, s2)
  {
  }

  lemma AllProcessed(m: seq<seq<int>>, p: Point, s: set<Point>)
    requires Processed(m, p, 8, s)
    ensures NeighboursSeen(m, p, s)
  {
    forall q | Adjacent(p, q) && Fg(m, q)
      ensures q in s
    {
      var k := NeighbourEnumeration(p, q);
    }
  }

  method VisitNeighbours(m: seq<seq<int>>, seen: array2<bool>, p: Point, stack: seq<Point>, e: Extent,
                         ghost v: set<Point>, ghost c: set<Point>, ghost seed: Point)
    returns (stack': seq<Point>, e': Extent, ghost c': set<Point>)
    requires Rectangular(m) && SeenIs(seen, m, v + c) && Fill(m, v, c, e, seed) && p in c
    requires forall x :: x in stack ==> x in c
    modifies seen
    ensures SeenIs(seen, m, v + c') && Fill(m, v, c', e', seed) && c <= c'
    ensures forall x :: x in stack' ==> x in c'
    ensures forall x :: x in stack ==> x in stack'
    ensures forall x :: x in c' && x !in c ==> x in stack'
    ensures NeighboursSeen(m, p, v + c')
    ensures |c'| - |stack'| == |c| - |stack|
  {
    stack', e', c' := stack, e, c;
    for k := 0 to 8
      invariant SeenIs(seen, m, v + c') && Fill(m, v, c', e', seed) && c <= c'
      invariant forall x :: x in stack' ==> x in c'
      invariant forall x :: x in stack ==> x in stack'
      invariant forall x :: x in c' && x !in c ==> x in stack'
      invariant Processed(m, p, k, v + c')
      invariant |c'| - |stack'| == |c| - |stack|
    {
      ghost var s0 := v + c';
      stack', e', c' := Push(m, seen, Neighbour(p, k), stack', e', v, c', seed, p);
      ProcessedStep(m, p, k, s0, v + c');
    }
    AllProcessed(m, p, v + c');
  }

  /** Every member of the region that is off the stack has had its neighbours visited. */
  ghost predicate Settled(m: seq<seq<int>>, c: set<Point>, stack: seq<Point>, s: set<Point>) {
    forall p :: p in c && p !in stack ==> NeighboursSeen(m, p, s)
  }

  /** One round of the flood fill: pop the top of the stack and push its unseen
      foreground neighbours. */
  method Expand(m: seq<seq<int>>, seen: array2<bool>, stack: seq<Point>, e: Extent,
                ghost v: set<Point>, ghost c: set<Point>, ghost seed: Point)
    returns (stack': seq<Point>, e': Extent, ghost c': set<Point>)
    requires Rectangular(m) && SeenIs(seen, m, v + c) && Fill(m, v, c, e, seed)
    requires stack != [] && forall p :: p in stack ==> p in c
    requires Settled(m, c, stack, v + c)
    modifies seen
    ensures SeenIs(seen, m, v + c') && Fill(m, v, c', e', seed)
    ensures forall p :: p in stack' ==> p in c'
    ensures Settled(m, c', stack', v + c')
    ensures |v| + |c'| <= |m| * Width(m)
    ensures |c'| - |stack'| == |c| - |stack| + 1
  {
    var p := stack[|stack| - 1];
    stack' := stack[..|stack| - 1];
    assert forall x :: x in stack ==> x in stack' || x == p;
    stack', e', c' := VisitNeighbours(m, seen, p, stack', e, v, c, seed);
    SeenCard(m, v, c');
    forall x | x in c' && x !in stack'
      ensures NeighboursSeen(m, x, v + c')
    {
      if x != p {
        assert x in c && x !in stack;
        assert NeighboursSeen(m, x, v + c);
      }
    }
  }

  /** A fill holding only its seed. */
  lemma FillStart(m: seq<seq<int>>, v: set<Point>, seed: Point)
    requires Fg(m, seed) && seed !in v
    requires forall p :: Fg(m, p) && RasterBefore(p, seed) ==> p in v
    ensures Fill(m, v, {seed}, Extent(seed.row, seed.row, seed.col, seed.col), seed)
  {
    assert IsPath([seed], {seed}, seed, seed);
  }

  /** Flood-fill the 8-connected region of `seed`, marking it in `seen`, and
      return its bounding box. */
  method FloodFill(m: seq<seq<int>>, seen: array2<bool>, seed: Point, ghost v: set<Point>)
    returns (box: Box, ghost c: set<Point>)
    requires Rectangular(m)
    requires SeenIs(seen, m, v) && Closed(m, v)
    requires Fg(m, seed) && seed !in v
    requires forall p :: Fg(m, p) && RasterBefore(p, seed) ==> p in v
    modifies seen
    ensures SeenIs(seen, m, v + c) && v !! c
    ensures IsComponent(m, c) && seed in c
    ensures forall p :: p in c ==> p == seed || RasterBefore(seed, p)
    ensures BoundingBox(box, c)
  {
    Mark(seen, m, v, seed);
    c := {seed};
    SeenCard(m, v, c);
    var stack := [seed];
    var e := Extent(seed.row, seed.row, seed.col, seed.col);
    FillStart(m, v, seed);
    while stack != []
      invariant SeenIs(seen, m, v + c) && Fill(m, v, c, e, seed)
      invariant forall p :: p in stack ==> p in c
      invariant Settled(m, c, stack, v + c)
      invariant |v| + |c| <= |m| * Width(m)
      decreases |m| * Width(m) - |v| - |c| + |stack|
    {
      stack, e, c := Expand(m, seen, stack, e, v, c, seed);
    }
    FillClosed(m, v, c);
    box := ToBox(e);
  }

  // ---------------------------------------------------------------------
  // Raster scan

  /** `boxes[k]` is the bounding box of `comps[k]`. */
  ghost predicate Boxed(boxes: seq<Box>, comps: seq<set<Point>>) {
    |boxes| == |comps| && forall k :: 0 <= k < |comps| ==> BoundingBox(boxes[k], comps[k])
  }

  /** Every seed so far precedes `pos`. */
  predicate SeedsBefore(seeds: seq<Point>, pos: Point) {
    forall k :: 0 <= k < |seeds| ==> RasterBefore(seeds[k], pos)
  }

  /** Every foreground pixel before `pos` is labelled. */
  ghost predicate LabelledBefore(m: seq<seq<int>>, v: set<Point>, pos: Point) {
    forall p :: Fg(m, p) && RasterBefore(p, pos) ==> p in v
  }

  /** `comps` are distinct components, listed from their seeds, `v` is their
      union and `boxes` are their bounding boxes. */
  ghost predicate Found(m: seq<seq<int>>, v: set<Point>, boxes: seq<Box>,
                        comps: seq<set<Point>>, seeds: seq<Point>) {
    Closed(m, v) && Partition(m, comps, v) && InDiscoveryOrder(comps, seeds) && Boxed(boxes, comps)
  }

  /** The scan has reached `pos`: `comps` are the components found so far,
      each once and from its seed, `v` is their union, and every foreground
      pixel before `pos` has been labelled. */
  ghost predicate Scanned(m: seq<seq<int>>, v: set<Point>, boxes: seq<Box>,
                          comps: seq<set<Point>>, seeds: seq<Point>, pos: Point) {
    Found(m, v, boxes, comps, seeds) && SeedsBefore(seeds, pos) && LabelledBefore(m, v, pos)
  }

  lemma ScanStart(m: seq<seq<int>>)
    ensures Scanned(m, {}, [], [], [], Pt(0, 0))
  {
  }

  lemma ClosedUnion(m: seq<seq<int>>, v: set<Point>, c: set<Point>)
    requires Closed(m, v) && Closed(m, c)
    ensures Closed(m, v + c)
  {
  }

  lemma PartitionAdd(m: seq<seq<int>>, comps: seq<set<Point>>, v: set<Point>, c: set<Point>)
    requires Partition(m, comps, v) && v !! c && IsComponent(m, c)
    ensures Partition(m, comps + [c], v + c)
  {
    var comps' := comps + [c];
    assert comps'[..|comps|] == comps;
    forall k | 0 <= k < |comps|
      ensures comps[k] !! c
    {
      forall p | p in comps[k]
        ensures p in v
      {
        UnionMember(comps, p);
      }
    }
  }

  lemma DiscoveryAdd(comps: seq<set<Point>>, seeds: seq<Point>, c: set<Point>, pos: Point)
    requires InDiscoveryOrder(comps, seeds) && SeedsBefore(seeds, pos)
    requires pos in c && forall p :: p in c ==> p == pos || RasterBefore(pos, p)
    ensures InDiscoveryOrder(comps + [c], seeds + [pos])
  {
  }

  lemma BoxedAdd(boxes: seq<Box>, comps: seq<set<Point>>, box: Box, c: set<Point>)
    requires Boxed(boxes, comps) && BoundingBox(box, c)
    ensures Boxed(boxes + [box], comps + [c])
  {
  }

  /** Moving the scan one pixel on, past a pixel that is now labelled. */
  lemma Advance(m: seq<seq<int>>, v: set<Point>, v': set<Point>, seeds: seq<Point>, seeds': seq<Point>, pos: Point)
    requires SeedsBefore(seeds, pos) && LabelledBefore(m, v, pos)
    requires v <= v' && (Fg(m, pos) ==> pos in v')
    requires seeds' == seeds || seeds' == seeds + [pos]
    ensures SeedsBefore(seeds', Pt(pos.row, pos.col + 1)) && LabelledBefore(m, v', Pt(pos.row, pos.col + 1))
  {
  }

  /** A flood fill started at `pos` records a new component. */
  lemma ScanRecord(m: seq<seq<int>>, v: set<Point>, boxes: seq<Box>, comps: seq<set<Point>>,
                   seeds: seq<Point>, pos: Point, box: Box, c: set<Point>)
    requires Scanned(m, v, boxes, comps, seeds, pos)
    requires v !! c && IsComponent(m, c) && pos in c && BoundingBox(box, c)
    requires forall p :: p in c ==> p == pos || RasterBefore(pos, p)
    ensures Scanned(m, v + c, boxes + [box], comps + [c], seeds + [pos], Pt(pos.row, pos.col + 1))
  {
    ClosedUnion(m, v, c);
    PartitionAdd(m, comps, v, c);
    DiscoveryAdd(comps, seeds, c, pos);
    BoxedAdd(boxes, comps, box, c);
    Advance(m, v, v + c, seeds, seeds + [pos], pos);
  }

  /** A pixel that is background or already labelled is passed over. */
  lemma ScanSkip(m: seq<seq<int>>, v: set<Point>, boxes: seq<Box>, comps: seq<set<Point>>,
                 seeds: seq<Point>, pos: Point)
    requires Scanned(m, v, boxes, comps, seeds, pos)
    requires Fg(m, pos) ==> pos in v
    ensures Scanned(m, v, boxes, comps, seeds, Pt(pos.row, pos.col + 1))
  {
    Advance(m, v, v, seeds, seeds, pos);
  }

  /** The end of row `r` is the start of row `r + 1`. */
  lemma ScanNextRow(m: seq<seq<int>>, v: set<Point>, boxes: seq<Box>, comps: seq<set<Point>>,
                    seeds: seq<Point>, r: int)
    requires Rectangular(m) && 0 <= r < |m|
    requires Scanned(m, v, boxes, comps, seeds, Pt(r, Width(m)))
    ensures Scanned(m, v, boxes, comps, seeds, Pt(r + 1, 0))
  {
  }

  /** Once every row is scanned, the components found label the whole mask. */
  lemma ScanDone(m: seq<seq<int>>, v: set<Point>, boxes: seq<Box>, comps: seq<set<Point>>,
                 seeds: seq<Point>)
    requires Scanned(m, v, boxes, comps, seeds, Pt(|m|, 0))
    ensures IsLabelling(m, comps)
  {
    forall p | Fg(m, p)
      ensures p in Union(comps)
    {
      assert RasterBefore(p, Pt(|m|, 0));
    }
  }

  /** The bounding box of a set of pixels of the mask lies inside the mask. */
  lemma BoxInside(m: seq<seq<int>>, b: Box, c: set<Point>)
    requires Rectangular(m) && BoundingBox(b, c)
    requires forall p :: p in c ==> Fg(m, p)
    ensures InsideImage(b, |m|, Width(m))
  {
    var left :| left in c && left.col == b.x;
    var right :| right in c && right.col == b.x + b.w - 1;
    var top :| top in c && top.row == b.y;
    var bottom :| bottom in c && bottom.row == b.y + b.h - 1;
    assert Fg(m, left) && Fg(m, right) && Fg(m, top) && Fg(m, bottom);
  }

  /** Visit pixel `pos` of the scan: start a flood fill there if it is
      foreground and not yet seen. */
  method VisitPixel(m: seq<seq<int>>, seen: array2<bool>, pos: Point, boxes: seq<Box>, ghost v: set<Point>,
                    ghost comps: seq<set<Point>>, ghost seeds: seq<Point>)
    returns (boxes': seq<Box>, ghost v': set<Point>, ghost comps': seq<set<Point>>, ghost seeds': seq<Point>)
    requires Rectangular(m) && 0 <= pos.row < |m| && 0 <= pos.col < Width(m)
    requires SeenIs(seen, m, v) && Scanned(m, v, boxes, comps, seeds, pos)
    modifies seen
    ensures SeenIs(seen, m, v') && Scanned(m, v', boxes', comps', seeds', Pt(pos.row, pos.col + 1))
    ensures AllBackground(m) ==> boxes' == boxes
  {
    if m[pos.row][pos.col] != 0 && !seen[pos.row, pos.col] {
      var box;
      ghost var c;
      box, c := FloodFill(m, seen, pos, v);
      ScanRecord(m, v, boxes, comps, seeds, pos, box, c);
      boxes', comps', seeds', v' := boxes + [box], comps + [c], seeds + [pos], v + c;
    } else {
      ScanSkip(m, v, boxes, comps, seeds, pos);
      boxes', comps', seeds', v' := boxes, comps, seeds, v;
    }
  }

  /** Scan row `r` left to right. */
  method ScanRow(m: seq<seq<int>>, seen: array2<bool>, r: int, boxes: seq<Box>, ghost v: set<Point>,
                 ghost comps: seq<set<Point>>, ghost seeds: seq<Point>)
    returns (boxes': seq<Box>, ghost v': set<Point>, ghost comps': seq<set<Point>>, ghost seeds': seq<Point>)
    requires Rectangular(m) && 0 <= r < |m|
    requires SeenIs(seen, m, v) && Scanned(m, v, boxes, comps, seeds, Pt(r, 0))
    modifies seen
    ensures SeenIs(seen, m, v') && Scanned(m, v', boxes', comps', seeds', Pt(r, Width(m)))
    ensures AllBackground(m) ==> boxes' == boxes
  {
    boxes', v', comps', seeds' := boxes, v, comps, seeds;
    for col := 0 to Width(m)
      invariant SeenIs(seen, m, v') && Scanned(m, v', boxes', comps', seeds', Pt(r, col))
      invariant AllBackground(m) ==> boxes' == boxes
    {
      boxes', v', comps', seeds' := VisitPixel(m, seen, Pt(r, col), boxes', v', comps', seeds');
    }
  }

  /** Label the 8-connected components of a mask in raster-scan discovery
      order and return their bounding boxes. */
  method Label(m: seq<seq<int>>) returns (boxes: seq<Box>, ghost comps: seq<set<Point>>, ghost seeds: seq<Point>)
    requires Rectangular(m)
    ensures IsLabelling(m, comps) && InDiscoveryOrder(comps, seeds) && Boxed(boxes, comps)
    ensures forall k :: 0 <= k < |boxes| ==> InsideImage(boxes[k], |m|, Width(m))
    ensures AllBackground(m) ==> boxes == []
  {
    var seen := new bool[|m|, Width(m)]((_, _) => false);
    ghost var v: set<Point> := {};
    boxes, comps, seeds := [], [], [];
    ScanStart(m);
    for r := 0 to |m|
      invariant SeenIs(seen, m, v) && Scanned(m, v, boxes, comps, seeds, Pt(r, 0))
      invariant AllBackground(m) ==> boxes == []
    {
      boxes, v, comps, seeds := ScanRow(m, seen, r, boxes, v, comps, seeds);
      ScanNextRow(m, v, boxes, comps, seeds, r);
    }
    ScanDone(m, v, boxes, comps, seeds);
    forall k | 0 <= k < |boxes|
      ensures InsideImage(boxes[k], |m|, Width(m))
    {
      BoxInside(m, boxes[k], comps[k]);
    }
  }

  // ---------------------------------------------------------------------
  // The result is determined by the mask

  /** A walk inside `c1`, whose members are foreground, that starts in the
      closed set `c2` never leaves `c2`. */
  lemma {:induction false} WalkStaysIn(m: seq<seq<int>>, path: seq<Point>, c1: set<Point>,
                                       c2: set<Point>, k: int)
    requires (forall i :: 0 <= i < |path| ==> path[i] in c1) && (forall q :: q in c1 ==> Fg(m, q))
    requires forall i :: 0 <= i < |path| - 1 ==> Adjacent(path[i], path[i + 1])
    requires |path| >= 1 && path[0] in c2 && Closed(m, c2)
    requires 0 <= k < |path|
    ensures path[k] in c2
  {
    if k > 0 {
      WalkStaysIn(m, path, c1, c2, k - 1);
      assert Adjacent(path[k - 1], path[k]) && Fg(m, path[k]);
    }
  }

  lemma ComponentWithin(m: seq<seq<int>>, c1: set<Point>, c2: set<Point>, p: Point)
    requires IsComponent(m, c1) && IsComponent(m, c2) && p in c1 && p in c2
    ensures c1 <= c2
  {
    forall x | x in c1
      ensures x in c2
    {
      assert Linked(c1, p, x);
      var path :| IsPath(path, c1, p, x);
      WalkStaysIn(m, path, c1, c2, |path| - 1);
    }
  }

  /** Two components that share a pixel are the same component. */
  lemma ComponentsMeet(m: seq<seq<int>>, c1: set<Point>, c2: set<Point>, p: Point)
    requires IsComponent(m, c1) && IsComponent(m, c2) && p in c1 && p in c2
    ensures c1 == c2
  {
    ComponentWithin(m, c1, c2, p);
    ComponentWithin(m, c2, c1, p);
  }

  /** The union seen from the front of the list. */
  lemma {:induction false} UnionCons(comps: seq<set<Point>>)
    requires |comps| > 0
    ensures Union(comps) == comps[0] + Union(comps[1..])
  {
    if |comps| > 1 {
      var init := comps[..|comps| - 1];
      UnionCons(init);
      assert init[1..] == comps[1..][..|comps| - 2];
    } else {
      assert comps[1..] == [];
    }
  }

  /** Dropping the first component of a partition leaves a partition of the rest. */
  lemma PartitionTail(m: seq<seq<int>>, comps: seq<set<Point>>, v: set<Point>)
    requires Partition(m, comps, v) && |comps| > 0
    ensures Partition(m, comps[1..], v - comps[0])
  {
    UnionCons(comps);
    forall p | p in Union(comps[1..])
      ensures p !in comps[0]
    {
      UnionMember(comps[1..], p);
      var k :| 0 <= k < |comps[1..]| && p in comps[1..][k];
      assert comps[0] !! comps[k + 1];
    }
  }

  lemma DiscoveryTail(comps: seq<set<Point>>, seeds: seq<Point>)
    requires InDiscoveryOrder(comps, seeds) && |comps| > 0
    ensures InDiscoveryOrder(comps[1..], seeds[1..])
  {
    forall k, l | 0 <= k < l < |seeds| - 1
      ensures RasterBefore(seeds[1..][k], seeds[1..][l])
    {
      assert RasterBefore(seeds[k + 1], seeds[l + 1]);
    }
  }

  /** The first seed, when there is one, belongs to the union. */
  lemma HeadInUnion(comps: seq<set<Point>>, seeds: seq<Point>)
    ensures InDiscoveryOrder(comps, seeds) && |comps| > 0 ==> seeds[0] in Union(comps)
  {
    if InDiscoveryOrder(comps, seeds) && |comps| > 0 {
      UnionMember(comps, seeds[0]);
    }
  }

  /** The first seed is the first pixel of the union in raster order. */
  lemma FirstSeedIsFirst(comps: seq<set<Point>>, seeds: seq<Point>, q: Point)
    requires InDiscoveryOrder(comps, seeds) && |comps| > 0 && q in Union(comps)
    ensures q == seeds[0] || RasterBefore(seeds[0], q)
  {
    UnionMember(comps, q);
    var k :| 0 <= k < |comps| && q in comps[k];
    if k > 0 {
      assert RasterBefore(seeds[0], seeds[k]);
    }
  }

  /** Two discovery-ordered lists of components with the same union are equal. */
  lemma {:induction false} DiscoveryOrderUnique(m: seq<seq<int>>, v: set<Point>,
                                                comps1: seq<set<Point>>, seeds1: seq<Point>,
                                                comps2: seq<set<Point>>, seeds2: seq<Point>)
    requires Partition(m, comps1, v) && InDiscoveryOrder(comps1, seeds1)
    requires Partition(m, comps2, v) && InDiscoveryOrder(comps2, seeds2)
    ensures comps1 == comps2 && seeds1 == seeds2
    decreases |comps1|
  {
    HeadInUnion(comps1, seeds1);
    HeadInUnion(comps2, seeds2);
    if comps1 == [] || comps2 == [] {
      if comps1 != [] || comps2 != [] {
        assert false;
      }
    } else {
      HeadsAgree(m, v, comps1, seeds1, comps2, seeds2);
      PartitionTail(m, comps1, v);
      PartitionTail(m, comps2, v);
      DiscoveryTail(comps1, seeds1);
      DiscoveryTail(comps2, seeds2);
      DiscoveryOrderUnique(m, v - comps1[0], comps1[1..], seeds1[1..], comps2[1..], seeds2[1..]);
      ConsEqual(comps1, comps2);
      ConsEqual(seeds1, seeds2);
    }
  }

  /** Both lists start with the component of the first pixel of `v`. */
  lemma HeadsAgree(m: seq<seq<int>>, v: set<Point>,
                   comps1: seq<set<Point>>, seeds1: seq<Point>,
                   comps2: seq<set<Point>>, seeds2: seq<Point>)
    requires Partition(m, comps1, v) && InDiscoveryOrder(comps1, seeds1) && |comps1| > 0
    requires Partition(m, comps2, v) && InDiscoveryOrder(comps2, seeds2) && |comps2| > 0
    ensures comps1[0] == comps2[0] && seeds1[0] == seeds2[0]
  {
    HeadInUnion(comps1, seeds1);
    HeadInUnion(comps2, seeds2);
    FirstSeedIsFirst(comps1, seeds1, seeds2[0]);
    FirstSeedIsFirst(comps2, seeds2, seeds1[0]);
    ComponentsMeet(m, comps1[0], comps2[0], seeds1[0]);
  }

  lemma ConsEqual<T>(a: seq<T>, b: seq<T>)
    requires |a| > 0 && |b| > 0 && a[0] == b[0] && a[1..] == b[1..]
    ensures a == b
  {
    assert a == [a[0]] + a[1..] && b == [b[0]] + b[1..];
  }

  /** A labelling covers exactly the foreground pixels. */
  lemma LabellingUnion(m: seq<seq<int>>, comps: seq<set<Point>>)
    requires IsLabelling(m, comps)
    ensures forall p :: p in Union(comps) <==> Fg(m, p)
  {
    forall p | p in Union(comps)
      ensures Fg(m, p)
    {
      UnionMember(comps, p);
      var k :| 0 <= k < |comps| && p in comps[k];
      assert IsComponent(m, comps[k]);
    }
  }

  /** There is only one labelling in discovery order. */
  lemma LabellingUnique(m: seq<seq<int>>, comps1: seq<set<Point>>, seeds1: seq<Point>,
                        comps2: seq<set<Point>>, seeds2: seq<Point>)
    requires IsLabelling(m, comps1) && InDiscoveryOrder(comps1, seeds1)
    requires IsLabelling(m, comps2) && InDiscoveryOrder(comps2, seeds2)
    ensures comps1 == comps2 && seeds1 == seeds2
  {
    LabellingUnion(m, comps1);
    LabellingUnion(m, comps2);
    var v := Union(comps1);
    assert Union(comps2) == v;
    DiscoveryOrderUnique(m, v, comps1, seeds1, comps2, seeds2);
  }

  /** A set has only one bounding box. */
  lemma BoundingBoxUnique(b1: Box, b2: Box, c: set<Point>)
    requires BoundingBox(b1, c) && BoundingBox(b2, c)
    ensures b1 == b2
  {
    var l1 :| l1 in c && l1.col == b1.x;
    var l2 :| l2 in c && l2.col == b2.x;
    var r1 :| r1 in c && r1.col == b1.x + b1.w - 1;
    var r2 :| r2 in c && r2.col == b2.x + b2.w - 1;
    var t1 :| t1 in c && t1.row == b1.y;
    var t2 :| t2 in c && t2.row == b2.y;
    var u1 :| u1 in c && u1.row == b1.y + b1.h - 1;
    var u2 :| u2 in c && u2.row == b2.y + b2.h - 1;
  }

  /** The region boxes of a mask, listed in discovery order, are determined by
      the mask. */
  lemma RegionBoxesUnique(m: seq<seq<int>>, boxes1: seq<Box>, comps1: seq<set<Point>>, seeds1: seq<Point>,
                          boxes2: seq<Box>, comps2: seq<set<Point>>, seeds2: seq<Point>)
    requires IsLabelling(m, comps1) && InDiscoveryOrder(comps1, seeds1) && Boxed(boxes1, comps1)
    requires IsLabelling(m, comps2) && InDiscoveryOrder(comps2, seeds2) && Boxed(boxes2, comps2)
    ensures boxes1 == boxes2
  {
    LabellingUnique(m, comps1, seeds1, comps2, seeds2);
    forall k | 0 <= k < |boxes1|
      ensures boxes1[k] == boxes2[k]
    {
      BoundingBoxUnique(boxes1[k], boxes2[k], comps1[k]);
    }
  }

  // ---------------------------------------------------------------------
  // A mask that is entirely foreground

  /** A closed set that holds the top-left pixel of a full mask holds its
      first row. */
  lemma {:induction false} FullRowReached(m: seq<seq<int>>, c: set<Point>, col: int)
    requires Rectangular(m) && |m| > 0 && AllForeground(m) && Closed(m, c) && Pt(0, 0) in c
    requires 0 <= col < Width(m)
    ensures Pt(0, col) in c
  {
    if col > 0 {
      FullRowReached(m, c, col - 1);
      assert Adjacent(Pt(0, col - 1), Pt(0, col)) && Fg(m, Pt(0, col));
    }
  }

  /** ... and then every column, walking down from the first row. */
  lemma {:induction false} FullGridReached(m: seq<seq<int>>, c: set<Point>, row: int, col: int)
    requires Rectangular(m) && |m| > 0 && AllForeground(m) && Closed(m, c) && Pt(0, 0) in c
    requires 0 <= row < |m| && 0 <= col < Width(m)
    ensures Pt(row, col) in c
  {
    if row == 0 {
      FullRowReached(m, c, col);
    } else {
      FullGridReached(m, c, row - 1, col);
      assert Adjacent(Pt(row - 1, col), Pt(row, col)) && Fg(m, Pt(row, col));
    }
  }

  /** In a full mask, a component holding the top-left pixel is the whole
      image, and its bounding box is the image rectangle. */
  lemma FullComponent(m: seq<seq<int>>, c: set<Point>)
    requires Rectangular(m) && |m| > 0 && Width(m) > 0 && AllForeground(m)
    requires IsComponent(m, c) && Pt(0, 0) in c
    ensures forall p :: Fg(m, p) ==> p in c
    ensures BoundingBox(Box(0, 0, Width(m), |m|), c)
  {
    forall p | Fg(m, p)
      ensures p in c
    {
      FullGridReached(m, c, p.row, p.col);
    }
    FullGridReached(m, c, 0, Width(m) - 1);
    FullGridReached(m, c, |m| - 1, 0);
  }

  /** A foreground pixel lies in a component of a labelling. */
  lemma LabelOf(m: seq<seq<int>>, comps: seq<set<Point>>, p: Point) returns (k: int)
    requires IsLabelling(m, comps) && Fg(m, p)
    ensures 0 <= k < |comps| && p in comps[k] && IsComponent(m, comps[k])
  {
    UnionMember(comps, p);
    k :| 0 <= k < |comps| && p in comps[k];
  }

  /** A component of a labelling that holds every foreground pixel is the
      only one. */
  lemma OnlyComponent(m: seq<seq<int>>, comps: seq<set<Point>>, k: int, l: int)
    requires IsLabelling(m, comps) && 0 <= k < |comps| && 0 <= l < |comps|
    requires forall p :: Fg(m, p) ==> p in comps[k]
    ensures l == k
  {
    assert IsComponent(m, comps[l]);
    var p :| p in comps[l];
    assert p in comps[k];
  }

  /** A mask that is entirely foreground has a single region, whose box
      spans the whole image. */
  lemma FullMaskOneBox(m: seq<seq<int>>, boxes: seq<Box>, comps: seq<set<Point>>)
    requires Rectangular(m) && |m| > 0 && Width(m) > 0 && AllForeground(m)
    requires IsLabelling(m, comps) && Boxed(boxes, comps)
    ensures boxes == [Box(0, 0, Width(m), |m|)]
  {
    var k := LabelOf(m, comps, Pt(0, 0));
    FullComponent(m, comps[k]);
    OnlyComponent(m, comps, k, 0);
    OnlyComponent(m, comps, k, |comps| - 1);
    BoundingBoxUnique(boxes[0], Box(0, 0, Width(m), |m|), comps[0]);
    assert boxes == [boxes[0]];
  }
}
