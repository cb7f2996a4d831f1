/** The custom blob detector of the PalmTouch demo (`BlobDetectionUtils`): a recursive
    4-neighbour flood fill over cells above an intensity threshold, one expanded bounding
    box per region with a size filter and deduplication, and the copy of a box's cells
    into a fixed 27 x 15 buffer. */
module BlobDetection {
  import opened JavaInt
  import opened Coordinates
  import opened BoundingBoxes

  /** Cells must be strictly brighter than this to belong to a blob. */
  const THRESHOLD: int := 30
  /** Size of the buffer `getBlobContent` fills. */
  const BLOB_ROWS: int := 27
  const BLOB_COLS: int := 15

  /** A capacitive frame as `capImg.getMatrix()` returns it: rows of columns. */
  type Frame = seq<seq<int>>

  /** `matrix[0].length`, the column count the detector uses for every row. */
  function Cols(m: Frame): nat {
    if |m| == 0 then 0 else |m[0]|
  }

  /** A Java `int[][]` whose rows all have the length of row 0. */
  predicate JavaMatrix(m: Frame) {
    && |m| <= MAX_INT
    && Cols(m) <= MAX_INT
    && forall y :: 0 <= y < |m| ==> |m[y]| == Cols(m)
  }

  /** The flood-fill test of `blobDetection`: strictly inside row 0 and column 0 (the last row
      and column are allowed) and brighter than the threshold. */
  predicate Qualifies(m: Frame, c: BlobCoordinates) {
    && 0 < c.x1 < Cols(m)
    && 0 < c.y1 < |m|
    && c.x1 < |m[c.y1]|
    && m[c.y1][c.x1] > THRESHOLD
  }

  /** The four cells `blobDetection` visits next, in its order: right, left, y + 1, y - 1. */
  function Neighbours(c: BlobCoordinates): seq<BlobCoordinates> {
    [BlobCoordinates(c.x1 + 1, c.y1), BlobCoordinates(c.x1 - 1, c.y1),
     BlobCoordinates(c.x1, c.y1 + 1), BlobCoordinates(c.x1, c.y1 - 1)]
  }

  /** A walk through qualifying cells, each step to one of the four neighbours. */
  ghost predicate IsPath(m: Frame, p: seq<BlobCoordinates>) {
    && |p| > 0
    && (forall i :: 0 <= i < |p| ==> Qualifies(m, p[i]))
    && (forall i :: 0 <= i < |p| - 1 ==> p[i + 1] in Neighbours(p[i]))
  }

  ghost predicate Connected(m: Frame, a: BlobCoordinates, b: BlobCoordinates) {
    exists p :: IsPath(m, p) && p[0] == a && p[|p| - 1] == b
  }

  /** The 4-connected region of qualifying cells that contains `a` (empty when `a` does not qualify). */
  ghost function Component(m: Frame, a: BlobCoordinates): set<BlobCoordinates> {
    set x, y | 0 <= y < |m| && 0 <= x < Cols(m) && Connected(m, a, BlobCoordinates(x, y)) :: BlobCoordinates(x, y)
  }

  ghost function QualifyingCells(m: Frame): set<BlobCoordinates> {
    set x, y | 0 <= y < |m| && 0 <= x < Cols(m) && Qualifies(m, BlobCoordinates(x, y)) :: BlobCoordinates(x, y)
  }

  predicate Distinct<T(==)>(s: seq<T>) {
    forall i, j :: 0 <= i < j < |s| ==> s[i] != s[j]
  }

  ghost predicate AllQualify(m: Frame, s: seq<BlobCoordinates>) {
    forall i :: 0 <= i < |s| ==> Qualifies(m, s[i])
  }

  /** Every qualifying neighbour of `c` is already in `s`. */
  ghost predicate ClosedAt(m: Frame, s: seq<BlobCoordinates>, c: BlobCoordinates) {
    forall n :: n in Neighbours(c) && Qualifies(m, n) ==> n in s
  }

  /** The `found` list of `getBlobs`, shared by and appended to by every recursive call. */
  class CoordList {
    var items: seq<BlobCoordinates>

    constructor ()
      ensures items == []
    {
      items := [];
    }
  }

  // ---------------------------------------------------------------------------
  // Facts about cells, paths and regions

  lemma DistinctQualifyingBound(s: seq<BlobCoordinates>, q: set<BlobCoordinates>)
    requires Distinct(s)
    requires forall i :: 0 <= i < |s| ==> s[i] in q
    ensures |s| <= |q|
    decreases |s|
  {
    if |s| > 0 {
      var last := s[|s| - 1];
      forall i | 0 <= i < |s| - 1
        ensures s[i] in q - {last}
      {
      }
      DistinctQualifyingBound(s[..|s| - 1], q - {last});
    }
  }

  lemma QualifyingCellsHold(m: Frame, c: BlobCoordinates)
    requires Qualifies(m, c)
    ensures c in QualifyingCells(m)
  {
  }

  /** `found` never holds more cells than the frame has qualifying cells. */
  lemma FoundBound(m: Frame, s: seq<BlobCoordinates>)
    requires Distinct(s) && AllQualify(m, s)
    ensures |s| <= |QualifyingCells(m)|
  {
    forall i | 0 <= i < |s|
      ensures s[i] in QualifyingCells(m)
    {
      QualifyingCellsHold(m, s[i]);
    }
    DistinctQualifyingBound(s, QualifyingCells(m));
  }

  lemma ConnectedSelf(m: Frame, a: BlobCoordinates)
    requires Qualifies(m, a)
    ensures Connected(m, a, a)
  {
    assert IsPath(m, [a]);
  }

  /** A step from a qualifying cell to a neighbour extends every walk from that neighbour. */
  lemma ConnectedStep(m: Frame, a: BlobCoordinates, b: BlobCoordinates, d: BlobCoordinates)
    requires Qualifies(m, a) && b in Neighbours(a)
    requires Connected(m, b, d)
    ensures Connected(m, a, d)
  {
    var p :| IsPath(m, p) && p[0] == b && p[|p| - 1] == d;
    var q := [a] + p;
    assert forall i :: 0 < i < |q| ==> q[i] == p[i - 1];
    assert IsPath(m, q);
  }

  /** A walk that starts in a closed list of cells never leaves it. */
  lemma {:induction false} PathStaysInClosed(m: Frame, p: seq<BlobCoordinates>, s: seq<BlobCoordinates>)
    requires IsPath(m, p) && p[0] in s
    requires forall c :: c in s ==> ClosedAt(m, s, c)
    ensures p[|p| - 1] in s
  {
    if |p| > 1 {
      var init := p[..|p| - 1];
      assert IsPath(m, init);
      PathStaysInClosed(m, init, s);
      assert ClosedAt(m, s, p[|p| - 2]);
      assert p[|p| - 1] in Neighbours(p[|p| - 2]);
    }
  }

  /** Every cell of a region qualifies. */
  lemma ComponentQualifies(m: Frame, a: BlobCoordinates, d: BlobCoordinates)
    requires d in Component(m, a)
    ensures Qualifies(m, d) && Connected(m, a, d)
  {
    var p :| IsPath(m, p) && p[0] == a && p[|p| - 1] == d;
    assert Qualifies(m, p[|p| - 1]);
  }

  /** A list that holds `a`, reaches only cells connected to `a` and is closed under
      qualifying neighbours holds exactly the region of `a`. */
  lemma {:induction false} ClosedListIsComponent(m: Frame, a: BlobCoordinates, s: seq<BlobCoordinates>)
    requires a in s && AllQualify(m, s)
    requires forall c :: c in s ==> Connected(m, a, c) && ClosedAt(m, s, c)
    ensures forall d :: d in s <==> d in Component(m, a)
  {
    forall d | d in s
      ensures d in Component(m, a)
    {
      var i :| 0 <= i < |s| && s[i] == d;
      assert Qualifies(m, s[i]);
    }
    forall d | d in Component(m, a)
      ensures d in s
    {
      var p :| IsPath(m, p) && p[0] == a && p[|p| - 1] == d;
      PathStaysInClosed(m, p, s);
    }
  }

  // ---------------------------------------------------------------------------
  // blobDetection: the recursive flood fill

  /** Adds the unvisited qualifying cell `(x, y)` to `found` and recurses into its four
      neighbours. A call appends only qualifying cells not yet listed; the cells it appends
      are connected to `(x, y)` and have all their qualifying neighbours listed by the time it
      returns. The recursion ends because each call that recurses first lists one more of the
      frame's finitely many qualifying cells. */
  method BlobDetection(m: Frame, x: int, y: int, found: CoordList)
    requires x > 0 ==> |m| > 0
    requires JavaMatrix(m)
    requires Distinct(found.items) && AllQualify(m, found.items)
    modifies found
    ensures Distinct(found.items) && AllQualify(m, found.items)
    ensures old(found.items) <= found.items
    ensures Qualifies(m, BlobCoordinates(x, y)) ==> BlobCoordinates(x, y) in found.items
    ensures !Qualifies(m, BlobCoordinates(x, y)) || BlobCoordinates(x, y) in old(found.items) ==>
              found.items == old(found.items)
    ensures forall c :: c in found.items[|old(found.items)|..] ==>
              Connected(m, BlobCoordinates(x, y), c) && ClosedAt(m, found.items, c)
    decreases |QualifyingCells(m)| - |found.items|
  {
    FoundBound(m, found.items);
    var here := BlobCoordinates(x, y);
    if x > 0 && x < |m[0]| && y > 0 && y < |m| && m[y][x] > THRESHOLD && here !in found.items {
      ghost var s0 := found.items;
      found.items := found.items + [here];
      ghost var s1 := found.items;
      FoundBound(m, s1);
      BlobDetection(m, x + 1, y, found); // right
      ghost var s2 := found.items;
      BlobDetection(m, x - 1, y, found); // left
      ghost var s3 := found.items;
      BlobDetection(m, x, y + 1, found); // top
      ghost var s4 := found.items;
      BlobDetection(m, x, y - 1, found); // down
      ghost var s5 := found.items;
      NewCellsConnectedAndClosed(m, here, s0, s1, s2, s3, s4, s5);
      InPrefix(here, s1, s5);
    }
  }

  /** The bookkeeping behind the last postcondition of `BlobDetection`: the cell itself and the
      cells each of the four recursive calls appended. */
  lemma NewCellsConnectedAndClosed(m: Frame, here: BlobCoordinates,
                                   s0: seq<BlobCoordinates>, s1: seq<BlobCoordinates>, s2: seq<BlobCoordinates>,
                                   s3: seq<BlobCoordinates>, s4: seq<BlobCoordinates>, s5: seq<BlobCoordinates>)
    requires Qualifies(m, here) && s1 == s0 + [here]
    requires s1 <= s2 <= s3 <= s4 <= s5
    requires var ns := Neighbours(here);
             && (Qualifies(m, ns[0]) ==> ns[0] in s2)
             && (Qualifies(m, ns[1]) ==> ns[1] in s3)
             && (Qualifies(m, ns[2]) ==> ns[2] in s4)
             && (Qualifies(m, ns[3]) ==> ns[3] in s5)
    requires forall c :: c in s2[|s1|..] ==> Connected(m, Neighbours(here)[0], c) && ClosedAt(m, s2, c)
    requires forall c :: c in s3[|s2|..] ==> Connected(m, Neighbours(here)[1], c) && ClosedAt(m, s3, c)
    requires forall c :: c in s4[|s3|..] ==> Connected(m, Neighbours(here)[2], c) && ClosedAt(m, s4, c)
    requires forall c :: c in s5[|s4|..] ==> Connected(m, Neighbours(here)[3], c) && ClosedAt(m, s5, c)
    ensures forall c :: c in s5[|s0|..] ==> Connected(m, here, c) && ClosedAt(m, s5, c)
  {
    var ns := Neighbours(here);
    forall c | c in s5[|s0|..]
      ensures Connected(m, here, c) && ClosedAt(m, s5, c)
    {
      var k :| |s0| <= k < |s5| && s5[k] == c;
      if k == |s0| {
        assert c == here;
        ConnectedSelf(m, here);
        assert ClosedAt(m, s5, here) by {
          forall n | n in ns && Qualifies(m, n)
            ensures n in s5
          {
            if n == ns[0] { assert n in s2; InPrefix(n, s2, s5); }
            else if n == ns[1] { assert n in s3; InPrefix(n, s3, s5); }
            else if n == ns[2] { assert n in s4; InPrefix(n, s4, s5); }
          }
        }
      } else if k < |s2| {
        assert c in s2[|s1|..] by { assert s2[k] == c; }
        ConnectedStep(m, here, ns[0], c);
        ClosedGrows(m, s2, s5, c);
      } else if k < |s3| {
        assert c in s3[|s2|..] by { assert s3[k] == c; }
        ConnectedStep(m, here, ns[1], c);
        ClosedGrows(m, s3, s5, c);
      } else if k < |s4| {
        assert c in s4[|s3|..] by { assert s4[k] == c; }
        ConnectedStep(m, here, ns[2], c);
        ClosedGrows(m, s4, s5, c);
      } else {
        assert c in s5[|s4|..];
        ConnectedStep(m, here, ns[3], c);
      }
    }
  }

  lemma InPrefix<T>(x: T, s: seq<T>, t: seq<T>)
    requires x in s && s <= t
    ensures x in t
  {
    var i :| 0 <= i < |s| && s[i] == x;
    assert t[i] == x;
  }

  lemma ClosedGrows(m: Frame, s: seq<BlobCoordinates>, t: seq<BlobCoordinates>, c: BlobCoordinates)
    requires ClosedAt(m, s, c) && s <= t
    ensures ClosedAt(m, t, c)
  {
    forall n | n in Neighbours(c) && Qualifies(m, n)
      ensures n in t
    {
      InPrefix(n, s, t);
    }
  }

  // ---------------------------------------------------------------------------
  // getBlobs: one expanded, size-filtered, deduplicated box per region

  /** `b` is the bounding box of the cells `s`, expanded by one cell on every side:
      every cell lies strictly inside `b` and each of the four sides touches a cell. */
  ghost predicate IsBoxOf(s: set<BlobCoordinates>, b: BlobBoundingBox) {
    && (forall c :: c in s ==> b.x1 < c.x1 < b.x2 && b.y1 < c.y1 < b.y2)
    && (exists c :: c in s && c.x1 == b.x1 + 1)
    && (exists c :: c in s && c.x1 == b.x2 - 1)
    && (exists c :: c in s && c.y1 == b.y1 + 1)
    && (exists c :: c in s && c.y1 == b.y2 - 1)
  }

  /** The size filter of `getBlobs` on an expanded box: the product of the unexpanded
      extents `(x_max - x_min) * (y_max - y_min)`, in `int` arithmetic, exceeds 1. */
  predicate Kept(b: BlobBoundingBox) {
    ExtentProduct(b.x1 + 1, b.x2 - 1, b.y1 + 1, b.y2 - 1) > 1
  }

  /** `(x_max - x_min) * (y_max - y_min)` as a Java `int` expression. */
  function ExtentProduct(xMin: int, xMax: int, yMin: int, yMax: int): int {
    Wrap32((xMax - xMin) * (yMax - yMin))
  }

  predicate InFrame(m: Frame, b: BlobBoundingBox) {
    0 <= b.x1 < b.x2 <= Cols(m) && 0 <= b.y1 < b.y2 <= |m|
  }

  lemma KeptOfExtent(xMin: int, xMax: int, yMin: int, yMax: int)
    ensures Kept(BlobBoundingBox(xMin - 1, yMin - 1, xMax + 1, yMax + 1)) == (ExtentProduct(xMin, xMax, yMin, yMax) > 1)
  {
    var b := BlobBoundingBox(xMin - 1, yMin - 1, xMax + 1, yMax + 1);
    assert b.x1 + 1 == xMin && b.x2 - 1 == xMax && b.y1 + 1 == yMin && b.y2 - 1 == yMax;
  }

  /** A set of cells has at most one expanded bounding box. */
  lemma BoxOfUnique(s: set<BlobCoordinates>, a: BlobBoundingBox, b: BlobBoundingBox)
    requires IsBoxOf(s, a) && IsBoxOf(s, b)
    ensures a == b
  {
    var c1 :| c1 in s && c1.x1 == a.x1 + 1;
    var c2 :| c2 in s && c2.x1 == a.x2 - 1;
    var c3 :| c3 in s && c3.y1 == a.y1 + 1;
    var c4 :| c4 in s && c4.y1 == a.y2 - 1;
    var d1 :| d1 in s && d1.x1 == b.x1 + 1;
    var d2 :| d2 in s && d2.x1 == b.x2 - 1;
    var d3 :| d3 in s && d3.y1 == b.y1 + 1;
    var d4 :| d4 in s && d4.y1 == b.y2 - 1;
  }

  /** A kept box spans at least two columns and two rows of cells and is not the 2 x 2 case:
      regions on a single row or column never survive the filter. */
  lemma KeptExtents(b: BlobBoundingBox)
    requires b.x2 - b.x1 >= 2 && b.y2 - b.y1 >= 2
    ensures Kept(b) ==> b.x2 - b.x1 >= 3 && b.y2 - b.y1 >= 3 && (b.x2 - b.x1 > 3 || b.y2 - b.y1 > 3)
  {
    var dx := b.x2 - 1 - (b.x1 + 1);
    var dy := b.y2 - 1 - (b.y1 + 1);
    if dx == 0 || dy == 0 {
      assert dx * dy == 0;
    } else if dx == 1 && dy == 1 {
      assert dx * dy == 1;
    }
  }

  /** The for-each over `found` in `getBlobs`: the smallest and largest column and row,
      starting from `Integer.MAX_VALUE` and `Integer.MIN_VALUE`. */
  method RegionExtent(found: seq<BlobCoordinates>) returns (xMin: int, xMax: int, yMin: int, yMax: int)
    requires |found| > 0
    requires forall i :: 0 <= i < |found| ==> IsInt32(found[i].x1) && IsInt32(found[i].y1)
    ensures forall i :: 0 <= i < |found| ==> xMin <= found[i].x1 <= xMax && yMin <= found[i].y1 <= yMax
    ensures exists i :: 0 <= i < |found| && found[i].x1 == xMin
    ensures exists i :: 0 <= i < |found| && found[i].x1 == xMax
    ensures exists i :: 0 <= i < |found| && found[i].y1 == yMin
    ensures exists i :: 0 <= i < |found| && found[i].y1 == yMax
  {
    xMin, xMax := MAX_INT, MIN_INT;
    yMin, yMax := MAX_INT, MIN_INT;
    ghost var iXMin, iXMax, iYMin, iYMax := 0, 0, 0, 0;
    for k := 0 to |found|
      invariant forall i :: 0 <= i < k ==> xMin <= found[i].x1 <= xMax && yMin <= found[i].y1 <= yMax
      invariant k == 0 ==> xMin == MAX_INT && xMax == MIN_INT && yMin == MAX_INT && yMax == MIN_INT
      invariant k > 0 ==> && 0 <= iXMin < k && found[iXMin].x1 == xMin
                          && 0 <= iXMax < k && found[iXMax].x1 == xMax
                          && 0 <= iYMin < k && found[iYMin].y1 == yMin
                          && 0 <= iYMax < k && found[iYMax].y1 == yMax
    {
      var b := found[k];
      // mins
      if b.x1 < xMin {
        xMin := b.x1;
        iXMin := k;
      }
      if b.y1 < yMin {
        yMin := b.y1;
        iYMin := k;
      }
      // maxs
      if b.x1 > xMax {
        xMax := b.x1;
        iXMax := k;
      }
      if b.y1 > yMax {
        yMax := b.y1;
        iYMax := k;
      }
      if k == 0 {
        iXMin, iXMax, iYMin, iYMax := 0, 0, 0, 0;
      }
    }
  }

  /** The extent of a list holding exactly the region of `a`, expanded by one, is that
      region's bounding box, and it lies within `[0, cols] x [0, rows]`. */
  lemma ExtentIsBox(m: Frame, a: BlobCoordinates, found: seq<BlobCoordinates>,
                    xMin: int, xMax: int, yMin: int, yMax: int)
    requires AllQualify(m, found)
    requires forall d :: d in found <==> d in Component(m, a)
    requires forall i :: 0 <= i < |found| ==> xMin <= found[i].x1 <= xMax && yMin <= found[i].y1 <= yMax
    requires exists i :: 0 <= i < |found| && found[i].x1 == xMin
    requires exists i :: 0 <= i < |found| && found[i].x1 == xMax
    requires exists i :: 0 <= i < |found| && found[i].y1 == yMin
    requires exists i :: 0 <= i < |found| && found[i].y1 == yMax
    ensures IsBoxOf(Component(m, a), BlobBoundingBox(xMin - 1, yMin - 1, xMax + 1, yMax + 1))
    ensures InFrame(m, BlobBoundingBox(xMin - 1, yMin - 1, xMax + 1, yMax + 1))
  {
    var s := Component(m, a);
    var b := BlobBoundingBox(xMin - 1, yMin - 1, xMax + 1, yMax + 1);
    forall c | c in s
      ensures b.x1 < c.x1 < b.x2 && b.y1 < c.y1 < b.y2
    {
      assert c in found;
      var i :| 0 <= i < |found| && found[i] == c;
    }
    var i1 :| 0 <= i1 < |found| && found[i1].x1 == xMin;
    var i2 :| 0 <= i2 < |found| && found[i2].x1 == xMax;
    var i3 :| 0 <= i3 < |found| && found[i3].y1 == yMin;
    var i4 :| 0 <= i4 < |found| && found[i4].y1 == yMax;
    assert found[i1] in s && found[i2] in s && found[i3] in s && found[i4] in s;
    assert Qualifies(m, found[i1]) && Qualifies(m, found[i2]) && Qualifies(m, found[i3]) && Qualifies(m, found[i4]);
  }

  /** Cell `c` comes before cell `(x, y)` in the row-major scan of `getBlobs`. */
  predicate ScanBefore(c: BlobCoordinates, x: int, y: int) {
    c.y1 < y || (c.y1 == y && c.x1 < x)
  }

  /** Every listed box is kept, lies in the frame and is the box of some region; no box twice. */
  ghost predicate SoundBoxes(m: Frame, blobs: seq<BlobBoundingBox>) {
    && Distinct(blobs)
    && (forall b :: b in blobs ==> Kept(b) && InFrame(m, b))
    && (forall b :: b in blobs ==> exists c :: Qualifies(m, c) && IsBoxOf(Component(m, c), b))
  }

  /** The kept box of the region of every qualifying cell scanned before `(x, y)` is listed. */
  ghost predicate CoversBefore(m: Frame, blobs: seq<BlobBoundingBox>, x: int, y: int) {
    forall c, b :: Qualifies(m, c) && ScanBefore(c, x, y) && IsBoxOf(Component(m, c), b) && Kept(b) ==> b in blobs
  }

  lemma SoundAppend(m: Frame, blobs: seq<BlobBoundingBox>, box: BlobBoundingBox, c: BlobCoordinates)
    requires SoundBoxes(m, blobs) && box !in blobs
    requires Kept(box) && InFrame(m, box) && Qualifies(m, c) && IsBoxOf(Component(m, c), box)
    ensures SoundBoxes(m, blobs + [box])
  {
  }

  /** Visiting cell `(x, y)` keeps the scan invariant: either the cell does not qualify,
      or the kept box of its region is now listed. */
  lemma CoverStep(m: Frame, blobs: seq<BlobBoundingBox>, blobs': seq<BlobBoundingBox>,
                  x: int, y: int, box: BlobBoundingBox)
    requires CoversBefore(m, blobs, x, y)
    requires forall b :: b in blobs ==> b in blobs'
    requires Qualifies(m, BlobCoordinates(x, y)) ==>
               IsBoxOf(Component(m, BlobCoordinates(x, y)), box) && (Kept(box) ==> box in blobs')
    ensures CoversBefore(m, blobs', x + 1, y)
  {
    forall c, b | Qualifies(m, c) && ScanBefore(c, x + 1, y) && IsBoxOf(Component(m, c), b) && Kept(b)
      ensures b in blobs'
    {
      if c == BlobCoordinates(x, y) {
        BoxOfUnique(Component(m, c), b, box);
      }
    }
  }

  /** Finishing a row: every qualifying cell of row `y` lies left of column `cols`. */
  lemma RowDone(m: Frame, blobs: seq<BlobBoundingBox>, y: int)
    requires CoversBefore(m, blobs, Cols(m), y)
    ensures CoversBefore(m, blobs, 0, y + 1)
  {
  }

  /** `getBlobs`: for every cell in scan order, flood-fill from it into a fresh `found` list;
      a non-empty region gives the box `(x_min - 1, y_min - 1, x_max + 1, y_max + 1)`, which is
      appended unless an equal box is already listed or the size filter drops it.
      The result lists, without repetition, exactly the kept boxes of the frame's regions,
      all within `[0, cols] x [0, rows]`. */
  method GetBlobs(m: Frame) returns (blobs: seq<BlobBoundingBox>)
    requires JavaMatrix(m)
    ensures Distinct(blobs)
    ensures forall b :: b in blobs ==> Kept(b) && InFrame(m, b)
    ensures forall b :: b in blobs ==> exists c :: Qualifies(m, c) && IsBoxOf(Component(m, c), b)
    ensures forall c, b :: Qualifies(m, c) && IsBoxOf(Component(m, c), b) && Kept(b) ==> b in blobs
    ensures (forall c :: !Qualifies(m, c)) ==> blobs == []
  {
    blobs := [];
    for y := 0 to |m|
      invariant SoundBoxes(m, blobs)
      invariant CoversBefore(m, blobs, 0, y)
    {
      for x := 0 to |m[0]|
        invariant SoundBoxes(m, blobs)
        invariant CoversBefore(m, blobs, x, y)
      {
        ghost var before := blobs;
        // blob detection
        var found := new CoordList();
        BlobDetection(m, x, y, found);
        var here := BlobCoordinates(x, y);
        if |found.items| > 0 {
          ClosedListIsComponent(m, here, found.items);
          var xMin, xMax, yMin, yMax := RegionExtent(found.items);
          var bbb := BlobBoundingBox(xMin - 1, yMin - 1, xMax + 1, yMax + 1);
          ExtentIsBox(m, here, found.items, xMin, xMax, yMin, yMax);
          KeptOfExtent(xMin, xMax, yMin, yMax);
          if bbb !in blobs && ExtentProduct(xMin, xMax, yMin, yMax) > 1 {
            SoundAppend(m, blobs, bbb, here);
            blobs := blobs + [bbb];
          }
          CoverStep(m, before, blobs, x, y, bbb);
        } else {
          CoverStep(m, before, blobs, x, y, BlobBoundingBox(0, 0, 0, 0));
        }
      }
      RowDone(m, blobs, y);
    }
    if blobs != [] {
      assert blobs[0] in blobs;
    }
  }

  // ---------------------------------------------------------------------------
  // getBlobContent: copy a box into a zero-filled 27 x 15 buffer

  /** The rows `[y1, y2)` and columns `[x1, x2)` of `b` can be read from the frame and
      written at offset `(y - y1, x - x1)` of a 27 x 15 buffer (trivially so when the box
      is empty and the copy loops do not run). */
  predicate ContentReadable(m: Frame, b: BlobBoundingBox) {
    || b.y1 >= b.y2
    || b.x1 >= b.x2
    || (&& 0 <= b.y1 && b.y2 <= |m| && b.y2 - b.y1 <= BLOB_ROWS
        && 0 <= b.x1 && b.x2 <= Cols(m) && b.x2 - b.x1 <= BLOB_COLS)
  }

  /** Cell `(i, j)` of the buffer: the frame cell `(y1 + i, x1 + j)` inside the box, 0 elsewhere. */
  function ContentAt(m: Frame, b: BlobBoundingBox, i: int, j: int): int
    requires JavaMatrix(m) && ContentReadable(m, b)
    requires 0 <= i < BLOB_ROWS && 0 <= j < BLOB_COLS
  {
    if i < b.y2 - b.y1 && j < b.x2 - b.x1 then m[b.y1 + i][b.x1 + j] else 0
  }

  /** `getBlobContent`: a fresh 27 x 15 buffer holding the box's cells top-left aligned
      and 0 everywhere else. */
  method GetBlobContent(b: BlobBoundingBox, m: Frame) returns (blob: array2<int>)
    requires JavaMatrix(m) && ContentReadable(m, b)
    ensures blob.Length0 == BLOB_ROWS && blob.Length1 == BLOB_COLS
    ensures forall i, j :: 0 <= i < BLOB_ROWS && 0 <= j < BLOB_COLS ==> blob[i, j] == ContentAt(m, b, i, j)
  {
    blob := new int[BLOB_ROWS, BLOB_COLS]((i, j) => 0);
    var y := b.y1;
    while y < b.y2
      invariant b.y1 <= y && (b.y1 < b.y2 ==> y <= b.y2)
      invariant forall i, j :: 0 <= i < BLOB_ROWS && 0 <= j < BLOB_COLS ==>
                  blob[i, j] == if i < y - b.y1 then ContentAt(m, b, i, j) else 0
    {
      var x := b.x1;
      while x < b.x2
        invariant b.x1 <= x && (b.x1 < b.x2 ==> x <= b.x2)
        invariant forall i, j :: 0 <= i < BLOB_ROWS && 0 <= j < BLOB_COLS ==>
                    blob[i, j] == if i < y - b.y1 || (i == y - b.y1 && j < x - b.x1) then ContentAt(m, b, i, j) else 0
      {
        blob[y - b.y1, x - b.x1] := m[y][x];
        x := x + 1;
      }
      y := y + 1;
    }
  }

  /** Every box the detector returns for a frame of at most 27 x 15 cells can be copied
      without an out-of-range access. */
  lemma DetectedBoxReadable(m: Frame, b: BlobBoundingBox)
    requires |m| <= BLOB_ROWS && Cols(m) <= BLOB_COLS
    requires InFrame(m, b)
    ensures ContentReadable(m, b)
  {
  }
}
