/** The state of a Renderer (include/Renderer.h) as a value, and what each of its
    operations does to that state: the colour buffer and the depth buffer are
    row-major sequences of width * height cells, cell y * width + x holding
    pixel (x, y). The Renderer class in renderer.dfy is proved against these
    functions; the lemmas here state what the source promises about them. */
module Frames {
  import opened Colors
  import opened Triangles

  /** The depth every cell holds after construction and after clearZ (1e9f,
      which is exactly representable as a float). */
  const FarDepth: real := 1000000000.0

  datatype Frame = Frame(color: seq<Color>, depth: seq<real>)

  /** Both buffers have one cell per pixel of a w by h screen. */
  predicate Fits(f: Frame, w: int, h: int) {
    0 < w && 0 < h && |f.color| == w * h && |f.depth| == w * h
  }

  // ---------------------------------------------------------------------------
  // Row-major indexing

  /** Pixel (x, y) of the screen is cell y * w + x, and that cell maps back to
      column x and row y. */
  lemma CellOfPixel(w: int, h: int, x: int, y: int)
    requires 0 <= x < w && 0 <= y < h
    ensures 0 <= y * w + x < w * h
    ensures (y * w + x) / w == y && (y * w + x) % w == x
  {
    assert y * w <= (h - 1) * w;
    DivModUnique(y * w + x, w, y, x);
  }

  /** Every cell is the pixel in column i % w of row i / w. */
  lemma PixelOfCell(w: int, h: int, i: int)
    requires 0 < w && 0 <= i < w * h
    ensures 0 <= i % w < w && 0 <= i / w < h && i == (i / w) * w + i % w
  {
    if i / w >= h {
      MulAtLeast(i / w, h, w);
      assert false;
    }
  }

  lemma DivModUnique(n: int, w: int, q: int, r: int)
    requires 0 < w && n == q * w + r && 0 <= r < w
    ensures n / w == q && n % w == r
  {
    var k := q - n / w;
    assert k * w == n % w - r;
    if k > 0 {
      MulAtLeast(k, 1, w);
      assert false;
    } else if k < 0 {
      MulAtLeast(-k, 1, w);
      assert false;
    }
  }

  /** Cell i comes before pixel (x, y) in a row-by-row scan of a w-wide screen. */
  predicate ScannedBefore(w: int, i: int, x: int, y: int)
    requires 0 < w
  {
    i / w < y || (i / w == y && i % w < x)
  }

  /** Part way through a row-by-row scan of a w-wide screen that is at pixel
      (x, y): the cells already scanned hold their target value, the others
      their original one. */
  ghost predicate ScanState<T>(w: int, cur: seq<T>, target: seq<T>, orig: seq<T>, x: int, y: int)
    requires 0 < w
  {
    |cur| == |target| == |orig| &&
    forall i :: 0 <= i < |cur| ==> cur[i] == if ScannedBefore(w, i, x, y) then target[i] else orig[i]
  }

  /** Writing the target value of pixel (x, y) moves the scan one pixel on. */
  lemma ScanWrite<T>(w: int, h: int, cur: seq<T>, target: seq<T>, orig: seq<T>, x: int, y: int, v: T)
    requires 0 <= x < w && 0 <= y < h && |cur| == w * h && 0 <= y * w + x < w * h
    requires ScanState(w, cur, target, orig, x, y)
    requires v == target[y * w + x]
    ensures ScanState(w, cur[y * w + x := v], target, orig, x + 1, y)
  {
    CellOfPixel(w, h, x, y);
    var idx := y * w + x;
    forall i | 0 <= i < w * h
      ensures cur[idx := v][i] == if ScannedBefore(w, i, x + 1, y) then target[i] else orig[i]
    {
      if i != idx {
        ScanOrderAway(w, i, x, y);
      }
    }
  }

  /** Only the cell of pixel (x, y) is scanned before (x + 1, y) and not before
      (x, y). */
  lemma ScanOrderAway(w: int, i: int, x: int, y: int)
    requires 0 <= x < w && 0 <= i && i != y * w + x
    ensures ScannedBefore(w, i, x + 1, y) == ScannedBefore(w, i, x, y)
  {
    if i / w == y && i % w == x {
      assert false;
    }
  }

  /** The cell of the pixel the scan is at still holds its original value. */
  lemma ScanAt<T>(w: int, h: int, cur: seq<T>, target: seq<T>, orig: seq<T>, x: int, y: int)
    requires 0 <= x < w && 0 <= y < h && |cur| == w * h
    requires ScanState(w, cur, target, orig, x, y)
    ensures 0 <= y * w + x < w * h && cur[y * w + x] == orig[y * w + x]
  {
    CellOfPixel(w, h, x, y);
  }

  /** Passing over pixel (x, y) when its target is its original value. */
  lemma ScanKeep<T>(w: int, h: int, cur: seq<T>, target: seq<T>, orig: seq<T>, x: int, y: int)
    requires 0 <= x < w && 0 <= y < h && |cur| == w * h
    requires ScanState(w, cur, target, orig, x, y)
    requires 0 <= y * w + x < w * h && target[y * w + x] == orig[y * w + x]
    ensures ScanState(w, cur, target, orig, x + 1, y)
  {
    ScanWrite(w, h, cur, target, orig, x, y, target[y * w + x]);
    CellOfPixel(w, h, x, y);
    assert cur[y * w + x := target[y * w + x]] == cur;
  }

  /** ScanState for both buffers. */
  ghost predicate ScanFrame(w: int, cur: Frame, target: Frame, orig: Frame, x: int, y: int)
    requires 0 < w
  {
    ScanState(w, cur.color, target.color, orig.color, x, y) &&
    ScanState(w, cur.depth, target.depth, orig.depth, x, y)
  }

  /** Every cell of a w by h screen lies in a column and a row of the screen. */
  lemma AllCells(w: int, h: int)
    requires 0 < w
    ensures forall i :: 0 <= i < w * h ==> 0 <= i % w < w && 0 <= i / w < h
  {
    forall i | 0 <= i < w * h
      ensures 0 <= i % w < w && 0 <= i / w < h
    {
      PixelOfCell(w, h, i);
    }
  }

  /** Skipping over cells whose target is their original value moves the scan
      on without writing. */
  lemma ScanSkip<T>(w: int, cur: seq<T>, target: seq<T>, orig: seq<T>, x: int, y: int, x': int, y': int)
    requires 0 < w
    requires ScanState(w, cur, target, orig, x, y)
    requires forall i :: 0 <= i < |cur| && ScannedBefore(w, i, x, y) ==> ScannedBefore(w, i, x', y')
    requires forall i :: 0 <= i < |cur| && ScannedBefore(w, i, x', y') && !ScannedBefore(w, i, x, y) ==>
      target[i] == orig[i]
    ensures ScanState(w, cur, target, orig, x', y')
  {
  }

  /** Once every row is scanned, every cell holds its target value. */
  lemma ScanComplete<T>(w: int, h: int, cur: seq<T>, target: seq<T>, orig: seq<T>)
    requires 0 < w && |cur| == w * h
    requires ScanState(w, cur, target, orig, 0, h)
    ensures cur == target
  {
    forall i | 0 <= i < w * h
      ensures cur[i] == target[i]
    {
      PixelOfCell(w, h, i);
    }
  }

  lemma MulAtLeast(a: int, b: int, w: int)
    requires 0 < w && b <= a
    ensures b * w <= a * w
  {
    assert a * w == b * w + (a - b) * w;
  }

  // ---------------------------------------------------------------------------
  // The operations on the state

  /** A freshly constructed renderer: opaque black everywhere, every depth far. */
  function Initial(w: int, h: int): (f: Frame)
    requires 0 < w && 0 < h
    ensures Fits(f, w, h)
    ensures forall i :: 0 <= i < w * h ==> f.color[i] == OpaqueBlack && f.depth[i] == FarDepth
  {
    Frame(seq(w * h, _ => OpaqueBlack), seq(w * h, _ => FarDepth))
  }

  /** clear: every colour cell becomes c, the depths are kept. */
  function Cleared(f: Frame, c: Color): (r: Frame)
    ensures |r.color| == |f.color| && r.depth == f.depth
    ensures forall i :: 0 <= i < |r.color| ==> r.color[i] == c
  {
    Frame(seq(|f.color|, _ => c), f.depth)
  }

  /** clearZ: every depth cell becomes FarDepth, the colours are kept. */
  function ClearedZ(f: Frame): (r: Frame)
    ensures r.color == f.color && |r.depth| == |f.depth|
    ensures forall i :: 0 <= i < |r.depth| ==> r.depth[i] == FarDepth
  {
    Frame(f.color, seq(|f.depth|, _ => FarDepth))
  }

  /** The depth-tested write both setPixel and drawTriangle perform: cell i takes
      depth z and colour c only when z is strictly closer than what it holds. */
  function DepthWrite(f: Frame, i: int, z: real, c: Color): (r: Frame)
    requires 0 <= i < |f.color| && 0 <= i < |f.depth|
    ensures |r.color| == |f.color| && |r.depth| == |f.depth|
    ensures forall j :: 0 <= j < |f.color| && j != i ==> r.color[j] == f.color[j]
    ensures forall j :: 0 <= j < |f.depth| && j != i ==> r.depth[j] == f.depth[j]
    ensures r.depth[i] <= f.depth[i] && r.depth[i] <= z
  {
    if z < f.depth[i] then Frame(f.color[i := c], f.depth[i := z]) else f
  }

  /** setPixel: off-screen coordinates are ignored; otherwise a depth-tested
      write of packColor(r, g, b, 1) to cell y * w + x. */
  function SetPixelSpec(f: Frame, w: int, h: int, x: int, y: int, z: real,
                        r: Channel, g: Channel, b: Channel): (res: Frame)
    requires Fits(f, w, h)
    ensures Fits(res, w, h)
  {
    if x < 0 || x >= w || y < 0 || y >= h then
      f
    else
      CellOfPixel(w, h, x, y);
      DepthWrite(f, y * w + x, z, PackColor(r, g, b, 1.0))
  }

  /** drawTriangle at cell i: a covered pixel whose interpolated depth is strictly
      closer than the stored one. */
  predicate Hit(f: Frame, w: int, h: int, t: Triangle, i: int)
    requires Fits(f, w, h) && 0 <= i < w * h
  {
    Covers(t, w, h, i % w, i / w) && Depth(t, i % w, i / w) < f.depth[i]
  }

  /** The work of drawTriangle at one pixel (x, y) of its box: a depth-tested
      write of the interpolated depth and colour col if the triangle covers it. */
  function ShadeCell(f: Frame, w: int, h: int, t: Triangle, col: Color, x: int, y: int): (r: Frame)
    requires Fits(f, w, h) && 0 <= x < w && 0 <= y < h
    ensures Fits(r, w, h)
  {
    CellOfPixel(w, h, x, y);
    if Covers(t, w, h, x, y) then DepthWrite(f, y * w + x, Depth(t, x, y), col) else f
  }

  /** drawTriangle: every hit cell takes colour col (the packed, brightness-scaled
      colour) and the interpolated depth; every other cell is kept. */
  function DrawTriangleSpec(f: Frame, w: int, h: int, t: Triangle, col: Color): (r: Frame)
    requires Fits(f, w, h)
    ensures Fits(r, w, h)
  {
    Frame(seq(w * h, i requires 0 <= i < w * h => if Hit(f, w, h, t, i) then col else f.color[i]),
          seq(w * h, i requires 0 <= i < w * h => if Hit(f, w, h, t, i) then Depth(t, i % w, i / w) else f.depth[i]))
  }

  // ---------------------------------------------------------------------------
  // setPixel

  /** Off-screen coordinates change neither buffer. */
  lemma SetPixelOffScreen(f: Frame, w: int, h: int, x: int, y: int, z: real,
                          r: Channel, g: Channel, b: Channel)
    requires Fits(f, w, h)
    requires x < 0 || x >= w || y < 0 || y >= h
    ensures SetPixelSpec(f, w, h, x, y, z, r, g, b) == f
  {
  }

  /** On screen only cell y * w + x can change, and it changes exactly when z is
      strictly closer, to depth z and colour packColor(r, g, b, 1). */
  lemma SetPixelOnScreen(f: Frame, w: int, h: int, x: int, y: int, z: real,
                         r: Channel, g: Channel, b: Channel)
    requires Fits(f, w, h)
    requires 0 <= x < w && 0 <= y < h
    ensures 0 <= y * w + x < w * h
    ensures forall j :: 0 <= j < w * h && j != y * w + x ==>
      SetPixelSpec(f, w, h, x, y, z, r, g, b).color[j] == f.color[j] &&
      SetPixelSpec(f, w, h, x, y, z, r, g, b).depth[j] == f.depth[j]
    ensures z < f.depth[y * w + x] ==>
      SetPixelSpec(f, w, h, x, y, z, r, g, b).depth[y * w + x] == z &&
      SetPixelSpec(f, w, h, x, y, z, r, g, b).color[y * w + x] == PackColor(r, g, b, 1.0)
    ensures f.depth[y * w + x] <= z ==> SetPixelSpec(f, w, h, x, y, z, r, g, b) == f
  {
    CellOfPixel(w, h, x, y);
  }

  // ---------------------------------------------------------------------------
  // Depth ordering of writes to one cell

  /** Two writes with different depths, or to different cells, commute. */
  lemma DepthWritesCommute(f: Frame, i: int, z1: real, c1: Color, j: int, z2: real, c2: Color)
    requires 0 <= i < |f.color| && 0 <= i < |f.depth|
    requires 0 <= j < |f.color| && 0 <= j < |f.depth|
    requires i != j || z1 != z2
    ensures DepthWrite(DepthWrite(f, i, z1, c1), j, z2, c2) == DepthWrite(DepthWrite(f, j, z2, c2), i, z1, c1)
  {
    if i != j {
      if z1 < f.depth[i] && z2 < f.depth[j] {
        assert f.color[i := c1][j := c2] == f.color[j := c2][i := c1];
        assert f.depth[i := z1][j := z2] == f.depth[j := z2][i := z1];
      }
    }
  }

  /** Whatever the order of two writes to one cell, the closer one's colour and
      depth survive (when it is closer than what the cell held). */
  lemma CloserWriteWins(f: Frame, i: int, z1: real, c1: Color, z2: real, c2: Color)
    requires 0 <= i < |f.color| && 0 <= i < |f.depth|
    requires z1 < z2 && z1 < f.depth[i]
    ensures DepthWrite(DepthWrite(f, i, z1, c1), i, z2, c2).color[i] == c1
    ensures DepthWrite(DepthWrite(f, i, z2, c2), i, z1, c1).color[i] == c1
    ensures DepthWrite(DepthWrite(f, i, z1, c1), i, z2, c2).depth[i] == z1
    ensures DepthWrite(DepthWrite(f, i, z2, c2), i, z1, c1).depth[i] == z1
  {
  }

  /** On equal depths the strict test keeps the earlier write. */
  lemma EqualDepthKeepsEarlier(f: Frame, i: int, z: real, c1: Color, c2: Color)
    requires 0 <= i < |f.color| && 0 <= i < |f.depth|
    ensures DepthWrite(DepthWrite(f, i, z, c1), i, z, c2) == DepthWrite(f, i, z, c1)
  {
  }

  // ---------------------------------------------------------------------------
  // drawTriangle

  /** A zero-area triangle changes nothing. */
  lemma DegenerateTriangleChangesNothing(f: Frame, w: int, h: int, t: Triangle, col: Color)
    requires Fits(f, w, h)
    requires Denom(t) == 0
    ensures DrawTriangleSpec(f, w, h, t, col) == f
  {
    DegenerateIffZeroArea(t);
    SkippedTriangleChangesNothing(f, w, h, t, col);
  }

  /** The early return: a triangle the 1e-6 test skips changes nothing. */
  lemma SkippedTriangleChangesNothing(f: Frame, w: int, h: int, t: Triangle, col: Color)
    requires Fits(f, w, h)
    requires Degenerate(t)
    ensures DrawTriangleSpec(f, w, h, t, col) == f
  {
    var r := DrawTriangleSpec(f, w, h, t, col);
    assert r.color == f.color;
    assert r.depth == f.depth;
  }

  /** Every pixel outside the clipped bounding box keeps its colour and depth. */
  lemma OutsideBoxUnchanged(f: Frame, w: int, h: int, t: Triangle, col: Color, x: int, y: int)
    requires Fits(f, w, h)
    requires 0 <= x < w && 0 <= y < h && !InBox(t, w, h, x, y)
    ensures 0 <= y * w + x < w * h
    ensures DrawTriangleSpec(f, w, h, t, col).color[y * w + x] == f.color[y * w + x]
    ensures DrawTriangleSpec(f, w, h, t, col).depth[y * w + x] == f.depth[y * w + x]
  {
    CellOfPixel(w, h, x, y);
  }

  /** No stored depth increases. */
  lemma DrawDepthNeverIncreases(f: Frame, w: int, h: int, t: Triangle, col: Color)
    requires Fits(f, w, h)
    ensures forall i :: 0 <= i < w * h ==> DrawTriangleSpec(f, w, h, t, col).depth[i] <= f.depth[i]
  {
  }

  /** Pixel (x, y) is written exactly when the triangle has non-zero area, the
      pixel is in the clipped box, every integer edge value has the sign of
      denom, and the interpolated depth is strictly closer. */
  lemma DrawTriangleWrites(f: Frame, w: int, h: int, t: Triangle, col: Color, x: int, y: int)
    requires Fits(f, w, h)
    requires 0 <= x < w && 0 <= y < h
    ensures 0 <= y * w + x < w * h
    ensures var r := DrawTriangleSpec(f, w, h, t, col);
      var i := y * w + x;
      if Denom(t) != 0 && InBox(t, w, h, x, y) &&
         Edge0(t, x, y) * Denom(t) >= 0 && Edge1(t, x, y) * Denom(t) >= 0 && Edge2(t, x, y) * Denom(t) >= 0 &&
         Depth(t, x, y) < f.depth[i]
      then r.color[i] == col && r.depth[i] == Depth(t, x, y)
      else r.color[i] == f.color[i] && r.depth[i] == f.depth[i]
  {
    CellOfPixel(w, h, x, y);
    DegenerateIffZeroArea(t);
    if Denom(t) != 0 {
      InsideIffEdgeSigns(t, x, y);
    }
  }

  /** Cells of pixels outside the clipped box are kept. */
  lemma OutsideBoxCells(f: Frame, w: int, h: int, t: Triangle, col: Color)
    requires Fits(f, w, h)
    ensures forall i :: 0 <= i < w * h && !InBox(t, w, h, i % w, i / w) ==>
      DrawTriangleSpec(f, w, h, t, col).color[i] == f.color[i] &&
      DrawTriangleSpec(f, w, h, t, col).depth[i] == f.depth[i]
  {
  }

  /** Shading the pixel the scan of the box is at moves the scan of the whole
      drawTriangle one pixel on. */
  lemma ScanShade(f0: Frame, w: int, h: int, t: Triangle, col: Color, cur: Frame, x: int, y: int)
    requires Fits(f0, w, h) && Fits(cur, w, h) && InBox(t, w, h, x, y)
    requires ScanFrame(w, cur, DrawTriangleSpec(f0, w, h, t, col), f0, x, y)
    ensures 0 <= x < w && 0 <= y < h
    ensures ScanFrame(w, ShadeCell(cur, w, h, t, col, x, y), DrawTriangleSpec(f0, w, h, t, col), f0, x + 1, y)
  {
    var spec := DrawTriangleSpec(f0, w, h, t, col);
    InBoxBounds(t, w, h, x, y);
    CellOfPixel(w, h, x, y);
    var idx := y * w + x;
    ScanAt(w, h, cur.color, spec.color, f0.color, x, y);
    ScanAt(w, h, cur.depth, spec.depth, f0.depth, x, y);
    DrawCell(f0, w, h, t, col, idx);
    if Covers(t, w, h, x, y) && Depth(t, x, y) < cur.depth[idx] {
      ScanWrite(w, h, cur.color, spec.color, f0.color, x, y, col);
      ScanWrite(w, h, cur.depth, spec.depth, f0.depth, x, y, Depth(t, x, y));
    } else {
      ScanKeep(w, h, cur.color, spec.color, f0.color, x, y);
      ScanKeep(w, h, cur.depth, spec.depth, f0.depth, x, y);
    }
  }

  /** Before the first row of the box nothing has been drawn: every cell scanned
      so far is outside the box. */
  lemma ScanBoxStart(f0: Frame, w: int, h: int, t: Triangle, col: Color)
    requires Fits(f0, w, h)
    ensures ScanFrame(w, f0, DrawTriangleSpec(f0, w, h, t, col), f0, 0, MinY(t))
  {
    OutsideBoxCells(f0, w, h, t, col);
    AllCells(w, h);
  }

  /** The cells of row y left of the box are skipped. */
  lemma ScanRowStart(f0: Frame, w: int, h: int, t: Triangle, col: Color, cur: Frame, y: int)
    requires Fits(f0, w, h) && Fits(cur, w, h)
    requires ScanFrame(w, cur, DrawTriangleSpec(f0, w, h, t, col), f0, 0, y)
    ensures ScanFrame(w, cur, DrawTriangleSpec(f0, w, h, t, col), f0, MinX(t), y)
  {
    var spec := DrawTriangleSpec(f0, w, h, t, col);
    OutsideBoxCells(f0, w, h, t, col);
    AllCells(w, h);
    ScanSkip(w, cur.color, spec.color, f0.color, 0, y, MinX(t), y);
    ScanSkip(w, cur.depth, spec.depth, f0.depth, 0, y, MinX(t), y);
  }

  /** The cells of row y right of the box are skipped. */
  lemma ScanRowEnd(f0: Frame, w: int, h: int, t: Triangle, col: Color, cur: Frame, x: int, y: int)
    requires Fits(f0, w, h) && Fits(cur, w, h) && MaxX(t, w) < x
    requires ScanFrame(w, cur, DrawTriangleSpec(f0, w, h, t, col), f0, x, y)
    ensures ScanFrame(w, cur, DrawTriangleSpec(f0, w, h, t, col), f0, 0, y + 1)
  {
    var spec := DrawTriangleSpec(f0, w, h, t, col);
    OutsideBoxCells(f0, w, h, t, col);
    AllCells(w, h);
    ScanSkip(w, cur.color, spec.color, f0.color, x, y, 0, y + 1);
    ScanSkip(w, cur.depth, spec.depth, f0.depth, x, y, 0, y + 1);
  }

  /** Once the scan is below the box, the rows left are skipped and the frame is
      the drawn one. */
  lemma ScanBoxEnd(f0: Frame, w: int, h: int, t: Triangle, col: Color, cur: Frame, y: int)
    requires Fits(f0, w, h) && Fits(cur, w, h) && MaxY(t, h) < y
    requires ScanFrame(w, cur, DrawTriangleSpec(f0, w, h, t, col), f0, 0, y)
    ensures cur == DrawTriangleSpec(f0, w, h, t, col)
  {
    var spec := DrawTriangleSpec(f0, w, h, t, col);
    OutsideBoxCells(f0, w, h, t, col);
    AllCells(w, h);
    ScanSkip(w, cur.color, spec.color, f0.color, 0, y, 0, h);
    ScanSkip(w, cur.depth, spec.depth, f0.depth, 0, y, 0, h);
    ScanComplete(w, h, cur.color, spec.color, f0.color);
    ScanComplete(w, h, cur.depth, spec.depth, f0.depth);
  }

  /** Drawing a triangle determines each cell from that cell alone. */
  lemma DrawCell(f: Frame, w: int, h: int, t: Triangle, col: Color, i: int)
    requires Fits(f, w, h) && 0 <= i < w * h
    ensures DrawTriangleSpec(f, w, h, t, col).color[i] == if Hit(f, w, h, t, i) then col else f.color[i]
    ensures DrawTriangleSpec(f, w, h, t, col).depth[i] == if Hit(f, w, h, t, i) then Depth(t, i % w, i / w) else f.depth[i]
  {
  }

  /** Swapping two vertices draws the same frame. */
  lemma SwapDrawsSame(f: Frame, w: int, h: int, t: Triangle, col: Color)
    requires Fits(f, w, h)
    ensures DrawTriangleSpec(f, w, h, Swap(t), col) == DrawTriangleSpec(f, w, h, t, col)
  {
    forall i | 0 <= i < w * h
      ensures Hit(f, w, h, Swap(t), i) <==> Hit(f, w, h, t, i)
      ensures Hit(f, w, h, t, i) ==> Depth(Swap(t), i % w, i / w) == Depth(t, i % w, i / w)
    {
      SwapCovers(t, w, h, i % w, i / w);
    }
    SameHitsSameFrame(f, w, h, Swap(t), t, col);
  }

  /** Starting the vertex list at another vertex draws the same frame. */
  lemma RotateDrawsSame(f: Frame, w: int, h: int, t: Triangle, col: Color)
    requires Fits(f, w, h)
    ensures DrawTriangleSpec(f, w, h, Rotate(t), col) == DrawTriangleSpec(f, w, h, t, col)
  {
    forall i | 0 <= i < w * h
      ensures Hit(f, w, h, Rotate(t), i) <==> Hit(f, w, h, t, i)
      ensures Hit(f, w, h, t, i) ==> Depth(Rotate(t), i % w, i / w) == Depth(t, i % w, i / w)
    {
      RotateCovers(t, w, h, i % w, i / w);
    }
    SameHitsSameFrame(f, w, h, Rotate(t), t, col);
  }

  /** Clockwise and counter-clockwise vertex order draw the same frame. */
  lemma WindingIndependent(f: Frame, w: int, h: int, t: Triangle, col: Color)
    requires Fits(f, w, h)
    ensures DrawTriangleSpec(f, w, h, Reverse(t), col) == DrawTriangleSpec(f, w, h, t, col)
  {
    assert Reverse(t) == Rotate(Swap(t));
    RotateDrawsSame(f, w, h, Swap(t), col);
    SwapDrawsSame(f, w, h, t, col);
  }

  lemma SameHitsSameFrame(f: Frame, w: int, h: int, s: Triangle, t: Triangle, col: Color)
    requires Fits(f, w, h)
    requires forall i :: 0 <= i < w * h ==> (Hit(f, w, h, s, i) <==> Hit(f, w, h, t, i))
    requires forall i :: 0 <= i < w * h && Hit(f, w, h, s, i) && Hit(f, w, h, t, i) ==>
      Depth(s, i % w, i / w) == Depth(t, i % w, i / w)
    ensures DrawTriangleSpec(f, w, h, s, col) == DrawTriangleSpec(f, w, h, t, col)
  {
    var a := DrawTriangleSpec(f, w, h, s, col);
    var b := DrawTriangleSpec(f, w, h, t, col);
    forall i | 0 <= i < w * h
      ensures a.color[i] == b.color[i] && a.depth[i] == b.depth[i]
    {
      DrawCell(f, w, h, s, col, i);
      DrawCell(f, w, h, t, col, i);
    }
    assert a.color == b.color;
    assert a.depth == b.depth;
  }

  /** Where two triangles overlap, the closer one's colour survives whichever is
      drawn first. */
  lemma CloserTriangleWins(f: Frame, w: int, h: int, t1: Triangle, c1: Color, t2: Triangle, c2: Color, i: int)
    requires Fits(f, w, h) && 0 <= i < w * h
    requires Covers(t1, w, h, i % w, i / w) && Covers(t2, w, h, i % w, i / w)
    requires Depth(t1, i % w, i / w) < Depth(t2, i % w, i / w)
    requires Depth(t1, i % w, i / w) < f.depth[i]
    ensures DrawTriangleSpec(DrawTriangleSpec(f, w, h, t1, c1), w, h, t2, c2).color[i] == c1
    ensures DrawTriangleSpec(DrawTriangleSpec(f, w, h, t2, c2), w, h, t1, c1).color[i] == c1
    ensures DrawTriangleSpec(DrawTriangleSpec(f, w, h, t1, c1), w, h, t2, c2).depth[i] == Depth(t1, i % w, i / w)
    ensures DrawTriangleSpec(DrawTriangleSpec(f, w, h, t2, c2), w, h, t1, c1).depth[i] == Depth(t1, i % w, i / w)
  {
    DrawCell(f, w, h, t1, c1, i);
    DrawCell(f, w, h, t2, c2, i);
    DrawCell(DrawTriangleSpec(f, w, h, t1, c1), w, h, t2, c2, i);
    DrawCell(DrawTriangleSpec(f, w, h, t2, c2), w, h, t1, c1, i);
  }

  /** Two triangles whose depths differ wherever both cover a pixel can be drawn
      in either order. */
  lemma DrawsCommute(f: Frame, w: int, h: int, t1: Triangle, c1: Color, t2: Triangle, c2: Color)
    requires Fits(f, w, h)
    requires forall i :: 0 <= i < w * h && Covers(t1, w, h, i % w, i / w) && Covers(t2, w, h, i % w, i / w) ==>
      Depth(t1, i % w, i / w) != Depth(t2, i % w, i / w)
    ensures DrawTriangleSpec(DrawTriangleSpec(f, w, h, t1, c1), w, h, t2, c2) ==
            DrawTriangleSpec(DrawTriangleSpec(f, w, h, t2, c2), w, h, t1, c1)
  {
    var a := DrawTriangleSpec(DrawTriangleSpec(f, w, h, t1, c1), w, h, t2, c2);
    var b := DrawTriangleSpec(DrawTriangleSpec(f, w, h, t2, c2), w, h, t1, c1);
    forall i | 0 <= i < w * h
      ensures a.color[i] == b.color[i] && a.depth[i] == b.depth[i]
    {
      DrawCell(f, w, h, t1, c1, i);
      DrawCell(f, w, h, t2, c2, i);
      DrawCell(DrawTriangleSpec(f, w, h, t1, c1), w, h, t2, c2, i);
      DrawCell(DrawTriangleSpec(f, w, h, t2, c2), w, h, t1, c1, i);
    }
    assert a.color == b.color;
    assert a.depth == b.depth;
  }

  // ---------------------------------------------------------------------------
  // Sequences of operations

  /** A call on a Renderer, with the arguments it passes. */
  datatype Op =
    | Clear(r: Channel, g: Channel, b: Channel)
    | ClearZ
    | SetPixel(x: int, y: int, z: real, r: Channel, g: Channel, b: Channel)
    | DrawTriangle(t: Triangle, r: Channel, g: Channel, b: Channel, brightness: real)

  function Step(f: Frame, w: int, h: int, op: Op): (r: Frame)
    requires Fits(f, w, h)
    ensures Fits(r, w, h)
  {
    match op
    case Clear(r, g, b) => Cleared(f, PackColor(r, g, b, 1.0))
    case ClearZ => ClearedZ(f)
    case SetPixel(x, y, z, r, g, b) => SetPixelSpec(f, w, h, x, y, z, r, g, b)
    case DrawTriangle(t, r, g, b, brightness) => DrawTriangleSpec(f, w, h, t, PackColor(r, g, b, brightness))
  }

  function Run(f: Frame, w: int, h: int, ops: seq<Op>): (r: Frame)
    requires Fits(f, w, h)
    ensures Fits(r, w, h)
    decreases |ops|
  {
    if |ops| == 0 then f else Run(Step(f, w, h, ops[0]), w, h, ops[1..])
  }

  /** Between clearZ calls a stored depth never increases. */
  lemma {:induction false} DepthNeverIncreasesWithoutClearZ(f: Frame, w: int, h: int, ops: seq<Op>)
    requires Fits(f, w, h)
    requires forall k :: 0 <= k < |ops| ==> !ops[k].ClearZ?
    ensures forall i :: 0 <= i < w * h ==> Run(f, w, h, ops).depth[i] <= f.depth[i]
    decreases |ops|
  {
    if |ops| > 0 {
      var g := Step(f, w, h, ops[0]);
      forall i | 0 <= i < w * h
        ensures g.depth[i] <= f.depth[i]
      {
        match ops[0]
        case Clear(_, _, _) =>
        case SetPixel(x, y, z, r, gr, b) =>
        case DrawTriangle(t, r, gr, b, brightness) =>
      }
      DepthNeverIncreasesWithoutClearZ(g, w, h, ops[1..]);
    }
  }

  /** op makes a depth-tested write of depth z to cell i: an on-screen setPixel
      of that cell, or a drawTriangle covering its pixel. */
  predicate Attempts(op: Op, w: int, h: int, i: int, z: real)
    requires 0 < w
  {
    match op
    case SetPixel(x, y, zp, _, _, _) => 0 <= x < w && 0 <= y < h && i == y * w + x && z == zp
    case DrawTriangle(t, _, _, _, _) => Covers(t, w, h, i % w, i / w) && z == Depth(t, i % w, i / w)
    case _ => false
  }

  /** After one call, a cell holds at most any depth that call attempted there. */
  lemma StepAttempt(f: Frame, w: int, h: int, op: Op, i: int, z: real)
    requires Fits(f, w, h) && 0 <= i < w * h && Attempts(op, w, h, i, z)
    ensures Step(f, w, h, op).depth[i] <= z
  {
    match op
    case SetPixel(x, y, zp, r, g, b) =>
      SetPixelOnScreen(f, w, h, x, y, zp, r, g, b);
    case DrawTriangle(t, r, g, b, brightness) =>
      DrawCell(f, w, h, t, PackColor(r, g, b, brightness), i);
  }

  /** Between clearZ calls a stored depth is at most every depth a setPixel or a
      drawTriangle attempted at that cell: the z-buffer keeps the closest
      attempt. */
  lemma {:induction false} DepthAtMostEveryAttempt(f: Frame, w: int, h: int, ops: seq<Op>)
    requires Fits(f, w, h)
    requires forall k :: 0 <= k < |ops| ==> !ops[k].ClearZ?
    ensures forall k, i, z :: 0 <= k < |ops| && 0 <= i < w * h && Attempts(ops[k], w, h, i, z) ==>
      Run(f, w, h, ops).depth[i] <= z
    decreases |ops|
  {
    if |ops| > 0 {
      var g := Step(f, w, h, ops[0]);
      assert forall k :: 0 <= k < |ops[1..]| ==> !ops[1..][k].ClearZ?;
      DepthAtMostEveryAttempt(g, w, h, ops[1..]);
      DepthNeverIncreasesWithoutClearZ(g, w, h, ops[1..]);
      forall k, i, z | 0 <= k < |ops| && 0 <= i < w * h && Attempts(ops[k], w, h, i, z)
        ensures Run(f, w, h, ops).depth[i] <= z
      {
        if k == 0 {
          StepAttempt(f, w, h, ops[0], i, z);
        } else {
          assert ops[1..][k - 1] == ops[k];
        }
      }
    }
  }

  /** After one call other than clearZ, a cell holds either the depth it held or
      a depth that call attempted there. */
  lemma StepReached(f: Frame, w: int, h: int, op: Op, i: int)
    requires Fits(f, w, h) && 0 <= i < w * h && !op.ClearZ?
    ensures Step(f, w, h, op).depth[i] == f.depth[i] || Attempts(op, w, h, i, Step(f, w, h, op).depth[i])
  {
    match op
    case Clear(_, _, _) =>
    case SetPixel(x, y, z, r, g, b) =>
      if 0 <= x < w && 0 <= y < h {
        SetPixelOnScreen(f, w, h, x, y, z, r, g, b);
      } else {
        SetPixelOffScreen(f, w, h, x, y, z, r, g, b);
      }
    case DrawTriangle(t, r, g, b, brightness) =>
      DrawCell(f, w, h, t, PackColor(r, g, b, brightness), i);
  }

  /** Between clearZ calls a stored depth is the depth the cell started with or
      one that a call attempted there; with DepthNeverIncreasesWithoutClearZ and
      DepthAtMostEveryAttempt it is the least of them. */
  lemma {:induction false} DepthReached(f: Frame, w: int, h: int, ops: seq<Op>)
    requires Fits(f, w, h)
    requires forall k :: 0 <= k < |ops| ==> !ops[k].ClearZ?
    ensures forall i :: 0 <= i < w * h ==>
      Run(f, w, h, ops).depth[i] == f.depth[i] ||
      exists k :: 0 <= k < |ops| && Attempts(ops[k], w, h, i, Run(f, w, h, ops).depth[i])
    decreases |ops|
  {
    if |ops| > 0 {
      var g := Step(f, w, h, ops[0]);
      var rest := ops[1..];
      assert forall k :: 0 <= k < |rest| ==> !rest[k].ClearZ?;
      DepthReached(g, w, h, rest);
      forall i | 0 <= i < w * h
        ensures Run(f, w, h, ops).depth[i] == f.depth[i] ||
          exists k :: 0 <= k < |ops| && Attempts(ops[k], w, h, i, Run(f, w, h, ops).depth[i])
      {
        var d := Run(f, w, h, ops).depth[i];
        assert d == Run(g, w, h, rest).depth[i];
        if d == g.depth[i] {
          StepReached(f, w, h, ops[0], i);
          if d != f.depth[i] {
            assert Attempts(ops[0], w, h, i, d);
          }
        } else {
          var k :| 0 <= k < |rest| && Attempts(rest[k], w, h, i, d);
          assert ops[k + 1] == rest[k];
        }
      }
    }
  }
}
