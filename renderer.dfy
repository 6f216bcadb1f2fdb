/** The Renderer class of src/renderer.cpp: a width by height ARGB32 colour
    buffer and a float depth buffer of the same size, both row-major and updated
    in place. Each method is proved to leave the two arrays in the state the
    matching function of the Frames module describes. */
module Rendering {
  import opened Colors
  import opened Triangles
  import opened Frames

  class Renderer {
    const width: int
    const height: int
    /** The colour buffer: cell y * width + x is pixel (x, y). */
    const buffer: array<Color>
    /** The depth buffer, indexed like the colour buffer. */
    const zbuffer: array<real>

    /** Positive dimensions whose product, the cell count, fits in a 32-bit int;
        both buffers have one cell per pixel. */
    predicate Valid() {
      0 < width && 0 < height && width * height <= Int32Max &&
      buffer.Length == width * height && zbuffer.Length == width * height &&
      buffer as object != zbuffer as object
    }

    /** The contents of the two buffers. */
    function State(): (f: Frame)
      reads buffer, zbuffer
      ensures Valid() ==> Fits(f, width, height)
    {
      Frame(buffer[..], zbuffer[..])
    }

    /** Renderer(w, h): allocates both buffers, fills the depths with 1e9 and
        clears the colours to black. */
    constructor (w: int, h: int)
      requires 0 < w && 0 < h && w * h <= Int32Max
      ensures Valid() && width == w && height == h
      ensures fresh(buffer) && fresh(zbuffer)
      ensures State() == Initial(w, h)
    {
      width := w;
      height := h;
      buffer := new Color[w * h];
      zbuffer := new real[w * h](_ => FarDepth);
      new;
      Clear(0, 0, 0);
      PackBlack();
    }

    /** clear: every colour cell becomes packColor(r, g, b, 1); depths are kept. */
    method Clear(r: Channel, g: Channel, b: Channel)
      requires Valid()
      modifies buffer
      ensures State() == Cleared(old(State()), PackColor(r, g, b, 1.0))
      ensures forall i :: 0 <= i < buffer.Length ==>
        buffer[i] == 0xFF00_0000 | ((r as Color) << 16) | ((g as Color) << 8) | (b as Color)
    {
      PackColorFullBrightness(r, g, b);
      var color := PackColor(r, g, b, 1.0);
      for i := 0 to width * height
        invariant forall j :: 0 <= j < i ==> buffer[j] == color
      {
        buffer[i] := color;
      }
      assert buffer[..] == Cleared(old(State()), color).color;
      assert zbuffer[..] == old(zbuffer[..]);
    }

    /** clearZ: every depth cell becomes 1e9; colours are kept. */
    method ClearZ()
      requires Valid()
      modifies zbuffer
      ensures State() == ClearedZ(old(State()))
    {
      for i := 0 to width * height
        invariant forall j :: 0 <= j < i ==> zbuffer[j] == FarDepth
      {
        zbuffer[i] := FarDepth;
      }
      assert zbuffer[..] == ClearedZ(old(State())).depth;
      assert buffer[..] == old(buffer[..]);
    }

    /** setPixel: a bounds-checked, depth-tested write of packColor(r, g, b, 1). */
    method SetPixel(x: int, y: int, z: real, r: Channel, g: Channel, b: Channel)
      requires Valid()
      modifies buffer, zbuffer
      ensures State() == SetPixelSpec(old(State()), width, height, x, y, z, r, g, b)
      ensures forall i :: 0 <= i < zbuffer.Length ==> zbuffer[i] <= old(zbuffer[i])
    {
      if x < 0 || x >= width || y < 0 || y >= height {
        return;
      }
      CellOfPixel(width, height, x, y);
      var idx := y * width + x;
      if z < zbuffer[idx] {
        zbuffer[idx] := z;
        buffer[idx] := PackColor(r, g, b, 1.0);
        assert buffer[..] == old(buffer[..])[idx := PackColor(r, g, b, 1.0)];
        assert zbuffer[..] == old(zbuffer[..])[idx := z];
      }
    }

    /** drawTriangle: scans the clipped bounding box row by row and fills every
        pixel whose three barycentric weights are non-negative and whose
        interpolated depth is strictly closer than the stored one. */
    method DrawTriangle(x0: int, y0: int, z0: real, x1: int, y1: int, z1: real,
                        x2: int, y2: int, z2: real,
                        r: Channel, g: Channel, b: Channel, brightness: real)
      requires Valid()
      requires InCoordRange(Triangle(Vertex(x0, y0, z0), Vertex(x1, y1, z1), Vertex(x2, y2, z2)))
      modifies buffer, zbuffer
      ensures State() == DrawTriangleSpec(old(State()), width, height,
        Triangle(Vertex(x0, y0, z0), Vertex(x1, y1, z1), Vertex(x2, y2, z2)), PackColor(r, g, b, brightness))
      ensures forall i :: 0 <= i < zbuffer.Length ==> zbuffer[i] <= old(zbuffer[i])
    {
      var t := Triangle(Vertex(x0, y0, z0), Vertex(x1, y1, z1), Vertex(x2, y2, z2));
      ghost var col := PackColor(r, g, b, brightness);
      ghost var f0 := State();
      DrawDepthNeverIncreases(f0, width, height, t, col);

      var minX := Max(0, Min3(x0, x1, x2));
      var maxX := Min(width - 1, Max3(x0, x1, x2));
      var minY := Max(0, Min3(y0, y1, y2));
      var maxY := Min(height - 1, Max3(y0, y1, y2));

      var denom := ((y1 - y2) * (x0 - x2) + (x2 - x1) * (y0 - y2)) as real;
      if Abs(denom) < 0.000001 {
        SkippedTriangleChangesNothing(f0, width, height, t, col);
        return;
      }
      assert !Degenerate(t);

      ScanBoxStart(f0, width, height, t, col);
      var y := minY;
      while y <= maxY
        invariant minY <= y && (y <= maxY + 1 || y == minY)
        invariant ScanFrame(width, State(), DrawTriangleSpec(f0, width, height, t, col), f0, 0, y)
      {
        ScanRowStart(f0, width, height, t, col, State(), y);
        var x := minX;
        while x <= maxX
          invariant minX <= x && (x <= maxX + 1 || x == minX)
          invariant ScanFrame(width, State(), DrawTriangleSpec(f0, width, height, t, col), f0, x, y)
        {
          ScanShade(f0, width, height, t, col, State(), x, y);
          ShadePixel(t, x, y, denom, r, g, b, brightness);
          x := x + 1;
        }
        ScanRowEnd(f0, width, height, t, col, State(), x, y);
        y := y + 1;
      }
      ScanBoxEnd(f0, width, height, t, col, State(), y);
    }

    /** The body of drawTriangle's x loop at pixel (x, y) of the box: the three
        weights, the fill test, the interpolated depth and the depth test. */
    method ShadePixel(t: Triangle, x: int, y: int, denom: real,
                      r: Channel, g: Channel, b: Channel, brightness: real)
      requires Valid() && InCoordRange(t) && InBox(t, width, height, x, y)
      requires denom == Denom(t) as real && !Degenerate(t)
      modifies buffer, zbuffer
      ensures 0 <= x < width && 0 <= y < height
      ensures State() == ShadeCell(old(State()), width, height, t, PackColor(r, g, b, brightness), x, y)
    {
      InBoxBounds(t, width, height, x, y);
      EdgeValuesFitInt32(t, x, y);
      var w0 := ((t.v1.y - t.v2.y) * (x - t.v2.x) + (t.v2.x - t.v1.x) * (y - t.v2.y)) as real / denom;
      var w1 := ((t.v2.y - t.v0.y) * (x - t.v2.x) + (t.v0.x - t.v2.x) * (y - t.v2.y)) as real / denom;
      var w2 := 1.0 - w0 - w1;
      assert w0 == W0(t, x, y) && w1 == W1(t, x, y) && w2 == W2(t, x, y);
      CellOfPixel(width, height, x, y);
      var idx := y * width + x;
      assert IsInt32(idx);
      ghost var f := State();
      ghost var col := PackColor(r, g, b, brightness);
      if w0 >= 0.0 && w1 >= 0.0 && w2 >= 0.0 {
        var z := w0 * t.v0.z + w1 * t.v1.z + w2 * t.v2.z;
        DepthOfWeights(t, x, y, w0, w1, w2);
        assert ShadeCell(f, width, height, t, col, x, y) == DepthWrite(f, idx, z, col);
        if z < zbuffer[idx] {
          zbuffer[idx] := z;
          buffer[idx] := PackColor(r, g, b, brightness);
          assert buffer[..] == f.color[idx := col];
          assert zbuffer[..] == f.depth[idx := z];
        }
      } else {
        assert !Inside(t, x, y);
      }
    }
  }

  /** The triangle of Scenario: (0, 0), (3, 0), (0, 3), all at depth 1. */
  const Corner: Triangle := Triangle(Vertex(0, 0, 1.0), Vertex(3, 0, 1.0), Vertex(0, 3, 1.0))

  /** A fresh 4 x 4 renderer, clearZ, then Corner in red at full brightness:
      pixel (1, 1) turns opaque red and pixel (3, 3), outside the triangle,
      stays opaque black. */
  method Scenario() returns (inside: Color, outside: Color)
    ensures inside == 0xFFFF_0000 && outside == OpaqueBlack
  {
    var rd := new Renderer(4, 4);
    rd.ClearZ();
    ghost var f := rd.State();
    assert f.depth[5] == FarDepth && f.color[15] == OpaqueBlack;
    rd.DrawTriangle(0, 0, 1.0, 3, 0, 1.0, 0, 3, 1.0, 255, 0, 0, 1.0);
    PackColorFullBrightness(255, 0, 0);
    CornerPixels(f, PackColor(255, 0, 0, 1.0));
    inside := rd.buffer[5];
    outside := rd.buffer[15];
  }

  /** Pixel (1, 1), cell 5, is inside Corner at depth 1 and pixel (3, 3), cell 15,
      is outside it. */
  lemma CornerPixels(f: Frame, col: Color)
    requires Fits(f, 4, 4) && f.depth[5] == FarDepth
    ensures DrawTriangleSpec(f, 4, 4, Corner, col).color[5] == col
    ensures DrawTriangleSpec(f, 4, 4, Corner, col).color[15] == f.color[15]
  {
    DrawCell(f, 4, 4, Corner, col, 5);
    DrawCell(f, 4, 4, Corner, col, 15);
    assert 5 % 4 == 1 && 5 / 4 == 1 && 15 % 4 == 3 && 15 / 4 == 3;
    CornerInside();
    CornerOutside();
  }

  lemma CornerInside()
    ensures Covers(Corner, 4, 4, 1, 1) && Depth(Corner, 1, 1) == 1.0
  {
    assert Denom(Corner) == 9 && Edge0(Corner, 1, 1) == 3 && Edge1(Corner, 1, 1) == 3;
    assert W0(Corner, 1, 1) == 1.0 / 3.0 && W1(Corner, 1, 1) == 1.0 / 3.0;
  }

  lemma CornerOutside()
    ensures !Covers(Corner, 4, 4, 3, 3)
  {
    assert Denom(Corner) == 9 && Edge0(Corner, 3, 3) == -9;
    assert W0(Corner, 3, 3) < 0.0;
  }
}
