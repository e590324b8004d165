/** The mesh builders of `Assets/Script/MeshMapGenerator.cs` and
    `Assets/Script/MapGenerator.cs`: one vertex per sample of a
    `mapWidth x mapHeight` grid, two triangles per grid square as indices into
    the vertex list, and one colour per vertex chosen by height bands. Both
    files run the same loop and differ only in where a sample's height comes
    from (a supplied function here; the noise itself is not modelled). */
module MeshGrid {
  import opened Grid

  /** Unity's `Color`; a fresh `Color[]` holds `ClearColor` everywhere. */
  datatype Color = Color(r: real, g: real, b: real, a: real)

  const ClearColor := Color(0.0, 0.0, 0.0, 0.0)

  /** `MapRegion`: a height band's upper limit and its colour. */
  datatype MapRegion = MapRegion(name: string, height: real, color: Color)

  /** Unity's `Vector3`. */
  datatype Vertex = Vertex(x: real, y: real, z: real)

  /** The vertex of sample `(x, y)`: centred on the grid by the C# integer
      halves of the sizes, raised by `height * scale - scale / 2`. */
  function VertexAt(w: int, h: int, x: int, y: int, height: real, scale: real): Vertex
  {
    Vertex(x as real - CsHalf(w) as real, height * scale - scale / 2.0, y as real - CsHalf(h) as real)
  }

  // ---------------------------------------------------------------------------
  // Row-major layout

  /** `f` at samples `(0,y) .. (x-1,y)`. */
  function Row<T>(y: int, x: int, f: (int, int) -> T): seq<T>
    decreases x
  {
    if x <= 0 then [] else Row(y, x - 1, f) + [f(x - 1, y)]
  }

  /** `f` at the samples of rows `0 .. y-1`, each row `0 .. w-1` in turn: the
      order in which the nested loops of `Generate` meet the samples. */
  function RowMajor<T>(w: int, y: int, f: (int, int) -> T): seq<T>
    decreases y
  {
    if y <= 0 then [] else RowMajor(w, y - 1, f) + Row(y - 1, w, f)
  }

  /** `a * w <= b * w` for `a <= b` and `w >= 0`. */
  lemma MulMono(a: int, b: int, w: int)
    requires a <= b && 0 <= w
    ensures a * w <= b * w
  {
    assert b * w - a * w == (b - a) * w;
  }

  lemma {:induction false} RowAt<T>(y: int, x: int, f: (int, int) -> T)
    requires x >= 0
    ensures |Row(y, x, f)| == x
    ensures forall k :: 0 <= k < x ==> Row(y, x, f)[k] == f(k, y)
    decreases x
  {
    if x > 0 {
      RowAt(y, x - 1, f);
    }
  }

  lemma {:induction false} RowMajorLength<T>(w: int, y: int, f: (int, int) -> T)
    requires w >= 0 && y >= 0
    ensures |RowMajor(w, y, f)| == y * w
    decreases y
  {
    if y > 0 {
      RowMajorLength(w, y - 1, f);
      RowAt(y - 1, w, f);
      assert (y - 1) * w + w == y * w;
    }
  }

  /** Sample `(xx, yy)` of an earlier row sits at index `yy * w + xx`. */
  lemma {:induction false} RowMajorAt<T>(w: int, y: int, f: (int, int) -> T, xx: int, yy: int)
    requires 0 <= xx < w && 0 <= yy < y
    ensures |RowMajor(w, y, f)| == y * w
    ensures 0 <= yy * w + xx < y * w && RowMajor(w, y, f)[yy * w + xx] == f(xx, yy)
    decreases y
  {
    RowMajorLength(w, y, f);
    RowMajorLength(w, y - 1, f);
    RowAt(y - 1, w, f);
    MulMono(yy, y - 1, w);
    assert (y - 1) * w + w == y * w;
    if yy < y - 1 {
      RowMajorAt(w, y - 1, f, xx, yy);
    }
  }

  /** A negative width leaves every row empty, and so the whole list. */
  lemma {:induction false} NoColumnsNoSamples<T>(w: int, y: int, f: (int, int) -> T)
    requires w < 0
    ensures RowMajor(w, y, f) == []
    decreases y
  {
    if y > 0 {
      NoColumnsNoSamples(w, y - 1, f);
    }
  }

  // ---------------------------------------------------------------------------
  // Vertices

  function VertexSampler(w: int, h: int, hgt: (int, int) -> real, scale: real): (int, int) -> Vertex
  {
    (x: int, y: int) => VertexAt(w, h, x, y, hgt(x, y), scale)
  }

  /** `vertices` ends with `w*h` entries, the vertex of sample `(x, y)` at
      index `y*w + x`: the running counter of the loop is `y*w + x`. Here the
      counter is an integer; a `float` counter is exact only below 2^24. */
  lemma VertexLayout(w: int, h: int, hgt: (int, int) -> real, scale: real, x: int, y: int)
    requires 0 <= x < w && 0 <= y < h
    ensures |RowMajor(w, h, VertexSampler(w, h, hgt, scale))| == w * h
    ensures 0 <= y * w + x < w * h
    ensures RowMajor(w, h, VertexSampler(w, h, hgt, scale))[y * w + x] == VertexAt(w, h, x, y, hgt(x, y), scale)
  {
    RowMajorAt(w, h, VertexSampler(w, h, hgt, scale), x, y);
  }

  // ---------------------------------------------------------------------------
  // Triangles

  /** The two triangles of the square whose lower-left vertex has index `i`:
      `(i+w, i+w+1, i)` then `(i+1, i, i+w+1)`. */
  function Quad(i: int, w: int): seq<int>
  {
    [i + w, i + w + 1, i, i + 1, i, i + w + 1]
  }

  /** The indices samples `(0,y) .. (x-1,y)` add, where `i0` is the index of
      the row's first vertex: a square for each sample that is not on the last
      column or the last row. */
  function RowTriangles(w: int, h: int, y: int, i0: int, x: int): seq<int>
    decreases x
  {
    if x <= 0 then []
    else RowTriangles(w, h, y, i0, x - 1) + (if x - 1 < w - 1 && y < h - 1 then Quad(i0 + x - 1, w) else [])
  }

  /** The index list after rows `0 .. y-1`. */
  function MeshTriangles(w: int, h: int, y: int): seq<int>
    decreases y
  {
    if y <= 0 then [] else MeshTriangles(w, h, y - 1) + RowTriangles(w, h, y - 1, (y - 1) * w, w)
  }

  /** The number of squares among samples `(0,y) .. (x-1,y)`. */
  function SquaresInRow(w: int, h: int, y: int, x: int): int
  {
    if y < h - 1 then (if x < w - 1 then x else w - 1) else 0
  }

  lemma {:induction false} RowTrianglesLength(w: int, h: int, y: int, i0: int, x: int)
    requires 1 <= w && 0 <= x <= w
    ensures |RowTriangles(w, h, y, i0, x)| == 6 * SquaresInRow(w, h, y, x)
    decreases x
  {
    if x > 0 {
      RowTrianglesLength(w, h, y, i0, x - 1);
    }
  }

  /** The square of sample `(k, y)` is the `k`-th six indices of its row. */
  lemma {:induction false} RowQuadAt(w: int, h: int, y: int, i0: int, x: int, k: int)
    requires 0 <= k < x <= w && k < w - 1 && y < h - 1
    ensures 6 * k + 6 <= |RowTriangles(w, h, y, i0, x)|
    ensures forall n :: 6 * k <= n < 6 * k + 6 ==> RowTriangles(w, h, y, i0, x)[n] == Quad(i0 + k, w)[n - 6 * k]
    decreases x
  {
    RowTrianglesLength(w, h, y, i0, x - 1);
    var prev := RowTriangles(w, h, y, i0, x - 1);
    var last := if x - 1 < w - 1 && y < h - 1 then Quad(i0 + x - 1, w) else [];
    assert RowTriangles(w, h, y, i0, x) == prev + last;
    if k < x - 1 {
      RowQuadAt(w, h, y, i0, x - 1, k);
      forall n | 6 * k <= n < 6 * k + 6
        ensures (prev + last)[n] == prev[n]
      {
      }
    } else {
      assert |prev| == 6 * k && last == Quad(i0 + k, w);
      forall n | 6 * k <= n < 6 * k + 6
        ensures (prev + last)[n] == last[n - 6 * k]
      {
      }
    }
  }

  /** Every index a row emits names a vertex of that row or the next. */
  lemma {:induction false} RowTrianglesBounds(w: int, h: int, y: int, i0: int, x: int)
    requires 0 <= x <= w
    ensures forall n :: 0 <= n < |RowTriangles(w, h, y, i0, x)| ==>
      i0 <= RowTriangles(w, h, y, i0, x)[n] < i0 + 2 * w
    decreases x
  {
    if x > 0 {
      RowTrianglesBounds(w, h, y, i0, x - 1);
    }
  }

  lemma {:induction false} MeshTrianglesLength(w: int, h: int, y: int)
    requires w >= 1 && h >= 1 && 0 <= y <= h
    ensures |MeshTriangles(w, h, y)| == 6 * ((if y < h - 1 then y else h - 1) * (w - 1))
    decreases y
  {
    if y > 0 {
      MeshTrianglesLength(w, h, y - 1);
      var i0 := (y - 1) * w;
      RowTrianglesLength(w, h, y - 1, i0, w);
      var prev := MeshTriangles(w, h, y - 1);
      var row := RowTriangles(w, h, y - 1, i0, w);
      assert MeshTriangles(w, h, y) == prev + row;
      if y - 1 < h - 1 {
        MulSucc(y, w - 1);
        assert |prev + row| == 6 * ((y - 1) * (w - 1)) + 6 * (w - 1);
      } else {
        assert |row| == 0;
      }
    }
  }

  lemma MulSucc(a: int, b: int)
    ensures (a - 1) * b + b == a * b
  {
  }

  /** Extending a list by row `y` up to sample `x + 1` appends the value at `(x, y)`. */
  lemma AppendRow<T>(s: seq<T>, y: int, x: int, f: (int, int) -> T)
    requires x >= 0
    ensures s + Row(y, x + 1, f) == (s + Row(y, x, f)) + [f(x, y)]
  {
    assert Row(y, x + 1, f) == Row(y, x, f) + [f(x, y)];
  }

  /** Extending a list by the squares of row `y` up to sample `x + 1` appends
      the square of sample `(x, y)`, if it has one. */
  lemma AppendRowTriangles(t: seq<int>, w: int, h: int, y: int, i0: int, x: int)
    requires x >= 0
    ensures t + RowTriangles(w, h, y, i0, x + 1) ==
      (t + RowTriangles(w, h, y, i0, x)) + (if x < w - 1 && y < h - 1 then Quad(i0 + x, w) else [])
  {
    var q := if x < w - 1 && y < h - 1 then Quad(i0 + x, w) else [];
    assert RowTriangles(w, h, y, i0, x + 1) == RowTriangles(w, h, y, i0, x) + q;
  }

  lemma {:induction false} MeshQuadAt(w: int, h: int, y: int, xx: int, yy: int)
    requires w >= 1 && 0 <= xx < w - 1 && 0 <= yy < y <= h && yy < h - 1
    ensures 6 * (yy * (w - 1) + xx) + 6 <= |MeshTriangles(w, h, y)|
    ensures forall n :: 6 * (yy * (w - 1) + xx) <= n < 6 * (yy * (w - 1) + xx) + 6 ==>
      MeshTriangles(w, h, y)[n] == Quad(yy * w + xx, w)[n - 6 * (yy * (w - 1) + xx)]
    decreases y
  {
    var prev := MeshTriangles(w, h, y - 1);
    var row := RowTriangles(w, h, y - 1, (y - 1) * w, w);
    assert MeshTriangles(w, h, y) == prev + row;
    var n := 6 * (yy * (w - 1) + xx);
    if yy == y - 1 {
      MeshTrianglesLength(w, h, y - 1);
      RowQuadAt(w, h, yy, yy * w, w, xx);
      assert |prev| == 6 * (yy * (w - 1));
      forall m | n <= m < n + 6
        ensures (prev + row)[m] == Quad(yy * w + xx, w)[m - n]
      {
        assert (prev + row)[m] == row[m - n + 6 * xx];
      }
    } else {
      MeshQuadAt(w, h, y - 1, xx, yy);
    }
  }

  lemma {:induction false} MeshTrianglesBounds(w: int, h: int, y: int)
    requires w >= 0 && 0 <= y <= h
    ensures forall n :: 0 <= n < |MeshTriangles(w, h, y)| ==> 0 <= MeshTriangles(w, h, y)[n] < w * h
    decreases y
  {
    if y > 0 {
      MeshTrianglesBounds(w, h, y - 1);
      RowTrianglesBounds(w, h, y - 1, (y - 1) * w, w);
      var prev := MeshTriangles(w, h, y - 1);
      var row := RowTriangles(w, h, y - 1, (y - 1) * w, w);
      if y - 1 < h - 1 {
        MulMono(y + 1, h, w);
        MulMono(0, y - 1, w);
        assert (y - 1) * w + 2 * w == (y + 1) * w;
      } else {
        NoSquaresInRow(w, h, y - 1, (y - 1) * w, w);
      }
      forall n | 0 <= n < |prev + row|
        ensures 0 <= (prev + row)[n] < w * h
      {
        if n >= |prev| {
          assert (prev + row)[n] == row[n - |prev|];
        }
      }
    }
  }

  /** With `w, h >= 1` the loop emits `6*(w-1)*(h-1)` indices, every one the
      index of a vertex (`[0, w*h)`). */
  lemma TriangleCount(w: int, h: int)
    requires w >= 1 && h >= 1
    ensures |MeshTriangles(w, h, h)| == 6 * ((w - 1) * (h - 1))
    ensures forall n :: 0 <= n < |MeshTriangles(w, h, h)| ==> 0 <= MeshTriangles(w, h, h)[n] < w * h
  {
    MeshTrianglesLength(w, h, h);
    MeshTrianglesBounds(w, h, h);
  }

  /** The six indices of the square at sample `(x, y)`, `i == y*w + x`, are
      `(i+w, i+w+1, i)` then `(i+1, i, i+w+1)`, squares taken row by row. */
  lemma QuadLayout(w: int, h: int, x: int, y: int)
    requires 0 <= x < w - 1 && 0 <= y < h - 1
    ensures 6 * (y * (w - 1) + x) + 6 <= |MeshTriangles(w, h, h)|
    ensures MeshTriangles(w, h, h)[6 * (y * (w - 1) + x) .. 6 * (y * (w - 1) + x) + 6] == Quad(y * w + x, w)
  {
    MeshQuadAt(w, h, h, x, y);
    var n := 6 * (y * (w - 1) + x);
    assert MeshTriangles(w, h, h)[n .. n + 6] == Quad(y * w + x, w);
  }

  /** A mesh one sample wide or high has no squares and so no triangles. */
  lemma {:induction false} ThinMeshHasNoTriangles(w: int, h: int, y: int)
    requires w <= 1 || h <= 1
    ensures MeshTriangles(w, h, y) == []
    decreases y
  {
    if y > 0 {
      ThinMeshHasNoTriangles(w, h, y - 1);
      NoSquaresInRow(w, h, y - 1, (y - 1) * w, w);
    }
  }

  lemma {:induction false} NoSquaresInRow(w: int, h: int, y: int, i0: int, x: int)
    requires w <= 1 || y >= h - 1
    ensures RowTriangles(w, h, y, i0, x) == []
    decreases x
  {
    if x > 0 {
      NoSquaresInRow(w, h, y, i0, x - 1);
    }
  }

  // ---------------------------------------------------------------------------
  // Colours

  /** The colour left after testing the first `n` regions in order against
      `height`, starting from `prior`: each region whose limit exceeds the
      height overwrites the colour. */
  function Band(regions: seq<MapRegion>, height: real, n: nat, prior: Color): Color
    requires n <= |regions|
  {
    if n == 0 then prior
    else if height < regions[n - 1].height then regions[n - 1].color
    else Band(regions, height, n - 1, prior)
  }

  /** The band colour is the colour of the LAST region in array order whose
      limit exceeds the height, and the prior colour when there is none. */
  lemma {:induction false} BandIsLastMatch(regions: seq<MapRegion>, height: real, n: nat, prior: Color)
    requires n <= |regions|
    ensures (forall k :: 0 <= k < n ==> regions[k].height <= height) ==> Band(regions, height, n, prior) == prior
    ensures forall k :: 0 <= k < n && height < regions[k].height &&
                        (forall j :: k < j < n ==> regions[j].height <= height) ==>
      Band(regions, height, n, prior) == regions[k].color
  {
    if n > 0 {
      BandIsLastMatch(regions, height, n - 1, prior);
      forall k | 0 <= k < n - 1 && height < regions[k].height &&
                 (forall j :: k < j < n ==> regions[j].height <= height)
        ensures Band(regions, height, n, prior) == regions[k].color
      {
        assert regions[n - 1].height <= height;
      }
    }
  }

  function ColourSampler(regions: seq<MapRegion>, hgt: (int, int) -> real): (int, int) -> Color
  {
    (x: int, y: int) => Band(regions, hgt(x, y), |regions|, ClearColor)
  }

  /** `colors[y*w + x]` is the colour of the last region whose limit exceeds
      the height of sample `(x, y)`, and stays `ClearColor` when there is none. */
  lemma ColourLayout(w: int, h: int, regions: seq<MapRegion>, hgt: (int, int) -> real, x: int, y: int)
    requires 0 <= x < w && 0 <= y < h
    ensures |RowMajor(w, h, ColourSampler(regions, hgt))| == w * h
    ensures 0 <= y * w + x < w * h
    ensures (forall k :: 0 <= k < |regions| ==> regions[k].height <= hgt(x, y)) ==>
      RowMajor(w, h, ColourSampler(regions, hgt))[y * w + x] == ClearColor
    ensures forall k :: 0 <= k < |regions| && hgt(x, y) < regions[k].height &&
                        (forall j :: k < j < |regions| ==> regions[j].height <= hgt(x, y)) ==>
      RowMajor(w, h, ColourSampler(regions, hgt))[y * w + x] == regions[k].color
  {
    RowMajorAt(w, h, ColourSampler(regions, hgt), x, y);
    BandIsLastMatch(regions, hgt(x, y), |regions|, ClearColor);
  }

  // ---------------------------------------------------------------------------
  // The shared loop of both `Generate` methods

  /** The region loop for one vertex: every region whose limit exceeds
      `height` overwrites `colors[i]`, in array order. */
  method PaintVertex(colors: array<Color>, i: int, regions: seq<MapRegion>, height: real)
    requires 0 <= i < colors.Length
    modifies colors
    ensures colors[i] == Band(regions, height, |regions|, old(colors[i]))
    ensures forall k :: 0 <= k < colors.Length && k != i ==> colors[k] == old(colors[k])
  {
    ghost var prior := colors[i];
    for regionIndex := 0 to |regions|
      invariant colors[i] == Band(regions, height, regionIndex, prior)
      invariant forall k :: 0 <= k < colors.Length && k != i ==> colors[k] == old(colors[k])
    {
      if height < regions[regionIndex].height {
        colors[i] := regions[regionIndex].color;
      }
    }
  }

  /** One step of a row: paints sample `x` of row `y`, whose height is
      `height`, at index `i + x`, so the painted prefix grows by that
      sample's colour. */
  method PaintSample(colors: array<Color>, i: int, x: int, y: int, regions: seq<MapRegion>,
                     hgt: (int, int) -> real, height: real, ghost base: seq<Color>)
    requires 0 <= i && 0 <= x && i + x < colors.Length && height == hgt(x, y)
    requires colors[..i + x] == base + Row(y, x, ColourSampler(regions, hgt))
    requires colors[i + x] == ClearColor
    modifies colors
    ensures colors[..i + x + 1] == base + Row(y, x + 1, ColourSampler(regions, hgt))
    ensures forall k :: 0 <= k < colors.Length && k != i + x ==> colors[k] == old(colors[k])
  {
    ghost var done := colors[..i + x];
    PaintVertex(colors, i + x, regions, height);
    assert colors[..i + x + 1] == done + [ColourSampler(regions, hgt)(x, y)];
    AppendRow(base, y, x, ColourSampler(regions, hgt));
  }

  /** One pass of the inner loop of `Generate` over row `y`, whose first
      sample has index `i`: each sample's vertex is appended, the
      square of each sample not on the last column or row is appended, and
      each sample's colour is painted over the clear slot `i + x`. */
  method BuildRow(w: int, h: int, y: int, i: int, scale: real, regions: seq<MapRegion>, hgt: (int, int) -> real,
                  colors: array<Color>, vertices: seq<Vertex>, triangles: seq<int>)
    returns (vertices': seq<Vertex>, triangles': seq<int>)
    requires 0 <= w && 0 <= i && i + w <= colors.Length
    requires forall k :: i <= k < colors.Length ==> colors[k] == ClearColor
    modifies colors
    ensures vertices' == vertices + Row(y, w, VertexSampler(w, h, hgt, scale))
    ensures triangles' == triangles + RowTriangles(w, h, y, i, w)
    ensures colors[..i + w] == old(colors[..i]) + Row(y, w, ColourSampler(regions, hgt))
    ensures forall k :: i + w <= k < colors.Length ==> colors[k] == ClearColor
  {
    var vf, cf := VertexSampler(w, h, hgt, scale), ColourSampler(regions, hgt);
    vertices', triangles' := vertices, triangles;
    var x := 0;
    while x < w
      invariant 0 <= x <= w
      invariant vertices' == vertices + Row(y, x, vf)
      invariant triangles' == triangles + RowTriangles(w, h, y, i, x)
      invariant colors[..i + x] == old(colors[..i]) + Row(y, x, cf)
      invariant forall k :: i + x <= k < colors.Length ==> colors[k] == ClearColor
    {
      var height := hgt(x, y);
      AppendRow(vertices, y, x, vf);
      vertices' := vertices' + [VertexAt(w, h, x, y, height, scale)];
      AppendRowTriangles(triangles, w, h, y, i, x);
      if x < w - 1 && y < h - 1 {
        triangles' := triangles' + Quad(i + x, w);
      }
      PaintSample(colors, i, x, y, regions, hgt, height, old(colors[..i]));
      x := x + 1;
    }
  }

  /** The nested loops of `Generate`: for each sample, row by row, append its
      vertex, append the two triangles of its square unless it lies on the
      last column or row, and paint its colour; `i` counts the samples. The
      lists and the colour array end up as `RowMajor` and `MeshTriangles`
      describe them; with a negative size no sample is painted and every
      colour stays clear. */
  method BuildMesh(w: int, h: int, scale: real, regions: seq<MapRegion>, hgt: (int, int) -> real,
                   colors: array<Color>)
    returns (vertices: seq<Vertex>, triangles: seq<int>)
    requires w * h >= 0 && colors.Length == w * h
    requires forall k :: 0 <= k < colors.Length ==> colors[k] == ClearColor
    modifies colors
    ensures vertices == RowMajor(w, h, VertexSampler(w, h, hgt, scale))
    ensures triangles == MeshTriangles(w, h, h)
    ensures w >= 0 && h >= 0 ==> colors[..] == RowMajor(w, h, ColourSampler(regions, hgt))
    ensures w < 0 || h < 0 ==> forall k :: 0 <= k < colors.Length ==> colors[k] == ClearColor
  {
    vertices, triangles := [], [];
    if w < 0 {
      // The outer loop still runs, but no row has a sample.
      NoColumnsNoSamples(w, h, VertexSampler(w, h, hgt, scale));
      ThinMeshHasNoTriangles(w, h, h);
      return;
    }
    var y := 0;
    var i := 0;
    while y < h
      invariant 0 <= y && (y <= h || y == 0)
      invariant vertices == RowMajor(w, y, VertexSampler(w, h, hgt, scale))
      invariant triangles == MeshTriangles(w, h, y)
      invariant i == y * w && 0 <= i <= colors.Length
      invariant colors[..i] == RowMajor(w, y, ColourSampler(regions, hgt))
      invariant forall k :: i <= k < colors.Length ==> colors[k] == ClearColor
    {
      MulMono(y + 1, h, w);
      assert y * w + w == (y + 1) * w;
      vertices, triangles := BuildRow(w, h, y, i, scale, regions, hgt, colors, vertices, triangles);
      i := i + w;
      y := y + 1;
    }
    assert colors[..i] == colors[..];
  }

  // ---------------------------------------------------------------------------
  // The two generators

  /** `MeshMapGenerator`: heights come from the fractal noise `GetHeight`,
      sampled with an offset drawn afresh on every `Generate`. */
  class MeshMapGenerator {
    var mapWidth: int
    var mapHeight: int
    var scale: real
    var octaves: int
    var regions: seq<MapRegion>
    /** `GetHeight(x, y, offset)`: the octave sum of Perlin noise, supplied. */
    const getHeight: (int, int, int) -> real
    var vertices: seq<Vertex>
    var triangles: seq<int>
    var colors: array<Color>

    constructor(mapWidth: int, mapHeight: int, scale: real, octaves: int, regions: seq<MapRegion>,
                getHeight: (int, int, int) -> real)
      ensures this.mapWidth == mapWidth && this.mapHeight == mapHeight && this.scale == scale
      ensures this.octaves == octaves && this.regions == regions && this.getHeight == getHeight
      ensures vertices == [] && triangles == [] && fresh(colors) && colors.Length == 0
    {
      this.mapWidth := mapWidth;
      this.mapHeight := mapHeight;
      this.scale := scale;
      this.octaves := octaves;
      this.regions := regions;
      this.getHeight := getHeight;
      vertices, triangles := [], [];
      colors := new Color[0];
    }

    /** The sampler of one `Generate` call, for the drawn `offset`. */
    function Sampler(offset: int): (int, int) -> real
    {
      (x: int, y: int) => getHeight(x, y, offset)
    }

    /** `Generate`, for the offset `random.Next(-10000, 10000)` drew. When
        `mapWidth * mapHeight` is negative, allocating the colour array
        throws after both lists have been emptied (`thrown`); otherwise the
        lists and a fresh colour array hold the mesh. */
    method Generate(offset: int) returns (thrown: bool)
      requires -10000 <= offset < 10000
      modifies this`vertices, this`triangles, this`colors
      ensures thrown <==> mapWidth * mapHeight < 0
      ensures thrown ==> vertices == [] && triangles == [] && colors == old(colors)
      ensures !thrown ==>
        && fresh(colors) && colors.Length == mapWidth * mapHeight
        && vertices == RowMajor(mapWidth, mapHeight, VertexSampler(mapWidth, mapHeight, Sampler(offset), scale))
        && triangles == MeshTriangles(mapWidth, mapHeight, mapHeight)
        && (mapWidth >= 0 && mapHeight >= 0 ==> colors[..] == RowMajor(mapWidth, mapHeight, ColourSampler(regions, Sampler(offset))))
        && (mapWidth < 0 || mapHeight < 0 ==> forall k :: 0 <= k < colors.Length ==> colors[k] == ClearColor)
    {
      vertices, triangles := [], [];
      if mapWidth * mapHeight < 0 {
        return true;
      }
      thrown := false;
      colors := new Color[mapWidth * mapHeight](_ => ClearColor);
      vertices, triangles := BuildMesh(mapWidth, mapHeight, scale, regions, Sampler(offset), colors);
    }

    /** `OnValidate`: a non-positive octave count becomes 1, any other is kept. */
    method OnValidate()
      modifies this`octaves
      ensures octaves == ClampOctaves(old(octaves))
      ensures octaves >= 1 && (old(octaves) >= 1 ==> octaves == old(octaves))
    {
      if octaves <= 0 {
        octaves := 1;
      }
    }
  }

  /** `MapGenerator`: one Perlin sample per vertex, supplied as `getHeight`. */
  class MapGenerator {
    var mapWidth: int
    var mapHeight: int
    var scale: real
    var regions: seq<MapRegion>
    /** `GetHeight(x, y)`: a Perlin sample shifted by the seed, supplied. */
    const getHeight: (int, int) -> real
    var vertices: seq<Vertex>
    var triangles: seq<int>
    var colors: array<Color>

    constructor(mapWidth: int, mapHeight: int, scale: real, regions: seq<MapRegion>, getHeight: (int, int) -> real)
      ensures this.mapWidth == mapWidth && this.mapHeight == mapHeight && this.scale == scale
      ensures this.regions == regions && this.getHeight == getHeight
      ensures vertices == [] && triangles == [] && fresh(colors) && colors.Length == 0
    {
      this.mapWidth := mapWidth;
      this.mapHeight := mapHeight;
      this.scale := scale;
      this.regions := regions;
      this.getHeight := getHeight;
      vertices, triangles := [], [];
      colors := new Color[0];
    }

    /** `Generate`: as in `MeshMapGenerator`, with the seed-shifted sampler. */
    method Generate() returns (thrown: bool)
      modifies this`vertices, this`triangles, this`colors
      ensures thrown <==> mapWidth * mapHeight < 0
      ensures thrown ==> vertices == [] && triangles == [] && colors == old(colors)
      ensures !thrown ==>
        && fresh(colors) && colors.Length == mapWidth * mapHeight
        && vertices == RowMajor(mapWidth, mapHeight, VertexSampler(mapWidth, mapHeight, getHeight, scale))
        && triangles == MeshTriangles(mapWidth, mapHeight, mapHeight)
        && (mapWidth >= 0 && mapHeight >= 0 ==> colors[..] == RowMajor(mapWidth, mapHeight, ColourSampler(regions, getHeight)))
        && (mapWidth < 0 || mapHeight < 0 ==> forall k :: 0 <= k < colors.Length ==> colors[k] == ClearColor)
    {
      vertices, triangles := [], [];
      if mapWidth * mapHeight < 0 {
        return true;
      }
      thrown := false;
      colors := new Color[mapWidth * mapHeight](_ => ClearColor);
      vertices, triangles := BuildMesh(mapWidth, mapHeight, scale, regions, getHeight, colors);
    }
  }
}
