/** Grid coordinates shared by every part of the model: the `Vector2Int`
    cells of the terrain grids, their offsets, bounds and distances. */
module Grid {

  /** A grid cell or an offset between two cells (Unity's `Vector2Int`). */
  datatype Cell = Cell(x: int, y: int)
  {
    function Plus(d: Cell): Cell { Cell(x + d.x, y + d.y) }
    function Minus(c: Cell): Cell { Cell(x - c.x, y - c.y) }
  }

  /** The conventional optional value, standing for a C# `null` result. */
  datatype Option<T> = None | Some(value: T)

  /** `c` lies in `[0,width) x [0,height)`. */
  predicate InRect(c: Cell, width: int, height: int)
  {
    0 <= c.x < width && 0 <= c.y < height
  }

  /** `c` lies in the square `[0,res)^2` of a heightmap of resolution `res`. */
  predicate InGrid(c: Cell, res: int)
  {
    InRect(c, res, res)
  }

  /** `c` is one of the cells `(0,y) .. (width-1,y)` of row `y`. */
  predicate InRow(c: Cell, width: int, y: int)
  {
    0 <= c.x < width && c.y == y
  }

  /** The cells of row `y`, as a finite set. */
  function RowCells(width: int, y: int): (s: set<Cell>)
    ensures forall c :: c in s <==> InRow(c, width, y)
    decreases width
  {
    if width <= 0 then {} else RowCells(width - 1, y) + {Cell(width - 1, y)}
  }

  /** All cells of `[0,width) x [0,height)`, as a finite set, row by row. */
  function RectCells(width: int, height: int): (s: set<Cell>)
    ensures forall c :: c in s <==> InRect(c, width, height)
    decreases height
  {
    if height <= 0 then {} else RectCells(width, height - 1) + RowCells(width, height - 1)
  }

  function Abs(n: int): nat { if n < 0 then -n else n }

  /** Chebyshev length of an offset: the number of king moves it takes. */
  function Chebyshev(d: Cell): nat
  {
    if Abs(d.x) < Abs(d.y) then Abs(d.y) else Abs(d.x)
  }

  /** Manhattan distance between two cells. */
  function Manhattan(a: Cell, b: Cell): nat
  {
    Abs(a.x - b.x) + Abs(a.y - b.y)
  }

  /** C#'s `a / 2` on `int`, which truncates toward zero (Dafny's `/` is Euclidean):
      the quotient never overshoots `a` and the remainder keeps the sign of `a`. */
  function CsHalf(a: int): (q: int)
    ensures a >= 0 ==> 0 <= 2 * q <= a <= 2 * q + 1
    ensures a < 0 ==> 2 * q - 1 <= a <= 2 * q <= 0
  {
    if a >= 0 then a / 2 else -((-a) / 2)
  }

  /** C#'s `(int)` cast of a real: truncation toward zero (overflow not modelled). */
  function Truncate(r: real): (n: int)
    ensures r >= 0.0 ==> n as real <= r < n as real + 1.0
    ensures r < 0.0 ==> n as real - 1.0 < r <= n as real
  {
    if r >= 0.0 then r.Floor else -((-r).Floor)
  }

  // ---------------------------------------------------------------------------
  // Sequences

  function Reversed<T>(s: seq<T>): (r: seq<T>)
    ensures |r| == |s|
    ensures forall k :: 0 <= k < |s| ==> r[k] == s[|s| - 1 - k]
  {
    seq(|s|, k requires 0 <= k < |s| => s[|s| - 1 - k])
  }

  /** Reversing a sequence keeps its elements distinct. */
  lemma ReversedDistinct<T>(s: seq<T>)
    requires Distinct(s)
    ensures Distinct(Reversed(s))
  {
    var r := Reversed(s);
    forall i, j | 0 <= i < j < |r|
      ensures r[i] != r[j]
    {
      assert r[i] == s[|s| - 1 - i] && r[j] == s[|s| - 1 - j];
    }
  }

  /** Putting `x` in at position `j` adds exactly one `x`. */
  lemma InsertAdds<T>(s: seq<T>, x: T, j: int)
    requires 0 <= j <= |s|
    ensures multiset(s[..j] + [x] + s[j..]) == multiset(s) + multiset{x}
  {
    assert s == s[..j] + s[j..];
  }

  /** The set of the elements of a sequence. */
  function Elements<T>(s: seq<T>): set<T>
  {
    set x | x in s
  }

  predicate Distinct<T(==)>(s: seq<T>)
  {
    forall i, j :: 0 <= i < j < |s| ==> s[i] != s[j]
  }

  lemma {:induction false} DistinctCard<T>(s: seq<T>)
    requires Distinct(s)
    ensures |Elements(s)| == |s|
  {
    if |s| > 0 {
      var init := s[..|s| - 1];
      DistinctCard(init);
      assert Elements(s) == Elements(init) + {s[|s| - 1]};
      assert s[|s| - 1] !in Elements(init);
    }
  }

  lemma {:induction false} SeqCardBound<T>(s: seq<T>)
    ensures |Elements(s)| <= |s|
  {
    if |s| > 0 {
      var init := s[..|s| - 1];
      SeqCardBound(init);
      assert Elements(s) == Elements(init) + {s[|s| - 1]};
    }
  }

  lemma {:induction false} SubsetCard<T>(a: set<T>, b: set<T>)
    requires a <= b
    ensures |a| <= |b|
    decreases |b|
  {
    if a != {} {
      var x :| x in a;
      SubsetCard(a - {x}, b - {x});
    }
  }

  /** A repetition-free sequence drawn from the cells of `raw` is no longer than `raw`. */
  lemma DistinctWithinIsShorter<T>(p: seq<T>, raw: seq<T>)
    requires Distinct(p)
    requires forall k :: 0 <= k < |p| ==> p[k] in raw
    ensures |p| <= |raw|
  {
    DistinctCard(p);
    SeqCardBound(raw);
    SubsetCard(Elements(p), Elements(raw));
  }

  /** `OnValidate`: a non-positive octave count becomes 1, any other is kept. */
  function ClampOctaves(octaves: int): (r: int)
    ensures r >= 1
    ensures octaves <= 0 ==> r == 1
    ensures octaves >= 1 ==> r == octaves
  {
    if octaves <= 0 then 1 else octaves
  }
}
