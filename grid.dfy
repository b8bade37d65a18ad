/** Shared vocabulary of the two grid algorithms: positions, the tile matrix and adjacency. */
module Grid {

  datatype Option<T> = None | Some(value: T)

  /** A cell coordinate `(x, y)`: `x` is the column, `y` the row. */
  type Pos = (int, int)

  /** The tile matrix of the game, indexed as `tiles[y][x]`. */
  type Tiles = seq<seq<int>>

  /** The four moves of a grid step, in the order East, South, West, North. */
  const Moves: seq<Pos> := [(1, 0), (0, 1), (-1, 0), (0, -1)]

  function Abs(n: int): nat { if n < 0 then -n else n }

  function Add(p: Pos, d: Pos): Pos { (p.0 + d.0, p.1 + d.1) }

  /** Two cells are 4-neighbours. */
  predicate Adjacent(p: Pos, q: Pos) {
    Abs(p.0 - q.0) + Abs(p.1 - q.1) == 1
  }

  predicate Rectangular<T>(g: seq<seq<T>>, width: int, height: int) {
    |g| == height && forall y :: 0 <= y < height ==> |g[y]| == width
  }

  predicate InBounds<T>(g: seq<seq<T>>, p: Pos) {
    0 <= p.1 < |g| && 0 <= p.0 < |g[p.1]|
  }

  function TileAt(g: Tiles, p: Pos): int
    requires InBounds(g, p)
  {
    g[p.1][p.0]
  }

  /** The matrix with cell `p` set to `v`. */
  function Write<T>(g: seq<seq<T>>, p: Pos, v: T): seq<seq<T>>
    requires InBounds(g, p)
  {
    g[p.1 := g[p.1][p.0 := v]]
  }

  /** Writing one cell keeps the shape and changes that cell only. */
  lemma WriteAt<T>(g: seq<seq<T>>, p: Pos, v: T)
    requires InBounds(g, p)
    ensures |Write(g, p, v)| == |g| && forall i :: 0 <= i < |g| ==> |Write(g, p, v)[i]| == |g[i]|
    ensures forall x :: InBounds(Write(g, p, v), x) <==> InBounds(g, x)
    ensures forall x :: InBounds(g, x) ==> Write(g, p, v)[x.1][x.0] == if x == p then v else g[x.1][x.0]
  {
  }

  /** Writing one cell, seen from one cell `x`. */
  lemma WrittenCell<T>(g: seq<seq<T>>, p: Pos, v: T, x: Pos)
    requires InBounds(g, p)
    ensures InBounds(Write(g, p, v), x) <==> InBounds(g, x)
    ensures InBounds(g, x) ==> Write(g, p, v)[x.1][x.0] == if x == p then v else g[x.1][x.0]
  {
  }

  /** `g` is the current value of the matrix `a`, indexed `a[y, x]` like `g[y][x]`. */
  ghost predicate Mirrors<T>(a: array2<T>, g: seq<seq<T>>)
    reads a
  {
    && |g| == a.Length0 && (forall i :: 0 <= i < |g| ==> |g[i]| == a.Length1)
    && forall i, j :: 0 <= i < a.Length0 && 0 <= j < a.Length1 ==> a[i, j] == g[i][j]
  }

  /** `a[p.1, p.0] := v`, and the value read through `Mirrors` is updated to match. */
  method SetCell<T>(a: array2<T>, p: Pos, v: T, ghost g: seq<seq<T>>) returns (ghost g': seq<seq<T>>)
    requires Mirrors(a, g) && InBounds(g, p)
    modifies a
    ensures Mirrors(a, g') && g' == Write(g, p, v)
  {
    a[p.1, p.0] := v;
    g' := Write(g, p, v);
    forall i, j | 0 <= i < a.Length0 && 0 <= j < a.Length1 ensures a[i, j] == g'[i][j] {
      if (j, i) != p {
        assert a[i, j] == old(a[i, j]);
      }
    }
  }

  /** Every cell of a `width` x `height` rectangle. */
  function Cells(width: nat, height: nat): set<Pos> {
    set x, y | 0 <= x < width && 0 <= y < height :: (x, y)
  }

  function RowCells(width: nat, y: int): set<Pos> {
    set x | 0 <= x < width :: (x, y)
  }

  lemma {:induction false} RowCellsCard(width: nat, y: int)
    ensures |RowCells(width, y)| == width
  {
    if width > 0 {
      assert RowCells(width, y) == RowCells(width - 1, y) + {(width - 1, y)};
      RowCellsCard(width - 1, y);
    } else {
      assert RowCells(width, y) == {};
    }
  }

  /** A rectangle is the rectangle one row lower plus its top row. */
  lemma CellsSplit(width: nat, height: nat)
    requires height > 0
    ensures Cells(width, height) == Cells(width, height - 1) + RowCells(width, height - 1)
    ensures Cells(width, height - 1) !! RowCells(width, height - 1)
  {
    forall p | p in Cells(width, height) ensures p in Cells(width, height - 1) + RowCells(width, height - 1) {
      assert p == (p.0, p.1);
    }
  }

  /** A rectangle has exactly `width * height` cells. */
  lemma {:induction false} CellsCard(width: nat, height: nat)
    ensures |Cells(width, height)| == width * height
  {
    if height > 0 {
      CellsSplit(width, height);
      CellsCard(width, height - 1);
      RowCellsCard(width, height - 1);
      assert width * height == width * (height - 1) + width;
    } else {
      assert Cells(width, height) == {};
    }
  }

  /** In a `width` x `height` matrix, the cells in bounds are those of the rectangle. */
  lemma InCells<T>(g: seq<seq<T>>, width: nat, height: nat, p: Pos)
    requires Rectangular(g, width, height)
    ensures InBounds(g, p) <==> p in Cells(width, height)
  {
    if InBounds(g, p) {
      assert p == (p.0, p.1);
    }
  }

  /** A subset is no larger than its superset. */
  lemma {:induction false} SubsetCard<T>(a: set<T>, b: set<T>)
    requires a <= b
    ensures |a| <= |b|
  {
    if a != {} {
      var x :| x in a;
      SubsetCard(a - {x}, b - {x});
    }
  }

  /** Four-neighbours differ by exactly one of the four moves. */
  lemma AdjacentMove(u: Pos, v: Pos)
    requires Adjacent(u, v)
    ensures exists k :: 0 <= k < 4 && v == Add(u, Moves[k])
  {
    if v == Add(u, Moves[0]) {
    } else if v == Add(u, Moves[1]) {
    } else if v == Add(u, Moves[2]) {
    } else {
      assert v == Add(u, Moves[3]);
    }
  }

  /** No element occurs twice. */
  predicate Distinct<T(==)>(s: seq<T>) {
    forall i, j :: 0 <= i < j < |s| ==> s[i] != s[j]
  }

  lemma {:induction false} DistinctOnce<T>(s: seq<T>, x: T)
    requires Distinct(s)
    ensures multiset(s)[x] <= 1
  {
    if |s| > 0 {
      assert s == [s[0]] + s[1..];
      assert Distinct(s[1..]) by {
        forall i, j | 0 <= i < j < |s[1..]| ensures s[1..][i] != s[1..][j] {
          assert s[1..][i] == s[i + 1] && s[1..][j] == s[j + 1];
        }
      }
      DistinctOnce(s[1..], x);
      if s[0] == x {
        assert x !in s[1..];
      }
    }
  }

  /** Whatever is drawn without replacement from a sequence with no repeats has no repeats either. */
  lemma SubDistinct<T>(r: seq<T>, population: seq<T>)
    requires Distinct(population) && multiset(r) <= multiset(population)
    ensures Distinct(r)
  {
    forall i, j | 0 <= i < j < |r| ensures r[i] != r[j] {
      if r[i] == r[j] {
        assert r == r[..i] + [r[i]] + r[i + 1..j] + [r[j]] + r[j + 1..];
        assert multiset(r)[r[i]] >= 2;
        DistinctOnce(population, r[i]);
        assert false;
      }
    }
  }
}
