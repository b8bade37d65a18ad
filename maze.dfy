/**
 * Maze generation (maps/maze_generator.py): a wall-filled matrix is carved by
 * a randomized depth-first search on the lattice of odd cells, the outer frame
 * is re-walled, one exit is cut into the frame and some interior walls are
 * knocked out. The matrix is an `array2<int>` indexed `[y, x]` and changed in
 * place, as the Python list of lists is. Each method carries the matrix's
 * contents along as a ghost `Tiles` value (`Grid.Mirrors`), and every
 * property is stated on that value.
 * Tiles: 0 floor, 1 wall, 2 exit.
 */
module MazeGenerator {
  import opened Grid
  import opened Oracle

  /** The cell the carve starts from. */
  const Root: Pos := (1, 1)

  /** The direction list the carve shuffles, in its initial order. */
  const Directions: seq<Pos> := [(1, 0), (-1, 0), (0, 1), (0, -1)]

  /** One of the four carve directions. */
  predicate IsDirection(d: Pos) {
    d in Directions
  }

  function Width(g: Tiles): int { if |g| == 0 then 0 else |g[0]| }

  /** Every row has the same length. */
  predicate Rect(g: Tiles) {
    forall i :: 0 <= i < |g| ==> |g[i]| == Width(g)
  }

  /** `g` and `g'` have the same shape. */
  predicate SameShape(g: Tiles, g': Tiles) {
    |g| == |g'| && forall i :: 0 <= i < |g| ==> |g[i]| == |g'[i]|
  }

  predicate Odd(n: int) { n % 2 == 1 }

  /** A carve "room": an in-bounds cell with two odd coordinates. */
  predicate Room(g: Tiles, p: Pos) {
    InBounds(g, p) && Odd(p.0) && Odd(p.1)
  }

  /** A cell the carve can open: a room, or the door between two rooms. */
  predicate LatticeCell(g: Tiles, p: Pos) {
    && InBounds(g, p)
    && (|| Room(g, p)
        || (Odd(p.1) && !Odd(p.0) && Room(g, (p.0 - 1, p.1)) && Room(g, (p.0 + 1, p.1)))
        || (Odd(p.0) && !Odd(p.1) && Room(g, (p.0, p.1 - 1)) && Room(g, (p.0, p.1 + 1))))
  }

  predicate OnFrame(g: Tiles, p: Pos) {
    p.0 == 0 || p.0 == Width(g) - 1 || p.1 == 0 || p.1 == |g| - 1
  }

  predicate Interior(g: Tiles, p: Pos) {
    0 < p.0 < Width(g) - 1 && 0 < p.1 < |g| - 1
  }

  predicate Corner(g: Tiles, p: Pos) {
    (p.0 == 0 || p.0 == Width(g) - 1) && (p.1 == 0 || p.1 == |g| - 1)
  }

  /** The cell one step from a (non-corner) frame cell towards the interior. */
  function Inward(w: int, h: int, e: Pos): Pos {
    if e.1 == 0 then (e.0, 1)
    else if e.0 == w - 1 then (w - 2, e.1)
    else if e.1 == h - 1 then (e.0, h - 2)
    else (1, e.1)
  }

  /** The cell two steps away in direction `d`. */
  function Jump(p: Pos, d: Pos): Pos { (p.0 + 2 * d.0, p.1 + 2 * d.1) }

  /** `q` is off the grid or not a wall. */
  predicate OpenOrOff(g: Tiles, q: Pos) {
    InBounds(g, q) ==> TileAt(g, q) != 1
  }

  /** Every room two steps from `p` has been carved: the carve is finished at `p`. */
  predicate Closed(g: Tiles, p: Pos) {
    OpenOrOff(g, (p.0 + 2, p.1)) && OpenOrOff(g, (p.0 - 2, p.1)) &&
    OpenOrOff(g, (p.0, p.1 + 2)) && OpenOrOff(g, (p.0, p.1 - 2))
  }

  /** From `g` to `g'` the shape is kept and every cell is kept or changed. */
  predicate OnlyOpens(g: Tiles, g': Tiles) {
    && SameShape(g, g')
    && forall i, j :: 0 <= i < |g| && 0 <= j < |g[i]| ==> g'[i][j] == g[i][j] || g'[i][j] == 0
  }

  /**
   * The search tree of the carve, as ghost state: `par` gives each carved
   * cell the open neighbour it was reached from and `depth` strictly
   * decreases towards the root, so following `par` always ends at `Root`.
   */
  ghost predicate TreeLinks(par: map<Pos, Pos>, depth: map<Pos, nat>) {
    && par.Keys == depth.Keys
    && (depth != map[] ==> Root in depth)
    && forall p {:trigger Linked(par, depth, p)} :: p in depth && p != Root ==> Linked(par, depth, p)
  }

  /**
   * `p` hangs below an adjacent tree cell of smaller depth. (A predicate of
   * its own so that the tree invariant is only unfolded one link at a time.)
   */
  ghost predicate Linked(par: map<Pos, Pos>, depth: map<Pos, nat>, p: Pos) {
    p in par && p in depth && par[p] in depth && Adjacent(par[p], p) && depth[par[p]] < depth[p]
  }

  /** The open cells of `g` are exactly the cells of the search tree, all of them lattice cells. */
  ghost predicate Carved(g: Tiles, par: map<Pos, Pos>, depth: map<Pos, nat>) {
    && TreeLinks(par, depth)
    && (forall p :: p in depth ==> LatticeCell(g, p) && TileAt(g, p) == 0)
    && (forall i, j {:trigger g[i][j]} :: 0 <= i < |g| && 0 <= j < |g[i]| && g[i][j] == 0 ==> (j, i) in depth)
  }

  /** The path from `Root` to `p` along the search tree. */
  ghost function TreePath(par: map<Pos, Pos>, depth: map<Pos, nat>, p: Pos): (path: seq<Pos>)
    requires TreeLinks(par, depth) && p in depth
    ensures |path| > 0 && path[0] == Root && path[|path| - 1] == p
    ensures forall i :: 0 <= i < |path| ==> path[i] in depth
    ensures forall i :: 0 < i < |path| ==> Adjacent(path[i - 1], path[i])
    decreases depth[p]
  {
    if p == Root then [p] else assert Linked(par, depth, p); TreePath(par, depth, par[p]) + [p]
  }

  /** A walk over floor (0) and exit (2) cells. */
  ghost predicate OpenPath(g: Tiles, path: seq<Pos>) {
    && |path| > 0
    && (forall i :: 0 <= i < |path| ==> InBounds(g, path[i]) && (TileAt(g, path[i]) == 0 || TileAt(g, path[i]) == 2))
    && (forall i :: 0 < i < |path| ==> Adjacent(path[i - 1], path[i]))
  }

  ghost predicate Connects(g: Tiles, from: Pos, to: Pos) {
    exists path :: OpenPath(g, path) && path[0] == from && path[|path| - 1] == to
  }

  /** After carving, every open cell can be reached from `Root` over open cells. */
  lemma CarvedConnected(g: Tiles, par: map<Pos, Pos>, depth: map<Pos, nat>, p: Pos)
    requires Carved(g, par, depth)
    requires InBounds(g, p) && TileAt(g, p) == 0
    ensures Connects(g, Root, p)
  {
    var path := TreePath(par, depth, p);
    assert OpenPath(g, path);
  }

  /** What writing one cell changes: only that cell's value. */
  lemma WriteCell(g: Tiles, c: Pos, v: int)
    requires InBounds(g, c)
    ensures SameShape(g, Write(g, c, v))
    ensures forall p :: InBounds(Write(g, c, v), p) <==> InBounds(g, p)
    ensures forall p :: LatticeCell(Write(g, c, v), p) <==> LatticeCell(g, p)
    ensures forall p :: InBounds(g, p) ==> TileAt(Write(g, c, v), p) == if p == c then v else TileAt(g, p)
  {
  }

  /** Hanging `c` below `from` (or planting it as the root) keeps the tree links. */
  lemma {:induction false} GrowTree(par: map<Pos, Pos>, depth: map<Pos, nat>, c: Pos, from: Pos)
    returns (par': map<Pos, Pos>, depth': map<Pos, nat>)
    requires TreeLinks(par, depth)
    requires c in depth || (depth == map[] && c == Root) || (from in depth && Adjacent(from, c))
    ensures TreeLinks(par', depth') && depth'.Keys == depth.Keys + {c}
  {
    if c in depth {
      par', depth' := par, depth;
    } else if depth == map[] {
      par', depth' := map[c := c], map[c := 0];
    } else {
      par', depth' := par[c := from], depth[c := depth[from] + 1];
      forall p | p in depth' && p != Root ensures Linked(par', depth', p) {
        if p != c {
          assert Linked(par, depth, p);
        }
      }
    }
  }

  /** `c` can join the tree: as its root, or below the tree cell `from` next to it. */
  ghost predicate Attaches(depth: map<Pos, nat>, from: Pos, c: Pos) {
    (depth == map[] && c == Root) || (from in depth && Adjacent(from, c))
  }

  /** Opening lattice cell `c` and hanging it below `from` keeps the carve invariant. */
  lemma OpenCell(g: Tiles, par: map<Pos, Pos>, depth: map<Pos, nat>, c: Pos, from: Pos)
    returns (par': map<Pos, Pos>, depth': map<Pos, nat>)
    requires Carved(g, par, depth) && LatticeCell(g, c)
    requires c in depth || Attaches(depth, from, c)
    ensures Carved(Write(g, c, 0), par', depth')
    ensures depth'.Keys == depth.Keys + {c}
    ensures OnlyOpens(g, Write(g, c, 0))
  {
    var g' := Write(g, c, 0);
    WriteCell(g, c, 0);
    par', depth' := GrowTree(par, depth, c, from);
    forall i, j | 0 <= i < |g'| && 0 <= j < |g'[i]|
      ensures g'[i][j] == g[i][j] || g'[i][j] == 0
    {
      assert InBounds(g, (j, i)) && TileAt(g', (j, i)) == g'[i][j];
    }
    forall p | p in depth' ensures LatticeCell(g', p) && TileAt(g', p) == 0 {
      if p != c {
        assert LatticeCell(g, p);
      }
    }
    forall i, j | 0 <= i < |g'| && 0 <= j < |g'[i]| && g'[i][j] == 0 ensures (j, i) in depth' {
      assert InBounds(g, (j, i)) && TileAt(g', (j, i)) == g'[i][j];
      if (j, i) != c {
        assert g[i][j] == 0;
      }
    }
  }

  /** Two steps from a room in one of the four directions, inside the grid, is a room. */
  lemma JumpRoom(g: Tiles, p: Pos, d: Pos)
    requires Room(g, p) && IsDirection(d) && InBounds(g, Jump(p, d))
    ensures Room(g, Jump(p, d))
  {
  }

  /** The cell between two rooms two steps apart is a door: a lattice cell that is not a room. */
  lemma Door(g: Tiles, p: Pos, d: Pos)
    requires Rect(g) && Room(g, p) && IsDirection(d) && Room(g, Jump(p, d))
    ensures LatticeCell(g, Add(p, d)) && !Room(g, Add(p, d))
    ensures Adjacent(p, Add(p, d)) && Adjacent(Add(p, d), Jump(p, d))
  {
  }

  /** Adding a cell of `c` to the carved set shrinks what is left to carve (the recursion measure). */
  lemma Shrinks(c: set<Pos>, keys: set<Pos>, keys': set<Pos>, p: Pos)
    requires keys <= keys' && p in c && p !in keys
    ensures c - keys' - {p} < c - keys
  {
    assert p in c - keys;
  }

  lemma CellsLeft(c: set<Pos>, keys: set<Pos>, keys': set<Pos>, p: Pos)
    requires keys' == keys + {p}
    ensures c - keys' == c - keys - {p}
  {
  }

  lemma ShrinksOrStays(c: set<Pos>, keys: set<Pos>, keys': set<Pos>)
    requires keys <= keys'
    ensures c - keys' < c - keys || c - keys' == c - keys
  {
  }

  lemma ClosedStaysClosed(g: Tiles, g': Tiles, p: Pos)
    requires OnlyOpens(g, g') && Closed(g, p)
    ensures Closed(g', p)
  {
  }

  lemma OpenStaysOpen(g: Tiles, g': Tiles, q: Pos)
    requires OnlyOpens(g, g') && OpenOrOff(g, q)
    ensures OpenOrOff(g', q)
  {
  }

  lemma OnlyOpensTrans(g0: Tiles, g1: Tiles, g2: Tiles)
    requires OnlyOpens(g0, g1) && OnlyOpens(g1, g2)
    ensures OnlyOpens(g0, g2)
  {
  }

  /** The four directions in the order `shuffle` leaves them. */
  method ShuffledDirections(rng: Random) returns (order: seq<Pos>)
    modifies rng
    ensures |order| == 4 && forall t :: 0 <= t < 4 ==> IsDirection(order[t])
    ensures (1, 0) in order && (-1, 0) in order && (0, 1) in order && (0, -1) in order
    ensures rng.draws == old(rng.draws) && rng.cursor == old(rng.cursor) + 3
  {
    var dirs := new Pos[4] [(1, 0), (-1, 0), (0, 1), (0, -1)];
    assert dirs[..] == Directions;
    rng.Shuffle(dirs);
    order := dirs[..];
    assert multiset(order) == multiset(Directions);
    forall d | d in Directions ensures d in order {
      assert d in multiset(order);
    }
    forall t | 0 <= t < 4 ensures IsDirection(order[t]) {
      assert order[t] in multiset(Directions);
    }
  }

  /**
   * `create_path(x, y)`: open `(x, y)`, shuffle the directions and try each
   * of them in turn. It is entered only at walls and opens them, so every
   * cell is entered at most once and the recursion is at most
   * `width * height` deep (the decreases clause). `g` is the matrix on entry
   * and `g'` on return; on return every room it changed, `(x, y)` included,
   * is closed.
   */
  method CreatePath(a: array2<int>, x: int, y: int, rng: Random, ghost g: Tiles,
                    ghost from: Pos, ghost par: map<Pos, Pos>, ghost depth: map<Pos, nat>)
    returns (ghost g': Tiles, ghost par': map<Pos, Pos>, ghost depth': map<Pos, nat>)
    requires Mirrors(a, g) && Room(g, (x, y)) && TileAt(g, (x, y)) == 1 && Carved(g, par, depth)
    requires Attaches(depth, from, (x, y))
    modifies a, rng
    decreases Cells(a.Length1, a.Length0) - depth.Keys - {(x, y)}, 2
    ensures Mirrors(a, g') && Carved(g', par', depth') && OnlyOpens(g, g')
    ensures rng.draws == old(rng.draws)
    ensures depth.Keys <= depth'.Keys && (x, y) in depth'
    ensures forall p {:trigger Closed(g', p)} :: p in depth' && p !in depth && Room(g', p) ==> Closed(g', p)
  {
    assert (x, y) !in depth;
    ghost var par1, depth1 := OpenCell(g, par, depth, (x, y), from);
    ghost var g1 := SetCell(a, (x, y), 0, g);
    var order := ShuffledDirections(rng);
    CellsLeft(Cells(a.Length1, a.Length0), depth.Keys, depth1.Keys, (x, y));
    WriteCell(g, (x, y), 0);
    g', par', depth' := TryAll(a, x, y, order, rng, g1, par1, depth1);
    OnlyOpensTrans(g, g1, g');
  }

  /**
   * The loop of `create_path` over the shuffled directions, from the room
   * `(x, y)` just changed. On return `(x, y)` and every room changed on the
   * way are closed.
   */
  method TryAll(a: array2<int>, x: int, y: int, order: seq<Pos>, rng: Random, ghost g: Tiles,
                ghost par: map<Pos, Pos>, ghost depth: map<Pos, nat>)
    returns (ghost g': Tiles, ghost par': map<Pos, Pos>, ghost depth': map<Pos, nat>)
    requires Mirrors(a, g) && Carved(g, par, depth) && Room(g, (x, y)) && (x, y) in depth
    requires |order| == 4 && forall t :: 0 <= t < 4 ==> IsDirection(order[t])
    requires (1, 0) in order && (-1, 0) in order && (0, 1) in order && (0, -1) in order
    modifies a, rng
    decreases Cells(a.Length1, a.Length0) - depth.Keys, 1
    ensures Mirrors(a, g') && Carved(g', par', depth') && OnlyOpens(g, g')
    ensures rng.draws == old(rng.draws)
    ensures depth.Keys <= depth'.Keys
    ensures forall p {:trigger Closed(g', p)} :: p in depth' && (p !in depth || p == (x, y)) && Room(g', p) ==> Closed(g', p)
  {
    g', par', depth' := g, par, depth;
    for k := 0 to 4
      invariant Mirrors(a, g') && Carved(g', par', depth') && OnlyOpens(g, g')
      invariant rng.draws == old(rng.draws)
      invariant depth.Keys <= depth'.Keys && Room(g', (x, y))
      invariant forall p {:trigger Closed(g', p)} :: p in depth' && p !in depth && Room(g', p) ==> Closed(g', p)
      invariant forall t :: 0 <= t < k ==> OpenOrOff(g', Jump((x, y), order[t]))
    {
      ghost var before, depthB := g', depth';
      ShrinksOrStays(Cells(a.Length1, a.Length0), depth.Keys, depth'.Keys);
      g', par', depth' := TryDirection(a, x, y, order[k], rng, g', par', depth');
      NextDirection(g, before, g', depth, depthB, depth', (x, y), order, k);
    }
    AllDirectionsClosed(g', (x, y), order);
  }

  /** One more direction of the loop in `create_path` is done, and what was done stays done. */
  lemma NextDirection(g: Tiles, before: Tiles, g': Tiles, depth: map<Pos, nat>, depthB: map<Pos, nat>,
                      depth': map<Pos, nat>, c: Pos, order: seq<Pos>, k: int)
    requires OnlyOpens(g, before) && OnlyOpens(before, g') && depthB.Keys <= depth'.Keys
    requires forall p {:trigger Closed(before, p)} :: p in depthB && p !in depth && Room(before, p) ==> Closed(before, p)
    requires forall p {:trigger Closed(g', p)} :: p in depth' && p !in depthB && Room(g', p) ==> Closed(g', p)
    requires 0 <= k < |order| && forall t :: 0 <= t < k ==> OpenOrOff(before, Jump(c, order[t]))
    requires OpenOrOff(g', Jump(c, order[k]))
    ensures OnlyOpens(g, g')
    ensures forall p {:trigger Closed(g', p)} :: p in depth' && p !in depth && Room(g', p) ==> Closed(g', p)
    ensures forall t :: 0 <= t < k + 1 ==> OpenOrOff(g', Jump(c, order[t]))
  {
    OnlyOpensTrans(g, before, g');
    forall p | p in depth' && p !in depth && Room(g', p) ensures Closed(g', p) {
      if p in depthB {
        assert Room(before, p);
        ClosedStaysClosed(before, g', p);
      }
    }
    forall t | 0 <= t < k + 1 ensures OpenOrOff(g', Jump(c, order[t])) {
      if t < k {
        OpenStaysOpen(before, g', Jump(c, order[t]));
      }
    }
  }

  /** Once every direction of a permutation of `Directions` is done, `p` is closed. */
  lemma AllDirectionsClosed(g: Tiles, p: Pos, order: seq<Pos>)
    requires |order| == 4 && forall t :: 0 <= t < 4 ==> OpenOrOff(g, Jump(p, order[t]))
    requires (1, 0) in order && (-1, 0) in order && (0, 1) in order && (0, -1) in order
    ensures Closed(g, p)
  {
    assert OpenOrOff(g, Jump(p, (1, 0))) && OpenOrOff(g, Jump(p, (-1, 0)));
    assert OpenOrOff(g, Jump(p, (0, 1))) && OpenOrOff(g, Jump(p, (0, -1)));
  }

  /**
   * Carving from `target` after opening `door` (not a room) leaves every
   * room changed since `g` closed, and `target` open.
   */
  lemma AfterCarve(g: Tiles, mid: Tiles, g': Tiles, par': map<Pos, Pos>,
                   depth: map<Pos, nat>, depthM: map<Pos, nat>, depth': map<Pos, nat>, door: Pos, target: Pos)
    requires OnlyOpens(g, mid) && OnlyOpens(mid, g') && !Room(g, door)
    requires depthM.Keys == depth.Keys + {door} && depthM.Keys <= depth'.Keys
    requires forall p {:trigger Closed(g', p)} :: p in depth' && p !in depthM && Room(g', p) ==> Closed(g', p)
    requires Carved(g', par', depth') && target in depth'
    ensures OnlyOpens(g, g') && depth.Keys <= depth'.Keys && OpenOrOff(g', target)
    ensures forall p {:trigger Closed(g', p)} :: p in depth' && p !in depth && Room(g', p) ==> Closed(g', p)
  {
    OnlyOpensTrans(g, mid, g');
  }

  /**
   * The door half of a turn of `create_path`'s loop: the room two steps
   * away in direction `d` is a wall, so the cell between becomes floor and
   * joins the tree below `(x, y)`, ready for the carve to go on from there.
   */
  method OpenDoor(a: array2<int>, x: int, y: int, d: Pos, ghost g: Tiles,
                  ghost par: map<Pos, Pos>, ghost depth: map<Pos, nat>)
    returns (door: Pos, ghost mid: Tiles, ghost parM: map<Pos, Pos>, ghost depthM: map<Pos, nat>)
    requires Mirrors(a, g) && Carved(g, par, depth) && Room(g, (x, y)) && (x, y) in depth
    requires IsDirection(d) && InBounds(g, Jump((x, y), d)) && TileAt(g, Jump((x, y), d)) == 1
    modifies a
    ensures door == Add((x, y), d) && !Room(g, door)
    ensures Mirrors(a, mid) && mid == Write(g, door, 0) && OnlyOpens(g, mid)
    ensures Carved(mid, parM, depthM) && depthM.Keys == depth.Keys + {door}
    ensures Room(mid, Jump((x, y), d)) && TileAt(mid, Jump((x, y), d)) == 1 && Attaches(depthM, door, Jump((x, y), d))
    ensures Cells(a.Length1, a.Length0) - depthM.Keys - {Jump((x, y), d)} < Cells(a.Length1, a.Length0) - depth.Keys
  {
    door := Add((x, y), d);
    var target := Jump((x, y), d);
    JumpRoom(g, (x, y), d);
    Door(g, (x, y), d);
    parM, depthM := OpenCell(g, par, depth, door, (x, y));
    mid := SetCell(a, door, 0, g);
    WriteCell(g, door, 0);
    assert target in Cells(a.Length1, a.Length0);
    Shrinks(Cells(a.Length1, a.Length0), depth.Keys, depthM.Keys, target);
  }

  /**
   * One turn of the loop in `create_path`: if the room two steps away in
   * direction `d` is inside the matrix and still a wall, open the door to it
   * and carve from it. Afterwards that room is not a wall.
   */
  method TryDirection(a: array2<int>, x: int, y: int, d: Pos, rng: Random, ghost g: Tiles,
                      ghost par: map<Pos, Pos>, ghost depth: map<Pos, nat>)
    returns (ghost g': Tiles, ghost par': map<Pos, Pos>, ghost depth': map<Pos, nat>)
    requires Mirrors(a, g) && Carved(g, par, depth) && Room(g, (x, y)) && (x, y) in depth
    requires IsDirection(d)
    modifies a, rng
    decreases Cells(a.Length1, a.Length0) - depth.Keys, 0
    ensures Mirrors(a, g') && Carved(g', par', depth') && OnlyOpens(g, g')
    ensures rng.draws == old(rng.draws)
    ensures depth.Keys <= depth'.Keys && Room(g', (x, y))
    ensures OpenOrOff(g', Jump((x, y), d))
    ensures forall p {:trigger Closed(g', p)} :: p in depth' && p !in depth && Room(g', p) ==> Closed(g', p)
  {
    var (dx, dy) := d;
    var nx, ny := x + dx * 2, y + dy * 2;
    if 0 <= nx < a.Length1 && 0 <= ny < a.Length0 && a[ny, nx] == 1 {
      var door, mid, parM, depthM := OpenDoor(a, x, y, d, g, par, depth);
      g', par', depth' := CreatePath(a, nx, ny, rng, mid, door, parM, depthM);
      AfterCarve(g, mid, g', par', depth, depthM, depth', door, (nx, ny));
    } else {
      g', par', depth' := g, par, depth;
    }
  }

  /**
   * The frame loops of `generate_maze`: every cell of the first and last
   * column, then of the first and last row, becomes a wall.
   */
  method StampFrame(a: array2<int>, ghost g: Tiles) returns (ghost g': Tiles)
    requires Mirrors(a, g) && a.Length0 > 0 && a.Length1 > 0
    modifies a
    ensures Mirrors(a, g') && SameShape(g, g')
    ensures forall i, j :: 0 <= i < |g| && 0 <= j < |g[i]| ==>
              g'[i][j] == if OnFrame(g, (j, i)) then 1 else g[i][j]
  {
    var h, w := a.Length0, a.Length1;
    g' := g;
    for y := 0 to h
      invariant Mirrors(a, g') && SameShape(g, g')
      invariant forall i, j :: 0 <= i < h && 0 <= j < w ==>
                  g'[i][j] == if i < y && (j == 0 || j == w - 1) then 1 else g[i][j]
    {
      g' := SetCell(a, (0, y), 1, g');
      g' := SetCell(a, (w - 1, y), 1, g');
    }
    for x := 0 to w
      invariant Mirrors(a, g') && SameShape(g, g')
      invariant forall i, j :: 0 <= i < h && 0 <= j < w ==>
                  g'[i][j] == if j == 0 || j == w - 1 || (j < x && (i == 0 || i == h - 1)) then 1 else g[i][j]
    {
      g' := SetCell(a, (x, 0), 1, g');
      g' := SetCell(a, (x, h - 1), 1, g');
    }
  }

  /**
   * The exit cell chosen from the raw draws `side` (for `randint(0, 3)`) and
   * `pos` (for the coordinate's `randint`) on a `w` x `h` matrix: 0 top,
   * 1 right, 2 bottom, 3 left, never a corner.
   */
  function ExitCell(w: int, h: int, side: nat, pos: nat): Pos
    requires w >= 3 && h >= 3
  {
    if side % 4 == 0 then (1 + pos % (w - 2), 0)
    else if side % 4 == 1 then (w - 1, 1 + pos % (h - 2))
    else if side % 4 == 2 then (1 + pos % (w - 2), h - 1)
    else (0, 1 + pos % (h - 2))
  }

  /** The exit is a frame cell off the corners, and the cell inward of it is inside the frame. */
  lemma ExitCellOnFrame(g: Tiles, side: nat, pos: nat)
    requires Rect(g) && |g| >= 3 && Width(g) >= 3
    ensures var e := ExitCell(Width(g), |g|, side, pos);
      InBounds(g, e) && OnFrame(g, e) && !Corner(g, e) && Interior(g, Inward(Width(g), |g|, e)) && Adjacent(e, Inward(Width(g), |g|, e))
  {
  }

  /**
   * The exit step of `generate_maze`: draw a side and a coordinate along it,
   * make that frame cell the exit (2) and the cell inward of it floor (0).
   */
  method PlaceExit(a: array2<int>, rng: Random, ghost g: Tiles) returns (exit: Pos, ghost g': Tiles)
    requires Mirrors(a, g) && a.Length0 >= 3 && a.Length1 >= 3
    modifies a, rng
    ensures rng.draws == old(rng.draws) && rng.cursor == old(rng.cursor) + 2
    ensures exit == ExitCell(a.Length1, a.Length0, rng.Draw(old(rng.cursor)), rng.Draw(old(rng.cursor) + 1))
    ensures InBounds(g, exit) && OnFrame(g, exit) && !Corner(g, exit) && Interior(g, Inward(a.Length1, a.Length0, exit))
    ensures Mirrors(a, g') && g' == Write(Write(g, exit, 2), Inward(a.Length1, a.Length0, exit), 0)
  {
    var h, w := a.Length0, a.Length1;
    ghost var c := rng.cursor;
    var side := rng.RandInt(0, 3);
    if side == 0 {
      var x := rng.RandInt(1, w - 2);
      exit := (x, 0);
    } else if side == 1 {
      var y := rng.RandInt(1, h - 2);
      exit := (w - 1, y);
    } else if side == 2 {
      var x := rng.RandInt(1, w - 2);
      exit := (x, h - 1);
    } else {
      var y := rng.RandInt(1, h - 2);
      exit := (0, y);
    }
    assert Rect(g);
    ExitCellOnFrame(g, rng.Draw(c), rng.Draw(c + 1));
    g' := SetCell(a, exit, 2, g);
    g' := SetCell(a, Inward(w, h, exit), 0, g');
  }

  /**
   * The extra openings of `generate_maze`: `width * height / 6` times, draw
   * an interior cell and turn it to floor if it is a wall. `changed` is the
   * set of cells that changed.
   */
  method AddOpenings(a: array2<int>, rng: Random, ghost g: Tiles) returns (ghost g': Tiles, ghost changed: set<Pos>)
    requires Mirrors(a, g) && a.Length0 >= 3 && a.Length1 >= 3
    modifies a, rng
    ensures rng.draws == old(rng.draws) && rng.cursor == old(rng.cursor) + 2 * (a.Length1 * a.Length0 / 6)
    ensures Mirrors(a, g') && SameShape(g, g') && |changed| <= a.Length1 * a.Length0 / 6
    ensures forall p :: p in changed ==> Interior(g, p) && InBounds(g, p) && TileAt(g, p) == 1
    ensures forall i, j :: 0 <= i < |g| && 0 <= j < |g[i]| ==> g'[i][j] == if (j, i) in changed then 0 else g[i][j]
  {
    var h, w := a.Length0, a.Length1;
    g', changed := g, {};
    for n := 0 to w * h / 6
      invariant rng.draws == old(rng.draws) && rng.cursor == old(rng.cursor) + 2 * n
      invariant Mirrors(a, g') && SameShape(g, g') && |changed| <= n
      invariant forall p :: p in changed ==> Interior(g, p) && InBounds(g, p) && TileAt(g, p) == 1
      invariant forall i, j :: 0 <= i < h && 0 <= j < w ==> g'[i][j] == if (j, i) in changed then 0 else g[i][j]
    {
      var x := rng.RandInt(1, w - 2);
      var y := rng.RandInt(1, h - 2);
      if a[y, x] == 1 {
        g' := SetCell(a, (x, y), 0, g');
        changed := changed + {(x, y)};
      }
    }
  }

  /** The `height` rows of `width` walls that `generate_maze` starts from. */
  function AllWalls(width: nat, height: nat): (g: Tiles)
    ensures Rectangular(g, width, height)
    ensures forall i, j :: 0 <= i < height && 0 <= j < width ==> g[i][j] == 1
  {
    seq(height, _ => seq(width, _ => 1))
  }

  /** Every tile is floor (0) or wall (1). */
  predicate FloorOrWall(g: Tiles) {
    forall i, j :: 0 <= i < |g| && 0 <= j < |g[i]| ==> g[i][j] == 0 || g[i][j] == 1
  }

  /** Interior floor of `g` is still floor in `g'`. */
  predicate KeepsFloor(g: Tiles, g': Tiles) {
    && SameShape(g, g')
    && forall i, j :: 0 <= i < |g| && 0 <= j < |g[i]| && Interior(g, (j, i)) && g[i][j] == 0 ==> g'[i][j] == 0
  }

  /**
   * What `generate_maze` promises of its result: a `w` x `h` matrix of 0, 1
   * and 2, whose frame is wall except at the exit; the exit is the only 2,
   * lies on the frame off the corners and has floor on its inner side.
   */
  predicate FinishedMaze(g: Tiles, w: int, h: int, exit: Pos) {
    && Rectangular(g, w, h) && w >= 3 && h >= 3
    && InBounds(g, exit) && OnFrame(g, exit) && !Corner(g, exit)
    && InBounds(g, Inward(w, h, exit)) && TileAt(g, Inward(w, h, exit)) == 0
    && forall i, j :: 0 <= i < h && 0 <= j < w ==>
         && (g[i][j] == 0 || g[i][j] == 1 || g[i][j] == 2)
         && (g[i][j] == 2 <==> (j, i) == exit)
         && (OnFrame(g, (j, i)) && (j, i) != exit ==> g[i][j] == 1)
  }

  /**
   * The steps after the carve (entrance, frame, exit, extra openings) leave
   * a finished maze and never wall up interior floor.
   */
  lemma MazeShape(g1: Tiles, g2: Tiles, g3: Tiles, g4: Tiles, g5: Tiles, changed: set<Pos>, w: int, h: int, exit: Pos)
    requires Rectangular(g1, w, h) && w >= 3 && h >= 3 && FloorOrWall(g1)
    requires g2 == Write(g1, (0, 1), 0)
    requires SameShape(g2, g3)
    requires forall i, j :: 0 <= i < |g2| && 0 <= j < |g2[i]| ==> g3[i][j] == if OnFrame(g2, (j, i)) then 1 else g2[i][j]
    requires InBounds(g3, exit) && OnFrame(g3, exit) && !Corner(g3, exit) && Interior(g3, Inward(w, h, exit))
    requires g4 == Write(Write(g3, exit, 2), Inward(w, h, exit), 0)
    requires SameShape(g4, g5)
    requires forall p :: p in changed ==> Interior(g4, p) && InBounds(g4, p) && TileAt(g4, p) == 1
    requires forall i, j :: 0 <= i < |g4| && 0 <= j < |g4[i]| ==> g5[i][j] == if (j, i) in changed then 0 else g4[i][j]
    ensures FinishedMaze(g5, w, h, exit) && KeepsFloor(g1, g5)
  {
    var q := Inward(w, h, exit);
    assert Width(g3) == w && Width(g4) == w;
    forall i, j | 0 <= i < h && 0 <= j < w
      ensures g4[i][j] == if (j, i) == q then 0 else if (j, i) == exit then 2
                          else if OnFrame(g1, (j, i)) then 1 else g1[i][j]
    {
    }
  }

  /** With odd dimensions every carve cell lies inside the frame. */
  lemma LatticeInterior(g: Tiles, p: Pos)
    requires Rect(g) && Odd(|g|) && Odd(Width(g)) && LatticeCell(g, p)
    ensures Interior(g, p)
  {
  }

  /**
   * Once the carve is over, every room has been reached: each room other
   * than `Root` is two steps from a room nearer the origin, which is
   * carved and closed, so the room itself is no longer a wall.
   */
  lemma {:induction false} RoomCarved(g: Tiles, par: map<Pos, Pos>, depth: map<Pos, nat>, p: Pos)
    requires Rect(g) && FloorOrWall(g) && Carved(g, par, depth) && Root in depth
    requires forall p {:trigger Closed(g, p)} :: p in depth && Room(g, p) ==> Closed(g, p)
    requires Room(g, p)
    ensures p in depth
    decreases p.0 + p.1
  {
    if p != Root {
      var q := if p.0 > 1 then (p.0 - 2, p.1) else (p.0, p.1 - 2);
      RoomCarved(g, par, depth, q);
      assert Closed(g, q);
      assert p == (q.0 + 2, q.1) || p == (q.0, q.1 + 2);
      assert g[p.1][p.0] == 0;
    }
  }

  /** The carve's tree spans every room of the matrix. */
  lemma AllRoomsCarved(g: Tiles, par: map<Pos, Pos>, depth: map<Pos, nat>)
    requires Rect(g) && FloorOrWall(g) && Carved(g, par, depth) && Root in depth
    requires forall p {:trigger Closed(g, p)} :: p in depth && Room(g, p) ==> Closed(g, p)
    ensures forall p :: Room(g, p) ==> p in depth
  {
    forall p | Room(g, p) ensures p in depth {
      RoomCarved(g, par, depth, p);
    }
  }

  /**
   * With odd dimensions the cell inward of a frame cell is a room or lies
   * between a room and that frame cell's side: a room `anchor` next to it.
   */
  lemma AnchorRoom(g: Tiles, w: int, h: int, exit: Pos) returns (anchor: Pos)
    requires Rectangular(g, w, h) && Odd(w) && Odd(h) && w >= 3 && h >= 3
    requires InBounds(g, exit) && OnFrame(g, exit) && !Corner(g, exit)
    ensures Room(g, anchor)
    ensures anchor == Inward(w, h, exit) || Adjacent(anchor, Inward(w, h, exit))
  {
    var q := Inward(w, h, exit);
    anchor := if Odd(q.0) && Odd(q.1) then q else if Odd(q.1) then (q.0 - 1, q.1) else (q.0, q.1 - 1);
  }

  /** With odd dimensions every carved cell is interior floor, so it survives the later steps. */
  lemma CarvedKept(g1: Tiles, par: map<Pos, Pos>, depth: map<Pos, nat>, g5: Tiles)
    requires Rect(g1) && Odd(|g1|) && Odd(Width(g1)) && Carved(g1, par, depth) && KeepsFloor(g1, g5)
    ensures forall p :: p in depth ==> InBounds(g5, p) && TileAt(g5, p) == 0
  {
    forall p | p in depth ensures InBounds(g5, p) && TileAt(g5, p) == 0 {
      LatticeInterior(g1, p);
      assert g1[p.1][p.0] == 0;
    }
  }

  /**
   * With odd dimensions the exit of the finished maze can be reached from
   * `Root`: along the carve's tree to a room next to the exit's inner cell,
   * then through that cell to the exit.
   */
  lemma MazeConnected(g1: Tiles, par: map<Pos, Pos>, depth: map<Pos, nat>, g5: Tiles, w: int, h: int, exit: Pos)
    requires Rectangular(g1, w, h) && Odd(w) && Odd(h) && FloorOrWall(g1)
    requires Carved(g1, par, depth) && Root in depth
    requires forall p {:trigger Closed(g1, p)} :: p in depth && Room(g1, p) ==> Closed(g1, p)
    requires KeepsFloor(g1, g5) && FinishedMaze(g5, w, h, exit)
    ensures Connects(g5, Root, exit)
  {
    assert Rect(g1) && Width(g1) == w && Width(g5) == w;
    var q := Inward(w, h, exit);
    var anchor := AnchorRoom(g1, w, h, exit);
    RoomCarved(g1, par, depth, anchor);
    CarvedKept(g1, par, depth, g5);
    var tree := TreePath(par, depth, anchor);
    var path := (if anchor == q then tree else tree + [q]) + [exit];
    assert Adjacent(q, exit);
    assert OpenPath(g5, path);
  }

  /**
   * `generate_maze(width, height)`. Python raises an exception unless both
   * dimensions are at least 3; the model answers `None` there.
   */
  method GenerateMaze(width: int, height: int, rng: Random)
    returns (maze: Option<array2<int>>, ghost tiles: Tiles, ghost exit: Pos)
    modifies rng
    ensures rng.draws == old(rng.draws)
    ensures maze.None? <==> width < 3 || height < 3
    ensures maze.Some? ==> fresh(maze.value) && Mirrors(maze.value, tiles)
    ensures maze.Some? ==> FinishedMaze(tiles, width, height, exit)
    ensures maze.Some? && Odd(width) && Odd(height) ==> Connects(tiles, Root, exit)
  {
    if width < 3 || height < 3 {
      return None, [], (0, 0);
    }
    var a := new int[height, width]((i, j) => 1);
    ghost var g0 := AllWalls(width, height);
    assert Mirrors(a, g0);
    ghost var g1, par, depth := CreatePath(a, 1, 1, rng, g0, Root, map[], map[]);
    assert FloorOrWall(g1);
    ghost var g2 := SetCell(a, (0, 1), 0, g1);
    ghost var g3 := StampFrame(a, g2);
    var e;
    ghost var g4;
    e, g4 := PlaceExit(a, rng, g3);
    ghost var g5, changed := AddOpenings(a, rng, g4);
    MazeShape(g1, g2, g3, g4, g5, changed, width, height, e);
    if Odd(width) && Odd(height) {
      MazeConnected(g1, par, depth, g5, width, height, e);
    }
    maze, tiles, exit := Some(a), g5, e;
  }
}
