/**
 * The search behind the enemy's pursuit step (`Labyrinth.find_path_step`,
 * Rabbit.py): a breadth-first search from the enemy's cell over free
 * tiles, trying the moves East, South, West, North in that order. It fills
 * a `distance` matrix whose sentinel `INF = 1000` marks unreached cells,
 * and a `prev` matrix of predecessors. As in the source, the bounds test
 * `0 < next_y` keeps the search out of row 0.
 *
 * The search is proved against a specification stated on walks: a cell
 * with a finite distance is exactly that many steps away and no fewer, and
 * a cell left at `INF` cannot be reached at all.
 */
module Pursuit {
  import opened Grid

  /** The "not reached" distance of the search. */
  const INF: int := 1000

  /** The predecessor matrix: `None` until a cell is reached. */
  type Links = seq<seq<Option<Pos>>>

  /** What the search reads of a `Labyrinth`: the tile matrix, its dimensions and the free tile ids. */
  datatype Board = Board(tiles: Tiles, width: int, height: int, free: seq<int>)

  /**
   * A board the search handles: rectangular and nonempty, and small enough
   * that no distance can reach the sentinel `INF`.
   */
  predicate ValidBoard(b: Board) {
    Rectangular(b.tiles, b.width, b.height) && 0 < b.width && 0 < b.height && b.width * b.height <= INF
  }

  /** A cell the search may step onto: inside the board, not in row 0, and free. */
  predicate Enterable(b: Board, p: Pos) {
    0 <= p.0 < b.width && 0 < p.1 < b.height && InBounds(b.tiles, p) && TileAt(b.tiles, p) in b.free
  }

  // ---------------------------------------------------------------------
  // The specification: walks and shortest walks
  // ---------------------------------------------------------------------

  /** A walk: each cell after the first is an enterable neighbour of the one before. */
  ghost predicate Walk(b: Board, path: seq<Pos>) {
    |path| > 0 && forall i :: 0 < i < |path| ==> Adjacent(path[i - 1], path[i]) && Enterable(b, path[i])
  }

  ghost predicate WalkFrom(b: Board, path: seq<Pos>, s: Pos, v: Pos) {
    Walk(b, path) && path[0] == s && path[|path| - 1] == v
  }

  /** `v` is `n` steps from `s`, and no walk from `s` gets there in fewer. */
  ghost predicate Shortest(b: Board, s: Pos, v: Pos, n: int) {
    && (exists path :: WalkFrom(b, path, s, v) && |path| == n + 1)
    && (forall path :: WalkFrom(b, path, s, v) ==> |path| >= n + 1)
  }

  /** No walk from `s` ends at `v`. */
  ghost predicate Unreachable(b: Board, s: Pos, v: Pos) {
    forall path :: !WalkFrom(b, path, s, v)
  }

  /** The search never enters row 0, so no cell of row 0 other than the start can be reached. */
  lemma RowZeroUnreachable(b: Board, s: Pos, v: Pos)
    requires v.1 == 0 && v != s
    ensures Unreachable(b, s, v)
  {
    forall path: seq<Pos> | Walk(b, path) && path[0] == s && |path| > 1 ensures path[|path| - 1].1 > 0 {
      assert Enterable(b, path[|path| - 1]);
    }
  }

  /**
   * A step off a shortest walk: if `v` is an enterable neighbour of `s`
   * from which `t` is `n - 1` steps away, then it is no closer than that.
   */
  lemma StepOnShortest(b: Board, s: Pos, v: Pos, t: Pos, n: int, tail: seq<Pos>)
    requires Shortest(b, s, t, n) && Adjacent(s, v) && Enterable(b, v)
    requires WalkFrom(b, tail, v, t) && |tail| == n
    ensures Shortest(b, v, t, n - 1)
  {
    forall path | WalkFrom(b, path, v, t) ensures |path| >= n {
      var full := [s] + path;
      assert WalkFrom(b, full, s, t);
    }
  }

  // ---------------------------------------------------------------------
  // The search state
  // ---------------------------------------------------------------------

  /** `v` has a finite distance. */
  ghost predicate Known(D: Tiles, v: Pos) {
    InBounds(D, v) && TileAt(D, v) != INF
  }

  /** `v` was reached from `prev[v]`: a known neighbour one step nearer the start. */
  ghost predicate Linked(b: Board, D: Tiles, P: Links, v: Pos) {
    && InBounds(D, v) && InBounds(P, v) && P[v.1][v.0].Some?
    && var u := P[v.1][v.0].value;
       Known(D, u) && Adjacent(u, v) && Enterable(b, v) && TileAt(D, v) == TileAt(D, u) + 1
  }

  /** The matrices have the board's shape, the start is at 0 and every other known cell is linked. */
  ghost predicate Tables(b: Board, s: Pos, D: Tiles, P: Links) {
    && Rectangular(D, b.width, b.height) && Rectangular(P, b.width, b.height)
    && InBounds(D, s) && TileAt(D, s) == 0
    && (forall v :: Known(D, v) ==> TileAt(D, v) >= 0)
    && (forall v {:trigger Linked(b, D, P, v)} :: Known(D, v) && v != s ==> Linked(b, D, P, v))
  }

  /** Moving from `u` to `v` finds nothing new: an enterable `v` is known and at most one step farther. */
  ghost predicate Settled(b: Board, D: Tiles, u: Pos, v: Pos) {
    InBounds(D, u) && (Enterable(b, v) ==> Known(D, v) && TileAt(D, v) <= TileAt(D, u) + 1)
  }

  /** The first `k` moves from `u` are settled. */
  ghost predicate SettledUpTo(b: Board, D: Tiles, u: Pos, k: int) {
    0 <= k <= 4 && forall j :: 0 <= j < k ==> Settled(b, D, u, Add(u, Moves[j]))
  }

  /** All four moves from `u` are settled. */
  ghost predicate Expanded(b: Board, D: Tiles, u: Pos) {
    SettledUpTo(b, D, u, 4)
  }

  /** The known cells are the expanded ones (`done`) and those still queued, never both and queued once. */
  ghost predicate Partition(D: Tiles, Q: seq<Pos>, done: set<Pos>) {
    && (forall v :: v in done ==> Known(D, v))
    && (forall i :: 0 <= i < |Q| ==> Known(D, Q[i]) && Q[i] !in done)
    && (forall i, j :: 0 <= i < j < |Q| ==> Q[i] != Q[j])
    && (forall v :: Known(D, v) ==> v in done || v in Q)
  }

  /** The queue is sorted by distance, within `[d, d + 1]`, and nothing expanded is farther than `d`. */
  ghost predicate Layered(D: Tiles, Q: seq<Pos>, done: set<Pos>, d: int) {
    && (forall v :: v in done ==> InBounds(D, v) && TileAt(D, v) <= d)
    && (forall i :: 0 <= i < |Q| ==> InBounds(D, Q[i]) && d <= TileAt(D, Q[i]) <= d + 1)
    && (forall i, j :: 0 <= i < j < |Q| ==> TileAt(D, Q[i]) <= TileAt(D, Q[j]))
  }

  ghost predicate Bounded(D: Tiles, n: int) {
    forall v :: Known(D, v) ==> TileAt(D, v) <= n
  }

  /** The state between two turns of the `while queue` loop. */
  ghost predicate Frontier(b: Board, s: Pos, D: Tiles, P: Links, Q: seq<Pos>, done: set<Pos>) {
    && Tables(b, s, D, P) && Partition(D, Q, done) && Bounded(D, |done|)
    && (forall u {:trigger Expanded(b, D, u)} :: u in done ==> Expanded(b, D, u))
    && (|Q| > 0 ==> InBounds(D, Q[0]) && Layered(D, Q, done, TileAt(D, Q[0])))
  }

  /** The state inside a turn: `u` is off the queue and its first `k` moves have been tried. */
  ghost predicate Expanding(b: Board, s: Pos, D: Tiles, P: Links, Q: seq<Pos>, done: set<Pos>, u: Pos, k: int) {
    && Tables(b, s, D, P) && Known(D, u) && u !in done && Partition(D, Q, done + {u})
    && Bounded(D, |done| + 1) && TileAt(D, u) <= |done|
    && (forall x {:trigger Expanded(b, D, x)} :: x in done ==> Expanded(b, D, x))
    && SettledUpTo(b, D, u, k)
    && Layered(D, Q, done + {u}, TileAt(D, u))
  }

  /** The state the search ends in: every known cell is expanded. */
  ghost predicate Searched(b: Board, s: Pos, D: Tiles, P: Links) {
    && Tables(b, s, D, P)
    && forall v {:trigger Expanded(b, D, v)} :: Known(D, v) ==> Expanded(b, D, v)
  }

  // ---------------------------------------------------------------------
  // The loop steps
  // ---------------------------------------------------------------------

  /** The state after `distance[y][x] = 0` and `queue = [(x, y)]`. */
  lemma Start(b: Board, s: Pos, D: Tiles, P: Links)
    requires ValidBoard(b) && InBounds(b.tiles, s)
    requires D == Write(seq(b.height, _ => seq(b.width, _ => INF)), s, 0)
    requires P == seq(b.height, _ => seq(b.width, _ => None))
    ensures Frontier(b, s, D, P, [s], {})
  {
    var D0 := seq(b.height, _ => seq(b.width, _ => INF));
    WriteAt(D0, s, 0);
    assert forall v :: Known(D, v) ==> v == s;
  }

  /** `queue.pop(0)`. */
  lemma Pop(b: Board, s: Pos, D: Tiles, P: Links, Q: seq<Pos>, done: set<Pos>)
    requires Frontier(b, s, D, P, Q, done) && |Q| > 0
    ensures Expanding(b, s, D, P, Q[1..], done, Q[0], 0)
  {
    var u := Q[0];
    forall v | Known(D, v) ensures v in done + {u} || v in Q[1..] {
      if v !in done && v != u {
        var i :| 0 <= i < |Q| && Q[i] == v;
        assert Q[1..][i - 1] == v;
      }
    }
  }

  /** A move that finds a cell off the board, not free, in row 0 or already known changes nothing. */
  lemma Skip(b: Board, s: Pos, D: Tiles, P: Links, Q: seq<Pos>, done: set<Pos>, u: Pos, k: int)
    requires Expanding(b, s, D, P, Q, done, u, k) && 0 <= k < 4
    requires var v := Add(u, Moves[k]); !(Enterable(b, v) && !Known(D, v))
    ensures Expanding(b, s, D, P, Q, done, u, k + 1)
  {
    var v := Add(u, Moves[k]);
    if Enterable(b, v) {
      if v !in done + {u} {
        var i :| 0 <= i < |Q| && Q[i] == v;
      }
    }
    assert Settled(b, D, u, v);
  }

  /** Writing a finite distance into an unknown cell keeps the tables and links it to `u`. */
  lemma DiscoverTables(b: Board, s: Pos, D: Tiles, P: Links, u: Pos, v: Pos)
    requires Tables(b, s, D, P) && Known(D, u) && Enterable(b, v) && InBounds(D, v) && !Known(D, v)
    requires Adjacent(u, v) && TileAt(D, u) + 1 != INF
    ensures Tables(b, s, Write(D, v, TileAt(D, u) + 1), Write(P, v, Some(u)))
    ensures forall x :: Known(Write(D, v, TileAt(D, u) + 1), x) <==> Known(D, x) || x == v
  {
    var n := TileAt(D, u) + 1;
    var D', P' := Write(D, v, n), Write(P, v, Some(u));
    forall x ensures Known(D', x) <==> Known(D, x) || x == v {
      WrittenCell(D, v, n, x);
    }
    forall x | Known(D', x) ensures TileAt(D', x) >= 0 {
      WrittenCell(D, v, n, x);
    }
    WrittenCell(D, v, n, s);
    forall x | Known(D', x) && x != s ensures Linked(b, D', P', x) {
      WrittenCell(D, v, n, x);
      WrittenCell(P, v, Some(u), x);
      if x != v {
        assert Linked(b, D, P, x);
        WrittenCell(D, v, n, P[x.1][x.0].value);
      } else {
        WrittenCell(D, v, n, u);
      }
    }
  }

  /** `D'` is `D` with the single cell `v` set to `n`. */
  ghost predicate Updated(D: Tiles, D': Tiles, v: Pos, n: int) {
    && InBounds(D, v) && InBounds(D', v) && TileAt(D', v) == n
    && forall x :: x != v ==> (InBounds(D', x) <==> InBounds(D, x)) && (InBounds(D, x) ==> TileAt(D', x) == TileAt(D, x))
  }

  lemma WriteUpdated(D: Tiles, v: Pos, n: int)
    requires InBounds(D, v)
    ensures Updated(D, Write(D, v, n), v, n)
  {
    forall x | x != v ensures (InBounds(Write(D, v, n), x) <==> InBounds(D, x))
      && (InBounds(D, x) ==> TileAt(Write(D, v, n), x) == TileAt(D, x))
    {
      WrittenCell(D, v, n, x);
    }
    WrittenCell(D, v, n, v);
  }

  /** Writing into an unknown cell leaves every settled move settled. */
  lemma KeepSettled(b: Board, D: Tiles, D': Tiles, v: Pos, n: int, x: Pos, k: int)
    requires Updated(D, D', v, n) && !Known(D, v) && Known(D, x) && SettledUpTo(b, D, x, k)
    ensures SettledUpTo(b, D', x, k)
  {
    forall j | 0 <= j < k ensures Settled(b, D', x, Add(x, Moves[j])) {
      assert Settled(b, D, x, Add(x, Moves[j]));
    }
  }

  /** Writing into an unknown cell leaves every expanded cell expanded. */
  lemma KeepExpanded(b: Board, D: Tiles, D': Tiles, v: Pos, n: int, done: set<Pos>)
    requires Updated(D, D', v, n) && !Known(D, v)
    requires forall x :: x in done ==> Known(D, x)
    requires forall x {:trigger Expanded(b, D, x)} :: x in done ==> Expanded(b, D, x)
    ensures forall x {:trigger Expanded(b, D', x)} :: x in done ==> Expanded(b, D', x)
  {
    forall x | x in done ensures Expanded(b, D', x) {
      assert Expanded(b, D, x);
      KeepSettled(b, D, D', v, n, x, 4);
    }
  }

  /** Queueing the newly found `v` at distance `TileAt(D, u) + 1` keeps the queue invariants. */
  lemma GrowQueue(D: Tiles, D': Tiles, Q: seq<Pos>, done: set<Pos>, u: Pos, v: Pos)
    requires Known(D, u) && !Known(D, v) && TileAt(D, u) <= |done| && TileAt(D, u) + 1 != INF
    requires Updated(D, D', v, TileAt(D, u) + 1)
    requires Partition(D, Q, done + {u}) && Layered(D, Q, done + {u}, TileAt(D, u)) && Bounded(D, |done| + 1)
    ensures Partition(D', Q + [v], done + {u}) && Bounded(D', |done| + 1)
    ensures InBounds(D', u) && Layered(D', Q + [v], done + {u}, TileAt(D', u))
  {
    assert v != u && v !in done;
    assert v !in Q;
  }

  /**
   * A move that finds a new enterable cell `v`: its distance becomes one
   * more than `u`'s (which never reaches `INF`), `u` becomes its
   * predecessor and it joins the back of the queue.
   */
  lemma Discover(b: Board, s: Pos, D: Tiles, P: Links, Q: seq<Pos>, done: set<Pos>, u: Pos, k: int)
    requires ValidBoard(b) && Expanding(b, s, D, P, Q, done, u, k) && 0 <= k < 4
    requires var v := Add(u, Moves[k]); Enterable(b, v) && !Known(D, v)
    ensures TileAt(D, u) + 1 < INF
    ensures var v := Add(u, Moves[k]);
      Expanding(b, s, Write(D, v, TileAt(D, u) + 1), Write(P, v, Some(u)), Q + [v], done, u, k + 1)
  {
    var v := Add(u, Moves[k]);
    var n := TileAt(D, u) + 1;
    var D' := Write(D, v, n);
    DistanceBelowInf(b, D, done, u, v);
    DiscoverTables(b, s, D, P, u, v);
    WriteUpdated(D, v, n);
    GrowQueue(D, D', Q, done, u, v);
    KeepExpanded(b, D, D', v, n, done);
    KeepSettled(b, D, D', v, n, u, k);
    assert Settled(b, D', u, v);
  }

  /** While a cell is still unknown there is room for it, so a distance never reaches `INF`. */
  lemma DistanceBelowInf(b: Board, D: Tiles, done: set<Pos>, u: Pos, v: Pos)
    requires ValidBoard(b) && Rectangular(D, b.width, b.height)
    requires Known(D, u) && u !in done && InBounds(D, v) && !Known(D, v)
    requires forall x :: x in done ==> Known(D, x)
    requires TileAt(D, u) <= |done|
    ensures TileAt(D, u) + 1 < INF
  {
    var area := Cells(b.width, b.height);
    forall x | x in done + {u, v} ensures x in area {
      InCells(D, b.width, b.height, x);
    }
    SubsetCard(done + {u, v}, area);
    CellsCard(b.width, b.height);
    assert |done + {u, v}| == |done| + 2;
  }

  /** After all four moves, `u` is expanded and the next turn can start. */
  lemma Finish(b: Board, s: Pos, D: Tiles, P: Links, Q: seq<Pos>, done: set<Pos>, u: Pos)
    requires Expanding(b, s, D, P, Q, done, u, 4)
    ensures Frontier(b, s, D, P, Q, done + {u})
  {
    assert Expanded(b, D, u);
  }

  /** Once the queue is empty every known cell is expanded. */
  lemma Drained(b: Board, s: Pos, D: Tiles, P: Links, done: set<Pos>)
    requires Frontier(b, s, D, P, [], done)
    ensures Searched(b, s, D, P)
  {
  }

  // ---------------------------------------------------------------------
  // What the final state means
  // ---------------------------------------------------------------------

  /** Following `prev` from a known cell back to the start: a walk as long as its distance. */
  ghost function PathTo(b: Board, s: Pos, D: Tiles, P: Links, v: Pos): (path: seq<Pos>)
    requires Tables(b, s, D, P) && Known(D, v)
    ensures WalkFrom(b, path, s, v) && |path| == TileAt(D, v) + 1
    decreases TileAt(D, v)
  {
    if v == s then [s]
    else
      assert Linked(b, D, P, v);
      PathTo(b, s, D, P, P[v.1][v.0].value) + [v]
  }

  /** Every walk from the start ends at a known cell whose distance is at most the walk's length. */
  lemma {:induction false} LowerBound(b: Board, s: Pos, D: Tiles, P: Links, path: seq<Pos>)
    requires Searched(b, s, D, P) && Walk(b, path) && path[0] == s
    ensures Known(D, path[|path| - 1]) && TileAt(D, path[|path| - 1]) <= |path| - 1
    decreases |path|
  {
    if |path| > 1 {
      var pre := path[..|path| - 1];
      assert Walk(b, pre);
      LowerBound(b, s, D, P, pre);
      var u, v := pre[|pre| - 1], path[|path| - 1];
      assert Adjacent(u, v) && Enterable(b, v);
      assert Expanded(b, D, u);
      AdjacentMove(u, v);
      var k :| 0 <= k < 4 && v == Add(u, Moves[k]);
      assert Settled(b, D, u, Add(u, Moves[k]));
    }
  }

  /**
   * The search is exact: a known cell's distance is the length of a
   * shortest walk to it, and a cell left at `INF` cannot be reached.
   */
  lemma SearchExact(b: Board, s: Pos, D: Tiles, P: Links, v: Pos)
    requires Searched(b, s, D, P)
    ensures Known(D, v) ==> Shortest(b, s, v, TileAt(D, v))
    ensures InBounds(D, v) && !Known(D, v) ==> Unreachable(b, s, v)
  {
    if Known(D, v) {
      var path := PathTo(b, s, D, P, v);
      forall path' | WalkFrom(b, path', s, v) ensures |path'| >= TileAt(D, v) + 1 {
        LowerBound(b, s, D, P, path');
      }
    } else {
      forall path' | WalkFrom(b, path', s, v) ensures false {
        LowerBound(b, s, D, P, path');
      }
    }
  }

  // ---------------------------------------------------------------------
  // The search loop
  // ---------------------------------------------------------------------

  /** One turn of the `for dx, dy` loop over the four moves from `u`. */
  method Expand(b: Board, s: Pos, dist: array2<int>, prev: array2<Option<Pos>>, u: Pos, queue: seq<Pos>,
                ghost done: set<Pos>, ghost D: Tiles, ghost P: Links)
    returns (queue': seq<Pos>, ghost D': Tiles, ghost P': Links)
    requires ValidBoard(b) && Mirrors(dist, D) && Mirrors(prev, P)
    requires dist.Length0 == prev.Length0 == b.height && dist.Length1 == prev.Length1 == b.width
    requires Expanding(b, s, D, P, queue, done, u, 0)
    modifies dist, prev
    ensures Mirrors(dist, D') && Mirrors(prev, P')
    ensures Expanding(b, s, D', P', queue', done, u, 4)
  {
    queue', D', P' := queue, D, P;
    for k := 0 to 4
      invariant Mirrors(dist, D') && Mirrors(prev, P')
      invariant Expanding(b, s, D', P', queue', done, u, k)
    {
      var v := Add(u, Moves[k]);
      if 0 <= v.0 < b.width && 0 < v.1 < b.height && TileAt(b.tiles, v) in b.free && dist[v.1, v.0] == INF {
        Discover(b, s, D', P', queue', done, u, k);
        assert dist[u.1, u.0] == TileAt(D', u);
        D' := SetCell(dist, v, dist[u.1, u.0] + 1, D');
        P' := SetCell(prev, v, Some(u), P');
        queue' := queue' + [v];
      } else {
        Skip(b, s, D', P', queue', done, u, k);
      }
    }
  }

  /**
   * Lines 68-82 of `find_path_step`: the `distance` and `prev` matrices
   * and the `while queue` loop with `pop(0)` and `append`.
   */
  method Search(b: Board, s: Pos) returns (dist: array2<int>, prev: array2<Option<Pos>>, ghost D: Tiles, ghost P: Links)
    requires ValidBoard(b) && InBounds(b.tiles, s)
    ensures fresh(dist) && fresh(prev) && Mirrors(dist, D) && Mirrors(prev, P)
    ensures Searched(b, s, D, P)
  {
    dist := new int[b.height, b.width]((i, j) => INF);
    ghost var D0 := seq(b.height, _ => seq(b.width, _ => INF));
    assert Mirrors(dist, D0);
    D := SetCell(dist, s, 0, D0);
    prev := new Option<Pos>[b.height, b.width]((i, j) => None);
    P := seq(b.height, _ => seq(b.width, _ => None));
    assert Mirrors(prev, P);
    var queue := [s];
    ghost var done: set<Pos> := {};
    Start(b, s, D, P);
    while |queue| > 0
      invariant Mirrors(dist, D) && Mirrors(prev, P)
      invariant Frontier(b, s, D, P, queue, done)
      invariant done <= Cells(b.width, b.height)
      decreases Cells(b.width, b.height) - done
    {
      Pop(b, s, D, P, queue, done);
      var u := queue[0];
      queue := queue[1..];
      queue, D, P := Expand(b, s, dist, prev, u, queue, done, D, P);
      Finish(b, s, D, P, queue, done, u);
      InCells(D, b.width, b.height, u);
      done := done + {u};
    }
    Drained(b, s, D, P, done);
  }

  /**
   * Lines 86-88 of `find_path_step`: from a reached target other than the
   * start, follow `prev` until the cell whose predecessor is the start.
   * That cell is a free neighbour of the start on a shortest walk.
   */
  method BackWalk(b: Board, s: Pos, t: Pos, dist: array2<int>, prev: array2<Option<Pos>>, ghost D: Tiles, ghost P: Links)
    returns (step: Pos)
    requires Mirrors(dist, D) && Mirrors(prev, P) && Searched(b, s, D, P)
    requires Known(D, t) && t != s && Shortest(b, s, t, TileAt(D, t))
    ensures Adjacent(s, step) && Enterable(b, step) && Shortest(b, step, t, TileAt(D, t) - 1)
  {
    var cur := t;
    ghost var tail := [t];
    assert |D[t.1]| == b.width == |P[t.1]|;
    while prev[cur.1, cur.0] != Some(s)
      invariant Known(D, cur) && cur != s && InBounds(P, cur)
      invariant WalkFrom(b, tail, cur, t) && |tail| == TileAt(D, t) - TileAt(D, cur) + 1
      decreases TileAt(D, cur)
    {
      assert Linked(b, D, P, cur);
      var u := prev[cur.1, cur.0].value;
      tail := [u] + tail;
      cur := u;
    }
    assert Linked(b, D, P, cur);
    StepOnShortest(b, s, cur, t, TileAt(D, t), tail);
    step := cur;
  }
}
