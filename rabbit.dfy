/**
 * The game rules of `Rabbit.py`: the `Labyrinth` that holds the tile
 * matrix, the hero and the enemy, the carrots ("coins"), the placement of
 * hero and enemy, and the per-frame updates and checks of `Game`.
 *
 * Tile ids: 0 floor, 1 wall, 2 exit ("level tile"), 3 the hidden exit
 * (drawn as a wall), 4 the final exit ("finish tile").
 */
module Rabbit {
  import opened Grid
  import opened Oracle
  import opened Pursuit
  import MapText
  import MazeGenerator

  /** The game's configuration `Labyrinth("map.txt", [0, 2, 4], 4, 2)`. */
  const GameFreeTiles: seq<int> := [0, 2, 4]
  const GameFinishTile: int := 4
  const GameLevelTile: int := 2

  class Labyrinth {
    var tiles: Tiles
    var height: int
    var width: int
    var freeTiles: seq<int>
    var finishTile: int
    var levelTile: int

    /**
     * `Labyrinth.__init__` after the map file has been read: one row per
     * line, `list(map(int, line.split()))`. A line that does not parse is
     * the `ValueError` case and an empty file the `IndexError` of
     * `self.map[0]`; both are `None`.
     */
    static method Load(lines: seq<string>, freeTiles: seq<int>, finishTile: int, levelTile: int)
      returns (lab: Option<Labyrinth>)
      ensures lab.None? <==> MapText.ParseRows(lines).None? || MapText.ParseRows(lines).value == []
      ensures lab.Some? ==> fresh(lab.value) && lab.value.height == |lab.value.tiles| > 0 && lab.value.width == |lab.value.tiles[0]|
      ensures lab.Some? ==> lab.value.tiles == MapText.ParseRows(lines).value
      ensures lab.Some? ==> lab.value.freeTiles == freeTiles && lab.value.finishTile == finishTile && lab.value.levelTile == levelTile
    {
      var rows := MapText.ParseRows(lines);
      if rows.None? || rows.value == [] {
        return None;
      }
      var l := new Labyrinth(rows.value, freeTiles, finishTile, levelTile);
      lab := Some(l);
    }

    constructor (rows: Tiles, freeTiles: seq<int>, finishTile: int, levelTile: int)
      requires |rows| > 0
      ensures tiles == rows && height == |rows| && width == |rows[0]|
      ensures this.freeTiles == freeTiles && this.finishTile == finishTile && this.levelTile == levelTile
    {
      tiles := rows;
      height := |rows|;
      width := |rows[0]|;
      this.freeTiles := freeTiles;
      this.finishTile := finishTile;
      this.levelTile := levelTile;
    }

    /** `get_tile_id`: the tile at column `p.0` of row `p.1` (negative indices are not modelled). */
    function GetTileId(p: Pos): int
      reads this
      requires InBounds(tiles, p)
    {
      tiles[p.1][p.0]
    }

    /** `is_free`: the tile at `p` is one of the free tile ids. */
    predicate IsFree(p: Pos)
      reads this
      requires InBounds(tiles, p)
    {
      GetTileId(p) in freeTiles
    }

    /** What the search reads of the labyrinth. */
    function AsBoard(): Board
      reads this
    {
      Pursuit.Board(tiles, width, height, freeTiles)
    }

    /** The search steps exactly onto the free cells inside the map and off row 0. */
    lemma EnterableIsFree(p: Pos)
      requires Rectangular(tiles, width, height)
      ensures Enterable(AsBoard(), p) <==> 0 <= p.0 < width && 0 < p.1 < height && IsFree(p)
    {
    }

    /**
     * `find_path_step(start, target)`: the enemy's next cell. It stays at
     * `start` when it is on the target already or the target cannot be
     * reached; otherwise it moves to a free neighbour of `start` that lies
     * on a shortest walk to the target. `self.map` is not changed.
     */
    method FindPathStep(start: Pos, target: Pos) returns (step: Pos, ghost steps: int)
      requires ValidBoard(AsBoard()) && InBounds(tiles, start) && InBounds(tiles, target)
      ensures start == target || Unreachable(AsBoard(), start, target) ==> step == start
      ensures start != target && !Unreachable(AsBoard(), start, target) ==>
        && Adjacent(start, step) && Enterable(AsBoard(), step)
        && Shortest(AsBoard(), start, target, steps) && Shortest(AsBoard(), step, target, steps - 1)
    {
      var b := AsBoard();
      var dist, prev, D, P := Search(b, start);
      SearchExact(b, start, D, P, target);
      if dist[target.1, target.0] == INF || start == target {
        return start, 0;
      }
      steps := dist[target.1, target.0];
      step := BackWalk(b, start, target, dist, prev, D, P);
    }

    /** The free cells of row `y` from column `x` on, left of the last column. */
    function RowCandidates(y: int, x: int): (r: seq<Pos>)
      reads this
      requires Rectangular(tiles, width, height) && 0 <= y < height && 0 <= x
      ensures forall p :: p in r <==> p.1 == y && x <= p.0 < width - 1 && IsFree(p)
      ensures forall i, j :: 0 <= i < j < |r| ==> MapText.Before(r[i], r[j])
      decreases width - x
    {
      if x >= width - 1 then []
      else if IsFree((x, y)) then [(x, y)] + RowCandidates(y, x + 1)
      else RowCandidates(y, x + 1)
    }

    /** The free cells of the rows from `y` on, above the last row and left of the last column. */
    function CandidatesFrom(y: int): (r: seq<Pos>)
      reads this
      requires Rectangular(tiles, width, height) && 0 <= y
      ensures forall p :: p in r <==> y <= p.1 < height - 1 && 0 <= p.0 < width - 1 && IsFree(p)
      ensures forall i, j :: 0 <= i < j < |r| ==> MapText.Before(r[i], r[j])
      decreases height - y
    {
      if y >= height - 1 then []
      else RowCandidates(y, 0) + CandidatesFrom(y + 1)
    }

    /**
     * The comprehension of `generate_coins`: the free cells with
     * `y < height - 1` and `x < width - 1`, row by row.
     */
    function Candidates(): seq<Pos>
      reads this
      requires Rectangular(tiles, width, height)
    {
      CandidatesFrom(0)
    }

    /** The candidates are exactly the free cells off the last row and column, each listed once. */
    lemma CandidatesExact()
      requires Rectangular(tiles, width, height)
      ensures forall p :: p in Candidates() <==> 0 <= p.1 < height - 1 && 0 <= p.0 < width - 1 && IsFree(p)
      ensures Distinct(Candidates())
    {
      var r := Candidates();
      forall i, j | 0 <= i < j < |r| ensures r[i] != r[j] {
        assert MapText.Before(r[i], r[j]);
      }
    }

    /**
     * `generate_coins(n)`: `random.sample` of `n` candidates. The positions
     * are distinct free cells off the last row and column; an `n` larger
     * than the number of candidates (or negative) is the `ValueError` case.
     */
    method GenerateCoins(n: int, rng: Random) returns (coins: Option<seq<Pos>>)
      requires Rectangular(tiles, width, height)
      modifies rng
      ensures coins.None? <==> n < 0 || n > |Candidates()|
      ensures coins.Some? ==> |coins.value| == n && Distinct(coins.value)
      ensures coins.Some? ==> forall c :: c in coins.value ==> 0 <= c.1 < height - 1 && 0 <= c.0 < width - 1 && IsFree(c)
      ensures rng.draws == old(rng.draws)
    {
      var candidates := Candidates();
      CandidatesExact();
      coins := rng.Sample(candidates, n);
      if coins.Some? {
        SubDistinct(coins.value, candidates);
        forall c | c in coins.value ensures c in candidates {
          assert c in multiset(coins.value);
        }
      }
    }
  }

  /**
   * `get_random_free_coordinate`: draw a free cell in `[0, 23]`
   * squared, then up to 100 offsets `dx, dy` in `[-10, 10]` with
   * `|dx| + |dy| == 20` whose target is a free cell in the same square.
   * The source retries forever; here `fuel` bounds the retries and `None`
   * means it ran out. A returned pair lies exactly 10 columns and 10 rows
   * apart, because `|dx| + |dy| == 20` leaves no other choice.
   */
  method GetRandomFreeCoordinate(lab: Labyrinth, rng: Random, fuel: nat) returns (r: Option<(Pos, Pos)>)
    requires Rectangular(lab.tiles, lab.width, lab.height) && 24 <= lab.width && 24 <= lab.height
    modifies rng
    ensures r.Some? ==> var (p, q) := r.value;
      && 0 <= p.0 <= 23 && 0 <= p.1 <= 23 && 0 <= q.0 <= 23 && 0 <= q.1 <= 23
      && lab.IsFree(p) && lab.IsFree(q)
      && Abs(q.0 - p.0) == 10 && Abs(q.1 - p.1) == 10
    ensures rng.draws == old(rng.draws)
  {
    var attempts := 0;
    while attempts < fuel
      invariant rng.draws == old(rng.draws)
    {
      var x1 := rng.RandInt(0, 23);
      var y1 := rng.RandInt(0, 23);
      if lab.IsFree((x1, y1)) {
        for i := 0 to 100
          invariant rng.draws == old(rng.draws)
        {
          var dx := rng.RandInt(-10, 10);
          var dy := rng.RandInt(-10, 10);
          if Abs(dx) + Abs(dy) == 20 {
            var x2, y2 := x1 + dx, y1 + dy;
            if 0 <= x2 <= 23 && 0 <= y2 <= 23 && lab.IsFree((x2, y2)) {
              return Some(((x1, y1), (x2, y2)));
            }
          }
        }
      }
      attempts := attempts + 1;
    }
    return None;
  }

  class Hero {
    var x: int
    var y: int

    constructor (position: Pos)
      ensures Position() == position
    {
      x, y := position.0, position.1;
    }

    function Position(): Pos
      reads this
    {
      (x, y)
    }

    method SetPosition(position: Pos)
      modifies this
      ensures Position() == position
    {
      x, y := position.0, position.1;
    }
  }

  class Enemy {
    var x: int
    var y: int
    var delay: int
    var paused: bool

    /** A new enemy waits with delay 0 and is not paused (the timer it starts is not modelled). */
    constructor (position: Pos)
      ensures Position() == position && delay == 0 && !paused
    {
      x, y := position.0, position.1;
      delay := 0;
      paused := false;
    }

    function Position(): Pos
      reads this
    {
      (x, y)
    }

    method SetPosition(position: Pos)
      modifies this
      ensures Position() == position && delay == old(delay) && paused == old(paused)
    {
      x, y := position.0, position.1;
    }
  }

  /** A carrot: where it lies and whether a saved game marked it collected. */
  datatype Coin = Coin(position: Pos, isCollected: bool)

  /** The positions of a coin list, in order. */
  function Positions(coins: seq<Coin>): (r: seq<Pos>)
    ensures |r| == |coins| && forall i :: 0 <= i < |coins| ==> r[i] == coins[i].position
  {
    if |coins| == 0 then [] else [coins[0].position] + Positions(coins[1..])
  }

  /** `Game.state`, the snapshot a saved game writes. */
  datatype Snapshot = Snapshot(
    heroPosition: Pos, enemyPosition: Pos, collectedCoins: int, enemyDelay: int, levels: int, levelCoins: int)

  /**
   * Where the arrow keys held in this frame would take the hero: each held
   * key moves one cell, so the target is at most one column and one row
   * away, a pair of opposite keys cancels out, and the hero moves right
   * exactly when right is held without left (and likewise for the others).
   */
  function KeyTarget(p: Pos, left: bool, right: bool, up: bool, down: bool): (q: Pos)
    ensures Abs(q.0 - p.0) <= 1 && Abs(q.1 - p.1) <= 1
    ensures q.0 > p.0 <==> right && !left
    ensures q.0 < p.0 <==> left && !right
    ensures q.1 > p.1 <==> down && !up
    ensures q.1 < p.1 <==> up && !down
    ensures (left == right && up == down) <==> q == p
  {
    var x := p.0 + (if left then -1 else 0) + (if right then 1 else 0);
    var y := p.1 + (if up then -1 else 0) + (if down then 1 else 0);
    (x, y)
  }

  /**
   * The coin loop of `update_hero` from index `i` on: Python's `for coin
   * in self.coins` with `self.coins.remove(coin)` inside. Removing the coin
   * at index `i` shifts the next coin into index `i`, and the iteration
   * goes on at `i + 1`, so that coin is not looked at. The result is the
   * remaining list and the number of coins removed.
   */
  function Sweep(coins: seq<Coin>, p: Pos, i: nat): (r: (seq<Coin>, nat))
    decreases |coins| - i
  {
    if i >= |coins| then (coins, 0)
    else if coins[i].position == p then
      var rest := Sweep(coins[..i] + coins[i + 1..], p, i + 1);
      (rest.0, rest.1 + 1)
    else Sweep(coins, p, i + 1)
  }

  /**
   * The loop only removes coins, and only coins on the hero's cell: what
   * is left is a sub-multiset, and the count is the number removed.
   */
  lemma {:induction false} SweepRemoves(coins: seq<Coin>, p: Pos, i: nat)
    ensures var (rest, n) := Sweep(coins, p, i);
      && |rest| + n == |coins| && multiset(rest) <= multiset(coins)
      && forall c :: c in multiset(coins) - multiset(rest) ==> c.position == p
    decreases |coins| - i
  {
    if i < |coins| {
      if coins[i].position == p {
        var smaller := coins[..i] + coins[i + 1..];
        SweepRemoves(smaller, p, i + 1);
        var rest := Sweep(smaller, p, i + 1).0;
        assert coins == coins[..i] + [coins[i]] + coins[i + 1..];
        assert multiset(coins) == multiset(smaller) + multiset{coins[i]};
        forall c | c in multiset(coins) - multiset(rest) ensures c.position == p {
          if c != coins[i] {
            assert multiset(coins)[c] == multiset(smaller)[c];
            assert c in multiset(smaller) - multiset(rest);
          }
        }
      } else {
        SweepRemoves(coins, p, i + 1);
      }
    }
  }

  /** With no coin at `p` from index `i` on, the loop removes nothing. */
  lemma {:induction false} SweepMiss(coins: seq<Coin>, p: Pos, i: nat)
    requires forall k :: i <= k < |coins| ==> coins[k].position != p
    ensures Sweep(coins, p, i) == (coins, 0)
    decreases |coins| - i
  {
    if i < |coins| {
      SweepMiss(coins, p, i + 1);
    }
  }

  /** With no coin at `p` between indices `i` and `k`, the loop gets to `k` unchanged. */
  lemma {:induction false} SweepUpTo(coins: seq<Coin>, p: Pos, i: nat, k: nat)
    requires i <= k <= |coins| && forall j :: i <= j < k ==> coins[j].position != p
    ensures Sweep(coins, p, i) == Sweep(coins, p, k)
    decreases k - i
  {
    if i < k {
      SweepUpTo(coins, p, i + 1, k);
    }
  }

  /**
   * With distinct coin positions (as `random.sample` gives them) the loop
   * removes exactly the coin at `p` if there is one and nothing otherwise.
   */
  lemma SweepDistinct(coins: seq<Coin>, p: Pos)
    requires Distinct(Positions(coins))
    ensures p !in Positions(coins) ==> Sweep(coins, p, 0) == (coins, 0)
    ensures forall k :: 0 <= k < |coins| && coins[k].position == p ==> Sweep(coins, p, 0) == (coins[..k] + coins[k + 1..], 1)
  {
    var ps := Positions(coins);
    if p !in ps {
      forall k | 0 <= k < |coins| ensures coins[k].position != p {
        assert ps[k] == coins[k].position;
      }
      SweepMiss(coins, p, 0);
    }
    forall k | 0 <= k < |coins| && coins[k].position == p
      ensures Sweep(coins, p, 0) == (coins[..k] + coins[k + 1..], 1)
    {
      SweepHit(coins, p, k);
    }
  }

  /** The coin at `p` with index `k`, the only one there, is the one removed. */
  lemma SweepHit(coins: seq<Coin>, p: Pos, k: int)
    requires Distinct(Positions(coins)) && 0 <= k < |coins| && coins[k].position == p
    ensures Sweep(coins, p, 0) == (coins[..k] + coins[k + 1..], 1)
  {
    var ps := Positions(coins);
    forall j | 0 <= j < |coins| && j != k ensures coins[j].position != p {
      assert ps[j] == coins[j].position && ps[k] == coins[k].position;
    }
    SweepUpTo(coins, p, 0, k);
    var rest := coins[..k] + coins[k + 1..];
    forall j | k + 1 <= j < |rest| ensures rest[j].position != p {
      assert rest[j] == coins[j + 1];
    }
    SweepMiss(rest, p, k + 1);
  }

  /**
   * The coin loop of `update_hero` on the hero's cell `here`: the coins
   * left and both counters, each raised by one per coin removed.
   */
  method CollectCoins(coins: seq<Coin>, here: Pos, collectedCoins: int, levelCoins: int)
    returns (remaining: seq<Coin>, collected: int, level: int)
    ensures (remaining, collected - collectedCoins) == Sweep(coins, here, 0)
    ensures level - levelCoins == collected - collectedCoins
  {
    remaining, collected, level := coins, collectedCoins, levelCoins;
    var i := 0;
    while i < |remaining|
      invariant Sweep(remaining, here, i).0 == Sweep(coins, here, 0).0
      invariant collected - collectedCoins + Sweep(remaining, here, i).1 == Sweep(coins, here, 0).1
      invariant level - levelCoins == collected - collectedCoins
      decreases |remaining| - i
    {
      if remaining[i].position == here {
        remaining := remaining[..i] + remaining[i + 1..];
        collected := collected + 1;
        level := level + 1;
      }
      i := i + 1;
    }
  }

  /** Two coins on the same cell in a row: the loop removes the first and skips the second. */
  lemma SweepSkips(p: Pos)
    ensures Sweep([Coin(p, false), Coin(p, false)], p, 0) == ([Coin(p, false)], 1)
  {
    var c := Coin(p, false);
    assert [c, c][..0] + [c, c][1..] == [c];
    SweepMiss([c], p, 1);
  }

  class Game {
    var labyrinth: Labyrinth
    var hero: Hero
    var enemy: Enemy
    var coins: seq<Coin>
    var collectedCoins: int
    var levelCoins: int
    var isPaused: bool
    var shortSoundAllowed: bool
    var exitCoordinates: Option<Pos>
    var levels: int
    var state: Snapshot
    /** The lines of `maps/map.txt`, which the constructor rewrites. */
    var mapFile: seq<string>

    /**
     * `Game.__init__`: the exit is looked up in the map file and then
     * hidden there, every 2 becoming 3; three levels are left.
     */
    constructor (labyrinth: Labyrinth, hero: Hero, enemy: Enemy, coins: seq<Coin>, mapFile: seq<string>)
      ensures this.labyrinth == labyrinth && this.hero == hero && this.enemy == enemy && this.coins == coins
      ensures collectedCoins == 0 && levelCoins == 0 && !isPaused && shortSoundAllowed && levels == 3
      ensures exitCoordinates.None? <==> forall p :: !MapText.TokenAt(mapFile, p, "2")
      ensures exitCoordinates.Some? ==>
        && MapText.TokenAt(mapFile, exitCoordinates.value, "2")
        && forall q :: MapText.Before(q, exitCoordinates.value) ==> !MapText.TokenAt(mapFile, q, "2")
      ensures |this.mapFile| == |mapFile|
        && forall i :: 0 <= i < |mapFile| ==> this.mapFile[i] == MapText.ReplaceChar(mapFile[i], '2', '3')
      ensures state == Snapshot(hero.Position(), enemy.Position(), 0, enemy.delay, 3, 0)
    {
      this.labyrinth := labyrinth;
      this.hero := hero;
      this.enemy := enemy;
      this.coins := coins;
      collectedCoins := 0;
      levelCoins := 0;
      isPaused := false;
      shortSoundAllowed := true;
      var exit := MapText.FindExitCoordinates(mapFile);
      exitCoordinates := exit;
      var hidden := MapText.UpdateExitToWall(mapFile);
      this.mapFile := hidden;
      levels := 3;
      state := Snapshot(hero.Position(), enemy.Position(), 0, enemy.delay, 3, 0);
    }

    /**
     * `update_hero` for one frame with the given arrow keys held: the
     * snapshot is refreshed, the hero steps to the key target when that
     * cell is free, and the coin loop removes the coins on the hero's cell,
     * counting each in `collected_coins` and `level_coins`.
     */
    method UpdateHero(left: bool, right: bool, up: bool, down: bool)
      requires InBounds(labyrinth.tiles, KeyTarget(hero.Position(), left, right, up, down))
      modifies this, hero
      ensures state == old(Snapshot(hero.Position(), state.enemyPosition, collectedCoins, enemy.delay, levels, levelCoins))
      ensures var next := KeyTarget(old(hero.Position()), left, right, up, down);
        hero.Position() == if old(labyrinth.IsFree(next)) then next else old(hero.Position())
      ensures (coins, collectedCoins - old(collectedCoins)) == Sweep(old(coins), hero.Position(), 0)
      ensures levelCoins - old(levelCoins) == collectedCoins - old(collectedCoins)
      ensures labyrinth == old(labyrinth) && hero == old(hero) && enemy == old(enemy) && levels == old(levels)
      ensures isPaused == old(isPaused) && exitCoordinates == old(exitCoordinates) && mapFile == old(mapFile)
      ensures shortSoundAllowed == old(shortSoundAllowed)
    {
      state := Snapshot(hero.Position(), state.enemyPosition, collectedCoins, enemy.delay, levels, levelCoins);
      var next := KeyTarget(hero.Position(), left, right, up, down);
      var here := if labyrinth.IsFree(next) then next else hero.Position();
      var remaining, collected, level := CollectCoins(coins, here, collectedCoins, levelCoins);
      coins, collectedCoins, levelCoins := remaining, collected, level;
      if labyrinth.IsFree(next) {
        hero.SetPosition(next);
      }
    }

    /**
     * `move_enemy`: unless paused, the enemy takes one pursuit step
     * towards the hero, and the snapshot records its new cell. An enemy
     * next to the hero catches it.
     */
    method MoveEnemy()
      requires ValidBoard(labyrinth.AsBoard())
      requires InBounds(labyrinth.tiles, enemy.Position()) && InBounds(labyrinth.tiles, hero.Position())
      modifies this, enemy
      ensures old(enemy.paused) ==> enemy.Position() == old(enemy.Position()) && state == old(state)
      ensures var (s, t) := (old(enemy.Position()), hero.Position());
        !old(enemy.paused) ==>
          && state == old(state).(enemyPosition := enemy.Position())
          && (s == t || Unreachable(labyrinth.AsBoard(), s, t) ==> enemy.Position() == s)
          && (s != t && !Unreachable(labyrinth.AsBoard(), s, t) ==>
               && Adjacent(s, enemy.Position()) && Enterable(labyrinth.AsBoard(), enemy.Position())
               && exists n :: Shortest(labyrinth.AsBoard(), s, t, n) && Shortest(labyrinth.AsBoard(), enemy.Position(), t, n - 1))
      ensures (!old(enemy.paused) && Adjacent(old(enemy.Position()), hero.Position())
        && Enterable(labyrinth.AsBoard(), hero.Position())) ==> CheckLose()
      ensures labyrinth == old(labyrinth) && hero == old(hero) && enemy == old(enemy) && coins == old(coins)
      ensures collectedCoins == old(collectedCoins) && levelCoins == old(levelCoins) && levels == old(levels)
      ensures enemy.paused == old(enemy.paused) && enemy.delay == old(enemy.delay)
      ensures isPaused == old(isPaused) && shortSoundAllowed == old(shortSoundAllowed)
      ensures exitCoordinates == old(exitCoordinates) && mapFile == old(mapFile)
    {
      if !enemy.paused {
        var s, t := enemy.Position(), hero.Position();
        var next, steps := labyrinth.FindPathStep(s, t);
        if Adjacent(s, t) && Enterable(labyrinth.AsBoard(), t) {
          OneStep(labyrinth.AsBoard(), s, t);
        }
        ghost var b := labyrinth.AsBoard();
        enemy.SetPosition(next);
        state := state.(enemyPosition := next);
        if s != t && !Unreachable(b, s, t) {
          assert Shortest(b, s, t, steps) && Shortest(b, next, t, steps - 1);
        }
      }
    }

    /** `check_win`: the hero stands on the finish tile. */
    predicate CheckWin()
      reads this, labyrinth, hero
      requires InBounds(labyrinth.tiles, hero.Position())
    {
      labyrinth.GetTileId(hero.Position()) == labyrinth.finishTile
    }

    /** `check_level`: the hero stands on the level tile. */
    predicate CheckLevel()
      reads this, labyrinth, hero
      requires InBounds(labyrinth.tiles, hero.Position())
    {
      labyrinth.GetTileId(hero.Position()) == labyrinth.levelTile
    }

    /** `check_lose`: the enemy has caught the hero. */
    predicate CheckLose()
      reads this, hero, enemy
    {
      hero.Position() == enemy.Position()
    }
  }

  /** A free neighbour `t` is one step away, and no walk reaches it in fewer. */
  lemma OneStep(b: Board, s: Pos, t: Pos)
    requires Adjacent(s, t) && Enterable(b, t)
    ensures Shortest(b, s, t, 1)
  {
    assert WalkFrom(b, [s, t], s, t);
  }

  // ---------------------------------------------------------------------
  // The exit through the levels of a game on a generated maze
  // ---------------------------------------------------------------------

  /** Every tile is 0, 1 or 2, and 2 only at `e`. */
  ghost predicate ExitOnly(g: Tiles, e: Pos) {
    forall p :: InBounds(g, p) ==> 0 <= TileAt(g, p) <= 2 && (TileAt(g, p) == 2 <==> p == e)
  }

  lemma MazeExitOnly(g: Tiles, w: int, h: int, e: Pos)
    requires MazeGenerator.FinishedMaze(g, w, h, e)
    ensures ExitOnly(g, e)
  {
    forall p | InBounds(g, p) ensures 0 <= TileAt(g, p) <= 2 && (TileAt(g, p) == 2 <==> p == e) {
      assert 0 <= p.1 < h && 0 <= p.0 < w;
    }
  }

  /** One cell of a remapped matrix. */
  lemma RemapAt(g: Tiles, from: int, to: int, p: Pos)
    requires InBounds(g, p)
    ensures InBounds(MapText.RemapTiles(g, from, to), p)
    ensures TileAt(MapText.RemapTiles(g, from, to), p) == if TileAt(g, p) == from then to else TileAt(g, p)
  {
  }

  /**
   * Hiding the exit (2 to 3) leaves a 3 exactly at `e`, which is not a free
   * tile, and turning that into the final exit (3 to 4) puts the finish
   * tile exactly at `e`.
   */
  lemma HideExit(g: Tiles, e: Pos)
    requires ExitOnly(g, e)
    ensures var hidden := MapText.RemapTiles(g, 2, 3);
      && (forall p :: InBounds(g, p) ==> InBounds(hidden, p) && (TileAt(hidden, p) == 3 <==> p == e))
      && (forall p :: InBounds(g, p) ==> (TileAt(hidden, p) in GameFreeTiles <==> TileAt(g, p) == 0))
      && (forall p :: InBounds(g, p) ==> (TileAt(MapText.RemapTiles(hidden, 3, 4), p) == GameFinishTile <==> p == e))
  {
    var hidden := MapText.RemapTiles(g, 2, 3);
    forall p | InBounds(g, p)
      ensures InBounds(hidden, p) && (TileAt(hidden, p) == 3 <==> p == e)
      ensures TileAt(hidden, p) in GameFreeTiles <==> TileAt(g, p) == 0
      ensures TileAt(MapText.RemapTiles(hidden, 3, 4), p) == GameFinishTile <==> p == e
    {
      RemapAt(g, 2, 3, p);
      RemapAt(hidden, 3, 4, p);
    }
  }

  /** Reopening the hidden exit (3 to 2) gives back the maze, which has no 3. */
  lemma ReopenExit(g: Tiles, e: Pos)
    requires ExitOnly(g, e)
    ensures MapText.RemapTiles(MapText.RemapTiles(g, 2, 3), 3, 2) == g
  {
    var hidden := MapText.RemapTiles(g, 2, 3);
    var back := MapText.RemapTiles(hidden, 3, 2);
    forall i | 0 <= i < |g| ensures back[i] == g[i] {
      forall k | 0 <= k < |g[i]| ensures back[i][k] == g[i][k] {
        RemapAt(g, 2, 3, (k, i));
        RemapAt(hidden, 3, 2, (k, i));
      }
    }
  }

  /** In a game on the reopened maze, the level is complete exactly when the hero is on the exit. */
  lemma LevelAtExit(game: Game, g: Tiles, w: int, h: int, e: Pos)
    requires MazeGenerator.FinishedMaze(g, w, h, e)
    requires game.labyrinth.tiles == MapText.RemapTiles(MapText.RemapTiles(g, 2, 3), 3, 2)
    requires game.labyrinth.levelTile == GameLevelTile && InBounds(g, game.hero.Position())
    ensures game.CheckLevel() <==> game.hero.Position() == e
  {
    MazeExitOnly(g, w, h, e);
    ReopenExit(g, e);
  }

  /** In a game on the last level's maze, the game is won exactly when the hero is on the exit. */
  lemma WinAtExit(game: Game, g: Tiles, w: int, h: int, e: Pos)
    requires MazeGenerator.FinishedMaze(g, w, h, e)
    requires game.labyrinth.tiles == MapText.RemapTiles(MapText.RemapTiles(g, 2, 3), 3, 4)
    requires game.labyrinth.finishTile == GameFinishTile && InBounds(g, game.hero.Position())
    ensures game.CheckWin() <==> game.hero.Position() == e
  {
    MazeExitOnly(g, w, h, e);
    HideExit(g, e);
  }

  /**
   * The exit lookup of `Game.__init__` on a saved generated maze finds the
   * maze's exit, and the file it writes back parses to the maze with the
   * exit hidden.
   */
  lemma GameFileOfMaze(g: Tiles, w: int, h: int, e: Pos, r: Option<Pos>, lines2: seq<string>)
    requires MazeGenerator.FinishedMaze(g, w, h, e)
    requires var lines := MapText.Lines(MapText.MazeText(g));
      && (r.None? <==> forall p :: !MapText.TokenAt(lines, p, "2"))
      && (r.Some? ==> MapText.TokenAt(lines, r.value, "2"))
    requires var lines := MapText.Lines(MapText.MazeText(g));
      |lines2| == |lines| && forall i :: 0 <= i < |lines| ==> lines2[i] == MapText.ReplaceChar(lines[i], '2', '3')
    ensures r == Some(e)
    ensures MapText.ParseRows(lines2) == Some(MapText.RemapTiles(g, 2, 3))
  {
    MapText.TokenTwo(g, e);
    if r.Some? {
      MapText.TokenTwo(g, r.value);
    }
    assert MapText.DigitTiles(g) by {
      forall i | 0 <= i < |g| ensures MapText.DigitRow(g[i]) {
        assert forall k :: 0 <= k < |g[i]| ==> 0 <= g[i][k] <= 2;
      }
    }
    MapText.RemapFile(g, 2, 3, lines2);
  }
}
