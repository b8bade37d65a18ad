/**
 * The text form of a tile matrix: the file maps/maze_generator.py writes
 * (`save_maze`), reads back line by line (`Labyrinth.__init__` in Rabbit.py),
 * searches for the exit (`find_exit_coordinates`) and rewrites with a
 * character replacement (`update_exit_to_wall`, `update_wall_to_exit`,
 * `update_wall_to_win`). Opening, reading and writing the file are not
 * modelled: a file is its contents, a `string`, or the list of its lines as
 * `readlines` returns them.
 */
module MapText {
  import opened Grid

  // ---------------------------------------------------------------------
  // str.split() and ' '.join()
  // ---------------------------------------------------------------------

  /** The characters `str.split()` separates on (the ASCII ones). */
  predicate IsSpace(c: char) {
    c == ' ' || c == '\t' || c == '\n' || c == '\r' || c == '\U{000B}' || c == '\U{000C}'
    || ('\U{001C}' <= c <= '\U{001F}')
  }

  /** A token of `str.split()`: nonempty and free of whitespace. */
  predicate IsToken(t: string) {
    |t| > 0 && forall i :: 0 <= i < |t| ==> !IsSpace(t[i])
  }

  /** The length of the run of non-space characters that starts `s`. */
  function WordLength(s: string): (n: nat)
    ensures n <= |s|
    ensures forall i :: 0 <= i < n ==> !IsSpace(s[i])
    ensures n < |s| ==> IsSpace(s[n])
  {
    if |s| == 0 || IsSpace(s[0]) then 0 else 1 + WordLength(s[1..])
  }

  /** `s.split()`: the maximal runs of non-space characters of `s`, in order. */
  function Split(s: string): (r: seq<string>)
    ensures forall k :: 0 <= k < |r| ==> IsToken(r[k])
    decreases |s|
  {
    if |s| == 0 then []
    else if IsSpace(s[0]) then Split(s[1..])
    else
      var n := WordLength(s);
      [s[..n]] + Split(s[n..])
  }

  /** `' '.join(ts)`. */
  function Join(ts: seq<string>): string {
    if |ts| == 0 then "" else if |ts| == 1 then ts[0] else ts[0] + " " + Join(ts[1..])
  }

  lemma {:induction false} WordOf(t: string, rest: string)
    requires IsToken(t) && (|rest| == 0 || IsSpace(rest[0]))
    ensures WordLength(t + rest) == |t|
  {
    assert (t + rest)[0] == t[0];
    if |t| == 1 {
      assert (t + rest)[1..] == rest;
    } else {
      assert (t + rest)[1..] == t[1..] + rest;
      WordOf(t[1..], rest);
    }
  }

  /** A token followed by a space (or by nothing) splits off as the first token. */
  lemma SplitToken(t: string, rest: string)
    requires IsToken(t) && (|rest| == 0 || IsSpace(rest[0]))
    ensures Split(t + rest) == [t] + Split(rest)
  {
    WordOf(t, rest);
    assert (t + rest)[..|t|] == t;
    assert (t + rest)[|t|..] == rest;
  }

  /** Splitting tokens joined by single spaces gives the tokens back. */
  lemma {:induction false} SplitJoin(ts: seq<string>, tail: string)
    requires forall k :: 0 <= k < |ts| ==> IsToken(ts[k])
    requires |tail| == 0 || IsSpace(tail[0])
    ensures Split(Join(ts) + tail) == ts + Split(tail)
  {
    if |ts| == 1 {
      SplitToken(ts[0], tail);
    } else if |ts| > 1 {
      var rest := Join(ts[1..]) + tail;
      calc {
        Split(Join(ts) + tail);
        { assert Join(ts) + tail == ts[0] + (" " + rest); }
        Split(ts[0] + (" " + rest));
        { SplitToken(ts[0], " " + rest); }
        [ts[0]] + Split(" " + rest);
        { assert (" " + rest)[1..] == rest; }
        [ts[0]] + Split(rest);
        { SplitJoin(ts[1..], tail); }
        [ts[0]] + (ts[1..] + Split(tail));
        { assert ts == [ts[0]] + ts[1..]; }
        ts + Split(tail);
      }
    } else {
      assert Join(ts) + tail == tail;
    }
  }

  // ---------------------------------------------------------------------
  // str(n) and int(t)
  // ---------------------------------------------------------------------

  predicate IsDigit(c: char) { '0' <= c <= '9' }

  function DigitChar(d: int): char
    requires 0 <= d < 10
  {
    ('0' as int + d) as char
  }

  function DigitValue(c: char): int
    requires IsDigit(c)
  {
    c as int - '0' as int
  }

  predicate AllDigits(s: string) {
    |s| > 0 && forall i :: 0 <= i < |s| ==> IsDigit(s[i])
  }

  /** `str(n)` for a natural number: its decimal digits without leading zeros. */
  function NatToString(n: nat): (s: string)
    ensures AllDigits(s)
  {
    if n < 10 then [DigitChar(n)] else NatToString(n / 10) + [DigitChar(n % 10)]
  }

  /** `str(i)`: a minus sign in front of a negative number. */
  function IntToString(i: int): string {
    if i < 0 then "-" + NatToString(-i) else NatToString(i)
  }

  /** The number a run of decimal digits stands for (leading zeros allowed). */
  function DigitsValue(s: string): nat
    requires forall i :: 0 <= i < |s| ==> IsDigit(s[i])
  {
    if |s| == 0 then 0 else DigitsValue(s[..|s| - 1]) * 10 + DigitValue(s[|s| - 1])
  }

  /**
   * `int(t)` for a token: an optional sign and one or more decimal digits.
   * Anything else makes Python raise `ValueError`; here it is `None`.
   */
  function ParseInt(t: string): Option<int> {
    if |t| > 0 && (t[0] == '-' || t[0] == '+') then
      if AllDigits(t[1..]) then
        var v: int := DigitsValue(t[1..]);
        Some(if t[0] == '-' then -v else v)
      else None
    else if AllDigits(t) then Some(DigitsValue(t))
    else None
  }

  lemma {:induction false} NatRoundTrip(n: nat)
    ensures DigitsValue(NatToString(n)) == n
  {
    var s := NatToString(n);
    if n >= 10 {
      assert s[..|s| - 1] == NatToString(n / 10);
      NatRoundTrip(n / 10);
    }
  }

  /** `int(str(i)) == i`, and `str(i)` is a single token. */
  lemma IntRoundTrip(i: int)
    ensures ParseInt(IntToString(i)) == Some(i) && IsToken(IntToString(i))
  {
    var s := IntToString(i);
    if i < 0 {
      assert s[1..] == NatToString(-i);
      NatRoundTrip(-i);
    } else {
      NatRoundTrip(i);
    }
  }

  // ---------------------------------------------------------------------
  // Rows and the whole file
  // ---------------------------------------------------------------------

  /** `map(str, row)`. */
  function Tokens(row: seq<int>): seq<string> {
    seq(|row|, k requires 0 <= k < |row| => IntToString(row[k]))
  }

  /** One line of `save_maze`: the row's numbers joined by single spaces, then a newline. */
  function RowLine(row: seq<int>): string {
    Join(Tokens(row)) + "\n"
  }

  /** `list(map(int, ts))`; `None` as soon as one token is not a number. */
  function ParseInts(ts: seq<string>): Option<seq<int>> {
    if |ts| == 0 then Some([])
    else match (ParseInt(ts[0]), ParseInts(ts[1..]))
      case (Some(v), Some(vs)) => Some([v] + vs)
      case _ => None
  }

  /** `list(map(int, line.split()))`, the parse of one map line (Rabbit.py line 39). */
  function ParseRow(line: string): Option<seq<int>> {
    ParseInts(Split(line))
  }

  lemma {:induction false} ParseTokens(row: seq<int>)
    ensures ParseInts(Tokens(row)) == Some(row)
    ensures forall k :: 0 <= k < |Tokens(row)| ==> IsToken(Tokens(row)[k])
  {
    if |row| > 0 {
      assert Tokens(row)[1..] == Tokens(row[1..]);
      IntRoundTrip(row[0]);
      ParseTokens(row[1..]);
      assert row == [row[0]] + row[1..];
    }
    forall k | 0 <= k < |Tokens(row)| ensures IsToken(Tokens(row)[k]) {
      IntRoundTrip(row[k]);
    }
  }

  /** Writing a row and parsing the line back gives the row. */
  lemma RowRoundTrip(row: seq<int>)
    ensures ParseRow(RowLine(row)) == Some(row)
  {
    ParseTokens(row);
    SplitJoin(Tokens(row), "\n");
    assert Split("\n") == [] by {
      assert "\n"[1..] == "";
    }
    assert Split(RowLine(row)) == Tokens(row);
  }

  /** The file `save_maze` writes: one `RowLine` per row, top row first. */
  function MazeText(g: Tiles): string {
    if |g| == 0 then "" else RowLine(g[0]) + MazeText(g[1..])
  }

  /** The length of the first line of `s`, its newline included (all of `s` if it has none). */
  function LineLength(s: string): (n: nat)
    ensures n <= |s| && (|s| > 0 ==> n > 0)
  {
    if |s| == 0 then 0 else if s[0] == '\n' then 1 else 1 + LineLength(s[1..])
  }

  /** The lines of a file's contents as iterating over the file yields them, each with its newline. */
  function Lines(s: string): seq<string>
    decreases |s|
  {
    if |s| == 0 then [] else var n := LineLength(s); [s[..n]] + Lines(s[n..])
  }

  /** The rows of a map file, as `Labyrinth.__init__` builds `self.map`; `None` if a line does not parse. */
  function ParseRows(ls: seq<string>): Option<Tiles> {
    if |ls| == 0 then Some([])
    else match (ParseRow(ls[0]), ParseRows(ls[1..]))
      case (Some(r), Some(rs)) => Some([r] + rs)
      case _ => None
  }

  function ParseMap(text: string): Option<Tiles> {
    ParseRows(Lines(text))
  }

  lemma {:induction false} JoinHasNoNewline(ts: seq<string>)
    requires forall k :: 0 <= k < |ts| ==> IsToken(ts[k])
    ensures forall i :: 0 <= i < |Join(ts)| ==> Join(ts)[i] != '\n'
  {
    if |ts| > 1 {
      JoinHasNoNewline(ts[1..]);
    }
  }

  lemma {:induction false} FirstLine(body: string, rest: string)
    requires forall i :: 0 <= i < |body| ==> body[i] != '\n'
    ensures LineLength(body + "\n" + rest) == |body| + 1
  {
    if |body| > 0 {
      assert (body + "\n" + rest)[1..] == body[1..] + "\n" + rest;
      FirstLine(body[1..], rest);
    }
  }

  /** A row's line is one line of the file: reading the file line by line finds the rows' lines. */
  lemma {:induction false} LinesOfMaze(g: Tiles)
    ensures Lines(MazeText(g)) == seq(|g|, i requires 0 <= i < |g| => RowLine(g[i]))
  {
    if |g| > 0 {
      var body := Join(Tokens(g[0]));
      ParseTokens(g[0]);
      JoinHasNoNewline(Tokens(g[0]));
      FirstLine(body, MazeText(g[1..]));
      var s := MazeText(g);
      assert s == body + "\n" + MazeText(g[1..]);
      assert s[..|body| + 1] == RowLine(g[0]);
      assert s[|body| + 1..] == MazeText(g[1..]);
      LinesOfMaze(g[1..]);
    }
  }

  lemma {:induction false} ParseRowLines(g: Tiles)
    ensures ParseRows(seq(|g|, i requires 0 <= i < |g| => RowLine(g[i]))) == Some(g)
  {
    if |g| > 0 {
      var ls := seq(|g|, i requires 0 <= i < |g| => RowLine(g[i]));
      assert ls[1..] == seq(|g[1..]|, i requires 0 <= i < |g[1..]| => RowLine(g[1..][i]));
      RowRoundTrip(g[0]);
      ParseRowLines(g[1..]);
      assert g == [g[0]] + g[1..];
    }
  }

  /** Reading back the file `save_maze` wrote gives the matrix that was saved. */
  lemma MapRoundTrip(g: Tiles)
    ensures ParseMap(MazeText(g)) == Some(g)
  {
    LinesOfMaze(g);
    ParseRowLines(g);
  }

  /**
   * `save_maze(maze, filename)`: the text written, row after row. The
   * matrix is the array `generate_maze` fills; `g` is its value.
   */
  method SaveMaze(a: array2<int>, ghost g: Tiles) returns (text: string)
    requires Mirrors(a, g)
    ensures text == MazeText(g)
  {
    text := "";
    for y := 0 to a.Length0
      invariant text + MazeText(g[y..]) == MazeText(g)
    {
      var row: seq<int> := [];
      for x := 0 to a.Length1
        invariant row == g[y][..x]
      {
        row := row + [a[y, x]];
      }
      assert row == g[y];
      assert g[y..][1..] == g[y + 1..];
      text := text + RowLine(row);
    }
    assert g[a.Length0..] == [];
  }

  // ---------------------------------------------------------------------
  // Rewriting the map file
  // ---------------------------------------------------------------------

  /** `s.replace(from, to)` for one-character strings. */
  function ReplaceChar(s: string, from: char, to: char): (r: string)
    ensures |r| == |s|
    ensures forall i :: 0 <= i < |s| ==> r[i] == if s[i] == from then to else s[i]
  {
    if |s| == 0 then "" else [if s[0] == from then to else s[0]] + ReplaceChar(s[1..], from, to)
  }

  /**
   * The loop shared by `update_exit_to_wall`, `update_wall_to_exit` and
   * `update_wall_to_win`: every line with one character replaced.
   */
  method ReplaceInLines(lines: seq<string>, from: char, to: char) returns (lines2: seq<string>)
    ensures |lines2| == |lines|
    ensures forall i :: 0 <= i < |lines| ==> lines2[i] == ReplaceChar(lines[i], from, to)
  {
    lines2 := [];
    for i := 0 to |lines|
      invariant |lines2| == i
      invariant forall k :: 0 <= k < i ==> lines2[k] == ReplaceChar(lines[k], from, to)
    {
      lines2 := lines2 + [ReplaceChar(lines[i], from, to)];
    }
  }

  /** `update_exit_to_wall`: every 2 in the file becomes 3. */
  method UpdateExitToWall(lines: seq<string>) returns (lines2: seq<string>)
    ensures |lines2| == |lines| && forall i :: 0 <= i < |lines| ==> lines2[i] == ReplaceChar(lines[i], '2', '3')
  {
    lines2 := ReplaceInLines(lines, '2', '3');
  }

  /** `update_wall_to_exit`: every 3 in the file becomes 2. */
  method UpdateWallToExit(lines: seq<string>) returns (lines2: seq<string>)
    ensures |lines2| == |lines| && forall i :: 0 <= i < |lines| ==> lines2[i] == ReplaceChar(lines[i], '3', '2')
  {
    lines2 := ReplaceInLines(lines, '3', '2');
  }

  /** `update_wall_to_win`: every 3 in the file becomes 4. */
  method UpdateWallToWin(lines: seq<string>) returns (lines2: seq<string>)
    ensures |lines2| == |lines| && forall i :: 0 <= i < |lines| ==> lines2[i] == ReplaceChar(lines[i], '3', '4')
  {
    lines2 := ReplaceInLines(lines, '3', '4');
  }

  /** Every tile is a single decimal digit, so its text is one character. */
  predicate DigitRow(row: seq<int>) {
    forall k :: 0 <= k < |row| ==> 0 <= row[k] <= 9
  }

  predicate DigitTiles(g: Tiles) {
    forall i :: 0 <= i < |g| ==> DigitRow(g[i])
  }

  /** The row with every tile `from` turned into `to`. */
  function RemapRow(row: seq<int>, from: int, to: int): (r: seq<int>)
    ensures |r| == |row|
    ensures forall k :: 0 <= k < |row| ==> r[k] == if row[k] == from then to else row[k]
  {
    if |row| == 0 then [] else [if row[0] == from then to else row[0]] + RemapRow(row[1..], from, to)
  }

  function RemapTiles(g: Tiles, from: int, to: int): (r: Tiles)
    ensures |r| == |g| && forall i :: 0 <= i < |g| ==> r[i] == RemapRow(g[i], from, to)
  {
    if |g| == 0 then [] else [RemapRow(g[0], from, to)] + RemapTiles(g[1..], from, to)
  }

  lemma ReplaceConcat(a: string, b: string, from: char, to: char)
    ensures ReplaceChar(a + b, from, to) == ReplaceChar(a, from, to) + ReplaceChar(b, from, to)
  {
  }

  lemma {:induction false} ReplaceJoin(row: seq<int>, from: int, to: int)
    requires DigitRow(row) && 0 <= from <= 9 && 0 <= to <= 9
    ensures ReplaceChar(Join(Tokens(row)), DigitChar(from), DigitChar(to)) == Join(Tokens(RemapRow(row, from, to)))
  {
    var f, t := DigitChar(from), DigitChar(to);
    if |row| > 0 {
      var v := row[0];
      var v' := if v == from then to else v;
      assert Tokens(row)[0] == [DigitChar(v)];
      assert Tokens(RemapRow(row, from, to))[0] == [DigitChar(v')];
      assert ReplaceChar([DigitChar(v)], f, t) == [DigitChar(v')];
      if |row| > 1 {
        assert Tokens(row)[1..] == Tokens(row[1..]);
        assert Tokens(RemapRow(row, from, to))[1..] == Tokens(RemapRow(row[1..], from, to));
        ReplaceJoin(row[1..], from, to);
        ReplaceConcat([DigitChar(v)] + " ", Join(Tokens(row[1..])), f, t);
        ReplaceConcat([DigitChar(v)], " ", f, t);
      }
    }
  }

  /**
   * On a file of single-digit tiles, replacing the character of `from` by
   * that of `to` in a row's line is the same as writing the row with tile
   * `from` turned into `to`.
   */
  lemma ReplaceRow(row: seq<int>, from: int, to: int)
    requires DigitRow(row) && 0 <= from <= 9 && 0 <= to <= 9
    ensures ReplaceChar(RowLine(row), DigitChar(from), DigitChar(to)) == RowLine(RemapRow(row, from, to))
  {
    ReplaceJoin(row, from, to);
    ReplaceConcat(Join(Tokens(row)), "\n", DigitChar(from), DigitChar(to));
  }

  /**
   * The file rewrites are tile remaps: after replacing `from` by `to` in
   * every line of a saved single-digit map, the file reads back as the map
   * with tile `from` turned into `to` and every other tile unchanged.
   */
  lemma RemapFile(g: Tiles, from: int, to: int, lines2: seq<string>)
    requires DigitTiles(g) && 0 <= from <= 9 && 0 <= to <= 9
    requires |lines2| == |Lines(MazeText(g))|
    requires forall i :: 0 <= i < |lines2| ==> lines2[i] == ReplaceChar(Lines(MazeText(g))[i], DigitChar(from), DigitChar(to))
    ensures ParseRows(lines2) == Some(RemapTiles(g, from, to))
  {
    var r := RemapTiles(g, from, to);
    LinesOfMaze(g);
    forall i | 0 <= i < |g| ensures lines2[i] == RowLine(r[i]) {
      ReplaceRow(g[i], from, to);
    }
    assert lines2 == seq(|r|, i requires 0 <= i < |r| => RowLine(r[i]));
    ParseRowLines(r);
  }

  // ---------------------------------------------------------------------
  // find_exit_coordinates
  // ---------------------------------------------------------------------

  /** Token number `p.0` of line `p.1` exists and is `tok`. */
  predicate TokenAt(lines: seq<string>, p: Pos, tok: string) {
    0 <= p.1 < |lines| && 0 <= p.0 < |Split(lines[p.1])| && Split(lines[p.1])[p.0] == tok
  }

  /** `q` comes before `p` in row-major order. */
  predicate Before(q: Pos, p: Pos) {
    q.1 < p.1 || (q.1 == p.1 && q.0 < p.0)
  }

  /**
   * `find_exit_coordinates`: the first token "2", scanning the lines top to
   * bottom and each line left to right. Python returns `None` when there is
   * no such token.
   */
  method FindExitCoordinates(lines: seq<string>) returns (r: Option<Pos>)
    ensures r.None? <==> forall p :: !TokenAt(lines, p, "2")
    ensures r.Some? ==> TokenAt(lines, r.value, "2") && forall q :: Before(q, r.value) ==> !TokenAt(lines, q, "2")
  {
    for y := 0 to |lines|
      invariant forall q: Pos :: q.1 < y ==> !TokenAt(lines, q, "2")
    {
      var tokens := Split(lines[y]);
      for x := 0 to |tokens|
        invariant forall q: Pos :: q.1 < y || (q.1 == y && q.0 < x) ==> !TokenAt(lines, q, "2")
      {
        if tokens[x] == "2" {
          assert TokenAt(lines, (x, y), "2");
          return Some((x, y));
        }
      }
    }
    return None;
  }

  /** In a saved map, the token "2" stands exactly where the tile is 2. */
  lemma TokenTwo(g: Tiles, p: Pos)
    ensures TokenAt(Lines(MazeText(g)), p, "2") <==> InBounds(g, p) && TileAt(g, p) == 2
  {
    LinesOfMaze(g);
    if 0 <= p.1 < |g| {
      var row := g[p.1];
      ParseTokens(row);
      SplitJoin(Tokens(row), "\n");
      assert Split("\n") == [] by {
        assert "\n"[1..] == "";
      }
      assert Split(RowLine(row)) == Tokens(row);
      if 0 <= p.0 < |row| {
        IntRoundTrip(row[p.0]);
        IntRoundTrip(2);
        assert IntToString(2) == "2";
      }
    }
  }
}
