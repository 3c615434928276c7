/**
 The game state of `Game2048Manager`: the board and the sticky `gameWon`
 flag, with construction, tile spawning, the win check and `move`.

 Randomness is a nondeterministic choice: a spawn puts a 2 or a 4 into some
 empty cell, with no claim about which.
 */
module Manager {
  import opened Line
  import opened Grid

  /** The tile that wins the game. */
  const WinningTile: nat := 2048

  datatype Game = Game(grid: Board, gameWon: bool)

  predicate HasWinningTile(g: Board)
    requires IsGrid(g)
  {
    exists r, c :: 0 <= r < Size && 0 <= c < Size && g[r][c] == WinningTile
  }

  /** The values a spawn may place. */
  predicate IsSpawnValue(v: nat) {
    v == 2 || v == 4
  }

  /** `h` is `g` with the empty cell (r, c) now holding a 2 or a 4. */
  ghost predicate SpawnedAt(g: Board, h: Board, r: int, c: int)
    requires IsGrid(g) && IsGrid(h)
  {
    && IsEmptyAt(g, r, c)
    && IsSpawnValue(h[r][c])
    && forall r', c' :: InBoard(r', c') && (r', c') != (r, c) ==> h[r'][c'] == g[r'][c']
  }

  /** `h` is `g` with exactly one previously empty cell filled by a spawn. */
  ghost predicate Spawned(g: Board, h: Board)
    requires IsGrid(g) && IsGrid(h)
  {
    exists r, c :: SpawnedAt(g, h, r, c)
  }

  /** The board holds tiles only at the two distinct cells (r1, c1) and
      (r2, c2), each a 2 or a 4. */
  ghost predicate TwoSpawnedTilesAt(g: Board, r1: int, c1: int, r2: int, c2: int)
    requires IsGrid(g)
  {
    && InBoard(r1, c1) && InBoard(r2, c2) && (r1, c1) != (r2, c2)
    && IsSpawnValue(g[r1][c1]) && IsSpawnValue(g[r2][c2])
    && forall r, c :: InBoard(r, c) && (r, c) != (r1, c1) && (r, c) != (r2, c2) ==> g[r][c] == 0
  }

  function EmptyBoard(): (g: Board)
    ensures IsGrid(g)
    ensures forall r, c :: InBoard(r, c) ==> g[r][c] == 0
  {
    seq(Size, _ => Zeros(Size))
  }

  /** Setting an empty cell to `v` adds `v` to the tile total. */
  lemma StoreTotal(g: Board, r: nat, c: nat, v: nat)
    requires IsGrid(g) && IsEmptyAt(g, r, c)
    ensures Total(Store(g, r, c, v)) == Total(g) + v
  {
    var h := Store(g, r, c, v);
    var row := h[r];
    assert row == g[r][c := v];
    Sum4(g[r]);
    Sum4(row);
    assert Sum(row) == Sum(g[r]) + v;
    assert h == g[r := row];
    Total16(g);
    Total16(h);
  }

  /** `spawnTile`: draw 2 or 4, pick an empty cell, and place the value. The
      source retries random cells until one is empty, which ends only when
      an empty cell exists; hence the precondition. */
  method SpawnTile(g: Board) returns (h: Board)
    requires IsGrid(g) && HasEmpty(g)
    ensures IsGrid(h)
    ensures Spawned(g, h)
    ensures Total(h) == Total(g) + 2 || Total(h) == Total(g) + 4
  {
    assert IsSpawnValue(2);
    var value: nat :| IsSpawnValue(value);
    var r: nat, c: nat :| r < Size && c < Size && g[r][c] == 0;
    h := Store(g, r, c, value);
    assert SpawnedAt(g, h, r, c);
    StoreTotal(g, r, c, value);
  }

  /** `checkGameWon`: scan the board and raise the flag at the first 2048.
      The flag is never lowered. */
  method CheckGameWon(game: Game) returns (game': Game)
    requires IsGrid(game.grid)
    ensures game'.grid == game.grid
    ensures game'.gameWon <==> game.gameWon || HasWinningTile(game.grid)
  {
    var g := game.grid;
    for i := 0 to Size
      invariant forall r, c :: 0 <= r < i && 0 <= c < Size ==> g[r][c] != WinningTile
    {
      for j := 0 to Size
        invariant forall r, c :: 0 <= r < i && 0 <= c < Size ==> g[r][c] != WinningTile
        invariant forall c :: 0 <= c < j ==> g[i][c] != WinningTile
      {
        if g[i][j] == WinningTile {
          return game.(gameWon := true);
        }
      }
    }
    return game;
  }

  /** The constructor: an empty board, then two spawns. */
  method NewGame() returns (game: Game)
    ensures IsGrid(game.grid)
    ensures !game.gameWon
    ensures exists r1, c1, r2, c2 :: TwoSpawnedTilesAt(game.grid, r1, c1, r2, c2)
    ensures AllTileCells(game.grid)
  {
    var g0 := EmptyBoard();
    assert IsEmptyAt(g0, 0, 0);
    var g1 := SpawnTile(g0);
    OneSpawnLeavesRoom(g0, g1);
    var g2 := SpawnTile(g1);
    TwoSpawns(g0, g1, g2);
    game := Game(g2, false);
  }

  /** After one spawn on an empty board, another cell is still empty. */
  lemma OneSpawnLeavesRoom(g0: Board, g1: Board)
    requires IsGrid(g0) && IsGrid(g1)
    requires forall r, c :: InBoard(r, c) ==> g0[r][c] == 0
    requires Spawned(g0, g1)
    ensures HasEmpty(g1)
  {
    var r1, c1 :| SpawnedAt(g0, g1, r1, c1);
    var c2: int := if (r1, c1) == (0, 0) then 1 else 0;
    assert IsEmptyAt(g1, 0, c2);
  }

  /** Two spawns on an empty board leave exactly two tiles, each 2 or 4. */
  lemma TwoSpawns(g0: Board, g1: Board, g2: Board)
    requires IsGrid(g0) && IsGrid(g1) && IsGrid(g2)
    requires forall r, c :: InBoard(r, c) ==> g0[r][c] == 0
    requires Spawned(g0, g1) && Spawned(g1, g2)
    ensures exists r1, c1, r2, c2 :: TwoSpawnedTilesAt(g2, r1, c1, r2, c2)
    ensures AllTileCells(g2)
  {
    var r1, c1 :| SpawnedAt(g0, g1, r1, c1);
    var r2, c2 :| SpawnedAt(g1, g2, r2, c2);
    assert TwoSpawnedTilesAt(g2, r1, c1, r2, c2);
    assert IsPow2(1);
    assert IsPow2(2);
    assert IsPow2(4);
  }

  /** `move`: dispatch on the direction name; when the board changed, spawn
      one tile and re-check the win flag. A blocked move, or a name other
      than UP, DOWN, LEFT and RIGHT, leaves the game exactly as it was. */
  method Move(game: Game, direction: string) returns (game': Game, moved: bool)
    requires IsGrid(game.grid)
    ensures IsGrid(game'.grid)
    ensures moved <==> ParseDirection(direction).Some? &&
                       Slide(game.grid, ParseDirection(direction).value) != game.grid
    ensures !moved ==> game' == game
    ensures moved ==> Spawned(Slide(game.grid, ParseDirection(direction).value), game'.grid)
    ensures game'.gameWon <==> game.gameWon || (moved && HasWinningTile(game'.grid))
    ensures moved ==> Total(game'.grid) == Total(game.grid) + 2 || Total(game'.grid) == Total(game.grid) + 4
    ensures AllTileCells(game.grid) ==> AllTileCells(game'.grid)
  {
    var grid := game.grid;
    moved := false;
    match ParseDirection(direction) {
      case Some(d) =>
        grid, moved := MoveLines(game.grid, d);
      case None =>
    }
    if moved {
      var d := ParseDirection(direction).value;
      SlideChangeLeavesRoom(game.grid, d);
      SlideConservesTotal(game.grid, d);
      var spawned := SpawnTile(grid);
      game' := CheckGameWon(Game(spawned, game.gameWon));
      if AllTileCells(game.grid) {
        SlidePreservesTiles(game.grid, d);
        SpawnKeepsTiles(grid, spawned);
      }
    } else {
      game' := game;
    }
  }

  lemma SpawnKeepsTiles(g: Board, h: Board)
    requires IsGrid(g) && IsGrid(h) && AllTileCells(g) && Spawned(g, h)
    ensures AllTileCells(h)
  {
    var r, c :| SpawnedAt(g, h, r, c);
    assert IsPow2(1);
    assert IsPow2(2);
    assert IsTile(h[r][c]);
  }
}
