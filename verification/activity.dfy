/**
 The game-over test of `MainActivity` (`hasValidMoves`, `isGameOver`) and
 the order in which `performMove` moves and then tests for game over.

 The test is an adjacency scan, not a trial of the four moves; the lemmas
 below show that the two agree on every board with at least one tile.
 */
module Activity {
  import opened Line
  import opened Grid
  import opened Manager

  /** The cell (r, c) equals the cell below it or the cell to its right. */
  predicate EqualToNextAt(g: Board, r: int, c: int)
    requires IsGrid(g) && InBoard(r, c)
  {
    (r < Size - 1 && g[r][c] == g[r + 1][c]) || (c < Size - 1 && g[r][c] == g[r][c + 1])
  }

  /** Some vertically or horizontally adjacent pair holds equal values. */
  predicate HasEqualNeighbours(g: Board)
    requires IsGrid(g)
  {
    exists r, c :: 0 <= r < Size && 0 <= c < Size && EqualToNextAt(g, r, c)
  }

  /** What `hasValidMoves` answers: an empty cell, or an equal adjacent pair. */
  predicate CanMove(g: Board)
    requires IsGrid(g)
  {
    HasEmpty(g) || HasEqualNeighbours(g)
  }

  /** `hasValidMoves`: scan the cells in row order and stop at the first
      empty cell or the first cell equal to its lower or right neighbour. */
  method HasValidMoves(g: Board) returns (b: bool)
    requires IsGrid(g)
    ensures b <==> CanMove(g)
  {
    for i := 0 to Size
      invariant forall r, c :: 0 <= r < i && 0 <= c < Size ==> g[r][c] != 0 && !EqualToNextAt(g, r, c)
    {
      for j := 0 to Size
        invariant forall r, c :: 0 <= r < i && 0 <= c < Size ==> g[r][c] != 0 && !EqualToNextAt(g, r, c)
        invariant forall c :: 0 <= c < j ==> g[i][c] != 0 && !EqualToNextAt(g, i, c)
      {
        if g[i][j] == 0 {
          assert IsEmptyAt(g, i, j);
          return true;
        }
        if i < Size - 1 && g[i][j] == g[i + 1][j] {
          assert EqualToNextAt(g, i, j);
          return true;
        }
        if j < Size - 1 && g[i][j] == g[i][j + 1] {
          assert EqualToNextAt(g, i, j);
          return true;
        }
      }
    }
    return false;
  }

  /** `isGameOver`: no valid move is left. */
  method IsGameOver(g: Board) returns (over: bool)
    requires IsGrid(g)
    ensures over <==> !HasEmpty(g) && !HasEqualNeighbours(g)
  {
    var valid := HasValidMoves(g);
    over := !valid;
  }

  // ---------------------------------------------------------------------------
  // The adjacency scan against the moves

  /** Neighbours within a line, for any direction, are neighbours on the board. */
  lemma LineNeighbours(g: Board, d: Direction, k: nat, i: nat)
    requires IsGrid(g) && k < Size && i < Size - 1
    requires ExtractLine(g, d, k)[i] == ExtractLine(g, d, k)[i + 1]
    ensures HasEqualNeighbours(g)
  {
    var line := ExtractLine(g, d, k);
    match d
    case Up => assert EqualToNextAt(g, i, k);
    case Down => assert EqualToNextAt(g, Size - 2 - i, k);
    case Left => assert EqualToNextAt(g, k, i);
    case Right => assert EqualToNextAt(g, k, Size - 2 - i);
  }

  /** On a board with no valid move, every line in every direction is
      stable. */
  lemma GameOverLinesStable(g: Board, d: Direction, k: nat)
    requires IsGrid(g) && !CanMove(g) && k < Size
    ensures IsStable(ExtractLine(g, d, k))
  {
    var line := ExtractLine(g, d, k);
    forall j | 0 <= j < Size ensures line[j] != 0 {
      assert !IsEmptyAt(g, CellRow(d, k, j), CellCol(d, k, j));
    }
    forall i | 0 <= i < Size - 1 && line[i] != 0 ensures line[i] != line[i + 1] {
      if line[i] == line[i + 1] {
        LineNeighbours(g, d, k, i);
      }
    }
  }

  /** Soundness of the game-over test: when it reports game over, no
      direction changes the board. */
  lemma GameOverBlocksEveryMove(g: Board, d: Direction)
    requires IsGrid(g) && !CanMove(g)
    ensures Slide(g, d) == g
  {
    forall k | 0 <= k < Size
      ensures MergeLine(ExtractLine(g, d, k)) == ExtractLine(g, d, k)
    {
      GameOverLinesStable(g, d, k);
      StableIsFixpoint(ExtractLine(g, d, k));
    }
    SlideChangedIffLineChanged(g, d);
  }

  lemma UnstableLineMoves(g: Board, d: Direction, k: nat)
    requires IsGrid(g) && k < Size && !IsStable(ExtractLine(g, d, k))
    ensures Slide(g, d) != g
  {
    MergeLineFixpoint(ExtractLine(g, d, k));
    SlideChangedIffLineChanged(g, d);
  }

  /** An empty cell and a tile in the same row or column give a move that
      changes the board. */
  lemma GapInRowMoves(g: Board, r: nat, c: nat, c': nat)
    requires IsGrid(g) && r < Size && c < Size && c' < Size
    requires g[r][c] == 0 && g[r][c'] != 0
    ensures Slide(g, Left) != g || Slide(g, Right) != g
  {
    if c < c' {
      assert ExtractLine(g, Left, r)[c] == 0 && ExtractLine(g, Left, r)[c'] != 0;
      UnstableLineMoves(g, Left, r);
    } else {
      assert ExtractLine(g, Right, r)[Size - 1 - c] == 0 && ExtractLine(g, Right, r)[Size - 1 - c'] != 0;
      UnstableLineMoves(g, Right, r);
    }
  }

  lemma GapInColumnMoves(g: Board, r: nat, r': nat, c: nat)
    requires IsGrid(g) && r < Size && r' < Size && c < Size
    requires g[r][c] == 0 && g[r'][c] != 0
    ensures Slide(g, Up) != g || Slide(g, Down) != g
  {
    if r < r' {
      assert ExtractLine(g, Up, c)[r] == 0 && ExtractLine(g, Up, c)[r'] != 0;
      UnstableLineMoves(g, Up, c);
    } else {
      assert ExtractLine(g, Down, c)[Size - 1 - r] == 0 && ExtractLine(g, Down, c)[Size - 1 - r'] != 0;
      UnstableLineMoves(g, Down, c);
    }
  }

  /** On a board with at least one tile, the adjacency scan answers exactly
      whether some direction changes the board. (The all-empty board has
      empty cells yet no move changes it.) */
  lemma CanMoveIffSomeMoveChanges(g: Board)
    requires IsGrid(g)
    requires exists r, c :: InBoard(r, c) && g[r][c] != 0
    ensures CanMove(g) <==> exists d :: Slide(g, d) != g
  {
    if !CanMove(g) {
      forall d ensures Slide(g, d) == g {
        GameOverBlocksEveryMove(g, d);
      }
    } else if HasEmpty(g) {
      var r, c :| 0 <= r < Size && 0 <= c < Size && IsEmptyAt(g, r, c);
      var r2, c2 :| InBoard(r2, c2) && g[r2][c2] != 0;
      if exists c' :: 0 <= c' < Size && g[r][c'] != 0 {
        var c' :| 0 <= c' < Size && g[r][c'] != 0;
        GapInRowMoves(g, r, c, c');
      } else {
        GapInColumnMoves(g, r, r2, c2);
      }
    } else {
      var r, c :| 0 <= r < Size && 0 <= c < Size && EqualToNextAt(g, r, c);
      assert !IsEmptyAt(g, r, c);
      if r < Size - 1 && g[r][c] == g[r + 1][c] {
        assert ExtractLine(g, Up, c)[r] == ExtractLine(g, Up, c)[r + 1];
        UnstableLineMoves(g, Up, c);
      } else {
        assert ExtractLine(g, Left, r)[c] == ExtractLine(g, Left, r)[c + 1];
        UnstableLineMoves(g, Left, r);
      }
    }
  }

  /** `performMove`: make the move, and only when it changed the board test
      for game over. A board that is already over never moves again. */
  method PerformMove(game: Game, direction: string) returns (game': Game, moved: bool, gameOver: bool)
    requires IsGrid(game.grid)
    ensures IsGrid(game'.grid)
    ensures moved <==> ParseDirection(direction).Some? &&
                       Slide(game.grid, ParseDirection(direction).value) != game.grid
    ensures !moved ==> game' == game
    ensures moved ==> Spawned(Slide(game.grid, ParseDirection(direction).value), game'.grid)
    ensures game'.gameWon <==> game.gameWon || (moved && HasWinningTile(game'.grid))
    ensures gameOver <==> moved && !CanMove(game'.grid)
    ensures !CanMove(game.grid) ==> !moved
  {
    if !CanMove(game.grid) && ParseDirection(direction).Some? {
      GameOverBlocksEveryMove(game.grid, ParseDirection(direction).value);
    }
    game', moved := Move(game, direction);
    gameOver := false;
    if moved {
      gameOver := IsGameOver(game'.grid);
    }
  }
}
