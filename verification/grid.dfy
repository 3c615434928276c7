/**
 The 4x4 board and the four directional moves (`moveUp`, `moveDown`,
 `moveLeft`, `moveRight`).

 Each move reads every row (LEFT, RIGHT) or column (UP, DOWN) in travel
 order, so that index 0 is the cell the tiles move toward, merges that line,
 and writes it back to the cells it came from. The four source methods differ
 only in that index mapping; here one mapping per direction drives a single
 move.
 */
module Grid {
  import opened Line

  /** Rows of cells; 0 is an empty cell. */
  type Board = seq<seq<nat>>

  predicate IsGrid(g: Board) {
    |g| == Size && forall r :: 0 <= r < Size ==> |g[r]| == Size
  }

  predicate InBoard(r: int, c: int) {
    0 <= r < Size && 0 <= c < Size
  }

  predicate IsEmptyAt(g: Board, r: int, c: int)
    requires IsGrid(g)
  {
    InBoard(r, c) && g[r][c] == 0
  }

  predicate HasEmpty(g: Board)
    requires IsGrid(g)
  {
    exists r, c :: 0 <= r < Size && 0 <= c < Size && IsEmptyAt(g, r, c)
  }

  /** Every cell is empty or a power of two. */
  predicate AllTileCells(g: Board)
    requires IsGrid(g)
  {
    forall r, c :: 0 <= r < Size && 0 <= c < Size ==> IsTile(g[r][c])
  }

  /** The board with cell (r, c) set to `v` (`grid[r][c] = v`). */
  function Store(g: Board, r: nat, c: nat, v: nat): (h: Board)
    requires IsGrid(g) && InBoard(r, c)
    ensures IsGrid(h)
    ensures h[r][c] == v
    ensures forall r', c' :: InBoard(r', c') && (r', c') != (r, c) ==> h[r'][c'] == g[r'][c']
  {
    var row: seq<nat> := g[r][c := v];
    g[r := row]
  }

  /** Two boards agree cell by cell exactly when they are equal. */
  lemma SameCells(g: Board, h: Board)
    requires IsGrid(g) && IsGrid(h)
    ensures g == h <==> forall r, c :: InBoard(r, c) ==> g[r][c] == h[r][c]
  {
    if forall r, c :: InBoard(r, c) ==> g[r][c] == h[r][c] {
      forall r | 0 <= r < Size ensures g[r] == h[r] {
        assert forall c :: 0 <= c < Size ==> g[r][c] == h[r][c];
      }
    }
  }

  // ---------------------------------------------------------------------------
  // Directions

  datatype Direction = Up | Down | Left | Right

  datatype Option<T> = None | Some(value: T)

  /** The string a caller passes to `move` for each direction. */
  function Name(d: Direction): string {
    match d
    case Up => "UP"
    case Down => "DOWN"
    case Left => "LEFT"
    case Right => "RIGHT"
  }

  /** The `switch` of `move`: one of the four names, or nothing. */
  function ParseDirection(name: string): (d: Option<Direction>)
    ensures d.Some? ==> Name(d.value) == name
    ensures forall e :: Name(e) == name ==> d == Some(e)
  {
    if name == "UP" then Some(Up)
    else if name == "DOWN" then Some(Down)
    else if name == "LEFT" then Some(Left)
    else if name == "RIGHT" then Some(Right)
    else None
  }

  // ---------------------------------------------------------------------------
  // Lines in travel order

  /** Row of position `i` of line `k` when the board is read for `d`. */
  function CellRow(d: Direction, k: nat, i: nat): (r: nat)
    requires k < Size && i < Size
    ensures r < Size
  {
    match d
    case Up => i
    case Down => Size - 1 - i
    case Left => k
    case Right => k
  }

  /** Column of position `i` of line `k` when the board is read for `d`. */
  function CellCol(d: Direction, k: nat, i: nat): (c: nat)
    requires k < Size && i < Size
    ensures c < Size
  {
    match d
    case Up => k
    case Down => k
    case Left => i
    case Right => Size - 1 - i
  }

  /** The line that cell (r, c) belongs to for `d`. */
  function LineOf(d: Direction, r: nat, c: nat): (k: nat)
    requires InBoard(r, c)
    ensures k < Size
  {
    match d
    case Up => c
    case Down => c
    case Left => r
    case Right => r
  }

  /** The position of cell (r, c) within its line for `d`. */
  function PosOf(d: Direction, r: nat, c: nat): (i: nat)
    requires InBoard(r, c)
    ensures i < Size
  {
    match d
    case Up => r
    case Down => Size - 1 - r
    case Left => c
    case Right => Size - 1 - c
  }

  /** The two index mappings are inverse to each other. */
  lemma CellIndexing(d: Direction)
    ensures forall k, i :: 0 <= k < Size && 0 <= i < Size ==>
      LineOf(d, CellRow(d, k, i), CellCol(d, k, i)) == k &&
      PosOf(d, CellRow(d, k, i), CellCol(d, k, i)) == i
    ensures forall r, c :: InBoard(r, c) ==>
      CellRow(d, LineOf(d, r, c), PosOf(d, r, c)) == r &&
      CellCol(d, LineOf(d, r, c), PosOf(d, r, c)) == c
  {
  }

  /** Line `k` for `d`, read from the end the tiles move toward. */
  function ExtractLine(g: Board, d: Direction, k: nat): (line: seq<nat>)
    requires IsGrid(g) && k < Size
    ensures |line| == Size
  {
    seq(Size, i requires 0 <= i < Size => g[CellRow(d, k, i)][CellCol(d, k, i)])
  }

  /** The board after every line for `d` has been merged and written back. */
  function Slide(g: Board, d: Direction): (h: Board)
    requires IsGrid(g)
    ensures IsGrid(h)
    ensures forall k :: 0 <= k < Size ==>
      ExtractLine(h, d, k) == MergeLine(ExtractLine(g, d, k))
  {
    var h := seq(Size, r requires 0 <= r < Size =>
      seq(Size, c requires 0 <= c < Size =>
        MergeLine(ExtractLine(g, d, LineOf(d, r, c)))[PosOf(d, r, c)]));
    CellIndexing(d);
    forall k | 0 <= k < Size
      ensures ExtractLine(h, d, k) == MergeLine(ExtractLine(g, d, k))
    {
      MergeLineShape(ExtractLine(g, d, k));
    }
    h
  }

  /** Boards whose lines, read for one direction, all agree are equal. */
  lemma LinesDetermineBoard(g: Board, h: Board, d: Direction)
    requires IsGrid(g) && IsGrid(h)
    requires forall k :: 0 <= k < Size ==> ExtractLine(g, d, k) == ExtractLine(h, d, k)
    ensures g == h
  {
    CellIndexing(d);
    forall r, c | InBoard(r, c) ensures g[r][c] == h[r][c] {
      var k, i := LineOf(d, r, c), PosOf(d, r, c);
      assert ExtractLine(g, d, k)[i] == ExtractLine(h, d, k)[i];
    }
    SameCells(g, h);
  }

  /** The board after the first `i` values of `line` have been stored into
      line `k`, in order. */
  function StoreLine(h: Board, d: Direction, k: nat, line: seq<nat>, i: nat): (h': Board)
    requires IsGrid(h) && k < Size && |line| == Size && i <= Size
    ensures IsGrid(h')
  {
    if i == 0 then h
    else Store(StoreLine(h, d, k, line, i - 1), CellRow(d, k, i - 1), CellCol(d, k, i - 1), line[i - 1])
  }

  /** Storing the first `i` values touches exactly the cells at positions
      below `i` of line `k`. */
  lemma {:induction false} StoreLineCells(h: Board, d: Direction, k: nat, line: seq<nat>, i: nat)
    requires IsGrid(h) && k < Size && |line| == Size && i <= Size
    ensures forall r, c :: InBoard(r, c) ==>
      StoreLine(h, d, k, line, i)[r][c] ==
        (if LineOf(d, r, c) == k && PosOf(d, r, c) < i then line[PosOf(d, r, c)] else h[r][c])
  {
    if i > 0 {
      StoreLineCells(h, d, k, line, i - 1);
      CellIndexing(d);
    }
  }

  /** Storing a whole line replaces that line and keeps every other one. */
  lemma StoreLineResult(h: Board, d: Direction, k: nat, line: seq<nat>)
    requires IsGrid(h) && k < Size && |line| == Size
    ensures ExtractLine(StoreLine(h, d, k, line, Size), d, k) == line
    ensures forall k' :: 0 <= k' < Size && k' != k ==>
      ExtractLine(StoreLine(h, d, k, line, Size), d, k') == ExtractLine(h, d, k')
  {
    StoreLineCells(h, d, k, line, Size);
    CellIndexing(d);
  }

  /** Before position `i` is stored, its cell still holds its old value. */
  lemma StoreLinePending(h: Board, d: Direction, k: nat, line: seq<nat>, i: nat)
    requires IsGrid(h) && k < Size && |line| == Size && i < Size
    ensures StoreLine(h, d, k, line, i)[CellRow(d, k, i)][CellCol(d, k, i)] == ExtractLine(h, d, k)[i]
  {
    StoreLineCells(h, d, k, line, i);
    CellIndexing(d);
  }

  /** `a` and `b` differ somewhere among their first `i` positions. */
  predicate DiffersBefore(a: seq<nat>, b: seq<nat>, i: nat)
    requires i <= |a| == |b|
  {
    i > 0 && (DiffersBefore(a, b, i - 1) || a[i - 1] != b[i - 1])
  }

  /** Two sequences of one length are unequal exactly when some position
      differs. */
  lemma {:induction false} DiffersBeforeIff(a: seq<nat>, b: seq<nat>, i: nat)
    requires i <= |a| == |b|
    ensures DiffersBefore(a, b, i) <==> a[..i] != b[..i]
  {
    if i > 0 {
      DiffersBeforeIff(a, b, i - 1);
      assert a[..i] == a[..i - 1] + [a[i - 1]];
      assert b[..i] == b[..i - 1] + [b[i - 1]];
      assert a[..i][..i - 1] == a[..i - 1];
      assert b[..i][..i - 1] == b[..i - 1];
    }
  }

  /** The write-back half of a directional move: store `merged` into the
      cells of line `k`, noting whether any of them took a new value. */
  method WriteLine(h: Board, d: Direction, k: nat, merged: seq<nat>) returns (h': Board, changed: bool)
    requires IsGrid(h) && k < Size && |merged| == Size
    ensures IsGrid(h')
    ensures ExtractLine(h', d, k) == merged
    ensures forall k' :: 0 <= k' < Size && k' != k ==> ExtractLine(h', d, k') == ExtractLine(h, d, k')
    ensures changed <==> merged != ExtractLine(h, d, k)
  {
    ghost var old_line := ExtractLine(h, d, k);
    h' := h;
    changed := false;
    for i := 0 to Size
      invariant h' == StoreLine(h, d, k, merged, i)
      invariant changed == DiffersBefore(merged, old_line, i)
    {
      var r, c := CellRow(d, k, i), CellCol(d, k, i);
      StoreLinePending(h, d, k, merged, i);
      if h'[r][c] != merged[i] {
        changed := true;
      }
      h' := Store(h', r, c, merged[i]);
    }
    StoreLineResult(h, d, k, merged);
    DiffersBeforeIff(merged, old_line, Size);
    assert merged[..Size] == merged && old_line[..Size] == old_line;
  }

  /** One of `moveUp`, `moveDown`, `moveLeft`, `moveRight`: for each line,
      copy it out in travel order, merge it, and write it back cell by cell,
      noting whether any cell took a new value. */
  method MoveLines(g: Board, d: Direction) returns (h: Board, moved: bool)
    requires IsGrid(g)
    ensures h == Slide(g, d)
    ensures moved <==> h != g
  {
    h := g;
    moved := false;
    for k := 0 to Size
      invariant IsGrid(h)
      invariant forall k' :: 0 <= k' < k ==> ExtractLine(h, d, k') == MergeLine(ExtractLine(g, d, k'))
      invariant forall k' :: k <= k' < Size ==> ExtractLine(h, d, k') == ExtractLine(g, d, k')
      invariant moved <==> exists k' :: 0 <= k' < k && MergeLine(ExtractLine(g, d, k')) != ExtractLine(g, d, k')
    {
      var merged := MergeTiles(ExtractLine(h, d, k));
      var changed;
      h, changed := WriteLine(h, d, k, merged);
      moved := moved || changed;
    }
    LinesDetermineBoard(h, Slide(g, d), d);
    SlideChangedIffLineChanged(g, d);
  }

  // ---------------------------------------------------------------------------
  // Properties of a move

  /** A move changes the board exactly when it changes one of its lines. */
  lemma SlideChangedIffLineChanged(g: Board, d: Direction)
    requires IsGrid(g)
    ensures Slide(g, d) != g <==>
      exists k :: 0 <= k < Size && MergeLine(ExtractLine(g, d, k)) != ExtractLine(g, d, k)
  {
    if Slide(g, d) != g {
      ChangedBoardHasChangedLine(g, d);
    }
    if exists k :: 0 <= k < Size && MergeLine(ExtractLine(g, d, k)) != ExtractLine(g, d, k) {
      var k :| 0 <= k < Size && MergeLine(ExtractLine(g, d, k)) != ExtractLine(g, d, k);
      assert ExtractLine(Slide(g, d), d, k) != ExtractLine(g, d, k);
    }
  }

  lemma ChangedBoardHasChangedLine(g: Board, d: Direction)
    requires IsGrid(g) && Slide(g, d) != g
    ensures exists k :: 0 <= k < Size && MergeLine(ExtractLine(g, d, k)) != ExtractLine(g, d, k)
  {
    var h := Slide(g, d);
    SameCells(h, g);
    var r, c :| InBoard(r, c) && h[r][c] != g[r][c];
    var k, i := LineOf(d, r, c), PosOf(d, r, c);
    CellIndexing(d);
    assert ExtractLine(h, d, k)[i] != ExtractLine(g, d, k)[i];
  }

  /** A move keeps every cell empty or a power of two. */
  lemma SlidePreservesTiles(g: Board, d: Direction)
    requires IsGrid(g) && AllTileCells(g)
    ensures AllTileCells(Slide(g, d))
  {
    var h := Slide(g, d);
    CellIndexing(d);
    forall r, c | InBoard(r, c) ensures IsTile(h[r][c]) {
      var k, i := LineOf(d, r, c), PosOf(d, r, c);
      MergeLinePreservesTiles(ExtractLine(g, d, k));
      assert h[r][c] == ExtractLine(h, d, k)[i];
    }
  }

  /** A move that changes the board leaves at least one empty cell. */
  lemma SlideChangeLeavesRoom(g: Board, d: Direction)
    requires IsGrid(g) && Slide(g, d) != g
    ensures HasEmpty(Slide(g, d))
  {
    SlideChangedIffLineChanged(g, d);
    var k :| 0 <= k < Size && MergeLine(ExtractLine(g, d, k)) != ExtractLine(g, d, k);
    MergeChangeLeavesRoom(ExtractLine(g, d, k));
    var j :| 0 <= j < Size && MergeLine(ExtractLine(g, d, k))[j] == 0;
    assert IsEmptyAt(Slide(g, d), CellRow(d, k, j), CellCol(d, k, j));
  }

  // ---------------------------------------------------------------------------
  // Tile total

  /** Sum of all cells. */
  function Total(g: Board): nat
  {
    if |g| == 0 then 0 else Total(g[..|g| - 1]) + Sum(g[|g| - 1])
  }

  lemma Sum4(s: seq<nat>)
    requires |s| == 4
    ensures Sum(s) == s[0] + s[1] + s[2] + s[3]
  {
    assert s[..1][..0] == [];
    assert Sum(s[..1]) == s[0];
    assert s[..2][..1] == s[..1];
    assert Sum(s[..2]) == s[0] + s[1];
    assert s[..3][..2] == s[..2];
    assert Sum(s[..3]) == s[0] + s[1] + s[2];
    assert s[..4][..3] == s[..3];
  }

  lemma Total16(g: Board)
    requires IsGrid(g)
    ensures Total(g) == Sum(g[0]) + Sum(g[1]) + Sum(g[2]) + Sum(g[3])
  {
    assert g[..1][..0] == [];
    assert Total(g[..1]) == Sum(g[0]);
    assert g[..2][..1] == g[..1];
    assert Total(g[..2]) == Sum(g[0]) + Sum(g[1]);
    assert g[..3][..2] == g[..2];
    assert Total(g[..3]) == Sum(g[0]) + Sum(g[1]) + Sum(g[2]);
    assert g[..4][..3] == g[..3];
  }

  /** The total of the board is the total of its lines, read for any direction. */
  lemma TotalByLines(g: Board, d: Direction)
    requires IsGrid(g)
    ensures Total(g) == Sum(ExtractLine(g, d, 0)) + Sum(ExtractLine(g, d, 1))
                      + Sum(ExtractLine(g, d, 2)) + Sum(ExtractLine(g, d, 3))
  {
    Total16(g);
    Sum4(g[0]); Sum4(g[1]); Sum4(g[2]); Sum4(g[3]);
    Sum4(ExtractLine(g, d, 0)); Sum4(ExtractLine(g, d, 1));
    Sum4(ExtractLine(g, d, 2)); Sum4(ExtractLine(g, d, 3));
  }

  /** A move conserves the tile total: merging v and v yields 2v. */
  lemma SlideConservesTotal(g: Board, d: Direction)
    requires IsGrid(g)
    ensures Total(Slide(g, d)) == Total(g)
  {
    var h := Slide(g, d);
    TotalByLines(g, d);
    TotalByLines(h, d);
    MergeLineConservesSum(ExtractLine(g, d, 0));
    MergeLineConservesSum(ExtractLine(g, d, 1));
    MergeLineConservesSum(ExtractLine(g, d, 2));
    MergeLineConservesSum(ExtractLine(g, d, 3));
  }
}
