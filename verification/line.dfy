/**
 The line merge of the 2048 rule engine (`mergeTiles`).

 A line is the four cells of one row or column, read from the end the tiles
 travel toward. The merge scans the line once, skips empty cells (0), and
 writes each tile at a write position `pos`; a tile equal to the last written
 one doubles that slot instead. Nothing marks a slot as already merged, so a
 freshly doubled slot can absorb the next equal tile: [2,2,4,8] becomes
 [16,0,0,0].
 */
module Line {

  /** Cells per row and per column (GRID_SIZE). */
  const Size: nat := 4

  /** 1, 2, 4, 8, ... */
  predicate IsPow2(n: nat)
    decreases n
  {
    n == 1 || (n >= 2 && n % 2 == 0 && IsPow2(n / 2))
  }

  /** A cell value the game can show: empty, or a power of two. */
  predicate IsTile(v: nat) {
    v == 0 || IsPow2(v)
  }

  predicate AllTiles(s: seq<nat>) {
    forall j :: 0 <= j < |s| ==> IsTile(s[j])
  }

  predicate AllNonZero(s: seq<nat>) {
    forall j :: 0 <= j < |s| ==> s[j] != 0
  }

  /** Every tile comes before every empty cell. */
  predicate IsCompacted(s: seq<nat>) {
    forall i, j :: 0 <= i < j < |s| && s[i] == 0 ==> s[j] == 0
  }

  /** No tile sits directly before a tile of the same value. */
  predicate NoEqualNeighbours(s: seq<nat>) {
    forall i, j :: 0 <= i < |s| && j == i + 1 < |s| && s[i] != 0 ==> s[i] != s[j]
  }

  /** A line no merge can change: compacted, and no two adjacent equal tiles. */
  predicate IsStable(s: seq<nat>) {
    IsCompacted(s) && NoEqualNeighbours(s)
  }

  function Sum(s: seq<nat>): nat
  {
    if |s| == 0 then 0 else Sum(s[..|s| - 1]) + s[|s| - 1]
  }

  function NonZeroCount(s: seq<nat>): (n: nat)
    ensures n <= |s|
  {
    if |s| == 0 then 0
    else NonZeroCount(s[..|s| - 1]) + (if s[|s| - 1] != 0 then 1 else 0)
  }

  function Zeros(n: nat): (z: seq<nat>)
    ensures |z| == n
    ensures forall j :: 0 <= j < n ==> z[j] == 0
  {
    seq(n, _ => 0)
  }

  /** One step of the scan: how the written prefix `w` absorbs the next cell. */
  function Push(w: seq<nat>, v: nat): seq<nat>
  {
    if v == 0 then w
    else if |w| > 0 && w[|w| - 1] == v then w[..|w| - 1] + [2 * v]
    else w + [v]
  }

  /**
   The written prefix `newTiles[..pos]` after the scan has read `tiles`.
   It holds only tiles, and never more of them than were read.
   */
  function Scan(tiles: seq<nat>): (w: seq<nat>)
    ensures |w| <= NonZeroCount(tiles)
    ensures AllNonZero(w)
  {
    if |tiles| == 0 then []
    else Push(Scan(tiles[..|tiles| - 1]), tiles[|tiles| - 1])
  }

  /** The merged line: the written prefix followed by empty cells. */
  function MergeLine(tiles: seq<nat>): seq<nat>
  {
    Scan(tiles) + Zeros(|tiles| - |Scan(tiles)|)
  }

  /** The loop of `mergeTiles`, over a fresh array of Size zeros. */
  method MergeTiles(tiles: seq<nat>) returns (newTiles: seq<nat>)
    requires |tiles| == Size
    ensures newTiles == MergeLine(tiles)
  {
    newTiles := Zeros(Size);
    var pos := 0;
    for i := 0 to Size
      invariant pos == |Scan(tiles[..i])|
      invariant newTiles == Scan(tiles[..i]) + Zeros(Size - pos)
    {
      LoopStep(tiles, i, newTiles, pos);
      if tiles[i] != 0 {
        if pos > 0 && newTiles[pos - 1] == tiles[i] {
          newTiles := newTiles[pos - 1 := newTiles[pos - 1] * 2];
        } else {
          newTiles := newTiles[pos := tiles[i]];
          pos := pos + 1;
        }
      }
    }
    assert tiles[..Size] == tiles;
  }

  /** One pass of the loop body keeps `newTiles` equal to the scan of the
      cells read so far, padded with zeros, with `pos` its length. */
  lemma LoopStep(tiles: seq<nat>, i: nat, newTiles: seq<nat>, pos: nat)
    requires i < |tiles| == Size
    requires pos == |Scan(tiles[..i])|
    requires newTiles == Scan(tiles[..i]) + Zeros(Size - pos)
    ensures tiles[i] == 0 ==>
      pos == |Scan(tiles[..i + 1])| &&
      newTiles == Scan(tiles[..i + 1]) + Zeros(Size - pos)
    ensures tiles[i] != 0 && pos > 0 && newTiles[pos - 1] == tiles[i] ==>
      pos == |Scan(tiles[..i + 1])| &&
      newTiles[pos - 1 := newTiles[pos - 1] * 2] == Scan(tiles[..i + 1]) + Zeros(Size - pos)
    ensures tiles[i] != 0 && !(pos > 0 && newTiles[pos - 1] == tiles[i]) ==>
      pos < Size &&
      pos + 1 == |Scan(tiles[..i + 1])| &&
      newTiles[pos := tiles[i]] == Scan(tiles[..i + 1]) + Zeros(Size - (pos + 1))
  {
    ScanStep(tiles, i);
    var w := Scan(tiles[..i]);
    if tiles[i] != 0 {
      WriteStep(newTiles, w, tiles[i]);
    }
  }

  /** One write of the loop: when `newTiles` is the written prefix `w` padded
      with zeros, doubling the last slot or writing at `pos` yields
      `Push(w, v)` padded with zeros. */
  lemma WriteStep(newTiles: seq<nat>, w: seq<nat>, v: nat)
    requires |w| < Size && v != 0 && newTiles == w + Zeros(Size - |w|)
    ensures |w| > 0 && newTiles[|w| - 1] == v ==>
      |Push(w, v)| == |w| &&
      newTiles[|w| - 1 := newTiles[|w| - 1] * 2] == Push(w, v) + Zeros(Size - |w|)
    ensures !(|w| > 0 && newTiles[|w| - 1] == v) ==>
      |Push(w, v)| == |w| + 1 &&
      newTiles[|w| := v] == Push(w, v) + Zeros(Size - |w| - 1)
  {
    var n := |w|;
    if n > 0 && newTiles[n - 1] == v {
      assert w[n - 1] == v;
      var a := newTiles[n - 1 := newTiles[n - 1] * 2];
      var b := Push(w, v) + Zeros(Size - n);
      assert b == w[..n - 1] + [2 * v] + Zeros(Size - n);
      forall j | 0 <= j < Size ensures a[j] == b[j] {
        if j < n - 1 {
          assert a[j] == w[j] == b[j];
        } else if j >= n {
          assert a[j] == 0 == b[j];
        }
      }
      assert a == b;
    } else {
      var a := newTiles[n := v];
      var b := Push(w, v) + Zeros(Size - n - 1);
      assert b == w + [v] + Zeros(Size - n - 1);
      forall j | 0 <= j < Size ensures a[j] == b[j] {
        if j < n {
          assert a[j] == w[j] == b[j];
        } else if j > n {
          assert a[j] == 0 == b[j];
        }
      }
      assert a == b;
    }
  }

  lemma ScanStep(tiles: seq<nat>, i: nat)
    requires i < |tiles|
    ensures Scan(tiles[..i + 1]) == Push(Scan(tiles[..i]), tiles[i])
  {
    assert tiles[..i + 1][..i] == tiles[..i];
  }

  // ---------------------------------------------------------------------------
  // Properties of the merge

  /** The merge keeps the line's length, moves every tile before every empty
      cell, and never yields more tiles than it read. */
  lemma MergeLineShape(tiles: seq<nat>)
    ensures |MergeLine(tiles)| == |tiles|
    ensures IsCompacted(MergeLine(tiles))
    ensures NonZeroCount(MergeLine(tiles)) <= NonZeroCount(tiles)
  {
    var w := Scan(tiles);
    var r := MergeLine(tiles);
    assert forall j :: 0 <= j < |w| ==> r[j] == w[j] != 0;
    assert forall j :: |w| <= j < |r| ==> r[j] == 0;
    NonZeroCountPadded(w, |tiles| - |w|);
  }

  lemma {:induction false} NonZeroCountPadded(w: seq<nat>, n: nat)
    requires AllNonZero(w)
    ensures NonZeroCount(w + Zeros(n)) == |w|
    decreases n
  {
    if n == 0 {
      assert w + Zeros(0) == w;
      NonZeroCountAll(w);
    } else {
      assert (w + Zeros(n))[..|w| + n - 1] == w + Zeros(n - 1);
      NonZeroCountPadded(w, n - 1);
    }
  }

  lemma {:induction false} NonZeroCountAll(w: seq<nat>)
    requires AllNonZero(w)
    ensures NonZeroCount(w) == |w|
  {
    if |w| > 0 {
      NonZeroCountAll(w[..|w| - 1]);
    }
  }

  /** Reading every cell as a tile means every cell was a tile. */
  lemma {:induction false} FullCountAllNonZero(s: seq<nat>)
    requires NonZeroCount(s) == |s|
    ensures AllNonZero(s)
  {
    if |s| > 0 {
      FullCountAllNonZero(s[..|s| - 1]);
      assert forall j :: 0 <= j < |s| - 1 ==> s[j] == s[..|s| - 1][j];
    }
  }

  lemma {:induction false} SumPadded(w: seq<nat>, n: nat)
    ensures Sum(w + Zeros(n)) == Sum(w)
    decreases n
  {
    if n == 0 {
      assert w + Zeros(0) == w;
    } else {
      assert (w + Zeros(n))[..|w| + n - 1] == w + Zeros(n - 1);
      SumPadded(w, n - 1);
    }
  }

  lemma PushSum(w: seq<nat>, v: nat)
    ensures Sum(Push(w, v)) == Sum(w) + v
  {
    if v != 0 {
      if |w| > 0 && w[|w| - 1] == v {
        var u := w[..|w| - 1];
        assert (u + [2 * v])[..|u|] == u;
      } else {
        assert (w + [v])[..|w|] == w;
      }
    }
  }

  lemma {:induction false} ScanSum(tiles: seq<nat>)
    ensures Sum(Scan(tiles)) == Sum(tiles)
  {
    if |tiles| > 0 {
      ScanSum(tiles[..|tiles| - 1]);
      PushSum(Scan(tiles[..|tiles| - 1]), tiles[|tiles| - 1]);
    }
  }

  /** Each merge replaces v, v by 2v, so the line's total is conserved. */
  lemma MergeLineConservesSum(tiles: seq<nat>)
    ensures Sum(MergeLine(tiles)) == Sum(tiles)
  {
    ScanSum(tiles);
    SumPadded(Scan(tiles), |tiles| - |Scan(tiles)|);
  }

  lemma DoublePow2(v: nat)
    requires IsPow2(v)
    ensures IsPow2(2 * v)
  {
    assert (2 * v) / 2 == v;
  }

  lemma {:induction false} ScanTiles(tiles: seq<nat>)
    requires AllTiles(tiles)
    ensures AllTiles(Scan(tiles))
  {
    if |tiles| > 0 {
      var p := tiles[..|tiles| - 1];
      var v := tiles[|tiles| - 1];
      assert AllTiles(p) by {
        assert forall j :: 0 <= j < |p| ==> p[j] == tiles[j];
      }
      ScanTiles(p);
      var w := Scan(p);
      if v != 0 && |w| > 0 && w[|w| - 1] == v {
        DoublePow2(v);
      }
    }
  }

  /** Only equal tiles are doubled, so powers of two stay powers of two. */
  lemma MergeLinePreservesTiles(tiles: seq<nat>)
    requires AllTiles(tiles)
    ensures AllTiles(MergeLine(tiles))
  {
    ScanTiles(tiles);
  }

  /** A doubled slot goes on absorbing: 2+2 makes 4, which takes the 4, and
      the resulting 8 takes the 8. */
  lemma ChainedMergeRun()
    ensures MergeLine([2, 2, 4, 8]) == [16, 0, 0, 0]
  {
    assert [2, 2, 4, 8][..3] == [2, 2, 4];
    assert [2, 2, 4][..2] == [2, 2];
    assert [2, 2][..1] == [2];
    assert [2][..0] == [];
    assert Scan([2, 2]) == [4];
    assert Scan([2, 2, 4]) == [8];
  }

  /** Two pairs give one chained slot and one leftover tile, not [4, 8]. */
  lemma ChainedMergePairs()
    ensures MergeLine([2, 2, 4, 4]) == [8, 4, 0, 0]
  {
    assert [2, 2, 4, 4][..3] == [2, 2, 4];
    assert [2, 2, 4][..2] == [2, 2];
    assert [2, 2][..1] == [2];
    assert [2][..0] == [];
    assert Scan([2, 2]) == [4];
    assert Scan([2, 2, 4]) == [8];
  }

  /** Three equal tiles: the first two merge, the third does not match the
      doubled slot. */
  lemma ChainedMergeTriple()
    ensures MergeLine([2, 2, 2, 0]) == [4, 2, 0, 0]
  {
    assert [2, 2, 2, 0][..3] == [2, 2, 2];
    assert [2, 2, 2][..2] == [2, 2];
    assert [2, 2][..1] == [2];
    assert [2][..0] == [];
    assert Scan([2, 2]) == [4];
  }

  /** Equal tiles merge across empty cells. */
  lemma MergeAcrossGap()
    ensures MergeLine([2, 0, 0, 2]) == [4, 0, 0, 0]
  {
    assert [2, 0, 0, 2][..3] == [2, 0, 0];
    assert [2, 0, 0][..2] == [2, 0];
    assert [2, 0][..1] == [2];
    assert [2][..0] == [];
    assert Scan([2, 0, 0]) == [2];
  }

  /** A merged slot is not frozen: it keeps absorbing equal tiles. */
  lemma ChainedMerges()
    ensures MergeLine([2, 2, 4, 8]) == [16, 0, 0, 0]
    ensures MergeLine([2, 2, 4, 4]) == [8, 4, 0, 0]
    ensures MergeLine([2, 2, 2, 0]) == [4, 2, 0, 0]
    ensures MergeLine([2, 0, 0, 2]) == [4, 0, 0, 0]
  {
    ChainedMergeRun();
    ChainedMergePairs();
    ChainedMergeTriple();
    MergeAcrossGap();
  }

  // ---------------------------------------------------------------------------
  // When the merge changes a line

  /** Length of the leading run of tiles. */
  function FirstZero(s: seq<nat>): (k: nat)
    ensures k <= |s|
    ensures forall j :: 0 <= j < k ==> s[j] != 0
    ensures k < |s| ==> s[k] == 0
  {
    if |s| == 0 || s[0] == 0 then 0 else 1 + FirstZero(s[1..])
  }

  /** On a stable line the scan copies the leading run of tiles. */
  lemma {:induction false} ScanStable(t: seq<nat>, i: nat)
    requires IsStable(t)
    requires i <= |t|
    ensures Scan(t[..i]) == t[..if i <= FirstZero(t) then i else FirstZero(t)]
  {
    var k := FirstZero(t);
    if i > 0 {
      ScanStable(t, i - 1);
      assert t[..i][..i - 1] == t[..i - 1];
      if i <= k {
        assert t[..i - 1] + [t[i - 1]] == t[..i];
      } else {
        assert t[i - 1] == 0 by {
          if i - 1 > k {
            assert t[k] == 0;
          }
        }
      }
    }
  }

  /** A full line the scan never shortens was copied, and had no equal
      neighbours. */
  lemma {:induction false} ScanNoMerge(p: seq<nat>)
    requires AllNonZero(p)
    requires |Scan(p)| == |p|
    ensures Scan(p) == p
    ensures NoEqualNeighbours(p)
  {
    if |p| > 0 {
      var q := p[..|p| - 1];
      var v := p[|p| - 1];
      var w := Scan(q);
      assert AllNonZero(q) by {
        assert forall j :: 0 <= j < |q| ==> q[j] == p[j];
      }
      if |w| > 0 && w[|w| - 1] == v {
        assert false;
      }
      ScanNoMerge(q);
      assert q + [v] == p;
    }
  }

  /** Trailing empty cells do not affect the scan. */
  lemma {:induction false} ScanTrailingZeros(t: seq<nat>, k: nat)
    requires k <= |t|
    requires forall j :: k <= j < |t| ==> t[j] == 0
    ensures Scan(t) == Scan(t[..k])
    decreases |t|
  {
    if |t| > k {
      var p := t[..|t| - 1];
      assert p[..k] == t[..k];
      ScanTrailingZeros(p, k);
    } else {
      assert t[..k] == t;
    }
  }

  /** In a compacted line everything from the first empty cell on is empty. */
  lemma CompactedTail(t: seq<nat>)
    requires IsCompacted(t)
    ensures forall j :: FirstZero(t) <= j < |t| ==> t[j] == 0
  {
    var k := FirstZero(t);
    forall j | k <= j < |t| ensures t[j] == 0 {
      if j > k {
        assert t[k] == 0;
      }
    }
  }

  /** A stable line is left as it is. */
  lemma StableIsFixpoint(t: seq<nat>)
    requires IsStable(t)
    ensures MergeLine(t) == t
  {
    var k := FirstZero(t);
    ScanStable(t, |t|);
    CompactedTail(t);
    assert t[..|t|] == t;
  }

  /** A line the merge leaves as it is was stable. */
  lemma FixpointIsStable(t: seq<nat>)
    requires MergeLine(t) == t
    ensures IsStable(t)
  {
    var k := FirstZero(t);
    MergeLineShape(t);
    var n := |Scan(t)|;
    CompactedTail(t);
    ScanTrailingZeros(t, k);
    assert n <= k;
    assert n >= k by {
      if n < k {
        assert false;
      }
    }
    ScanNoMerge(t[..k]);
    forall i | 0 <= i < |t| - 1 && t[i] != 0
      ensures t[i] != t[i + 1]
    {
      if i + 1 < k {
        assert t[..k][i] == t[i] && t[..k][i + 1] == t[i + 1];
      }
    }
  }

  /** The merge leaves a line unchanged exactly when the line is stable:
      tiles already packed toward index 0 and no two equal neighbours. */
  lemma MergeLineFixpoint(t: seq<nat>)
    ensures MergeLine(t) == t <==> IsStable(t)
  {
    if IsStable(t) {
      StableIsFixpoint(t);
    }
    if MergeLine(t) == t {
      FixpointIsStable(t);
    }
  }

  /** A line the merge changes ends with at least one empty cell, so the
      spawn that follows a changing move always finds room. */
  lemma MergeChangeLeavesRoom(t: seq<nat>)
    requires MergeLine(t) != t
    ensures exists j :: 0 <= j < |t| && MergeLine(t)[j] == 0
  {
    var w := Scan(t);
    assert |w| < |t| by {
      if |w| == |t| {
        FullCountAllNonZero(t);
        ScanNoMerge(t);
        assert false;
      }
    }
    assert MergeLine(t)[|w|] == 0;
  }
}
