/**
 * The board as the page reads it: a grid of cells, row by row, each cell a
 * mine or not, hidden, shown or marked (flagged). The engine that places the
 * mines and changes the cells is not part of this model; this module holds
 * the two scans the page runs over the grid: the win test (isPlayerWin) and
 * the selection of the bombs left on the board after a win
 * (showRemainingBombs).
 */
module Board {

  datatype State = Hidden | Shown | Marked

  /** One square of the grid; `count` is the number of neighbouring mines. */
  datatype Cell = Cell(mine: bool, state: State, count: nat)

  /** The grid, indexed [row][col]; the scans walk each row's own length. */
  type Grid = seq<seq<Cell>>

  /** The only kind of cell that keeps a game from being won. */
  predicate Blocks(c: Cell) {
    c.state == Hidden && !c.mine
  }

  /** The kind of cell painted with a bomb once the player has won. */
  predicate HiddenMine(c: Cell) {
    c.state == Hidden && c.mine
  }

  predicate RowClear(row: seq<Cell>) {
    forall j :: 0 <= j < |row| ==> !Blocks(row[j])
  }

  /** The full-scan win predicate: every row, first to last, is clear. */
  predicate Won(g: Grid) {
    if g == [] then true else Won(g[..|g| - 1]) && RowClear(g[|g| - 1])
  }

  /** The grid laid out as the cards are numbered: row after row. */
  function Flatten(g: Grid): seq<Cell>
  {
    if g == [] then [] else Flatten(g[..|g| - 1]) + g[|g| - 1]
  }

  /** Positions in `s`, in increasing order, of the hidden mines. */
  function HiddenMineIndices(s: seq<Cell>): seq<nat>
  {
    if s == [] then []
    else HiddenMineIndices(s[..|s| - 1]) + (if HiddenMine(s[|s| - 1]) then [|s| - 1] else [])
  }

  lemma HiddenMineIndicesSnoc(s: seq<Cell>, c: Cell)
    ensures HiddenMineIndices(s + [c]) == HiddenMineIndices(s) + (if HiddenMine(c) then [|s|] else [])
  {
    assert (s + [c])[..|s|] == s;
  }

  lemma FlattenSnoc(g: Grid, i: nat)
    requires i < |g|
    ensures Flatten(g[..i + 1]) == Flatten(g[..i]) + g[i]
  {
    assert g[..i + 1][..i] == g[..i];
  }

  predicate StrictlyIncreasing(xs: seq<nat>) {
    forall a, b :: 0 <= a < b < |xs| ==> xs[a] < xs[b]
  }

  /** Only a hidden cell that is not a mine blocks a win, wherever it is. */
  lemma {:induction false} WonIff(g: Grid)
    ensures Won(g) <==> forall i, j :: 0 <= i < |g| && 0 <= j < |g[i]| ==> !Blocks(g[i][j])
  {
    if g != [] {
      var p := g[..|g| - 1];
      WonIff(p);
      assert forall i :: 0 <= i < |p| ==> p[i] == g[i];
      if !Won(g) {
        if !Won(p) {
          var i, j :| 0 <= i < |p| && 0 <= j < |p[i]| && Blocks(p[i][j]);
          assert Blocks(g[i][j]);
        } else {
          var j :| 0 <= j < |g[|g| - 1]| && Blocks(g[|g| - 1][j]);
        }
      }
    }
  }

  /** Every position of the result holds a hidden mine, every hidden mine is listed, once, in order. */
  lemma {:induction false} HiddenMineIndicesSpec(s: seq<Cell>)
    ensures forall k :: k in HiddenMineIndices(s) <==> 0 <= k < |s| && HiddenMine(s[k])
    ensures StrictlyIncreasing(HiddenMineIndices(s))
    ensures forall k :: k in HiddenMineIndices(s) ==> k < |s|
  {
    if s != [] {
      var p := s[..|s| - 1];
      HiddenMineIndicesSpec(p);
      assert forall k :: 0 <= k < |p| ==> p[k] == s[k];
      var r := HiddenMineIndices(p);
      assert forall a :: 0 <= a < |r| ==> r[a] < |p| by {
        forall a | 0 <= a < |r| ensures r[a] < |p| { assert r[a] in r; }
      }
    }
  }

  /**
   * isPlayerWin: scans the rows; in each row it stops at the first blocking
   * cell (the break leaves only the inner loop) and `won`, once false, is
   * never set back. The result is that of the full scan.
   */
  method IsPlayerWin(g: Grid) returns (won: bool)
    ensures won == Won(g)
    ensures won <==> forall i, j :: 0 <= i < |g| && 0 <= j < |g[i]| ==> !Blocks(g[i][j])
  {
    won := true;
    var i := 0;
    while i < |g|
      invariant 0 <= i <= |g|
      invariant won == Won(g[..i])
    {
      var j := 0;
      while j < |g[i]|
        invariant 0 <= j <= |g[i]|
        invariant won == (Won(g[..i]) && RowClear(g[i][..j]))
      {
        if g[i][j].state == Hidden && !g[i][j].mine {
          won := false;
          break;
        }
        assert g[i][..j + 1] == g[i][..j] + [g[i][j]];
        j := j + 1;
      }
      assert g[..i + 1][..i] == g[..i];
      assert g[i][..|g[i]|] == g[i];
      i := i + 1;
    }
    assert g[..|g|] == g;
    WonIff(g);
  }

  /**
   * showRemainingBombs: walks the grid row by row with a running card index
   * and picks the index of every cell that is hidden and a mine. The result
   * is the list of card indices that get the bomb image.
   */
  method ShowRemainingBombs(g: Grid) returns (bombs: seq<nat>)
    ensures bombs == HiddenMineIndices(Flatten(g))
    ensures forall k :: k in bombs <==> 0 <= k < |Flatten(g)| && HiddenMine(Flatten(g)[k])
    ensures StrictlyIncreasing(bombs)
  {
    bombs := [];
    var index := 0;
    ghost var seen: seq<Cell> := [];
    var i := 0;
    while i < |g|
      invariant 0 <= i <= |g|
      invariant seen == Flatten(g[..i])
      invariant index == |seen| && bombs == HiddenMineIndices(seen)
    {
      var j := 0;
      while j < |g[i]|
        invariant 0 <= j <= |g[i]|
        invariant seen == Flatten(g[..i]) + g[i][..j]
        invariant index == |seen| && bombs == HiddenMineIndices(seen)
      {
        var square := g[i][j];
        HiddenMineIndicesSnoc(seen, square);
        if square.state == Hidden && square.mine {
          bombs := bombs + [index];
        }
        assert g[i][..j + 1] == g[i][..j] + [square];
        seen := seen + [square];
        index := index + 1;
        j := j + 1;
      }
      FlattenSnoc(g, i);
      assert g[i][..|g[i]|] == g[i];
      i := i + 1;
    }
    assert g[..|g|] == g;
    HiddenMineIndicesSpec(Flatten(g));
  }

  // ---------------------------------------------------------------------
  // The win rule as the page documents it ("all non-mine squares have been
  // uncovered"), next to the rule as it is written.

  /** Every non-mine cell has been uncovered. */
  predicate AllSafeShown(g: Grid) {
    if g == [] then true else AllSafeShown(g[..|g| - 1]) && RowUncovered(g[|g| - 1])
  }

  predicate RowUncovered(row: seq<Cell>) {
    forall j :: 0 <= j < |row| && !row[j].mine ==> row[j].state == Shown
  }

  lemma {:induction false} AllSafeShownIff(g: Grid)
    ensures AllSafeShown(g) <==>
      forall i, j :: 0 <= i < |g| && 0 <= j < |g[i]| && !g[i][j].mine ==> g[i][j].state == Shown
  {
    if g != [] {
      var p := g[..|g| - 1];
      AllSafeShownIff(p);
      assert forall i :: 0 <= i < |p| ==> p[i] == g[i];
      if !AllSafeShown(g) {
        if !AllSafeShown(p) {
          var i, j :| 0 <= i < |p| && 0 <= j < |p[i]| && !p[i][j].mine && p[i][j].state != Shown;
          assert !g[i][j].mine && g[i][j].state != Shown;
        }
      }
    }
  }

  /** The documented rule is the stronger one: it implies the written rule. */
  lemma AllSafeShownImpliesWon(g: Grid)
    ensures AllSafeShown(g) ==> Won(g)
  {
    AllSafeShownIff(g);
    WonIff(g);
  }

  /** When no cell is marked, the two rules agree. */
  lemma WonIsAllSafeShownWithoutMarks(g: Grid)
    requires forall i, j :: 0 <= i < |g| && 0 <= j < |g[i]| ==> g[i][j].state != Marked
    ensures Won(g) <==> AllSafeShown(g)
  {
    AllSafeShownIff(g);
    WonIff(g);
  }

  /** A corrected win test: the same scan, but any safe cell not shown blocks. */
  method IsPlayerWinDocumented(g: Grid) returns (won: bool)
    ensures won <==> forall i, j :: 0 <= i < |g| && 0 <= j < |g[i]| && !g[i][j].mine ==> g[i][j].state == Shown
  {
    won := true;
    var i := 0;
    while i < |g|
      invariant 0 <= i <= |g|
      invariant won == AllSafeShown(g[..i])
    {
      var j := 0;
      while j < |g[i]|
        invariant 0 <= j <= |g[i]|
        invariant won == (AllSafeShown(g[..i]) && RowUncovered(g[i][..j]))
      {
        if g[i][j].state != Shown && !g[i][j].mine {
          won := false;
          break;
        }
        assert g[i][..j + 1] == g[i][..j] + [g[i][j]];
        j := j + 1;
      }
      assert g[..i + 1][..i] == g[..i];
      assert g[i][..|g[i]|] == g[i];
      i := i + 1;
    }
    assert g[..|g|] == g;
    AllSafeShownIff(g);
  }

  /**
   * As written, a marked safe cell never blocks: a grid whose every cell is
   * marked passes the win test, though no safe cell has been uncovered.
   */
  lemma MarkingEveryCellWins(g: Grid)
    requires forall i, j :: 0 <= i < |g| && 0 <= j < |g[i]| ==> g[i][j].state == Marked
    ensures Won(g)
    ensures (exists i, j :: 0 <= i < |g| && 0 <= j < |g[i]| && !g[i][j].mine) ==> !AllSafeShown(g)
  {
    WonIff(g);
    AllSafeShownIff(g);
  }

  /** The smallest such board: a hidden mine next to a flagged safe cell. */
  lemma FlaggedSafeCellWins()
    ensures var g := [[Cell(true, Hidden, 0), Cell(false, Marked, 1)]];
      Won(g) && !AllSafeShown(g)
  {
    var g := [[Cell(true, Hidden, 0), Cell(false, Marked, 1)]];
    WonIff(g);
    AllSafeShownIff(g);
    assert !g[0][1].mine && g[0][1].state != Shown;
  }
}
