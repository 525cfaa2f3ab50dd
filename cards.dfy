/**
 * Card numbering. The page shows one card per cell and numbers the cards
 * row-major: render and showRemainingBombs count `index` up cell by cell,
 * and the click callback turns a card's number back into a (row, col) with
 * `ind % ncols` and `Math.floor(ind / ncols)`. Card numbers are never
 * negative, so JavaScript's `%` and floored division agree with Dafny's.
 */
module Cards {
  import opened Board

  /** The click callback's decomposition of a card number. */
  function CardToCell(ind: nat, ncols: nat): (rc: (nat, nat))
    requires ncols > 0
    ensures rc.1 < ncols
    ensures rc.0 * ncols + rc.1 == ind
  {
    (ind / ncols, ind % ncols)
  }

  /** The number of the card that shows cell (row, col). */
  function CellToCard(row: nat, col: nat, ncols: nat): nat
  {
    row * ncols + col
  }

  lemma {:induction false} MulMonotone(a: nat, b: nat, n: nat)
    requires a <= b
    ensures a * n <= b * n
  {
    if a < b {
      MulMonotone(a, b - 1, n);
      assert b * n == (b - 1) * n + n;
    }
  }

  /** The row/col pair that numbers a card is unique. */
  lemma CardNumberUnique(r1: nat, c1: nat, r2: nat, c2: nat, ncols: nat)
    requires c1 < ncols && c2 < ncols
    requires r1 * ncols + c1 == r2 * ncols + c2
    ensures r1 == r2 && c1 == c2
  {
    if r1 < r2 {
      MulMonotone(r1 + 1, r2, ncols);
    } else if r2 < r1 {
      MulMonotone(r2 + 1, r1, ncols);
    }
  }

  /** A card shown for an nrows x ncols game decomposes to a cell of that game. */
  lemma CardToCellInBounds(ind: nat, nrows: nat, ncols: nat)
    requires ncols > 0 && ind < nrows * ncols
    ensures CardToCell(ind, ncols).0 < nrows
  {
    var rc := CardToCell(ind, ncols);
    if rc.0 >= nrows {
      MulMonotone(nrows, rc.0, ncols);
    }
  }

  /** Decomposing the card that shows (row, col) gives back (row, col). */
  lemma CardToCellOfCellToCard(row: nat, col: nat, nrows: nat, ncols: nat)
    requires row < nrows && col < ncols
    ensures CellToCard(row, col, ncols) < nrows * ncols
    ensures CardToCell(CellToCard(row, col, ncols), ncols) == (row, col)
  {
    var rc := CardToCell(CellToCard(row, col, ncols), ncols);
    CardNumberUnique(rc.0, rc.1, row, col, ncols);
    MulMonotone(row + 1, nrows, ncols);
    assert (row + 1) * ncols == row * ncols + ncols;
  }

  /** Numbering the card of a decomposed card number gives back that number. */
  lemma CellToCardOfCardToCell(ind: nat, ncols: nat)
    requires ncols > 0
    ensures CellToCard(CardToCell(ind, ncols).0, CardToCell(ind, ncols).1, ncols) == ind
  {
  }

  /**
   * render's walk over an nrows x ncols game: row by row, column by column,
   * with `index` counting up; `order[index]` is the cell painted on card
   * `index`. The click callback decomposes every card number to that cell.
   */
  method RenderWalk(nrows: nat, ncols: nat) returns (order: seq<(nat, nat)>)
    requires ncols > 0
    ensures |order| == nrows * ncols
    ensures forall index :: 0 <= index < |order| ==> order[index] == CardToCell(index, ncols)
  {
    order := [];
    var index := 0;
    var row := 0;
    while row < nrows
      invariant 0 <= row <= nrows
      invariant index == |order| == row * ncols
      invariant forall k :: 0 <= k < |order| ==> order[k] == CardToCell(k, ncols)
    {
      var col := 0;
      while col < ncols
        invariant 0 <= col <= ncols
        invariant index == |order| == row * ncols + col
        invariant forall k :: 0 <= k < |order| ==> order[k] == CardToCell(k, ncols)
      {
        CardToCellOfCellToCard(row, col, row + 1, ncols);
        order := order + [(row, col)];
        index := index + 1;
        col := col + 1;
      }
      row := row + 1;
    }
  }

  /** Every row of the grid has ncols cells and there are nrows of them. */
  predicate Rectangular(g: Grid, nrows: nat, ncols: nat) {
    |g| == nrows && forall i :: 0 <= i < |g| ==> |g[i]| == ncols
  }

  lemma {:induction false} FlattenLength(g: Grid, nrows: nat, ncols: nat)
    requires Rectangular(g, nrows, ncols)
    ensures |Flatten(g)| == nrows * ncols
  {
    if nrows > 0 {
      var last := nrows - 1;
      FlattenLength(g[..last], last, ncols);
      assert nrows * ncols == last * ncols + ncols;
    }
  }

  /** Cell (row, col) sits at position row * ncols + col of the row-major layout. */
  lemma {:induction false} FlattenAt(g: Grid, nrows: nat, ncols: nat, row: nat, col: nat)
    requires Rectangular(g, nrows, ncols) && row < nrows && col < ncols
    ensures CellToCard(row, col, ncols) < |Flatten(g)|
    ensures Flatten(g)[CellToCard(row, col, ncols)] == g[row][col]
  {
    var last := nrows - 1;
    var p := g[..last];
    FlattenSnoc(g, last);
    assert g[..nrows] == g;
    FlattenLength(g, nrows, ncols);
    CardToCellOfCellToCard(row, col, nrows, ncols);
    if row < last {
      FlattenAt(p, last, ncols, row, col);
    } else {
      FlattenLength(p, last, ncols);
    }
  }

  /**
   * The card a click lands on, the card render paints and the card
   * showRemainingBombs paints all stand for the same cell: on an
   * nrows x ncols grid, position `ind` of the row-major layout is the cell
   * the click callback decomposes `ind` to.
   */
  lemma CardShowsDecomposedCell(g: Grid, nrows: nat, ncols: nat, ind: nat)
    requires ncols > 0 && Rectangular(g, nrows, ncols) && ind < nrows * ncols
    ensures CardToCell(ind, ncols).0 < nrows
    ensures |Flatten(g)| == nrows * ncols
    ensures Flatten(g)[ind] == g[CardToCell(ind, ncols).0][CardToCell(ind, ncols).1]
  {
    CardToCellInBounds(ind, nrows, ncols);
    FlattenLength(g, nrows, ncols);
    var rc := CardToCell(ind, ncols);
    FlattenAt(g, nrows, ncols, rc.0, rc.1);
    assert CellToCard(rc.0, rc.1, ncols) == ind;
  }
}
