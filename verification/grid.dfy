/**
 * The board as a value: 30 rows of 10 cells, each either empty or carrying
 * the label of the piece that filled it. These functions say what the
 * in-place operations of the board engine compute: emptying and removing a
 * row, the top-to-bottom clearing pass that follows a merge, stamping a
 * piece into the grid, the collision test, and where a hard drop lands.
 */
module Grid {
  import opened Piece

  const Rows: nat := 30
  const Cols: nat := 10

  /** Rows of cells, indexed [y][x]. */
  type Board = seq<seq<char>>

  predicate IsGrid(g: Board)
  {
    |g| == Rows && forall y :: 0 <= y < Rows ==> |g[y]| == Cols
  }

  predicate InBoard(cx: int, cy: int)
  {
    0 <= cx < Cols && 0 <= cy < Rows
  }

  const BlankRow: seq<char> := ".........."

  const EmptyGrid: Board := seq(Rows, i => BlankRow)

  /** Two grids that agree on every cell are equal. */
  lemma SameGrid(g: Board, h: Board)
    requires IsGrid(g) && IsGrid(h)
    requires forall y, x :: 0 <= y < Rows && 0 <= x < Cols ==> g[y][x] == h[y][x]
    ensures g == h
  {
    forall y | 0 <= y < Rows
      ensures g[y] == h[y]
    {
      assert forall x :: 0 <= x < Cols ==> g[y][x] == h[y][x];
    }
  }

  // ---------------------------------------------------------------------------
  // Rows: full, emptied, removed
  // ---------------------------------------------------------------------------

  /** A row is full when none of its cells is empty. */
  predicate RowFull(row: seq<char>)
  {
    forall x :: 0 <= x < |row| ==> row[x] != Empty
  }

  /** The grid with row r set to empty cells. */
  function RowEmptied(g: Board, r: int): (h: Board)
    requires 0 <= r < |g|
    ensures |h| == |g|
  {
    g[r := BlankRow]
  }

  /** The grid after the rows above r move down by one: row y takes the old
      row y-1 for 1 <= y <= r. Row 0 is left as it was, and the rows below r
      are untouched. */
  function RowRemoved(g: Board, r: int): (h: Board)
    requires 0 <= r < |g|
    ensures |h| == |g|
  {
    seq(|g|, y requires 0 <= y < |g| => if 1 <= y <= r then g[y - 1] else g[y])
  }

  /** Removing a row below the top leaves the old top row in both row 0 and
      row 1: the top row is copied down, not emptied. */
  lemma RowRemovedKeepsTop(g: Board, r: int)
    requires 1 <= r < |g|
    ensures RowRemoved(g, r)[0] == g[0] && RowRemoved(g, r)[1] == g[0]
    ensures forall y :: r < y < |g| ==> RowRemoved(g, r)[y] == g[y]
  {
  }

  /** One step of the clearing pass: a full row y is emptied and then removed. */
  function ClearStep(g: Board, y: int): (h: Board)
    requires 0 <= y < |g|
    ensures |h| == |g|
    ensures IsGrid(g) ==> IsGrid(h)
  {
    if RowFull(g[y]) then RowRemoved(RowEmptied(g, y), y) else g
  }

  /** The clearing pass from row y to the bottom. */
  function ClearFrom(g: Board, y: nat): (h: Board)
    requires IsGrid(g) && y <= Rows
    ensures IsGrid(h)
    decreases Rows - y
  {
    if y == Rows then g else ClearFrom(ClearStep(g, y), y + 1)
  }

  lemma ClearFromStep(g: Board, y: nat)
    requires IsGrid(g) && y < Rows
    ensures ClearFrom(g, y) == ClearFrom(ClearStep(g, y), y + 1)
  {
  }

  /** The whole clearing pass, top to bottom. */
  function Cleared(g: Board): (h: Board)
    requires IsGrid(g)
    ensures IsGrid(h)
  {
    ClearFrom(g, 0)
  }

  // ---------------------------------------------------------------------------
  // What the clearing pass computes
  // ---------------------------------------------------------------------------

  /** The rows of s that are not full, in order. */
  function Kept(s: Board): Board
  {
    if s == [] then [] else Kept(s[..|s| - 1]) + (if RowFull(s[|s| - 1]) then [] else [s[|s| - 1]])
  }

  /** How many rows of s are full. */
  function FullCount(s: Board): nat
  {
    if s == [] then 0 else FullCount(s[..|s| - 1]) + (if RowFull(s[|s| - 1]) then 1 else 0)
  }

  function Repeat(row: seq<char>, n: nat): (r: Board)
    ensures |r| == n
  {
    seq(n, i => row)
  }

  /** The row that the clearing pass copies into the freed top rows: the old
      top row, or an empty row when the top row itself was full. */
  function Top(g: Board): seq<char>
    requires |g| > 0
  {
    if RowFull(g[0]) then BlankRow else g[0]
  }

  lemma {:induction false} KeptAndFullCount(s: Board)
    ensures |Kept(s)| + FullCount(s) == |s|
    ensures forall i :: 0 <= i < |Kept(s)| ==> !RowFull(Kept(s)[i])
  {
    if s != [] {
      KeptAndFullCount(s[..|s| - 1]);
    }
  }

  /** The state of the clearing pass after rows 0 .. y-1 of the original o
      have been processed: the rows above y are the freed rows followed by
      the kept rows of o[..y]; the rows from y down are those of o. */
  ghost predicate PassedTo(o: Board, h: Board, y: nat)
    requires |o| > 0 && y <= |o|
  {
    |h| == |o| &&
    h[..y] == Repeat(Top(o), FullCount(o[..y])) + Kept(o[..y]) &&
    h[y..] == o[y..] &&
    (y > 0 ==> h[0] == Top(o))
  }

  lemma PassedToFirstRow(o: Board)
    requires IsGrid(o)
    ensures PassedTo(o, ClearStep(o, 0), 1)
  {
    var h := ClearStep(o, 0);
    assert o[..1][..0] == [];
    if RowFull(o[0]) {
      assert h == o[0 := BlankRow];
      assert h[..1] == [BlankRow];
    } else {
      assert h[..1] == [o[0]];
    }
    assert h[1..] == o[1..];
  }

  lemma PassedToNextRow(o: Board, h: Board, y: nat)
    requires IsGrid(o) && 0 < y < Rows && PassedTo(o, h, y)
    ensures PassedTo(o, ClearStep(h, y), y + 1)
  {
    assert o[..y + 1][..y] == o[..y];
    assert h[y] == o[y] by {
      assert h[y..][0] == o[y..][0];
    }
    assert o[y + 1..] == o[y..][1..];
    if RowFull(o[y]) {
      PassedFullRow(o, h, y);
    } else {
      PassedKeptRow(o, h, y);
    }
  }

  /** A full row y is dropped: one more freed row on top. */
  lemma PassedFullRow(o: Board, h: Board, y: nat)
    requires IsGrid(o) && 0 < y < Rows && PassedTo(o, h, y)
    requires h[y] == o[y] && RowFull(o[y])
    requires o[..y + 1][..y] == o[..y] && o[y + 1..] == o[y..][1..]
    ensures PassedTo(o, ClearStep(h, y), y + 1)
  {
    var h' := ClearStep(h, y);
    var t := Top(o);
    var c := FullCount(o[..y]);
    assert h'[..y + 1] == [h[0]] + h[..y];
    assert Repeat(t, c + 1) == [t] + Repeat(t, c);
    assert h'[y + 1..] == h[y + 1..];
    assert h[y + 1..] == h[y..][1..];
  }

  /** A row y that is not full is kept: it joins the kept rows. */
  lemma PassedKeptRow(o: Board, h: Board, y: nat)
    requires IsGrid(o) && 0 < y < Rows && PassedTo(o, h, y)
    requires h[y] == o[y] && !RowFull(o[y])
    requires o[..y + 1][..y] == o[..y] && o[y + 1..] == o[y..][1..]
    ensures PassedTo(o, ClearStep(h, y), y + 1)
  {
    var h' := ClearStep(h, y);
    assert h'[..y + 1] == h[..y] + [o[y]];
    assert h'[y + 1..] == h[y..][1..];
  }

  lemma {:induction false} ClearFromPassed(o: Board, h: Board, y: nat)
    requires IsGrid(o) && 0 < y <= Rows && PassedTo(o, h, y) && IsGrid(h)
    ensures ClearFrom(h, y) == Repeat(Top(o), FullCount(o)) + Kept(o)
    decreases Rows - y
  {
    if y == Rows {
      assert o[..y] == o;
      assert h[..y] == h;
    } else {
      PassedToNextRow(o, h, y);
      ClearFromPassed(o, ClearStep(h, y), y + 1);
    }
  }

  /** The clearing pass removes every full row and keeps the others in their
      order at the bottom of the board; the freed rows on top are copies of
      the old top row (empty rows whenever the top row was empty). */
  lemma ClearedRows(g: Board)
    requires IsGrid(g)
    ensures Cleared(g) == Repeat(Top(g), FullCount(g)) + Kept(g)
  {
    PassedToFirstRow(g);
    ClearFromPassed(g, ClearStep(g, 0), 1);
  }

  /** After the clearing pass no row of the board is full. */
  lemma NoFullRowAfterClear(g: Board)
    requires IsGrid(g)
    ensures forall y :: 0 <= y < Rows ==> !RowFull(Cleared(g)[y])
  {
    ClearedRows(g);
    KeptAndFullCount(g);
    assert !RowFull(BlankRow) by {
      assert BlankRow[0] == Empty;
    }
    var n := FullCount(g);
    forall y | 0 <= y < Rows
      ensures !RowFull(Cleared(g)[y])
    {
      if y >= n {
        assert Cleared(g)[y] == Kept(g)[y - n];
      }
    }
  }

  /** Rows below every full row come through the clearing pass unchanged. */
  lemma {:induction false} ClearFromKeepsLowerRows(g: Board, y: nat, low: nat)
    requires IsGrid(g) && y <= Rows
    requires forall i :: low <= i < Rows ==> !RowFull(g[i])
    ensures forall i :: low <= i < Rows ==> ClearFrom(g, y)[i] == g[i]
    decreases Rows - y
  {
    if y < Rows {
      var h := ClearStep(g, y);
      assert forall i :: low <= i < Rows ==> h[i] == g[i];
      ClearFromKeepsLowerRows(h, y + 1, low);
    }
  }

  // ---------------------------------------------------------------------------
  // The falling piece against the grid
  // ---------------------------------------------------------------------------

  /** Board cell (cx, cy) lies under an occupied cell of piece p placed with
      its box at (x0, y0) in rotation rot. */
  predicate Covers(p: Shape, rot: int, x0: int, y0: int, cx: int, cy: int)
    requires Sized(p)
  {
    InBox(p, rot, cx - x0, cy - y0) && CharAt(p, rot, cx - x0, cy - y0) != Empty
  }

  /** The grid with the piece's occupied cells written in; cells the piece
      does not cover, and piece cells that fall outside the board, change nothing. */
  function Stamped(g: Board, p: Shape, x0: int, y0: int, rot: int): (h: Board)
    requires IsGrid(g) && Sized(p)
    ensures IsGrid(h)
  {
    seq(Rows, cy requires 0 <= cy < Rows =>
      seq(Cols, cx requires 0 <= cx < Cols =>
        if Covers(p, rot, x0, y0, cx, cy) then CharAt(p, rot, cx - x0, cy - y0) else g[cy][cx]))
  }

  /** Local cell (x, y) of the piece blocks its placement at (x0, y0): it is
      occupied and lands outside the board or on an occupied board cell. */
  predicate Blocks(g: Board, p: Shape, x0: int, y0: int, rot: int, x: int, y: int)
    requires IsGrid(g) && Sized(p)
  {
    InBox(p, rot, x, y) && CharAt(p, rot, x, y) != Empty &&
    (!InBoard(x0 + x, y0 + y) || g[y0 + y][x0 + x] != Empty)
  }

  /** The piece cannot be placed at (x0, y0) in rotation rot. */
  ghost predicate Collides(g: Board, p: Shape, x0: int, y0: int, rot: int)
    requires IsGrid(g) && Sized(p)
  {
    exists x, y :: Blocks(g, p, x0, y0, rot, x, y)
  }

  /** A placement that does not collide puts every occupied piece cell on an
      empty cell inside the board, and stamping writes every one of them:
      the bounds test of the merge never drops a cell. */
  lemma StampKeepsEveryCell(g: Board, p: Shape, x0: int, y0: int, rot: int)
    requires IsGrid(g) && Sized(p) && !Collides(g, p, x0, y0, rot)
    ensures forall x, y :: InBox(p, rot, x, y) && CharAt(p, rot, x, y) != Empty ==>
      InBoard(x0 + x, y0 + y) && g[y0 + y][x0 + x] == Empty &&
      Stamped(g, p, x0, y0, rot)[y0 + y][x0 + x] == CharAt(p, rot, x, y)
  {
    forall x, y | InBox(p, rot, x, y) && CharAt(p, rot, x, y) != Empty
      ensures InBoard(x0 + x, y0 + y) && g[y0 + y][x0 + x] == Empty
      ensures Stamped(g, p, x0, y0, rot)[y0 + y][x0 + x] == CharAt(p, rot, x, y)
    {
      assert !Blocks(g, p, x0, y0, rot, x, y);
      assert (x0 + x) - x0 == x && (y0 + y) - y0 == y;
    }
  }

  /** A placement that does not collide keeps the piece's box overlapping the
      board; in particular its top row is above the bottom of the board. */
  lemma PlacementWithinBoard(g: Board, p: Shape, x0: int, y0: int, rot: int)
    requires IsGrid(g) && WellFormed(p) && !Collides(g, p, x0, y0, rot)
    ensures 0 < x0 + Xl(p, rot) && x0 < Cols
    ensures 0 < y0 + Yl(p, rot) && y0 < Rows
  {
    OccupiedInEveryView(p, rot);
    var x, y :| InBox(p, rot, x, y) && CharAt(p, rot, x, y) != Empty;
    assert !Blocks(g, p, x0, y0, rot, x, y);
  }

  /** The row where a piece dropped from y0 comes to rest: the first row at or
      below y0 whose next row collides. */
  ghost function LandingRow(g: Board, p: Shape, x0: int, y0: int, rot: int): (y: int)
    requires IsGrid(g) && WellFormed(p) && !Collides(g, p, x0, y0, rot)
    ensures y0 <= y < Rows
    ensures Collides(g, p, x0, y + 1, rot)
    ensures forall k :: y0 <= k <= y ==> !Collides(g, p, x0, k, rot)
    decreases Rows - y0
  {
    PlacementWithinBoard(g, p, x0, y0, rot);
    if Collides(g, p, x0, y0 + 1, rot) then y0 else LandingRow(g, p, x0, y0 + 1, rot)
  }

  /** On the empty board every catalogue piece fits at the spawn position. */
  lemma SpawnFitsEmptyBoard(r: int)
    requires 0 <= r < PiecesNum
    ensures !Collides(EmptyGrid, Pieces[r], 0, 0, 0)
  {
    CatalogueWellFormed();
    var p := Pieces[r];
    forall x, y
      ensures !Blocks(EmptyGrid, p, 0, 0, 0, x, y)
    {
      if InBox(p, 0, x, y) {
        assert InBoard(x, y);
        assert EmptyGrid[y][x] == Empty;
      }
    }
  }

  /** The line piece fits at the spawn corner of the empty board but not with
      its box at column 7, where its occupied row would reach column 10. */
  lemma LinePieceAtRightEdge()
    ensures !Collides(EmptyGrid, LinePiece, 0, 0, 0)
    ensures Collides(EmptyGrid, LinePiece, 7, 0, 0)
  {
    SpawnFitsEmptyBoard(3);
    assert CharAt(LinePiece, 0, 3, 1) == 'H';
    assert Blocks(EmptyGrid, LinePiece, 7, 0, 0, 3, 1);
  }

  /** The T piece at rotation 1 has an empty left column, so its box may
      stand one column left of the board: a legal origin can be negative. */
  lemma TPieceLeftOfBoard()
    ensures !Collides(EmptyGrid, TPiece, -1, 0, 1)
  {
    forall x, y
      ensures !Blocks(EmptyGrid, TPiece, -1, 0, 1, x, y)
    {
      if InBox(TPiece, 1, x, y) && x == 0 {
        assert CharAt(TPiece, 1, x, y) == TPiece.data[2 - y];
      } else if InBox(TPiece, 1, x, y) {
        assert InBoard(x - 1, y);
        assert EmptyGrid[y][x - 1] == Empty;
      }
    }
  }
}
