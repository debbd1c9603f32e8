/**
 * The board engine: a 30-by-10 grid of cells updated in place, and the one
 * falling piece with its rotation and origin. Each method does in place what
 * a function of module Grid describes on values; the command handlers keep
 * the invariant that the falling piece never collides with the board or
 * leaves it.
 */
module Tetrish {
  import opened Piece
  import opened Grid

  datatype Option<T> = None | Some(value: T)

  /** What the driver delivers: a key read from the terminal, or the tick
      timer running out with no key pressed. */
  datatype Event = Key(c: int) | Timeout

  class Game {
    /** The grid, indexed [row, column]; the storage itself never changes. */
    const board: array2<char>
    /** The falling piece's shape; None between a merge and the next spawn. */
    var fp: Option<Shape>
    var fpX0: int
    var fpY0: int
    var fpRot: int

    /** The grid has the board's dimensions; it depends on nothing that changes. */
    ghost predicate GridSized()
    {
      board.Length0 == Rows && board.Length1 == Cols
    }

    ghost predicate Valid()
      reads this
    {
      GridSized() &&
      (fp.Some? ==> WellFormed(fp.value) && 0 <= fpRot < fp.value.rotNum)
    }

    /** The grid as a value. */
    ghost function Cells(): (g: Grid.Board)
      reads board
      requires GridSized()
      ensures IsGrid(g)
      ensures forall y, x :: 0 <= y < Rows && 0 <= x < Cols ==> g[y][x] == board[y, x]
    {
      seq(Rows, y requires 0 <= y < Rows reads board =>
        seq(Cols, x requires 0 <= x < Cols reads board => board[y, x]))
    }

    /** A piece is falling and sits where it does not collide. */
    ghost predicate Playing()
      reads this, board
    {
      Valid() && fp.Some? && !Collides(Cells(), fp.value, fpX0, fpY0, fpRot)
    }

    /** board_init: every cell empty and no falling piece yet. */
    constructor ()
      ensures fresh(board)
      ensures Valid() && fp == None
      ensures Cells() == EmptyGrid
    {
      board := new char[Rows, Cols];
      fp := None;
      new;
      var y := 0;
      while y < Rows
        invariant 0 <= y <= Rows
        invariant forall i, j :: 0 <= i < y && 0 <= j < Cols ==> board[i, j] == Empty
        modifies board
      {
        var x := 0;
        while x < Cols
          invariant 0 <= x <= Cols
          invariant forall i, j :: 0 <= i < y && 0 <= j < Cols ==> board[i, j] == Empty
          invariant forall j :: 0 <= j < x ==> board[y, j] == Empty
          modifies board
        {
          board[y, x] := Empty;
          x := x + 1;
        }
        y := y + 1;
      }
      SameGrid(Cells(), EmptyGrid);
    }

    /** board_row_is_full: true exactly when no cell of the row is empty. */
    method RowIsFull(row: int) returns (full: bool)
      requires GridSized() && 0 <= row < Rows
      ensures full == RowFull(Cells()[row])
    {
      full := true;
      var x := 0;
      while x < Cols
        invariant 0 <= x <= Cols
        invariant forall j :: 0 <= j < x ==> board[row, j] != Empty
      {
        if board[row, x] == Empty {
          full := false;
          break;
        }
        x := x + 1;
      }
    }

    /** board_empty_row: the row becomes empty cells, the other rows stay. */
    method EmptyRow(row: int)
      requires GridSized() && 0 <= row < Rows
      modifies board
      ensures Cells() == RowEmptied(old(Cells()), row)
    {
      ghost var before := Cells();
      var x := 0;
      while x < Cols
        invariant 0 <= x <= Cols
        invariant forall i, j :: 0 <= i < Rows && 0 <= j < Cols ==>
          board[i, j] == if i == row && j < x then Empty else before[i][j]
      {
        board[row, x] := Empty;
        x := x + 1;
      }
      SameGrid(Cells(), RowEmptied(before, row));
    }

    /** board_remove_row: the rows above `row` move down by one, from the
        bottom up so that each copy reads a row not yet overwritten. */
    method RemoveRow(row: int)
      requires GridSized() && 0 <= row < Rows
      modifies board
      ensures Cells() == RowRemoved(old(Cells()), row)
    {
      ghost var before := Cells();
      var y := row;
      while y > 0
        invariant 0 <= y <= row
        invariant forall i, j :: 0 <= i < Rows && 0 <= j < Cols ==>
          board[i, j] == if y < i <= row then before[i - 1][j] else before[i][j]
      {
        var x := 0;
        while x < Cols
          invariant 0 <= x <= Cols
          invariant forall i, j :: 0 <= i < Rows && 0 <= j < Cols ==>
            board[i, j] == if y < i <= row || (i == y && j < x) then before[i - 1][j] else before[i][j]
        {
          board[y, x] := board[y - 1, x];
          x := x + 1;
        }
        y := y - 1;
      }
      SameGrid(Cells(), RowRemoved(before, row));
    }

    /** merge_piece: write the falling piece's occupied in-board cells into
        the grid, drop the piece, then run the clearing pass top to bottom. */
    method MergePiece()
      requires Valid() && fp.Some?
      modifies this, board
      ensures Valid() && fp == None
      ensures fpX0 == old(fpX0) && fpY0 == old(fpY0) && fpRot == old(fpRot)
      ensures Cells() == Cleared(Stamped(old(Cells()), old(fp.value), old(fpX0), old(fpY0), old(fpRot)))
      ensures forall y :: 0 <= y < Rows ==> !RowFull(Cells()[y])
    {
      StampPiece();
      fp := None;
      ClearFullRows();
    }

    /** The first phase of merge_piece: every cell of the falling piece's box,
        row by row, that is occupied and lands inside the board is written
        into the grid; a cell outside the board is skipped. */
    method StampPiece()
      requires GridSized() && fp.Some? && Sized(fp.value)
      modifies board
      ensures Cells() == Stamped(old(Cells()), fp.value, fpX0, fpY0, fpRot)
    {
      var p, x0, y0, rot := fp.value, fpX0, fpY0, fpRot;
      ghost var before := Cells();
      var y := 0;
      while y < Yl(p, rot)
        invariant 0 <= y <= Yl(p, rot)
        invariant forall cy, cx :: 0 <= cy < Rows && 0 <= cx < Cols ==>
          board[cy, cx] ==
            if Covers(p, rot, x0, y0, cx, cy) && cy - y0 < y
            then CharAt(p, rot, cx - x0, cy - y0) else before[cy][cx]
      {
        StampRow(p, x0, y0, rot, y, before);
        y := y + 1;
      }
      SameGrid(Cells(), Stamped(before, p, x0, y0, rot));
    }

    /** One pass of merge_piece's inner stamping loop: local row y of the
        piece's box, left to right. */
    method StampRow(p: Shape, x0: int, y0: int, rot: int, y: int, ghost before: Board)
      requires GridSized() && IsGrid(before) && Sized(p) && 0 <= y < Yl(p, rot)
      requires forall cy, cx :: 0 <= cy < Rows && 0 <= cx < Cols ==>
          board[cy, cx] ==
            if Covers(p, rot, x0, y0, cx, cy) && cy - y0 < y
            then CharAt(p, rot, cx - x0, cy - y0) else before[cy][cx]
      modifies board
      ensures forall cy, cx :: 0 <= cy < Rows && 0 <= cx < Cols ==>
          board[cy, cx] ==
            if Covers(p, rot, x0, y0, cx, cy) && cy - y0 < y + 1
            then CharAt(p, rot, cx - x0, cy - y0) else before[cy][cx]
    {
      var x := 0;
      while x < Xl(p, rot)
        invariant 0 <= x <= Xl(p, rot)
        invariant forall cy, cx :: 0 <= cy < Rows && 0 <= cx < Cols ==>
          board[cy, cx] ==
            if Covers(p, rot, x0, y0, cx, cy) && (cy - y0 < y || (cy - y0 == y && cx - x0 < x))
            then CharAt(p, rot, cx - x0, cy - y0) else before[cy][cx]
      {
        var xb := x0 + x;
        var yb := y0 + y;
        if 0 <= yb && 0 <= xb && yb < Rows && xb < Cols {
          var pc := CharAt(p, rot, x, y);
          if pc != Empty {
            board[yb, xb] := pc;
          }
        }
        x := x + 1;
      }
    }

    /** One iteration of merge_piece's clearing loop: the row is emptied and
        removed when it is full, and the board is left alone otherwise. */
    method ClearRowIfFull(row: int)
      requires GridSized() && 0 <= row < Rows
      modifies board
      ensures Cells() == ClearStep(old(Cells()), row)
    {
      var full := RowIsFull(row);
      if full {
        EmptyRow(row);
        RemoveRow(row);
      }
    }

    /** The second phase of merge_piece: rows top to bottom, each full row is
        emptied and then removed. */
    method ClearFullRows()
      requires GridSized()
      modifies board
      ensures Cells() == Cleared(old(Cells()))
      ensures forall y :: 0 <= y < Rows ==> !RowFull(Cells()[y])
    {
      ghost var stamped := Cells();
      var row := 0;
      while row < Rows
        invariant 0 <= row <= Rows
        invariant ClearFrom(Cells(), row) == Cleared(stamped)
      {
        ghost var current := Cells();
        ClearRowIfFull(row);
        ClearFromStep(current, row);
        row := row + 1;
      }
      NoFullRowAfterClear(stamped);
    }

    /** piece_collision: whether the falling piece collides when placed at
        (x0, y0) in rotation rot. Scans the box column by column and stops at
        the first blocking cell. */
    method PieceCollision(x0: int, y0: int, rot: int) returns (collision: bool)
      requires Valid() && fp.Some?
      ensures collision == Collides(Cells(), fp.value, x0, y0, rot)
    {
      var p := fp.value;
      collision := false;
      var x := 0;
      while !collision && x < Xl(p, rot)
        invariant 0 <= x <= Xl(p, rot)
        invariant collision ==> Collides(Cells(), p, x0, y0, rot)
        invariant !collision ==> forall i, j :: 0 <= i < x ==> !Blocks(Cells(), p, x0, y0, rot, i, j)
        decreases Xl(p, rot) - x
      {
        var y := 0;
        while !collision && y < Yl(p, rot)
          invariant 0 <= y <= Yl(p, rot)
          invariant collision ==> Collides(Cells(), p, x0, y0, rot)
          invariant !collision ==> forall i, j :: (0 <= i < x || (i == x && j < y)) ==> !Blocks(Cells(), p, x0, y0, rot, i, j)
          decreases Yl(p, rot) - y
        {
          var pc := CharAt(p, rot, x, y);
          if pc != Empty {
            var xb := x0 + x;
            var yb := y0 + y;
            if xb < 0 || xb >= Cols {
              collision := true;
            } else if yb < 0 || yb >= Rows {
              collision := true;
            } else if board[yb, xb] != Empty {
              collision := true;
            }
            if collision {
              assert Blocks(Cells(), p, x0, y0, rot, x, y);
            }
          }
          y := y + 1;
        }
        x := x + 1;
      }
    }

    /** add_new_falling_piece: catalogue entry `r` becomes the falling piece,
        unrotated, with its box at the top-left corner. The answer is whether
        it fits there; false means the game is over. */
    method AddNewFallingPiece(r: int) returns (ok: bool)
      requires Valid() && 0 <= r < PiecesNum
      modifies this
      ensures Valid()
      ensures fp == Some(Pieces[r]) && fpRot == 0 && fpX0 == 0 && fpY0 == 0
      ensures ok == !Collides(Cells(), Pieces[r], 0, 0, 0)
      ensures ok == Playing()
    {
      CatalogueWellFormed();
      fp := Some(Pieces[r]);
      fpRot := 0;
      fpX0 := 0;
      fpY0 := 0;
      var collision := PieceCollision(fpX0, fpY0, fpRot);
      ok := if collision then false else true;
    }

    /** The start of a game: the first spawn on the freshly emptied board,
        whose answer the source ignores; it always fits. */
    method Start(first: int)
      requires Valid() && fp == None && Cells() == EmptyGrid && 0 <= first < PiecesNum
      modifies this
      ensures Playing() && fp == Some(Pieces[first])
      ensures fpX0 == 0 && fpY0 == 0 && fpRot == 0
      ensures Cells() == EmptyGrid
    {
      var ok := AddNewFallingPiece(first);
      SpawnFitsEmptyBoard(first);
    }

    /** Key 'h': one column to the left when that does not collide. */
    method MoveLeft()
      requires Playing()
      modifies this
      ensures Playing()
      ensures Cells() == old(Cells()) && fp == old(fp) && fpY0 == old(fpY0) && fpRot == old(fpRot)
      ensures fpX0 == if Collides(Cells(), fp.value, old(fpX0) - 1, fpY0, fpRot) then old(fpX0) else old(fpX0) - 1
    {
      var collision := PieceCollision(fpX0 - 1, fpY0, fpRot);
      if !collision {
        fpX0 := fpX0 - 1;
      }
    }

    /** Key 'l': one column to the right when that does not collide. */
    method MoveRight()
      requires Playing()
      modifies this
      ensures Playing()
      ensures Cells() == old(Cells()) && fp == old(fp) && fpY0 == old(fpY0) && fpRot == old(fpRot)
      ensures fpX0 == if Collides(Cells(), fp.value, old(fpX0) + 1, fpY0, fpRot) then old(fpX0) else old(fpX0) + 1
    {
      var collision := PieceCollision(fpX0 + 1, fpY0, fpRot);
      if !collision {
        fpX0 := fpX0 + 1;
      }
    }

    /** Key 'k': to the next rotation, in place, when that does not collide. */
    method RotatePiece()
      requires Playing()
      modifies this
      ensures Playing()
      ensures Cells() == old(Cells()) && fp == old(fp) && fpX0 == old(fpX0) && fpY0 == old(fpY0)
      ensures fpRot == if Collides(Cells(), fp.value, fpX0, fpY0, Rotate(fp.value, old(fpRot))) then old(fpRot) else Rotate(fp.value, old(fpRot))
    {
      var newRot := Rotate(fp.value, fpRot);
      var collision := PieceCollision(fpX0, fpY0, newRot);
      if !collision {
        fpRot := newRot;
      }
    }

    /** The lock sequence: merge the piece, then spawn catalogue entry `next`;
        the game is over when it does not fit. */
    method LockAndSpawn(next: int) returns (gameOver: bool)
      requires Valid() && fp.Some? && 0 <= next < PiecesNum
      modifies this, board
      ensures Valid()
      ensures Cells() == Cleared(Stamped(old(Cells()), old(fp.value), old(fpX0), old(fpY0), old(fpRot)))
      ensures fp == Some(Pieces[next]) && fpRot == 0 && fpX0 == 0 && fpY0 == 0
      ensures !gameOver <==> Playing()
    {
      MergePiece();
      var ok := AddNewFallingPiece(next);
      gameOver := !ok;
    }

    /** Key 'j' and the tick timer: one row down when that does not collide;
        otherwise the piece locks where it is and `next` spawns. */
    method StepDown(next: int) returns (gameOver: bool)
      requires Playing() && 0 <= next < PiecesNum
      modifies this, board
      ensures !gameOver <==> Playing()
      ensures !old(Collides(Cells(), fp.value, fpX0, fpY0 + 1, fpRot)) ==>
        !gameOver && Cells() == old(Cells()) &&
        fp == old(fp) && fpX0 == old(fpX0) && fpY0 == old(fpY0) + 1 && fpRot == old(fpRot)
      ensures old(Collides(Cells(), fp.value, fpX0, fpY0 + 1, fpRot)) ==>
        Cells() == Cleared(Stamped(old(Cells()), old(fp.value), old(fpX0), old(fpY0), old(fpRot))) &&
        fp == Some(Pieces[next]) && fpRot == 0 && fpX0 == 0 && fpY0 == 0
    {
      ghost var before := Cells();
      var collision := PieceCollision(fpX0, fpY0 + 1, fpRot);
      assert collision == old(Collides(Cells(), fp.value, fpX0, fpY0 + 1, fpRot));
      if !collision {
        fpY0 := fpY0 + 1;
        gameOver := false;
        assert Cells() == before;
      } else {
        ghost var p, x, y, r := fp.value, fpX0, fpY0, fpRot;
        gameOver := LockAndSpawn(next);
        assert Cells() == Cleared(Stamped(before, p, x, y, r));
      }
    }

    /** Key ' ': move down while the next row does not collide, then lock and
        spawn `next`. The piece locks at its landing row. */
    method HardDrop(next: int) returns (gameOver: bool)
      requires Playing() && 0 <= next < PiecesNum
      modifies this, board
      ensures !gameOver <==> Playing()
      ensures Cells() == Cleared(Stamped(old(Cells()), old(fp.value), old(fpX0),
        LandingRow(old(Cells()), old(fp.value), old(fpX0), old(fpY0), old(fpRot)), old(fpRot)))
      ensures fp == Some(Pieces[next]) && fpRot == 0 && fpX0 == 0 && fpY0 == 0
    {
      ghost var landing := LandingRow(Cells(), fp.value, fpX0, fpY0, fpRot);
      PlacementWithinBoard(Cells(), fp.value, fpX0, fpY0, fpRot);
      var collision := PieceCollision(fpX0, fpY0 + 1, fpRot);
      while !collision
        invariant Playing() && fp == old(fp) && fpX0 == old(fpX0) && fpRot == old(fpRot)
        invariant fpY0 < Rows
        invariant collision == Collides(Cells(), fp.value, fpX0, fpY0 + 1, fpRot)
        invariant LandingRow(Cells(), fp.value, fpX0, fpY0, fpRot) == landing
        decreases Rows - fpY0
        modifies this
      {
        fpY0 := fpY0 + 1;
        PlacementWithinBoard(Cells(), fp.value, fpX0, fpY0, fpRot);
        collision := PieceCollision(fpX0, fpY0 + 1, fpRot);
      }
      gameOver := LockAndSpawn(next);
    }

    /** One turn of the game loop: dispatch the key or the tick. Keys other
        than h, l, k, j and space change nothing. The answer is whether the
        game ended, which only a lock can cause. */
    method HandleEvent(ev: Event, next: int) returns (gameOver: bool)
      requires Playing() && 0 <= next < PiecesNum
      modifies this, board
      ensures !gameOver <==> Playing()
      ensures gameOver ==> ev == Timeout || ev == Key('j' as int) || ev == Key(' ' as int)
      ensures ev.Key? && ev.c !in {'h' as int, 'l' as int, 'k' as int, 'j' as int, ' ' as int} ==>
        !gameOver && Cells() == old(Cells()) &&
        fp == old(fp) && fpX0 == old(fpX0) && fpY0 == old(fpY0) && fpRot == old(fpRot)
    {
      gameOver := false;
      if ev.Key? {
        var c := ev.c;
        if c == 'h' as int {
          MoveLeft();
        } else if c == 'l' as int {
          MoveRight();
        } else if c == 'k' as int {
          RotatePiece();
        } else if c == 'j' as int {
          gameOver := StepDown(next);
        } else if c == ' ' as int {
          gameOver := HardDrop(next);
        }
      } else {
        gameOver := StepDown(next);
      }
    }
  }

  /** The start of main: a freshly initialised board and the first spawn. */
  method NewGame(first: int) returns (g: Game)
    requires 0 <= first < PiecesNum
    ensures fresh(g) && fresh(g.board)
    ensures g.Playing() && g.fp == Some(Pieces[first])
    ensures g.fpX0 == 0 && g.fpY0 == 0 && g.fpRot == 0
    ensures g.Cells() == EmptyGrid
  {
    g := new Game();
    g.Start(first);
  }

  /** The game loop of main over a finite run of events, `nexts[i]` being the
      spawn index drawn if turn i locks a piece. It stops at the turn that
      ends the game; until then every turn keeps the invariant. */
  method Play(g: Game, events: seq<Event>, nexts: seq<int>) returns (over: bool, turns: nat)
    requires g.Playing() && |nexts| == |events|
    requires forall i :: 0 <= i < |nexts| ==> 0 <= nexts[i] < PiecesNum
    modifies g, g.board
    ensures turns <= |events|
    ensures over <==> !g.Playing()
    ensures !over ==> turns == |events|
    ensures over ==>
      0 < turns &&
      (events[turns - 1] == Timeout || events[turns - 1] == Key('j' as int) || events[turns - 1] == Key(' ' as int))
  {
    over := false;
    turns := 0;
    while turns < |events| && !over
      invariant turns <= |events|
      invariant over <==> !g.Playing()
      invariant over ==>
        0 < turns &&
        (events[turns - 1] == Timeout || events[turns - 1] == Key('j' as int) || events[turns - 1] == Key(' ' as int))
    {
      over := g.HandleEvent(events[turns], nexts[turns]);
      turns := turns + 1;
    }
  }
}
