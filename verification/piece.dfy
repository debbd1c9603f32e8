/**
 * The shapes of the falling pieces and the geometry queries on them.
 *
 * A shape is a box of `xl` columns by `yl` rows whose cells are stored row by
 * row in `data`. A rotation index selects one of four views of that box:
 * 0 as stored, 1 a quarter turn, 2 a half turn, 3 three quarter turns. Drawn
 * as the board is drawn (row 0 at the top), each quarter turn is
 * counter-clockwise. Every query is a pure function of the shape and the
 * rotation.
 */
module Piece {

  /** Marker of an empty cell, inside a shape's box and on the board alike. */
  const Empty: char := '.'

  /** What `CharAt` answers for a cell outside the box. */
  const Outside: char := ' '

  /** A catalogue entry: box size, number of rotation states, cells row by row. */
  datatype Shape = Shape(xl: nat, yl: nat, rotNum: nat, data: seq<char>)

  /** The cells fill the box exactly. */
  predicate Sized(p: Shape)
  {
    |p.data| == p.xl * p.yl
  }

  /** What every catalogue entry satisfies: sized, rotatable, and with at least
      one occupied cell in its stored view. */
  ghost predicate WellFormed(p: Shape)
  {
    Sized(p) && 0 < p.rotNum &&
    exists x, y :: InBox(p, 0, x, y) && CharAt(p, 0, x, y) != Empty
  }

  // ---------------------------------------------------------------------------
  // The catalogue
  // ---------------------------------------------------------------------------

  const PiecesNum: nat := 7

  const SquarePiece: Shape := Shape(2, 2, 1,
    "OO" +
    "OO")

  const S1Piece: Shape := Shape(3, 3, 2,
    "XX." +
    ".XX" +
    "...")

  const S2Piece: Shape := Shape(3, 3, 2,
    ".YY" +
    "YY." +
    "...")

  const TPiece: Shape := Shape(3, 3, 4,
    "..." +
    "TTT" +
    ".T.")

  const L1Piece: Shape := Shape(3, 3, 4,
    "..." +
    "PPP" +
    "P..")

  const L2Piece: Shape := Shape(3, 3, 4,
    "..." +
    "GGG" +
    "..G")

  const LinePiece: Shape := Shape(4, 4, 2,
    "...." +
    "HHHH" +
    "...." +
    "....")

  /** The catalogue, in the order a spawn index selects from it. */
  const Pieces: seq<Shape> := [SquarePiece, S1Piece, S2Piece, LinePiece, TPiece, L1Piece, L2Piece]

  /** Every entry is well formed, square, at most 4 wide, and rotates through 1, 2 or 4 states. */
  lemma CatalogueWellFormed()
    ensures |Pieces| == PiecesNum
    ensures forall i :: 0 <= i < |Pieces| ==>
      WellFormed(Pieces[i]) && Pieces[i].xl == Pieces[i].yl && Pieces[i].xl <= 4 &&
      Pieces[i].rotNum in {1, 2, 4}
  {
    forall i | 0 <= i < |Pieces|
      ensures WellFormed(Pieces[i])
    {
      if i == 0 { assert Pieces[i] == SquarePiece; OccupiedStoredCell(SquarePiece, 0, 0); }
      else if i == 1 { assert Pieces[i] == S1Piece; OccupiedStoredCell(S1Piece, 0, 0); }
      else if i == 2 { assert Pieces[i] == S2Piece; OccupiedStoredCell(S2Piece, 1, 0); }
      else if i == 3 { assert Pieces[i] == LinePiece; OccupiedStoredCell(LinePiece, 0, 1); }
      else if i == 4 { assert Pieces[i] == TPiece; OccupiedStoredCell(TPiece, 0, 1); }
      else if i == 5 { assert Pieces[i] == L1Piece; OccupiedStoredCell(L1Piece, 0, 1); }
      else { assert Pieces[i] == L2Piece; OccupiedStoredCell(L2Piece, 0, 1); }
    }
  }

  /** A sized, rotatable shape with an occupied stored cell is well formed. */
  lemma OccupiedStoredCell(p: Shape, x: nat, y: nat)
    requires Sized(p) && 0 < p.rotNum && x < p.xl && y < p.yl
    requires 0 <= RowMajor(x, y, p.xl) < |p.data| && p.data[RowMajor(x, y, p.xl)] != Empty
    ensures WellFormed(p)
  {
    StoredAndHalfTurn(p, x, y);
  }

  // ---------------------------------------------------------------------------
  // Geometry queries
  // ---------------------------------------------------------------------------

  /** Height of the box seen at rotation `rot`: the stored height at rotations
      0 and 2, the stored width at every other index (a quarter turn). */
  function Yl(p: Shape, rot: int): (h: nat)
    ensures h == p.xl || h == p.yl
    ensures rot == 0 || rot == 2 ==> h == p.yl
    ensures !(0 <= rot < 4) ==> h == p.xl
  {
    if rot == 0 || rot == 2 then p.yl else p.xl
  }

  /** Width of the box seen at rotation `rot`: the stored width at rotation 0,
      and at each of rotations 0 to 2 the height seen at the next rotation, so
      every quarter turn swaps the two. An index outside 0 .. 3 is treated as
      a quarter turn. */
  function Xl(p: Shape, rot: int): (w: nat)
    ensures rot == 0 ==> w == p.xl
    ensures 0 <= rot < 3 ==> w == Yl(p, rot + 1)
    ensures !(0 <= rot < 4) ==> w == p.yl
  {
    if rot == 0 || rot == 2 then p.xl else p.yl
  }

  /** A quarter turn swaps the box's width and height; every view has as many
      cells as the shape stores. */
  lemma BoxAtRotation(p: Shape, k: int)
    requires Sized(p) && 0 <= k < 4
    ensures Xl(p, (k + 1) % 4) == Yl(p, k) && Yl(p, (k + 1) % 4) == Xl(p, k)
    ensures Xl(p, k) * Yl(p, k) == |p.data|
  {
  }

  /** Whether local (x, y) lies in the box seen at rotation `rot`. The source
      takes unsigned coordinates, so a negative one is a huge value: outside. */
  predicate InBox(p: Shape, rot: int, x: int, y: int)
  {
    0 <= x < Xl(p, rot) && 0 <= y < Yl(p, rot)
  }

  /** Row-major position of cell (xp, yp) in a box `w` wide. */
  function RowMajor(xp: int, yp: int, w: int): int
  {
    xp + yp * w
  }

  /** A cell (xp, yp) of a w-by-h box has its row-major index inside the box. */
  lemma CellIndexInRange(xp: int, yp: int, w: int, h: int)
    requires 0 <= xp < w && 0 <= yp < h
    ensures 0 <= RowMajor(xp, yp, w) < w * h
  {
    ScaleMonotone(0, yp, w);
    ScaleMonotone(yp + 1, h, w);
    assert (yp + 1) * w == yp * w + w;
  }

  /** Scaling by a non-negative factor keeps the order. */
  lemma {:induction false} ScaleMonotone(a: int, c: int, b: nat)
    requires a <= c
    ensures a * b <= c * b
    decreases c - a
  {
    if a < c {
      ScaleMonotone(a, c - 1, b);
      assert (c - 1) * b == c * b - b;
    }
  }

  /** Column of the stored cell seen at (x, y) after rotation `rot`: the half
      turn reflects both axes, a quarter turn reads stored cell (xl-1-y, x),
      and every other index reads stored cell (y, yl-1-x). */
  function SourceX(p: Shape, rot: int, x: int, y: int): int
  {
    if rot == 0 then x
    else if rot == 2 then p.xl - 1 - x
    else if rot == 1 then p.xl - 1 - y
    else y
  }

  /** Row of the stored cell seen at (x, y) after rotation `rot`. */
  function SourceY(p: Shape, rot: int, x: int, y: int): int
  {
    if rot == 0 then y
    else if rot == 2 then p.yl - 1 - y
    else if rot == 1 then x
    else p.yl - 1 - x
  }

  /** The index into `data` of the cell seen at (x, y) after rotation `rot`
      stays inside `data` for every in-box (x, y). */
  function SourceIndex(p: Shape, rot: int, x: int, y: int): (i: nat)
    requires Sized(p) && InBox(p, rot, x, y)
    ensures i < |p.data|
  {
    CellIndexInRange(SourceX(p, rot, x, y), SourceY(p, rot, x, y), p.xl, p.yl);
    RowMajor(SourceX(p, rot, x, y), SourceY(p, rot, x, y), p.xl)
  }

  /** The cell at local (x, y) after rotation `rot`: one of the shape's own
      cells inside the box, `Outside` anywhere else. */
  function CharAt(p: Shape, rot: int, x: int, y: int): (c: char)
    requires Sized(p)
    ensures InBox(p, rot, x, y) ==> c in p.data
    ensures !InBox(p, rot, x, y) ==> c == Outside
  {
    if InBox(p, rot, x, y) then p.data[SourceIndex(p, rot, x, y)] else Outside
  }

  /** At rotation 0 an in-box cell is the stored cell, and the half turn shows
      it point-reflected; reflecting twice is the identity. */
  lemma StoredAndHalfTurn(p: Shape, x: int, y: int)
    requires Sized(p) && InBox(p, 0, x, y)
    ensures 0 <= RowMajor(x, y, p.xl) < |p.data| && CharAt(p, 0, x, y) == p.data[RowMajor(x, y, p.xl)]
    ensures InBox(p, 2, p.xl - 1 - x, p.yl - 1 - y)
    ensures CharAt(p, 2, p.xl - 1 - x, p.yl - 1 - y) == CharAt(p, 0, x, y)
  {
    CellIndexInRange(x, y, p.xl, p.yl);
    assert SourceX(p, 2, p.xl - 1 - x, p.yl - 1 - y) == x;
    assert SourceY(p, 2, p.xl - 1 - x, p.yl - 1 - y) == y;
  }

  /** A quarter turn reads stored cell (xl-1-y, x), three quarter turns read
      stored cell (y, yl-1-x); both indices lie inside the data. */
  lemma QuarterTurnReads(p: Shape, x: int, y: int)
    requires Sized(p)
    ensures InBox(p, 1, x, y) ==>
      0 <= (p.xl - 1 - y) + x * p.xl < |p.data| && CharAt(p, 1, x, y) == p.data[(p.xl - 1 - y) + x * p.xl]
    ensures InBox(p, 3, x, y) ==>
      0 <= y + (p.yl - 1 - x) * p.xl < |p.data| && CharAt(p, 3, x, y) == p.data[y + (p.yl - 1 - x) * p.xl]
  {
    if InBox(p, 1, x, y) {
      CellIndexInRange(p.xl - 1 - y, x, p.xl, p.yl);
    }
    if InBox(p, 3, x, y) {
      CellIndexInRange(y, p.yl - 1 - x, p.xl, p.yl);
    }
  }

  /** Every view of a well-formed shape shows at least one occupied cell. */
  lemma OccupiedInEveryView(p: Shape, rot: int)
    requires WellFormed(p)
    ensures exists x, y :: InBox(p, rot, x, y) && CharAt(p, rot, x, y) != Empty
  {
    var sx, sy :| InBox(p, 0, sx, sy) && CharAt(p, 0, sx, sy) != Empty;
    var x := if rot == 0 then sx else if rot == 2 then p.xl - 1 - sx else if rot == 1 then sy else p.yl - 1 - sy;
    var y := if rot == 0 then sy else if rot == 2 then p.yl - 1 - sy else if rot == 1 then p.xl - 1 - sx else sx;
    assert InBox(p, rot, x, y);
    assert SourceX(p, rot, x, y) == sx && SourceY(p, rot, x, y) == sy;
    assert SourceIndex(p, rot, x, y) == SourceIndex(p, 0, sx, sy);
    assert CharAt(p, rot, x, y) != Empty;
  }

  // ---------------------------------------------------------------------------
  // Views and quarter turns
  // ---------------------------------------------------------------------------

  /** The box at rotation `rot` as rows of cells: View(p, rot)[y][x] is CharAt(p, rot, x, y). */
  function View(p: Shape, rot: int): (v: seq<seq<char>>)
    requires Sized(p)
    ensures |v| == Yl(p, rot)
    ensures forall y :: 0 <= y < |v| ==> |v[y]| == Xl(p, rot)
  {
    seq(Yl(p, rot), y => seq(Xl(p, rot), x => CharAt(p, rot, x, y)))
  }

  /** A quarter turn of a grid whose rows are `w` wide: cell (x, y) of the
      result is cell (w-1-y, x) of `g`, so widths and heights swap. With row 0
      drawn at the top this turns the grid counter-clockwise. */
  function QuarterTurn(g: seq<seq<char>>, w: nat): (t: seq<seq<char>>)
    requires forall y :: 0 <= y < |g| ==> |g[y]| == w
    ensures |t| == w
    ensures forall y :: 0 <= y < |t| ==> |t[y]| == |g|
  {
    seq(w, y requires 0 <= y < w => seq(|g|, x requires 0 <= x < |g| => g[x][w - 1 - y]))
  }

  /** Each rotation index shows the previous one given a `QuarterTurn`, and
      the view at 3 turned once more is the view at 0. */
  lemma QuarterTurnOfView(p: Shape, k: int)
    requires Sized(p) && 0 <= k < 4
    ensures QuarterTurn(View(p, k), Xl(p, k)) == View(p, (k + 1) % 4)
  {
    var v := View(p, k);
    var w := Xl(p, k);
    var t := QuarterTurn(v, w);
    var n := View(p, (k + 1) % 4);
    assert |t| == |n|;
    forall y | 0 <= y < |t|
      ensures t[y] == n[y]
    {
      assert |t[y]| == |n[y]|;
      forall x | 0 <= x < |t[y]|
        ensures t[y][x] == n[y][x]
      {
        assert t[y][x] == CharAt(p, k, w - 1 - y, x);
        assert n[y][x] == CharAt(p, (k + 1) % 4, x, y);
      }
    }
  }

  /** Four quarter turns of the stored view give the stored view back. */
  lemma FourQuarterTurns(p: Shape)
    requires Sized(p)
    ensures QuarterTurn(QuarterTurn(QuarterTurn(QuarterTurn(View(p, 0), Xl(p, 0)), Xl(p, 1)), Xl(p, 2)), Xl(p, 3)) == View(p, 0)
  {
    QuarterTurnOfView(p, 0);
    QuarterTurnOfView(p, 1);
    QuarterTurnOfView(p, 2);
    QuarterTurnOfView(p, 3);
  }

  // ---------------------------------------------------------------------------
  // Rotation index
  // ---------------------------------------------------------------------------

  /** The next rotation index: one more, or back to 0 when that reaches the
      shape's rotation count. The source stores the sum in an unsigned
      variable, so a negative sum becomes a huge value and also wraps to 0. */
  function Rotate(p: Shape, rot: int): (r: nat)
    ensures 0 < p.rotNum ==> r < p.rotNum
  {
    if rot + 1 < 0 || rot + 1 >= p.rotNum then 0 else rot + 1
  }

  /** From a valid rotation index, rotating is the successor modulo the
      shape's rotation count. */
  lemma RotateIsSuccessor(p: Shape, rot: int)
    requires 0 <= rot < p.rotNum
    ensures Rotate(p, rot) == (rot + 1) % p.rotNum
  {
    if rot + 1 == p.rotNum {
      assert (rot + 1) % p.rotNum == 0;
    } else {
      assert (rot + 1) % p.rotNum == rot + 1;
    }
  }

  /** `Rotate` applied `n` times. */
  function RotateTimes(p: Shape, rot: int, n: nat): int
  {
    if n == 0 then rot else Rotate(p, RotateTimes(p, rot, n - 1))
  }

  /** Below the rotation count, rotating n times from r just counts up to r + n. */
  lemma {:induction false} RotateTimesCounts(p: Shape, rot: int, n: nat)
    requires 0 <= rot && rot + n < p.rotNum
    ensures RotateTimes(p, rot, n) == rot + n
  {
    if n > 0 {
      RotateTimesCounts(p, rot, n - 1);
    }
  }

  /** Rotating a + b times is rotating a times and then b times. */
  lemma {:induction false} RotateTimesAdd(p: Shape, rot: int, a: nat, b: nat)
    ensures RotateTimes(p, rot, a + b) == RotateTimes(p, RotateTimes(p, rot, a), b)
  {
    if b > 0 {
      RotateTimesAdd(p, rot, a, b - 1);
    }
  }

  /** Rotating as many times as the shape has rotation states is the identity. */
  lemma RotationCycle(p: Shape, rot: int)
    requires 0 <= rot < p.rotNum
    ensures RotateTimes(p, rot, p.rotNum) == rot
  {
    var up := p.rotNum - 1 - rot;
    RotateTimesCounts(p, rot, up);
    assert RotateTimes(p, rot, up + 1) == 0;
    RotateTimesAdd(p, rot, up + 1, rot);
    RotateTimesCounts(p, 0, rot);
  }
}
