/** The board: an 8x8 grid of cells, each empty or holding one piece.
    Cells are stored row by row, so cell (row, col) is element 8*row + col. */
module BoardModel {

  datatype Option<+T> = None | Some(value: T)

  datatype Colour = White | Black

  function Opponent(c: Colour): (o: Colour)
    ensures o != c
  {
    if c == White then Black else White
  }

  /** A piece is its colour and whether it carries the "king" class. */
  datatype Piece = Piece(colour: Colour, king: bool)

  type Cell = Option<Piece>

  datatype Pos = Pos(row: int, col: int)

  predicate InBounds(p: Pos) {
    0 <= p.row <= 7 && 0 <= p.col <= 7
  }

  /** The dark squares, the only ones that are ever occupied: (row + col) odd. */
  predicate Dark(p: Pos) {
    (p.row + p.col) % 2 == 1
  }

  function Index(p: Pos): (k: nat)
    requires InBounds(p)
    ensures k < 64 && k / 8 == p.row && k % 8 == p.col
  {
    8 * p.row + p.col
  }

  function PosOf(k: int): (p: Pos)
    requires 0 <= k < 64
    ensures InBounds(p) && Index(p) == k
  {
    Pos(k / 8, k % 8)
  }

  lemma IndexInjective(p: Pos, q: Pos)
    requires InBounds(p) && InBounds(q)
    ensures Index(p) == Index(q) <==> p == q
  {
  }

  type Board = b: seq<Cell> | |b| == 64 witness seq(64, _ => None)

  function At(b: Board, p: Pos): Cell
    requires InBounds(p)
  {
    b[Index(p)]
  }

  predicate Holds(cell: Cell, c: Colour) {
    cell.Some? && cell.value.colour == c
  }

  /** Every occupied cell is a dark square. */
  ghost predicate OnDarkSquares(b: Board) {
    forall k :: 0 <= k < 64 && b[k].Some? ==> Dark(PosOf(k))
  }

  /** Opening layout: black men on the dark squares of rows 0-2, white men on those of rows 5-7. */
  function OpeningCell(p: Pos): Cell {
    if p.row < 3 && (p.row + p.col) % 2 != 0 then Some(Piece(Black, false))
    else if p.row > 4 && (p.row + p.col) % 2 != 0 then Some(Piece(White, false))
    else None
  }

  function Opening(): (b: Board)
    ensures forall k :: 0 <= k < 64 ==> b[k] == OpeningCell(PosOf(k))
  {
    seq(64, k requires 0 <= k < 64 => OpeningCell(PosOf(k)))
  }

  lemma OpeningLayout()
    ensures OnDarkSquares(Opening())
    ensures forall p :: InBounds(p) && 3 <= p.row <= 4 ==> At(Opening(), p).None?
    ensures forall p :: InBounds(p) && Dark(p) && p.row < 3 ==> At(Opening(), p) == Some(Piece(Black, false))
    ensures forall p :: InBounds(p) && Dark(p) && p.row > 4 ==> At(Opening(), p) == Some(Piece(White, false))
    ensures forall p :: InBounds(p) && !Dark(p) ==> At(Opening(), p).None?
  {
    forall p | InBounds(p)
      ensures At(Opening(), p) == OpeningCell(p)
    {
      assert PosOf(Index(p)) == p;
    }
  }

  /** Number of pieces of colour c among the cells (the length of querySelectorAll(".piece.c")). */
  function Count(cells: seq<Cell>, c: Colour): nat
  {
    if cells == [] then 0
    else Count(cells[..|cells| - 1], c) + (if Holds(cells[|cells| - 1], c) then 1 else 0)
  }

  /** Overwriting one cell changes the count only by what left and what arrived. */
  lemma {:induction false} CountUpdate(cells: seq<Cell>, k: int, x: Cell, c: Colour)
    requires 0 <= k < |cells|
    ensures Count(cells[k := x], c) + (if Holds(cells[k], c) then 1 else 0)
         == Count(cells, c) + (if Holds(x, c) then 1 else 0)
  {
    var n := |cells|;
    var u := cells[k := x];
    if k == n - 1 {
      assert u[..n - 1] == cells[..n - 1];
    } else {
      assert u[..n - 1] == cells[..n - 1][k := x];
      CountUpdate(cells[..n - 1], k, x, c);
    }
  }

  /** A colour with no piece anywhere has a zero count. */
  lemma {:induction false} CountZero(cells: seq<Cell>, c: Colour)
    requires forall k :: 0 <= k < |cells| ==> !Holds(cells[k], c)
    ensures Count(cells, c) == 0
  {
    if cells != [] {
      var n := |cells|;
      assert forall k :: 0 <= k < n - 1 ==> cells[..n - 1][k] == cells[k];
      CountZero(cells[..n - 1], c);
    }
  }

  /** A colour with a piece somewhere has a positive count. */
  lemma {:induction false} CountPositive(cells: seq<Cell>, k: int, c: Colour)
    requires 0 <= k < |cells| && Holds(cells[k], c)
    ensures Count(cells, c) > 0
  {
    var n := |cells|;
    if k < n - 1 {
      assert cells[..n - 1][k] == cells[k];
      CountPositive(cells[..n - 1], k, c);
    }
  }
  lemma {:induction false} CountAppend(a: seq<Cell>, b: seq<Cell>, c: Colour)
    ensures Count(a + b, c) == Count(a, c) + Count(b, c)
  {
    if b == [] {
      assert a + b == a;
    } else {
      assert (a + b)[..|a + b| - 1] == a + b[..|b| - 1];
      CountAppend(a, b[..|b| - 1], c);
    }
  }

  /** A row whose cells of one parity hold colour c, and only those, has four pieces of c. */
  lemma CountRow(row: seq<Cell>, c: Colour, parity: int)
    requires |row| == 8 && (parity == 0 || parity == 1)
    requires forall j :: 0 <= j < 8 ==> (Holds(row[j], c) <==> j % 2 == parity)
    ensures Count(row, c) == 4
  {
    assert row[..8] == row;
    assert row[..8][..7] == row[..7];
    assert row[..7][..6] == row[..6];
    assert row[..6][..5] == row[..5];
    assert row[..5][..4] == row[..4];
    assert row[..4][..3] == row[..3];
    assert row[..3][..2] == row[..2];
    assert row[..2][..1] == row[..1];
    assert row[..1][..0] == row[..0];
    if parity == 0 {
      assert Count(row[..1], c) == 1;
      assert Count(row[..2], c) == 1;
      assert Count(row[..3], c) == 2;
      assert Count(row[..4], c) == 2;
      assert Count(row[..5], c) == 3;
      assert Count(row[..6], c) == 3;
      assert Count(row[..7], c) == 4;
      assert Count(row[..8], c) == 4;
    } else {
      assert Count(row[..1], c) == 0;
      assert Count(row[..2], c) == 1;
      assert Count(row[..3], c) == 1;
      assert Count(row[..4], c) == 2;
      assert Count(row[..5], c) == 2;
      assert Count(row[..6], c) == 3;
      assert Count(row[..7], c) == 3;
      assert Count(row[..8], c) == 4;
    }
  }

  /** How many of the rows below n start with men of colour c. */
  function RowsOf(c: Colour, n: nat): nat {
    if c == Black then (if n < 3 then n else 3) else (if n < 5 then 0 else n - 5)
  }

  lemma ParityOfSum(r: int, j: int)
    requires 0 <= r < 8 && 0 <= j < 8
    ensures (r + j) % 2 != 0 <==> j % 2 == (if r % 2 == 1 then 0 else 1)
  {
  }

  /** Row r of the opening layout, cell by cell. */
  lemma OpeningRow(r: int)
    requires 0 <= r < 8
    ensures 8 * r + 8 <= 64
    ensures forall j :: 0 <= j < 8 ==> Opening()[8 * r + j] == OpeningCell(Pos(r, j))
  {
    forall j | 0 <= j < 8
      ensures Opening()[8 * r + j] == OpeningCell(Pos(r, j))
    {
      var p := Pos(r, j);
      assert Index(p) == 8 * r + j;
      IndexInjective(PosOf(Index(p)), p);
    }
  }

  /** The pieces of colour c in row r of the opening layout. */
  lemma OpeningRowCount(r: int, c: Colour)
    requires 0 <= r < 8
    ensures 8 * r + 8 <= 64
    ensures Count(Opening()[8 * r..8 * r + 8], c) == if (c == Black && r < 3) || (c == White && r > 4) then 4 else 0
  {
    OpeningRow(r);
    var row := Opening()[8 * r..8 * r + 8];
    var mine := (c == Black && r < 3) || (c == White && r > 4);
    var parity := if r % 2 == 1 then 0 else 1;
    forall j | 0 <= j < 8
      ensures Holds(row[j], c) <==> mine && j % 2 == parity
    {
      assert row[j] == OpeningCell(Pos(r, j));
      ParityOfSum(r, j);
    }
    if mine {
      CountRow(row, c, parity);
    } else {
      CountZero(row, c);
    }
  }

  /** The rows of the opening layout below n hold four men of c for each row of c. */
  lemma {:induction false} OpeningRowsCount(c: Colour, n: nat)
    requires n <= 8
    ensures Count(Opening()[..8 * n], c) == 4 * RowsOf(c, n)
  {
    var o := Opening();
    if n == 0 {
      assert o[..0] == [];
    } else {
      OpeningRowsCount(c, n - 1);
      OpeningRowCount(n - 1, c);
      var row := o[8 * (n - 1)..8 * n];
      assert o[..8 * n] == o[..8 * (n - 1)] + row;
      CountAppend(o[..8 * (n - 1)], row, c);
    }
  }

  /** Each side starts with twelve men. */
  lemma OpeningCount(c: Colour)
    ensures Count(Opening(), c) == 12
  {
    OpeningRowsCount(c, 8);
    assert Opening()[..64] == Opening();
  }
}
