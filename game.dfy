/** The engine as the page runs it: the board is an array of 64 cells changed in place, and
    the colour to move, the selection, the highlighted moves and the winner are fields changed
    by the click handler. Each operation is proved against the value model in GameMachine. */
module Checkers {
  import opened BoardModel
  import opened MoveGenerator
  import opened TurnArbiter
  import GameMachine

  /** getAvailableMoves: scan the piece's directions, collecting simple moves and captures;
      report the captures if there are any, otherwise the simple moves. */
  method GetAvailableMoves(grid: array<Cell>, from: Pos, piece: Piece) returns (moves: seq<Move>, hasCapture: bool)
    requires grid.Length == 64
    ensures Options(moves, hasCapture) == AvailableMoves(grid[..], from, piece)
  {
    var directions := Directions(piece);
    var simple: seq<Move> := [];
    var captures: seq<Move> := [];
    for i := 0 to |directions|
      invariant simple == Simple(grid[..], from, directions[..i])
      invariant captures == Jumps(grid[..], from, piece.colour, directions[..i])
    {
      assert directions[..i + 1][..i] == directions[..i];
      var d := directions[i];
      var next := Shift(from, d);
      if !InBounds(next) {
        continue;
      }
      var target := grid[Index(next)];
      if target.None? {
        simple := simple + [Move(next, None)];
      } else if target.value.colour != piece.colour {
        var land := Shift(next, d);
        if InBounds(land) && grid[Index(land)].None? {
          captures := captures + [Move(land, Some(next))];
        }
      }
    }
    assert directions[..|directions|] == directions;
    if |captures| > 0 {
      moves, hasCapture := captures, true;
    } else {
      moves, hasCapture := simple, false;
    }
  }

  /** playerHasCaptures: look at the pieces of the colour in board order and stop at the first
      one that has a capture. */
  method PlayerHasCaptures(grid: array<Cell>, colour: Colour) returns (found: bool)
    requires grid.Length == 64
    ensures found == PlayerCanCapture(grid[..], colour)
  {
    for k := 0 to 64
      invariant forall j :: 0 <= j < k ==> !CapturerAt(grid[..], j, colour)
    {
      var cell := grid[k];
      if cell.Some? && cell.value.colour == colour {
        var _, has := GetAvailableMoves(grid, PosOf(k), cell.value);
        if has {
          assert CapturerAt(grid[..], k, colour);
          return true;
        }
      }
    }
    return false;
  }

  /** showMoves: the moves to highlight for the piece at `from`, none when its colour must
      capture and it cannot. */
  method ShowMoves(grid: array<Cell>, from: Pos) returns (moves: seq<Move>)
    requires grid.Length == 64 && InBounds(from) && grid[Index(from)].Some?
    ensures moves == LegalMoves(grid[..], from)
  {
    var piece := grid[Index(from)].value;
    var mustCapture := PlayerHasCaptures(grid, piece.colour);
    var available, hasCapture := GetAvailableMoves(grid, from, piece);
    if mustCapture && !hasCapture {
      return [];
    }
    moves := available;
  }

  /** The number of pieces of a colour on the board. */
  method CountPieces(grid: array<Cell>, colour: Colour) returns (n: nat)
    requires grid.Length == 64
    ensures n == Count(grid[..], colour)
  {
    n := 0;
    for k := 0 to 64
      invariant n == Count(grid[..k], colour)
    {
      assert grid[..k + 1][..k] == grid[..k];
      if grid[k].Some? && grid[k].value.colour == colour {
        n := n + 1;
      }
    }
    assert grid[..64] == grid[..];
  }

  class Game {
    var grid: array<Cell>
    var turn: Colour
    var selected: Option<Pos>
    var targets: seq<Move>
    var winner: Option<Colour>

    /** The value this object stands for. */
    ghost function Snapshot(): GameMachine.State
      reads this, grid
      requires grid.Length == 64
    {
      GameMachine.State(grid[..], turn, selected, targets, winner)
    }

    ghost predicate Valid()
      reads this, grid
    {
      grid.Length == 64 && GameMachine.Consistent(Snapshot())
    }

    /** Page load: build the opening layout, white to move. */
    constructor ()
      ensures Valid() && fresh(grid)
      ensures Snapshot() == GameMachine.Initial()
    {
      grid := new Cell[64](_ => None);
      turn, selected, targets, winner := White, None, [], None;
      new;
      CreateBoard();
      GameMachine.InitialConsistent();
    }

    /** createBoard: black men on the dark squares of rows 0-2, white men on those of rows 5-7,
        every other cell empty. */
    method CreateBoard()
      requires grid.Length == 64
      modifies grid
      ensures grid[..] == Opening()
    {
      for i := 0 to 8
        invariant forall k :: 0 <= k < 8 * i ==> grid[k] == OpeningCell(PosOf(k))
      {
        for j := 0 to 8
          invariant forall k :: 0 <= k < 8 * i + j ==> grid[k] == OpeningCell(PosOf(k))
        {
          var p := Pos(i, j);
          if i < 3 && (i + j) % 2 != 0 {
            grid[Index(p)] := Some(Piece(Black, false));
          } else if i > 4 && (i + j) % 2 != 0 {
            grid[Index(p)] := Some(Piece(White, false));
          } else {
            grid[Index(p)] := None;
          }
        }
      }
    }

    /** deselectPiece: forget the selection and the highlighted cells. */
    method DeselectPiece()
      modifies this`selected, this`targets
      ensures selected.None? && targets == []
    {
      selected := None;
      targets := [];
    }

    /** removePiece: the captured piece leaves its cell. */
    method RemovePiece(p: Pos)
      requires grid.Length == 64 && InBounds(p)
      modifies grid
      ensures grid[..] == old(grid[..])[Index(p) := None]
    {
      grid[Index(p)] := None;
    }

    /** checkKing: the piece at p is crowned when it stands on the far row for its colour. */
    method CheckKing(p: Pos)
      requires grid.Length == 64 && InBounds(p) && grid[Index(p)].Some?
      modifies grid
      ensures grid[..] == old(grid[..])[Index(p) := Some(Promote(old(grid[Index(p)]).value, p.row))]
    {
      var piece := grid[Index(p)].value;
      if piece.colour == White && p.row == 0 {
        grid[Index(p)] := Some(piece.(king := true));
      }
      if piece.colour == Black && p.row == 7 {
        grid[Index(p)] := Some(piece.(king := true));
      }
      assert grid[..] == old(grid[..])[Index(p) := Some(Promote(piece, p.row))];
    }

    /** checkWin: count both colours and show the victory message when one of them is gone. */
    method CheckWin()
      requires grid.Length == 64
      modifies this`winner
      ensures var w := Decide(Count(grid[..], White), Count(grid[..], Black));
        winner == if w.Some? then w else old(winner)
    {
      var whites := CountPieces(grid, White);
      var blacks := CountPieces(grid, Black);
      if whites == 0 {
        winner := Some(Black);
      } else if blacks == 0 {
        winner := Some(White);
      }
    }

    /** movePiece and its callback: relocate the selected piece, remove the jumped piece, crown,
        then continue the capture chain or pass the turn, and run the win check after a removal. */
    method MovePiece(m: Move)
      requires Valid() && selected.Some? && m in targets
      modifies this, grid
      ensures grid == old(grid) && Valid()
      ensures Snapshot() == GameMachine.Play(old(Snapshot()), m)
    {
      ghost var s := Snapshot();
      var from := selected.value;
      LegalMoveShape(grid[..], from, m);
      var piece := grid[Index(from)].value;
      grid[Index(m.to)] := Some(piece);
      grid[Index(from)] := None;
      var captured := false;
      if m.jumped.Some? {
        var c := m.jumped.value;
        if grid[Index(c)].Some? {
          RemovePiece(c);
          captured := true;
        }
      }
      CheckKing(m.to);
      ghost var out := Execute(s.board, from, m);
      assert grid[..] == out.board && captured == out.captured;
      targets := [];
      var chain := false;
      if captured {
        var _, hasCapture := GetAvailableMoves(grid, m.to, grid[Index(m.to)].value);
        chain := hasCapture;
      }
      if chain {
        selected := Some(m.to);
        targets := ShowMoves(grid, m.to);
      } else {
        DeselectPiece();
        turn := Opponent(turn);
      }
      if captured {
        CheckWin();
      }
      GameMachine.PlayConsistent(s, m);
    }

    /** The click handler on the board. */
    method HandleClick(p: Pos)
      requires Valid() && InBounds(p)
      modifies this, grid
      ensures grid == old(grid) && Valid()
      ensures Snapshot() == GameMachine.Click(old(Snapshot()), p)
    {
      ghost var s := Snapshot();
      var cell := grid[Index(p)];
      if cell.Some? && cell.value.colour == turn {
        DeselectPiece();
        selected := Some(p);
        targets := ShowMoves(grid, p);
        GameMachine.ClickConsistent(s, p);
        return;
      }
      var target := GameMachine.TargetAt(targets, p);
      if cell.None? && selected.Some? && target.Some? {
        MovePiece(target.value);
        return;
      }
      DeselectPiece();
      GameMachine.ClickConsistent(s, p);
    }

    /** The restart button of the victory message: opening layout, white to move. */
    method Restart()
      requires Valid() && winner.Some?
      modifies this, grid
      ensures grid == old(grid) && Valid()
      ensures Snapshot() == GameMachine.Initial()
    {
      winner := None;
      turn := White;
      selected := None;
      targets := [];
      CreateBoard();
      GameMachine.InitialConsistent();
    }
  }
}
