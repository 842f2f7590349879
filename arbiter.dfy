/** The rules that act on the whole board: the mandatory-capture filter, promotion,
    applying a chosen move, and the piece-count win decision. */
module TurnArbiter {
  import opened BoardModel
  import opened MoveGenerator

  /** The piece in cell k belongs to colour c and has a capture. */
  predicate CapturerAt(b: Board, k: int, c: Colour)
    requires 0 <= k < 64
  {
    Holds(b[k], c) && AvailableMoves(b, PosOf(k), b[k].value).hasCapture
  }

  /** playerHasCaptures: some piece of colour c has a capture. */
  predicate PlayerCanCapture(b: Board, c: Colour) {
    exists k :: 0 <= k < 64 && CapturerAt(b, k, c)
  }

  /** The moves showMoves highlights for the piece at `from` (none for an empty cell). */
  function LegalMoves(b: Board, from: Pos): seq<Move>
    requires InBounds(from)
  {
    match At(b, from)
    case None => []
    case Some(p) =>
      var o := AvailableMoves(b, from, p);
      if PlayerCanCapture(b, p.colour) && !o.hasCapture then [] else o.moves
  }

  /** Mandatory capture: when any piece of the mover's colour can capture, the legal moves of
      each piece are exactly its captures (none at all for a piece without one); otherwise
      they are exactly its simple moves. */
  lemma LegalMovesExactly(b: Board, from: Pos, p: Piece, m: Move)
    requires InBounds(from) && At(b, from) == Some(p)
    ensures m in LegalMoves(b, from) <==>
      if PlayerCanCapture(b, p.colour) then IsJump(b, from, p, m) else IsStep(b, from, p, m)
  {
    AvailableMovesExactly(b, from, p);
    if !PlayerCanCapture(b, p.colour) {
      assert !CapturerAt(b, Index(from), p.colour);
      assert PosOf(Index(from)) == from;
    }
  }

  /** A piece without a capture of its own, whose side can capture elsewhere, gets no moves. */
  lemma MandatoryCaptureLockout(b: Board, from: Pos, p: Piece)
    requires InBounds(from) && At(b, from) == Some(p)
    requires PlayerCanCapture(b, p.colour) && forall m :: !IsJump(b, from, p, m)
    ensures LegalMoves(b, from) == []
  {
    AvailableMovesExactly(b, from, p);
  }

  /** Every legal move is one that getAvailableMoves offers, with the geometry proved there. */
  lemma LegalMoveShape(b: Board, from: Pos, m: Move)
    requires InBounds(from) && m in LegalMoves(b, from)
    ensures At(b, from).Some? && m in AvailableMoves(b, from, At(b, from).value).moves
    ensures InBounds(m.to) && At(b, m.to).None? && m.to != from
    ensures Dark(m.to) <==> Dark(from)
    ensures m.jumped.Some? ==>
      && InBounds(m.jumped.value)
      && m.jumped.value != from && m.jumped.value != m.to
      && Holds(At(b, m.jumped.value), Opponent(At(b, from).value.colour))
  {
    AvailableMoveGeometry(b, from, At(b, from).value, m);
  }

  /** The highlighted cells of one piece name distinct moves. */
  lemma LegalDestinationsDistinct(b: Board, from: Pos)
    requires InBounds(from)
    ensures DistinctDestinations(LegalMoves(b, from))
  {
    if At(b, from).Some? {
      AvailableDestinationsDistinct(b, from, At(b, from).value);
    }
  }

  /** checkKing: a white piece on row 0 or a black piece on row 7 becomes a king. */
  function Promote(p: Piece, row: int): (q: Piece)
    ensures q.colour == p.colour
    ensures q.king <==> p.king || (p.colour == White && row == 0) || (p.colour == Black && row == 7)
  {
    if (p.colour == White && row == 0) || (p.colour == Black && row == 7) then p.(king := true) else p
  }

  /** Promotion never demotes, and applying it twice is applying it once. */
  lemma PromoteMonotoneIdempotent(p: Piece, row: int)
    ensures p.king ==> Promote(p, row) == p
    ensures Promote(Promote(p, row), row) == Promote(p, row)
  {
  }

  /** The board after a move, and whether a piece was actually removed. */
  datatype Outcome = Outcome(board: Board, captured: bool)

  /** The board part of movePiece: the mover goes to m.to, the jumped cell is cleared if it
      holds a piece, and the mover is promoted on its new row. */
  function Execute(b: Board, from: Pos, m: Move): (r: Outcome)
    requires InBounds(from) && At(b, from).Some? && InBounds(m.to) && m.to != from
    requires m.jumped.Some? ==> InBounds(m.jumped.value) && m.jumped.value != from && m.jumped.value != m.to
    ensures At(r.board, m.to) == Some(Promote(At(b, from).value, m.to.row))
    ensures At(r.board, from).None?
    ensures r.captured <==> m.jumped.Some? && At(b, m.jumped.value).Some?
    ensures m.jumped.Some? ==> At(r.board, m.jumped.value).None?
    ensures forall k :: 0 <= k < 64 && k != Index(from) && k != Index(m.to)
                        && (m.jumped.None? || k != Index(m.jumped.value))
                        ==> r.board[k] == b[k]
  {
    var piece := At(b, from).value;
    var moved := b[Index(m.to) := Some(piece)][Index(from) := None];
    var captured := m.jumped.Some? && At(moved, m.jumped.value).Some?;
    var cleared := if captured then moved[Index(m.jumped.value) := None] else moved;
    Outcome(cleared[Index(m.to) := Some(Promote(piece, m.to.row))], captured)
  }

  /** Moving onto an empty cell keeps the mover's count; a capture takes exactly one piece
      from the colour of the removed piece; so no count ever grows. */
  lemma ExecuteCounts(b: Board, from: Pos, m: Move, c: Colour)
    requires InBounds(from) && At(b, from).Some? && InBounds(m.to) && m.to != from
    requires m.jumped.Some? ==> InBounds(m.jumped.value) && m.jumped.value != from && m.jumped.value != m.to
    requires At(b, m.to).None?
    ensures var r := Execute(b, from, m);
      Count(r.board, c) == Count(b, c) - (if r.captured && Holds(At(b, m.jumped.value), c) then 1 else 0)
    ensures Count(Execute(b, from, m).board, c) <= Count(b, c)
  {
    var piece := At(b, from).value;
    var b1 := b[Index(m.to) := Some(piece)];
    var b2 := b1[Index(from) := None];
    CountUpdate(b, Index(m.to), Some(piece), c);
    CountUpdate(b1, Index(from), None, c);
    var captured := m.jumped.Some? && At(b2, m.jumped.value).Some?;
    var b3 := if captured then b2[Index(m.jumped.value) := None] else b2;
    if captured {
      CountUpdate(b2, Index(m.jumped.value), None, c);
    }
    CountUpdate(b3, Index(m.to), Some(Promote(piece, m.to.row)), c);
  }

  /** checkWin's decision: black wins when white has no piece, else white wins when black has
      none, else play goes on. */
  function Decide(whites: nat, blacks: nat): (w: Option<Colour>)
    ensures w == Some(Black) <==> whites == 0
    ensures w == Some(White) <==> whites > 0 && blacks == 0
    ensures w.None? <==> whites > 0 && blacks > 0
  {
    if whites == 0 then Some(Black) else if blacks == 0 then Some(White) else None
  }
}
