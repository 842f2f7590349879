/** The game as a state machine over values: the board, the colour to move, the selected
    piece with the moves highlighted for it, and the winner once the victory message is up.
    A click on a cell is the only input besides the restart button. */
module GameMachine {
  import opened BoardModel
  import opened MoveGenerator
  import opened TurnArbiter

  datatype State = State(
    board: Board,
    turn: Colour,
    selected: Option<Pos>,
    targets: seq<Move>,     // the highlighted cells, each with its capture cell if any
    winner: Option<Colour>) // the colour named in the victory message, once shown

  /** createBoard with white to move and nothing selected. */
  function Initial(): State {
    State(Opening(), White, None, [], None)
  }

  /** What every state the game can reach satisfies. */
  ghost predicate Consistent(s: State) {
    && OnDarkSquares(s.board)
    && Count(s.board, White) <= 12 && Count(s.board, Black) <= 12
    && (s.selected.None? ==> s.targets == [])
    && (s.selected.Some? ==>
          && InBounds(s.selected.value)
          && Holds(At(s.board, s.selected.value), s.turn)
          && s.targets == LegalMoves(s.board, s.selected.value))
    && (s.winner.Some? ==> s.winner == Some(Opponent(s.turn)) && Count(s.board, s.turn) == 0)
  }

  /** deselectPiece: no selection and no highlighted cell. */
  function Deselect(s: State): State {
    s.(selected := None, targets := [])
  }

  /** Selecting the piece at p highlights the moves showMoves computes for it. */
  function Select(s: State, p: Pos): State
    requires InBounds(p)
  {
    s.(selected := Some(p), targets := LegalMoves(s.board, p))
  }

  /** The highlighted move whose destination is p, if any. */
  function TargetAt(targets: seq<Move>, p: Pos): (r: Option<Move>)
    ensures r.Some? ==> r.value in targets && r.value.to == p
    ensures r.None? ==> forall m :: m in targets ==> m.to != p
  {
    if targets == [] then None
    else if targets[0].to == p then Some(targets[0])
    else TargetAt(targets[1..], p)
  }

  /** In a consistent state a clicked cell names at most one highlighted move, so looking the
      move up by its destination loses nothing. */
  lemma TargetAtUnique(s: State, p: Pos, m: Move)
    requires Consistent(s) && TargetAt(s.targets, p) == Some(m)
    ensures forall m' :: m' in s.targets && m'.to == p ==> m' == m
  {
    LegalDestinationsDistinct(s.board, s.selected.value);
    forall m' | m' in s.targets && m'.to == p
      ensures m' == m
    {
      var i :| 0 <= i < |s.targets| && s.targets[i] == m';
      var j :| 0 <= j < |s.targets| && s.targets[j] == m;
      assert i == j;
    }
  }

  /** The callback of movePiece: relocate, remove the jumped piece, promote; then either keep
      the same colour with the moved piece selected (a capture that can be continued) or pass
      the turn; after a removal, run the win check. */
  function Play(s: State, m: Move): State
    requires Consistent(s) && s.selected.Some? && m in s.targets
  {
    var from := s.selected.value;
    LegalMoveShape(s.board, from, m);
    var piece := At(s.board, from).value;
    var out := Execute(s.board, from, m);
    var chain := out.captured && AvailableMoves(out.board, m.to, Promote(piece, m.to.row)).hasCapture;
    var after :=
      if chain then s.(board := out.board, selected := Some(m.to), targets := LegalMoves(out.board, m.to))
      else s.(board := out.board, selected := None, targets := [], turn := Opponent(s.turn));
    var w := Decide(Count(out.board, White), Count(out.board, Black));
    after.(winner := if out.captured && w.Some? then w else s.winner)
  }

  /** The click handler: a piece of the colour to move is selected; an empty highlighted cell
      receives the selected piece; any other click clears the selection. */
  function Click(s: State, p: Pos): State
    requires Consistent(s) && InBounds(p)
  {
    if Holds(At(s.board, p), s.turn) then Select(s, p)
    else if At(s.board, p).None? && s.selected.Some? && TargetAt(s.targets, p).Some? then
      Play(s, TargetAt(s.targets, p).value)
    else Deselect(s)
  }

  datatype Event = ClickAt(cell: Pos) | RestartButton

  /** One input. The restart button exists only while the victory message is shown. */
  function Handle(s: State, e: Event): State
    requires Consistent(s) && (e.ClickAt? ==> InBounds(e.cell))
  {
    match e
    case ClickAt(p) => Click(s, p)
    case RestartButton => if s.winner.Some? then Initial() else s
  }

  // ---------------------------------------------------------------------------
  // Properties

  lemma InitialConsistent()
    ensures Consistent(Initial())
  {
    OpeningLayout();
    OpeningCount(White);
    OpeningCount(Black);
  }

  /** A move's effect on the board: the mover (promoted on its new row, so a king stays a king)
      stands on the destination, its old cell and the jumped cell are empty, no other cell
      changes; the mover's side keeps all its pieces and the other side loses exactly one
      piece on a capture and none on a simple move. */
  lemma PlayBoard(s: State, m: Move)
    requires Consistent(s) && s.selected.Some? && m in s.targets
    ensures var from, t := s.selected.value, Play(s, m);
      && At(t.board, m.to) == Some(Promote(At(s.board, from).value, m.to.row))
      && (At(s.board, from).value.king ==> At(t.board, m.to).value.king)
      && At(t.board, from).None?
      && (m.jumped.Some? ==> At(t.board, m.jumped.value).None?)
      && (forall k :: 0 <= k < 64 && k != Index(from) && k != Index(m.to)
                      && (m.jumped.None? || k != Index(m.jumped.value))
                      ==> t.board[k] == s.board[k])
      && Count(t.board, s.turn) == Count(s.board, s.turn)
      && Count(t.board, Opponent(s.turn)) == Count(s.board, Opponent(s.turn)) - (if m.jumped.Some? then 1 else 0)
  {
    var from := s.selected.value;
    LegalMoveShape(s.board, from, m);
    ExecuteCounts(s.board, from, m, s.turn);
    ExecuteCounts(s.board, from, m, Opponent(s.turn));
  }

  /** The turn rule: the same colour stays to move, with the moved piece selected, exactly when
      the move was a capture and the moved piece, with its rank after promotion, has another
      capture from where it landed; otherwise the turn passes and nothing is selected. */
  lemma PlayTurnRule(s: State, m: Move)
    requires Consistent(s) && s.selected.Some? && m in s.targets
    ensures var t := Play(s, m);
      && At(t.board, m.to).Some?
      && (t.turn == s.turn <==>
            m.jumped.Some? && exists m' :: IsJump(t.board, m.to, At(t.board, m.to).value, m'))
      && (t.turn == s.turn ==> t.selected == Some(m.to) && t.targets == LegalMoves(t.board, m.to))
      && (t.turn != s.turn ==> t.turn == Opponent(s.turn) && t.selected.None? && t.targets == [])
  {
    var from := s.selected.value;
    LegalMoveShape(s.board, from, m);
    var t := Play(s, m);
    AvailableMovesExactly(t.board, m.to, At(t.board, m.to).value);
  }

  /** The mover keeps at least one piece, the moved one. */
  lemma MoverSurvives(s: State, m: Move)
    requires Consistent(s) && s.selected.Some? && m in s.targets
    ensures Count(Play(s, m).board, s.turn) > 0
  {
    var from := s.selected.value;
    LegalMoveShape(s.board, from, m);
    var t := Play(s, m);
    CountPositive(t.board, Index(m.to), s.turn);
  }

  /** A capture somewhere means the other colour still has a piece. */
  lemma CaptureNeedsVictim(b: Board, from: Pos, p: Piece)
    requires AvailableMoves(b, from, p).hasCapture
    ensures Count(b, Opponent(p.colour)) > 0
  {
    AvailableMovesExactly(b, from, p);
    var m :| IsJump(b, from, p, m);
    CountPositive(b, Index(m.jumped.value), Opponent(p.colour));
  }

  /** The win check: the side that just moved is declared the winner exactly when the move was
      a capture that left the other side without pieces, and the side that did not move is
      never declared the winner by that move. */
  lemma PlayWinRule(s: State, m: Move)
    requires Consistent(s) && s.selected.Some? && m in s.targets
    ensures var t := Play(s, m);
      && (t.winner == Some(s.turn) <==> m.jumped.Some? && Count(t.board, Opponent(s.turn)) == 0)
      && t.winner != Some(Opponent(s.turn))
      && (t.winner.None? <==> !(m.jumped.Some? && Count(t.board, Opponent(s.turn)) == 0))
  {
    var from := s.selected.value;
    LegalMoveShape(s.board, from, m);
    MoverSurvives(s, m);
    CountPositive(s.board, Index(from), s.turn);
    assert PosOf(Index(from)) == from;
  }

  /** Every click keeps the invariant: pieces stay on dark squares, the selection is a piece of
      the colour to move with exactly its legal moves highlighted, and a declared winner faces an
      opponent to move who has no piece left. */
  lemma ClickConsistent(s: State, p: Pos)
    requires Consistent(s) && InBounds(p)
    ensures Consistent(Click(s, p))
  {
    if !Holds(At(s.board, p), s.turn) && At(s.board, p).None? && s.selected.Some? && TargetAt(s.targets, p).Some? {
      var m := TargetAt(s.targets, p).value;
      PlayConsistent(s, m);
    }
  }

  lemma PlayConsistent(s: State, m: Move)
    requires Consistent(s) && s.selected.Some? && m in s.targets
    ensures Consistent(Play(s, m))
  {
    var from := s.selected.value;
    LegalMoveShape(s.board, from, m);
    var piece := At(s.board, from).value;
    var out := Execute(s.board, from, m);
    var t := Play(s, m);
    // pieces stay on dark squares
    assert PosOf(Index(from)) == from;
    assert PosOf(Index(m.to)) == m.to;
    forall k | 0 <= k < 64 && t.board[k].Some?
      ensures Dark(PosOf(k))
    {
      if k != Index(m.to) {
        assert m.jumped.Some? ==> k != Index(m.jumped.value);
        assert t.board[k] == s.board[k];
      }
    }
    // no colour gains pieces
    PlayBoard(s, m);
    // the winner clause
    CountPositive(s.board, Index(from), s.turn);
    MoverSurvives(s, m);
    if t.turn == s.turn {
      CaptureNeedsVictim(out.board, m.to, Promote(piece, m.to.row));
    }
  }

  lemma HandleConsistent(s: State, e: Event)
    requires Consistent(s) && (e.ClickAt? ==> InBounds(e.cell))
    ensures Consistent(Handle(s, e))
  {
    match e
    case ClickAt(p) => ClickConsistent(s, p);
    case RestartButton => InitialConsistent();
  }

  /** Every sequence of inputs from a consistent state stays consistent. */
  function Run(s: State, events: seq<Event>): (t: State)
    requires Consistent(s)
    requires forall i :: 0 <= i < |events| ==> (events[i].ClickAt? ==> InBounds(events[i].cell))
    ensures Consistent(t)
    decreases |events|
  {
    if events == [] then s
    else
      HandleConsistent(s, events[0]);
      Run(Handle(s, events[0]), events[1..])
  }

  /** The state after a sequence of inputs from a new game: hence every reachable board keeps
      its pieces on the dark squares. */
  function Replay(events: seq<Event>): (t: State)
    requires forall i :: 0 <= i < |events| ==> (events[i].ClickAt? ==> InBounds(events[i].cell))
    ensures Consistent(t) && OnDarkSquares(t.board)
  {
    InitialConsistent();
    Run(Initial(), events)
  }

  /** Once a winner is declared, no click changes the board or the verdict: the side to move
      has no piece to select and nothing is highlighted. */
  lemma GameOverAbsorbing(s: State, p: Pos)
    requires Consistent(s) && InBounds(p) && s.winner.Some?
    ensures Click(s, p) == Deselect(s)
    ensures Click(s, p) == s
  {
    if Holds(At(s.board, p), s.turn) {
      CountPositive(s.board, Index(p), s.turn);
    }
    if s.selected.Some? {
      CountPositive(s.board, Index(s.selected.value), s.turn);
    }
  }

  /** The turn guard: a click on a piece of the other colour never selects it or moves anything. */
  lemma ClickOpponentPiece(s: State, p: Pos)
    requires Consistent(s) && InBounds(p) && Holds(At(s.board, p), Opponent(s.turn))
    ensures Click(s, p) == Deselect(s)
  {
  }

  /** The rejected move: a click that does not select a piece of the colour to move and does
      not name a highlighted move of the selected piece only clears the selection. */
  lemma ClickElsewhere(s: State, p: Pos)
    requires Consistent(s) && InBounds(p) && !Holds(At(s.board, p), s.turn)
    requires At(s.board, p).Some? || s.selected.None? || TargetAt(s.targets, p).None?
    ensures Click(s, p) == Deselect(s)
    ensures Click(s, p).selected.None? && Click(s, p).targets == []
    ensures Click(s, p).board == s.board && Click(s, p).turn == s.turn && Click(s, p).winner == s.winner
  {
  }

  /** A click on a highlighted cell while a piece is selected plays the move that lands there. */
  lemma ClickMoves(s: State, p: Pos)
    requires Consistent(s) && InBounds(p) && s.selected.Some? && TargetAt(s.targets, p).Some?
    ensures Click(s, p) == Play(s, TargetAt(s.targets, p).value)
  {
    LegalMoveShape(s.board, s.selected.value, TargetAt(s.targets, p).value);
  }

  /** Nothing locks the other pieces during a capture chain: clicking any piece of the colour
      to move selects it, with the moves the mandatory-capture rule leaves it. */
  lemma ClickOwnPiece(s: State, p: Pos)
    requires Consistent(s) && InBounds(p) && Holds(At(s.board, p), s.turn)
    ensures Click(s, p).selected == Some(p)
    ensures forall m :: m in Click(s, p).targets <==>
      if PlayerCanCapture(s.board, s.turn) then IsJump(s.board, p, At(s.board, p).value, m)
      else IsStep(s.board, p, At(s.board, p).value, m)
    ensures Click(s, p).board == s.board && Click(s, p).turn == s.turn
  {
    forall m ensures m in LegalMoves(s.board, p) <==>
      if PlayerCanCapture(s.board, s.turn) then IsJump(s.board, p, At(s.board, p).value, m)
      else IsStep(s.board, p, At(s.board, p).value, m)
    {
      LegalMovesExactly(s.board, p, At(s.board, p).value, m);
    }
  }
}
