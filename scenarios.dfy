/** Concrete positions worked through the rules. */
module Scenarios {
  import opened BoardModel
  import opened MoveGenerator
  import opened TurnArbiter
  import opened GameMachine

  const WhiteMan := Piece(White, false)
  const BlackMan := Piece(Black, false)

  /** The opening layout with the black man of (2,1) moved on to (4,1). */
  function OpeningWithAdvancedBlack(): Board {
    Opening()[Index(Pos(2, 1)) := None][Index(Pos(4, 1)) := Some(BlackMan)]
  }

  /** Moving that man keeps twelve men on each side. */
  lemma AdvancedBlackCounts()
    ensures Count(OpeningWithAdvancedBlack(), White) == 12
    ensures Count(OpeningWithAdvancedBlack(), Black) == 12
  {
    OpeningLayout();
    OpeningCount(White);
    OpeningCount(Black);
    var o := Opening();
    assert o[Index(Pos(2, 1))] == Some(BlackMan);
    assert o[Index(Pos(4, 1))].None?;
    var o1 := o[Index(Pos(2, 1)) := None];
    CountUpdate(o, Index(Pos(2, 1)), None, White);
    CountUpdate(o, Index(Pos(2, 1)), None, Black);
    CountUpdate(o1, Index(Pos(4, 1)), Some(BlackMan), White);
    CountUpdate(o1, Index(Pos(4, 1)), Some(BlackMan), Black);
  }

  /** The white man at (5,0), facing the black man at (4,1) with (3,2) empty behind it, has
      exactly one legal move: the capture landing on (3,2). */
  lemma OpeningCapture()
    ensures LegalMoves(OpeningWithAdvancedBlack(), Pos(5, 0)) == [Move(Pos(3, 2), Some(Pos(4, 1)))]
  {
    var b := OpeningWithAdvancedBlack();
    assert At(b, Pos(5, 0)) == Some(WhiteMan);
    assert At(b, Pos(4, 1)) == Some(BlackMan);
    assert At(b, Pos(3, 2)).None?;
    var ds := Directions(WhiteMan);
    assert ds == [Dir(-1, -1), Dir(-1, 1)];
    assert ds[..1] == [Dir(-1, -1)] && ds[..1][..0] == [];
    assert JumpAlong(b, Pos(5, 0), White, Dir(-1, -1)).None?;
    assert JumpAlong(b, Pos(5, 0), White, Dir(-1, 1)) == Some(Move(Pos(3, 2), Some(Pos(4, 1))));
    assert Jumps(b, Pos(5, 0), White, ds[..1]) == [];
    assert Jumps(b, Pos(5, 0), White, ds) == [Move(Pos(3, 2), Some(Pos(4, 1)))];
    assert CapturerAt(b, Index(Pos(5, 0)), White);
  }

  /** Mandatory capture lockout: in that position the white man at (5,4), which could step to
      (4,3) or (4,5), gets no move at all because its side has a capture elsewhere. */
  lemma OpeningLockout()
    ensures LegalMoves(OpeningWithAdvancedBlack(), Pos(5, 4)) == []
  {
    var b := OpeningWithAdvancedBlack();
    assert At(b, Pos(5, 4)) == Some(WhiteMan);
    assert At(b, Pos(4, 3)).None? && At(b, Pos(4, 5)).None?;
    OpeningCapture();
    var ds := Directions(WhiteMan);
    assert ds == [Dir(-1, -1), Dir(-1, 1)];
    assert ds[..1] == [Dir(-1, -1)] && ds[..1][..0] == [];
    assert JumpAlong(b, Pos(5, 4), White, Dir(-1, -1)).None?;
    assert JumpAlong(b, Pos(5, 4), White, Dir(-1, 1)).None?;
    assert Jumps(b, Pos(5, 4), White, ds[..1]) == [];
    assert Jumps(b, Pos(5, 4), White, ds) == [];
    assert CapturerAt(b, Index(Pos(5, 0)), White);
  }
  /** A white man on (2,3) and the last black man on (1,2), everything else empty. */
  function Endgame(): Board {
    seq(64, _ => None)[Index(Pos(2, 3)) := Some(WhiteMan)][Index(Pos(1, 2)) := Some(BlackMan)]
  }

  const FinalCapture := Move(Pos(0, 1), Some(Pos(1, 2)))

  /** White to move with the man on (2,3) selected and its one capture highlighted. */
  function EndgameState(): State {
    State(Endgame(), White, Some(Pos(2, 3)), [FinalCapture], None)
  }

  lemma EndgameLegal()
    ensures LegalMoves(Endgame(), Pos(2, 3)) == [FinalCapture]
  {
    var b := Endgame();
    var from := Pos(2, 3);
    assert At(b, from) == Some(WhiteMan);
    assert At(b, Pos(1, 2)) == Some(BlackMan);
    assert At(b, Pos(1, 4)).None? && At(b, Pos(0, 1)).None?;
    var ds := Directions(WhiteMan);
    assert ds == [Dir(-1, -1), Dir(-1, 1)];
    assert ds[..1] == [Dir(-1, -1)] && ds[..1][..0] == [];
    assert JumpAlong(b, from, White, Dir(-1, -1)) == Some(FinalCapture);
    assert JumpAlong(b, from, White, Dir(-1, 1)).None?;
    assert Jumps(b, from, White, ds[..1]) == [FinalCapture];
    assert Jumps(b, from, White, ds) == [FinalCapture];
    assert CapturerAt(b, Index(from), White);
  }

  lemma EndgameCounts()
    ensures Count(Endgame(), White) == 1 && Count(Endgame(), Black) == 1
  {
    var empty: Board := seq(64, _ => None);
    CountZero(empty, White);
    CountZero(empty, Black);
    CountUpdate(empty, Index(Pos(2, 3)), Some(WhiteMan), White);
    CountUpdate(empty, Index(Pos(2, 3)), Some(WhiteMan), Black);
    var half := empty[Index(Pos(2, 3)) := Some(WhiteMan)];
    CountUpdate(half, Index(Pos(1, 2)), Some(BlackMan), White);
    CountUpdate(half, Index(Pos(1, 2)), Some(BlackMan), Black);
  }

  lemma EndgameOnDarkSquares()
    ensures OnDarkSquares(Endgame())
  {
    var b := Endgame();
    forall k | 0 <= k < 64 && b[k].Some?
      ensures Dark(PosOf(k))
    {
      assert k == Index(Pos(2, 3)) || k == Index(Pos(1, 2));
    }
  }

  lemma EndgameConsistent()
    ensures Consistent(EndgameState())
  {
    EndgameCounts();
    EndgameOnDarkSquares();
    EndgameLegal();
    assert At(Endgame(), Pos(2, 3)) == Some(WhiteMan);
  }

  /** The last black man is taken: the white man lands on row 0 and is crowned, black has no
      piece left so white is declared the winner, and, with nothing left to capture, the turn
      passes to black. */
  lemma LastCaptureWins()
    ensures Consistent(EndgameState())
    ensures var t := Play(EndgameState(), FinalCapture);
      && At(t.board, Pos(0, 1)) == Some(Piece(White, true))
      && Count(t.board, Black) == 0
      && t.winner == Some(White)
      && t.turn == Black && t.selected.None?
  {
    EndgameConsistent();
    var s := EndgameState();
    var b := s.board;
    var t := Play(s, FinalCapture);
    PlayBoard(s, FinalCapture);
    forall k | 0 <= k < 64
      ensures !Holds(t.board[k], Black)
    {
      if k != Index(Pos(2, 3)) && k != Index(Pos(0, 1)) && k != Index(Pos(1, 2)) {
        assert t.board[k] == b[k];
      }
    }
    CountZero(t.board, Black);
    PlayWinRule(s, FinalCapture);
    PlayTurnRule(s, FinalCapture);
    var king := At(t.board, Pos(0, 1)).value;
    forall m' ensures !IsJump(t.board, Pos(0, 1), king, m') {
      if m'.jumped.Some? && InBounds(m'.jumped.value) {
        assert t.board[Index(m'.jumped.value)] == At(t.board, m'.jumped.value);
      }
    }
  }

  /** A white man on (5,0) with black men on (4,1) and (2,3): the first capture lands on (3,2),
      right behind which the second black man waits. */
  function Chain(): Board {
    seq(64, _ => None)[Index(Pos(5, 0)) := Some(WhiteMan)][Index(Pos(4, 1)) := Some(BlackMan)]
                      [Index(Pos(2, 3)) := Some(BlackMan)]
  }

  const FirstCapture := Move(Pos(3, 2), Some(Pos(4, 1)))
  const SecondCapture := Move(Pos(1, 4), Some(Pos(2, 3)))

  /** White to move with the man on (5,0) selected and its one capture highlighted. */
  function ChainState(): State {
    State(Chain(), White, Some(Pos(5, 0)), [FirstCapture], None)
  }

  lemma ChainLegal()
    ensures LegalMoves(Chain(), Pos(5, 0)) == [FirstCapture]
  {
    var b := Chain();
    var from := Pos(5, 0);
    assert At(b, from) == Some(WhiteMan);
    assert At(b, Pos(4, 1)) == Some(BlackMan);
    assert At(b, Pos(3, 2)).None?;
    var ds := Directions(WhiteMan);
    assert ds == [Dir(-1, -1), Dir(-1, 1)];
    assert ds[..1] == [Dir(-1, -1)] && ds[..1][..0] == [];
    assert JumpAlong(b, from, White, Dir(-1, -1)).None?;
    assert JumpAlong(b, from, White, Dir(-1, 1)) == Some(FirstCapture);
    assert Jumps(b, from, White, ds[..1]) == [];
    assert Jumps(b, from, White, ds) == [FirstCapture];
    assert CapturerAt(b, Index(from), White);
  }

  lemma ChainCounts()
    ensures Count(Chain(), White) == 1 && Count(Chain(), Black) == 2
  {
    var empty: Board := seq(64, _ => None);
    CountZero(empty, White);
    CountZero(empty, Black);
    var b1 := empty[Index(Pos(5, 0)) := Some(WhiteMan)];
    CountUpdate(empty, Index(Pos(5, 0)), Some(WhiteMan), White);
    CountUpdate(empty, Index(Pos(5, 0)), Some(WhiteMan), Black);
    var b2 := b1[Index(Pos(4, 1)) := Some(BlackMan)];
    CountUpdate(b1, Index(Pos(4, 1)), Some(BlackMan), White);
    CountUpdate(b1, Index(Pos(4, 1)), Some(BlackMan), Black);
    CountUpdate(b2, Index(Pos(2, 3)), Some(BlackMan), White);
    CountUpdate(b2, Index(Pos(2, 3)), Some(BlackMan), Black);
  }

  lemma ChainOnDarkSquares()
    ensures OnDarkSquares(Chain())
  {
    var b := Chain();
    forall k | 0 <= k < 64 && b[k].Some?
      ensures Dark(PosOf(k))
    {
      assert k == Index(Pos(5, 0)) || k == Index(Pos(4, 1)) || k == Index(Pos(2, 3));
    }
  }

  lemma ChainConsistent()
    ensures Consistent(ChainState())
  {
    ChainCounts();
    ChainOnDarkSquares();
    ChainLegal();
    assert At(Chain(), Pos(5, 0)) == Some(WhiteMan);
  }

  /** The board after the first capture: the man stands on (3,2), one black man is gone and
      the other still waits on (2,3) with (1,4) empty behind it. */
  lemma ChainFirstBoard()
    ensures Consistent(ChainState())
    ensures var t := Play(ChainState(), FirstCapture);
      && At(t.board, Pos(3, 2)) == Some(WhiteMan)
      && At(t.board, Pos(2, 3)) == Some(BlackMan)
      && At(t.board, Pos(1, 4)).None?
      && Count(t.board, Black) == 1
  {
    ChainConsistent();
    var s := ChainState();
    var t := Play(s, FirstCapture);
    PlayBoard(s, FirstCapture);
    ChainCounts();
    assert Index(Pos(2, 3)) == 19 && Index(Pos(1, 4)) == 12;
    assert t.board[19] == s.board[19];
    assert t.board[12] == s.board[12];
  }

  /** A capture chain: after the first capture white stays to move with the same man selected,
      its second capture is highlighted, black keeps one man and nobody has won yet. */
  lemma CaptureChainContinues()
    ensures Consistent(ChainState())
    ensures var t := Play(ChainState(), FirstCapture);
      && t.turn == White && t.selected == Some(Pos(3, 2))
      && SecondCapture in t.targets
      && Count(t.board, Black) == 1
      && t.winner.None?
  {
    ChainFirstBoard();
    var s := ChainState();
    var t := Play(s, FirstCapture);
    assert IsJump(t.board, Pos(3, 2), WhiteMan, SecondCapture);
    PlayTurnRule(s, FirstCapture);
    PlayWinRule(s, FirstCapture);
    AvailableMovesExactly(t.board, Pos(3, 2), WhiteMan);
    assert CapturerAt(t.board, Index(Pos(3, 2)), White);
    LegalMovesExactly(t.board, Pos(3, 2), WhiteMan, SecondCapture);
  }
}
