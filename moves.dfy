/** Move generation for one piece: the direction set, the simple moves and the captures,
    with captures taking precedence over simple moves. */
module MoveGenerator {
  import opened BoardModel

  datatype Dir = Dir(dr: int, dc: int)

  /** A candidate move of a piece: where it lands and, for a capture, the cell it jumps over. */
  datatype Move = Move(to: Pos, jumped: Option<Pos>)

  /** What a piece may do: its captures when it has any, otherwise its simple moves. */
  datatype Options = Options(moves: seq<Move>, hasCapture: bool)

  /** The row step towards the opponent's side. */
  function Forward(c: Colour): int {
    if c == White then -1 else 1
  }

  predicate Diagonal(d: Dir) {
    (d.dr == 1 || d.dr == -1) && (d.dc == 1 || d.dc == -1)
  }

  /** The directions a piece may use: a man only towards the opponent, a king all four diagonals. */
  predicate Allowed(p: Piece, d: Dir) {
    Diagonal(d) && (p.king || d.dr == Forward(p.colour))
  }

  function Directions(p: Piece): (ds: seq<Dir>)
    ensures forall d :: d in ds <==> Allowed(p, d)
    ensures |ds| == if p.king then 4 else 2
  {
    (if p.colour == White || p.king then [Dir(-1, -1), Dir(-1, 1)] else [])
    + (if p.colour == Black || p.king then [Dir(1, -1), Dir(1, 1)] else [])
  }

  function Shift(p: Pos, d: Dir): Pos {
    Pos(p.row + d.dr, p.col + d.dc)
  }

  function Delta(from: Pos, to: Pos): Dir {
    Dir(to.row - from.row, to.col - from.col)
  }

  /** The simple move one step along d, if that cell is on the board and empty. */
  function StepAlong(b: Board, from: Pos, d: Dir): Option<Move> {
    var next := Shift(from, d);
    if InBounds(next) && At(b, next).None? then Some(Move(next, None)) else None
  }

  /** The capture along d: the next cell holds a piece of the other colour and the one
      beyond it is on the board and empty. */
  function JumpAlong(b: Board, from: Pos, colour: Colour, d: Dir): Option<Move> {
    var next := Shift(from, d);
    if !InBounds(next) then None
    else match At(b, next)
      case None => None
      case Some(target) =>
        var land := Shift(next, d);
        if target.colour != colour && InBounds(land) && At(b, land).None?
        then Some(Move(land, Some(next)))
        else None
  }

  /** The simple moves found while scanning the directions ds in order. */
  function Simple(b: Board, from: Pos, ds: seq<Dir>): seq<Move> {
    if ds == [] then []
    else
      var rest := Simple(b, from, ds[..|ds| - 1]);
      match StepAlong(b, from, ds[|ds| - 1])
      case None => rest
      case Some(m) => rest + [m]
  }

  /** The captures found while scanning the directions ds in order. */
  function Jumps(b: Board, from: Pos, colour: Colour, ds: seq<Dir>): seq<Move> {
    if ds == [] then []
    else
      var rest := Jumps(b, from, colour, ds[..|ds| - 1]);
      match JumpAlong(b, from, colour, ds[|ds| - 1])
      case None => rest
      case Some(m) => rest + [m]
  }

  /** The result of getAvailableMoves for piece p standing at from. */
  function AvailableMoves(b: Board, from: Pos, p: Piece): Options {
    var captures := Jumps(b, from, p.colour, Directions(p));
    if |captures| > 0 then Options(captures, true)
    else Options(Simple(b, from, Directions(p)), false)
  }

  // ---------------------------------------------------------------------------
  // Reference definitions, stated by geometry rather than by the scan.

  /** m is a simple move of p from `from`: one allowed diagonal step to an empty cell. */
  predicate IsStep(b: Board, from: Pos, p: Piece, m: Move) {
    && m.jumped.None?
    && Allowed(p, Delta(from, m.to))
    && InBounds(m.to)
    && At(b, m.to).None?
  }

  /** m is a capture of p from `from`: the jumped cell is one allowed diagonal step away and
      holds an opponent's piece, and m lands one further step along the same diagonal, on
      an empty cell. */
  predicate IsJump(b: Board, from: Pos, p: Piece, m: Move) {
    && m.jumped.Some?
    && Allowed(p, Delta(from, m.jumped.value))
    && m.to == Shift(m.jumped.value, Delta(from, m.jumped.value))
    && InBounds(m.jumped.value)
    && InBounds(m.to)
    && Holds(At(b, m.jumped.value), Opponent(p.colour))
    && At(b, m.to).None?
  }

  lemma {:induction false} SimpleSound(b: Board, from: Pos, ds: seq<Dir>, m: Move)
    requires m in Simple(b, from, ds)
    ensures exists d :: d in ds && StepAlong(b, from, d) == Some(m)
  {
    var init, last := ds[..|ds| - 1], ds[|ds| - 1];
    if m in Simple(b, from, init) {
      SimpleSound(b, from, init, m);
      var d :| d in init && StepAlong(b, from, d) == Some(m);
      assert d in ds;
    } else {
      assert StepAlong(b, from, last) == Some(m);
    }
  }

  lemma {:induction false} SimpleComplete(b: Board, from: Pos, ds: seq<Dir>, d: Dir)
    requires d in ds && StepAlong(b, from, d).Some?
    ensures StepAlong(b, from, d).value in Simple(b, from, ds)
  {
    var init, last := ds[..|ds| - 1], ds[|ds| - 1];
    if d != last {
      assert d in init by {
        var i :| 0 <= i < |ds| && ds[i] == d;
        assert init[i] == d;
      }
      SimpleComplete(b, from, init, d);
    }
  }

  lemma {:induction false} JumpsSound(b: Board, from: Pos, colour: Colour, ds: seq<Dir>, m: Move)
    requires m in Jumps(b, from, colour, ds)
    ensures exists d :: d in ds && JumpAlong(b, from, colour, d) == Some(m)
  {
    var init, last := ds[..|ds| - 1], ds[|ds| - 1];
    if m in Jumps(b, from, colour, init) {
      JumpsSound(b, from, colour, init, m);
      var d :| d in init && JumpAlong(b, from, colour, d) == Some(m);
      assert d in ds;
    } else {
      assert JumpAlong(b, from, colour, last) == Some(m);
    }
  }

  lemma {:induction false} JumpsComplete(b: Board, from: Pos, colour: Colour, ds: seq<Dir>, d: Dir)
    requires d in ds && JumpAlong(b, from, colour, d).Some?
    ensures JumpAlong(b, from, colour, d).value in Jumps(b, from, colour, ds)
  {
    var init, last := ds[..|ds| - 1], ds[|ds| - 1];
    if d != last {
      assert d in init by {
        var i :| 0 <= i < |ds| && ds[i] == d;
        assert init[i] == d;
      }
      JumpsComplete(b, from, colour, init, d);
    }
  }

  /** The scan of the direction set finds exactly the simple moves of the reference definition. */
  lemma SimpleExactly(b: Board, from: Pos, p: Piece, m: Move)
    ensures m in Simple(b, from, Directions(p)) <==> IsStep(b, from, p, m)
  {
    if m in Simple(b, from, Directions(p)) {
      SimpleSound(b, from, Directions(p), m);
    }
    if IsStep(b, from, p, m) {
      var d := Delta(from, m.to);
      assert StepAlong(b, from, d) == Some(m);
      SimpleComplete(b, from, Directions(p), d);
    }
  }

  /** A capture found along an allowed direction is a capture of the reference definition. */
  lemma JumpAlongIsJump(b: Board, from: Pos, p: Piece, d: Dir)
    requires Allowed(p, d) && JumpAlong(b, from, p.colour, d).Some?
    ensures IsJump(b, from, p, JumpAlong(b, from, p.colour, d).value)
  {
    var m := JumpAlong(b, from, p.colour, d).value;
    assert m.jumped == Some(Shift(from, d));
    assert Delta(from, Shift(from, d)) == d;
  }

  /** A capture of the reference definition is what the scan finds along its direction. */
  lemma IsJumpAlong(b: Board, from: Pos, p: Piece, m: Move)
    requires IsJump(b, from, p, m)
    ensures JumpAlong(b, from, p.colour, Delta(from, m.jumped.value)) == Some(m)
  {
    var d := Delta(from, m.jumped.value);
    assert Shift(from, d) == m.jumped.value;
  }

  /** The scan of the direction set finds exactly the captures of the reference definition. */
  lemma JumpsExactly(b: Board, from: Pos, p: Piece, m: Move)
    ensures m in Jumps(b, from, p.colour, Directions(p)) <==> IsJump(b, from, p, m)
  {
    var ds := Directions(p);
    if m in Jumps(b, from, p.colour, ds) {
      JumpsSound(b, from, p.colour, ds, m);
      var d :| d in ds && JumpAlong(b, from, p.colour, d) == Some(m);
      JumpAlongIsJump(b, from, p, d);
    }
    if IsJump(b, from, p, m) {
      IsJumpAlong(b, from, p, m);
      JumpsComplete(b, from, p.colour, ds, Delta(from, m.jumped.value));
    }
  }

  /** getAvailableMoves, characterised: hasCapture holds exactly when the piece has a capture,
      and then the moves are exactly its captures; otherwise they are exactly its simple moves. */
  lemma AvailableMovesExactly(b: Board, from: Pos, p: Piece)
    ensures AvailableMoves(b, from, p).hasCapture <==> exists m :: IsJump(b, from, p, m)
    ensures forall m :: m in AvailableMoves(b, from, p).moves <==>
      if AvailableMoves(b, from, p).hasCapture then IsJump(b, from, p, m) else IsStep(b, from, p, m)
  {
    var o := AvailableMoves(b, from, p);
    var captures := Jumps(b, from, p.colour, Directions(p));
    forall m ensures m in captures <==> IsJump(b, from, p, m) {
      JumpsExactly(b, from, p, m);
    }
    forall m ensures m in Simple(b, from, Directions(p)) <==> IsStep(b, from, p, m) {
      SimpleExactly(b, from, p, m);
    }
    if o.hasCapture {
      assert IsJump(b, from, p, captures[0]);
    }
  }

  /** Every move offered lands on an empty cell of the board, moves along a diagonal (so it
      keeps the colour of the square), and goes towards the opponent unless the piece is a king;
      a simple move is one step, a capture two steps over an opponent's piece. */
  lemma AvailableMoveGeometry(b: Board, from: Pos, p: Piece, m: Move)
    requires m in AvailableMoves(b, from, p).moves
    ensures InBounds(m.to) && At(b, m.to).None?
    ensures Dark(m.to) <==> Dark(from)
    ensures m.jumped.None? <==> !AvailableMoves(b, from, p).hasCapture
    ensures m.jumped.None? ==> Allowed(p, Delta(from, m.to))
    ensures m.jumped.Some? ==>
      && Allowed(p, Delta(from, m.jumped.value))
      && Delta(from, m.to) == Dir(2 * Delta(from, m.jumped.value).dr, 2 * Delta(from, m.jumped.value).dc)
      && InBounds(m.jumped.value)
      && Holds(At(b, m.jumped.value), Opponent(p.colour))
  {
    AvailableMovesExactly(b, from, p);
    if AvailableMoves(b, from, p).hasCapture {
      assert IsJump(b, from, p, m);
      var d := Delta(from, m.jumped.value);
      assert m.jumped.value == Shift(from, d);
      DiagonalKeepsColour(from, d);
      DiagonalKeepsColour(m.jumped.value, d);
    } else {
      assert IsStep(b, from, p, m);
      assert m.to == Shift(from, Delta(from, m.to));
      DiagonalKeepsColour(from, Delta(from, m.to));
    }
  }

  /** A diagonal step keeps the colour of the square: row + col changes by -2, 0 or 2. */
  lemma DiagonalKeepsColour(q: Pos, d: Dir)
    requires Diagonal(d)
    ensures Dark(Shift(q, d)) <==> Dark(q)
  {
  }
  /** No two moves in the list share a destination. */
  predicate DistinctDestinations(ms: seq<Move>) {
    forall i, j :: 0 <= i < j < |ms| ==> ms[i].to != ms[j].to
  }

  predicate DistinctDirs(ds: seq<Dir>) {
    forall i, j :: 0 <= i < j < |ds| ==> ds[i] != ds[j]
  }

  lemma {:induction false} SimpleFrom(b: Board, from: Pos, ds: seq<Dir>, m: Move)
    requires m in Simple(b, from, ds)
    ensures exists d :: d in ds && m.to == Shift(from, d)
  {
    SimpleSound(b, from, ds, m);
  }

  lemma {:induction false} SimpleDistinct(b: Board, from: Pos, ds: seq<Dir>)
    requires DistinctDirs(ds)
    ensures DistinctDestinations(Simple(b, from, ds))
  {
    if ds != [] {
      var init, last := ds[..|ds| - 1], ds[|ds| - 1];
      var rest := Simple(b, from, init);
      SimpleDistinct(b, from, init);
      if StepAlong(b, from, last).Some? {
        var m := StepAlong(b, from, last).value;
        forall i | 0 <= i < |rest|
          ensures rest[i].to != m.to
        {
          SimpleFrom(b, from, init, rest[i]);
          var d :| d in init && rest[i].to == Shift(from, d);
          var k :| 0 <= k < |init| && init[k] == d;
          assert ds[k] == d;
        }
      }
    }
  }

  lemma {:induction false} JumpsFrom(b: Board, from: Pos, colour: Colour, ds: seq<Dir>, m: Move)
    requires m in Jumps(b, from, colour, ds)
    ensures exists d :: d in ds && m.to == Shift(Shift(from, d), d)
  {
    JumpsSound(b, from, colour, ds, m);
  }

  lemma {:induction false} JumpsDistinct(b: Board, from: Pos, colour: Colour, ds: seq<Dir>)
    requires DistinctDirs(ds)
    ensures DistinctDestinations(Jumps(b, from, colour, ds))
  {
    if ds != [] {
      var init, last := ds[..|ds| - 1], ds[|ds| - 1];
      var rest := Jumps(b, from, colour, init);
      JumpsDistinct(b, from, colour, init);
      if JumpAlong(b, from, colour, last).Some? {
        var m := JumpAlong(b, from, colour, last).value;
        forall i | 0 <= i < |rest|
          ensures rest[i].to != m.to
        {
          JumpsFrom(b, from, colour, init, rest[i]);
          var d :| d in init && rest[i].to == Shift(Shift(from, d), d);
          var k :| 0 <= k < |init| && init[k] == d;
          assert ds[k] == d;
        }
      }
    }
  }

  /** A destination names at most one of the moves offered, so a highlighted cell stands for
      exactly one move. */
  lemma AvailableDestinationsDistinct(b: Board, from: Pos, p: Piece)
    ensures DistinctDestinations(AvailableMoves(b, from, p).moves)
  {
    var ds := Directions(p);
    assert DistinctDirs(ds);
    SimpleDistinct(b, from, ds);
    JumpsDistinct(b, from, p.colour, ds);
  }
}
