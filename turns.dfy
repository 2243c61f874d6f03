/** The turn engine of GameBoard (Checkers/GameBoard.cs) as functions on the whole
    game state: restart, applying a move, chaining jumps or handing over the turn,
    and the click state machine. The class Engine.GameBoard is proved against these. */
module Turns {
  import opened Players
  import opened Markers
  import opened Spaces
  import opened MoveRules

  /** Everything GameBoard's logic keeps: the occupants, the cells' highlight
      flags, the side to move, the selection (-1 when none), CurrentValidMoves,
      the two jump flags and the two piece counts. */
  datatype Game = Game(
    board: Grid,
    lit: seq<seq<bool>>,
    curr: Player,
    selRow: int,
    selCol: int,
    moves: seq<ValidMove>,
    jumpsExist: bool,
    dblJumpExist: bool,
    redCount: int,
    blkCount: int)

  predicate IsLit(lit: seq<seq<bool>>) {
    |lit| == 8 && forall i :: 0 <= i < 8 ==> |lit[i]| == 8
  }

  /** The promotion zone of each cell as RestartGame sets it: row 0 crowns red and
      row 7 crowns black pieces, on selectable cells only. */
  function Zone(r: int, c: int): CanKing {
    if !Playable(r, c) then No else if r == 0 then YesRed else if r == 7 then YesBlack else No
  }

  /** The row on which a piece of `side` is crowned. */
  function PromotionRow(side: Player): int {
    if side == Red then 0 else 7
  }

  function Put(g: Grid, r: int, c: int, x: Occupant): (h: Grid)
    requires IsGrid(g) && OnBoard(r, c)
    ensures IsGrid(h)
  {
    g[r := g[r][c := x]]
  }

  // ---------------------------------------------------------------- piece counts

  function Tally(o: Occupant, side: Player): nat {
    if OwnerOf(o) == side then 1 else 0
  }

  function CountRow(row: seq<Occupant>, side: Player): nat {
    if row == [] then 0 else Tally(row[0], side) + CountRow(row[1..], side)
  }

  /** The number of pieces of `side` on the grid. */
  function Count(g: seq<seq<Occupant>>, side: Player): nat {
    if g == [] then 0 else CountRow(g[0], side) + Count(g[1..], side)
  }

  lemma {:induction false} CountRowUpdate(row: seq<Occupant>, j: nat, x: Occupant, side: Player)
    requires j < |row|
    ensures CountRow(row[j := x], side) == CountRow(row, side) - Tally(row[j], side) + Tally(x, side)
  {
    if j == 0 {
      assert row[j := x][1..] == row[1..];
    } else {
      assert row[j := x][1..] == row[1..][j - 1 := x];
      CountRowUpdate(row[1..], j - 1, x, side);
    }
  }

  /** Replacing one occupant changes a side's count by what left and what came. */
  lemma {:induction false} CountUpdate(g: seq<seq<Occupant>>, i: nat, j: nat, x: Occupant, side: Player)
    requires i < |g| && j < |g[i]|
    ensures Count(g[i := g[i][j := x]], side) == Count(g, side) - Tally(g[i][j], side) + Tally(x, side)
  {
    if i == 0 {
      assert g[i := g[i][j := x]][1..] == g[1..];
      CountRowUpdate(g[0], j, x, side);
    } else {
      assert g[i := g[i][j := x]][1..] == g[1..][i - 1 := g[1..][i - 1][j := x]];
      CountUpdate(g[1..], i - 1, j, x, side);
    }
  }

  // ---------------------------------------------------------------- the deal

  /** Who RestartGame deals onto the selectable cells of row i. */
  function DealtOwner(i: int): Player {
    if i == 3 || i == 4 then None else if i >= 5 then Red else Black
  }

  function DealtRow(i: int): seq<Occupant> {
    seq(8, j => if Playable(i, j) then Placed(DealtOwner(i)) else Vacant)
  }

  /** The starting position RestartGame deals. */
  function InitialBoard(): Grid {
    seq(8, i => DealtRow(i))
  }

  /** The highlight flags of freshly created cells: none is lit. */
  function Unlit(): (l: seq<seq<bool>>)
    ensures IsLit(l)
    ensures forall i, j | 0 <= i < 8 && 0 <= j < 8 :: !l[i][j]
  {
    seq(8, i => seq(8, j => false))
  }

  /** The state right after RestartGame. The selection is the one before the
      restart, and the highlight flags those of the cells in use. */
  function Restarted(selRow: int, selCol: int, lit: seq<seq<bool>>): Game {
    Game(InitialBoard(), lit, Black, selRow, selCol, [], false, false, 12, 12)
  }

  /** The dealt layout: non-king black pieces on the selectable cells of rows 0-2,
      rows 3-4 empty, non-king red pieces on the selectable cells of rows 5-7, and
      nothing on the other cells. */
  lemma InitialLayout(i: int, j: int)
    requires OnBoard(i, j)
    ensures IsGrid(InitialBoard())
    ensures !Playable(i, j) || i == 3 || i == 4 ==> InitialBoard()[i][j] == Vacant
    ensures Playable(i, j) && i <= 2 ==> InitialBoard()[i][j] == Occupied(Piece(Black, false))
    ensures Playable(i, j) && i >= 5 ==> InitialBoard()[i][j] == Occupied(Piece(Red, false))
  {
  }

  /** An eight-cell row counts as the sum of its cells. */
  lemma CountRow8(row: seq<Occupant>, side: Player)
    requires |row| == 8
    ensures CountRow(row, side) == Tally(row[0], side) + Tally(row[1], side) + Tally(row[2], side)
      + Tally(row[3], side) + Tally(row[4], side) + Tally(row[5], side) + Tally(row[6], side) + Tally(row[7], side)
  {
    var r1 := row[1..];
    var r2 := r1[1..];
    var r3 := r2[1..];
    var r4 := r3[1..];
    var r5 := r4[1..];
    var r6 := r5[1..];
    var r7 := r6[1..];
    assert r7[1..] == [];
    assert CountRow(r7, side) == Tally(row[7], side);
    assert CountRow(r6, side) == Tally(row[6], side) + CountRow(r7, side);
    assert CountRow(r5, side) == Tally(row[5], side) + CountRow(r6, side);
    assert CountRow(r4, side) == Tally(row[4], side) + CountRow(r5, side);
    assert CountRow(r3, side) == Tally(row[3], side) + CountRow(r4, side);
    assert CountRow(r2, side) == Tally(row[2], side) + CountRow(r3, side);
    assert CountRow(r1, side) == Tally(row[1], side) + CountRow(r2, side);
  }

  lemma DealtRowCount(i: int, side: Player)
    requires 0 <= i < 8 && side != None
    ensures CountRow(DealtRow(i), side) == if DealtOwner(i) == side then 4 else 0
  {
    var row := DealtRow(i);
    CountRow8(row, side);
    var t := Tally(Placed(DealtOwner(i)), side);
    assert t == if DealtOwner(i) == side then 1 else 0;
    if i % 2 == 0 {
      assert Tally(row[0], side) == t && Tally(row[1], side) == 0;
      assert Tally(row[2], side) == t && Tally(row[3], side) == 0;
      assert Tally(row[4], side) == t && Tally(row[5], side) == 0;
      assert Tally(row[6], side) == t && Tally(row[7], side) == 0;
    } else {
      assert Tally(row[0], side) == 0 && Tally(row[1], side) == t;
      assert Tally(row[2], side) == 0 && Tally(row[3], side) == t;
      assert Tally(row[4], side) == 0 && Tally(row[5], side) == t;
      assert Tally(row[6], side) == 0 && Tally(row[7], side) == t;
    }
  }

  lemma Count8(g: seq<seq<Occupant>>, side: Player)
    requires |g| == 8
    ensures Count(g, side) == CountRow(g[0], side) + CountRow(g[1], side) + CountRow(g[2], side)
      + CountRow(g[3], side) + CountRow(g[4], side) + CountRow(g[5], side) + CountRow(g[6], side) + CountRow(g[7], side)
  {
    var g1 := g[1..];
    var g2 := g1[1..];
    var g3 := g2[1..];
    var g4 := g3[1..];
    var g5 := g4[1..];
    var g6 := g5[1..];
    var g7 := g6[1..];
    assert g7[1..] == [];
    assert Count(g7, side) == CountRow(g[7], side);
    assert Count(g6, side) == CountRow(g[6], side) + Count(g7, side);
    assert Count(g5, side) == CountRow(g[5], side) + Count(g6, side);
    assert Count(g4, side) == CountRow(g[4], side) + Count(g5, side);
    assert Count(g3, side) == CountRow(g[3], side) + Count(g4, side);
    assert Count(g2, side) == CountRow(g[2], side) + Count(g3, side);
    assert Count(g1, side) == CountRow(g[1], side) + Count(g2, side);
  }

  /** A side that is dealt pieces starts with 12 of them: four on each of its three rows. */
  lemma InitialCount(side: Player)
    requires side != None
    ensures Count(InitialBoard(), side) == 12
  {
    var g := InitialBoard();
    Count8(g, side);
    DealtRowCount(0, side);
    DealtRowCount(1, side);
    DealtRowCount(2, side);
    DealtRowCount(3, side);
    DealtRowCount(4, side);
    DealtRowCount(5, side);
    DealtRowCount(6, side);
    DealtRowCount(7, side);
  }

  /** Each side starts with 12 pieces. */
  lemma InitialCounts()
    ensures Count(InitialBoard(), Red) == 12 && Count(InitialBoard(), Black) == 12
  {
    InitialCount(Red);
    InitialCount(Black);
  }

  /** Black, who moves first, has no jump in the starting position. */
  lemma InitialNoJumps()
    ensures IsGrid(InitialBoard()) && !CanJumpAny(InitialBoard(), Black)
  {
    var g := InitialBoard();
    forall i, j | 0 <= i < 8 && 0 <= j < 8
      ensures !CanJumpFrom(g, Black, i, j)
    {
      if g[i][j].Occupied? && OwnerOf(g[i][j]) == Black {
        var p := g[i][j].piece;
        forall k: nat | FirstDiff(p) <= k <= LastDiff(p)
          ensures !JumpInDir(g, i, j, k)
        {
          var d := Differences[k];
          assert d.deltaRow == 1;
          var ar, ac := i + 1, j + d.deltaCol;
          if OnBoard(ar, ac) && OwnerOf(g[ar][ac]) != None {
            assert g[ar][ac] == Occupied(Piece(Black, false));
          }
        }
      }
    }
  }

  // ---------------------------------------------------------------- highlighting

  /** BoardSpace.Highlight on cell (r, c): only selectable cells change. */
  function Highlight(lit: seq<seq<bool>>, r: int, c: int, v: bool): (l: seq<seq<bool>>)
    requires IsLit(lit) && OnBoard(r, c)
    ensures IsLit(l)
  {
    if Playable(r, c) then lit[r := lit[r][c := v]] else lit
  }

  /** All destinations of ms lie on the board. */
  predicate Targets(ms: seq<ValidMove>) {
    forall m :: m in ms ==> OnBoard(m.moveTo.row, m.moveTo.col)
  }

  /** The foreach loops that (un)highlight every destination of a move list. */
  function HighlightAll(lit: seq<seq<bool>>, ms: seq<ValidMove>, v: bool): (l: seq<seq<bool>>)
    requires IsLit(lit) && Targets(ms)
    ensures IsLit(l)
    decreases |ms|
  {
    if ms == [] then lit
    else HighlightAll(Highlight(lit, ms[0].moveTo.row, ms[0].moveTo.col, v), ms[1..], v)
  }

  /** After HighlightAll every selectable destination of ms carries v and every
      cell that is no destination keeps its flag. */
  lemma {:induction false} HighlightAllSets(lit: seq<seq<bool>>, ms: seq<ValidMove>, v: bool, i: int, j: int)
    requires IsLit(lit) && Targets(ms) && OnBoard(i, j)
    ensures Playable(i, j) && (exists m :: m in ms && m.moveTo == Pos(i, j)) ==> HighlightAll(lit, ms, v)[i][j] == v
    ensures (forall m :: m in ms ==> m.moveTo != Pos(i, j)) ==> HighlightAll(lit, ms, v)[i][j] == lit[i][j]
    decreases |ms|
  {
    if ms != [] {
      var l1 := Highlight(lit, ms[0].moveTo.row, ms[0].moveTo.col, v);
      HighlightAllSets(l1, ms[1..], v, i, j);
      if forall m :: m in ms[1..] ==> m.moveTo != Pos(i, j) {
        assert HighlightAll(lit, ms, v)[i][j] == l1[i][j];
      }
    }
  }

  // ---------------------------------------------------------------- invariant

  /** SpaceSelected: both coordinates differ from -1. */
  predicate Selected(s: Game) {
    s.selRow != -1 && s.selCol != -1
  }

  /** Pieces stand on selectable cells only and belong to Red or Black. */
  predicate Placement(g: Grid)
    requires IsGrid(g)
  {
    && Owned(g)
    && forall i, j | 0 <= i < 8 && 0 <= j < 8 :: g[i][j].Occupied? ==> Playable(i, j)
  }

  /** The move list is the one GetValidMoveList gives for the selected piece, a
      piece of the side to move, on the current board. */
  predicate MovesFresh(s: Game)
    requires IsGrid(s.board)
  {
    && Selected(s) && OnBoard(s.selRow, s.selCol)
    && s.board[s.selRow][s.selCol].Occupied?
    && s.board[s.selRow][s.selCol].piece.owner == s.curr
    && s.moves == ValidMoveList(s.board, s.selRow, s.selCol, s.jumpsExist)
  }

  /** What applying a move of the list needs: a well-formed board with pieces
      on selectable cells, and a move list fresh for the selected piece. */
  predicate Ready(s: Game) {
    IsGrid(s.board) && IsLit(s.lit) && Placement(s.board) && Targets(s.moves) && MovesFresh(s)
  }

  /** What holds of the engine after every restart, move and click. */
  predicate Inv(s: Game) {
    && IsGrid(s.board) && IsLit(s.lit)
    && Placement(s.board)
    && s.redCount == Count(s.board, Red)
    && s.blkCount == Count(s.board, Black)
    && s.curr != None
    && ((s.selRow == -1 && s.selCol == -1) || OnBoard(s.selRow, s.selCol))
    && Targets(s.moves)
    // a move can only be tried on a list computed for the current selection
    && ((Selected(s) || s.dblJumpExist) ==> s.moves == [] || MovesFresh(s))
    // a chain keeps the jumping piece selected, and jumps were flagged for the turn
    && (s.dblJumpExist ==> Selected(s) && s.moves != [] && s.jumpsExist)
    // outside a chain the flag is the board-wide scan for the side to move
    && (!s.dblJumpExist ==> s.jumpsExist == CanJumpAny(s.board, s.curr))
  }

  /** RestartGame establishes the invariant, whatever selection it leaves behind. */
  lemma RestartedInv(selRow: int, selCol: int, lit: seq<seq<bool>>)
    requires (selRow == -1 && selCol == -1) || OnBoard(selRow, selCol)
    requires IsLit(lit)
    ensures Inv(Restarted(selRow, selCol, lit))
  {
    InitialCounts();
    InitialNoJumps();
    var g: Grid := InitialBoard();
    forall i: int, j: int | 0 <= i < 8 && 0 <= j < 8
      ensures g[i][j].Occupied? ==> Playable(i, j) && g[i][j].piece.owner != None
    {
      InitialLayout(i, j);
    }
  }

  // ---------------------------------------------------------------- moves

  /** The index of the first entry of ms whose destination is (r, c), or |ms| if
      there is none (TryToMakeMove's search). */
  function FirstMatch(ms: seq<ValidMove>, r: int, c: int): (i: nat)
    ensures i <= |ms|
    ensures i < |ms| ==> ms[i].moveTo == Pos(r, c)
    ensures forall k :: 0 <= k < i ==> ms[k].moveTo != Pos(r, c)
  {
    if ms == [] then 0
    else if ms[0].moveTo == Pos(r, c) then 0
    else 1 + FirstMatch(ms[1..], r, c)
  }

  /** The board after the selected piece makes move m: the two cells swap their
      occupants (crowning on arrival) and a jumped piece is removed. */
  function MovedBoard(s: Game, m: ValidMove): (b: Grid)
    requires IsGrid(s.board) && MovesFresh(s) && m in s.moves
    ensures IsGrid(b)
  {
    var fr, fc, to := s.selRow, s.selCol, m.moveTo;
    var sw := Swapped(s.board[fr][fc], Zone(fr, fc), s.board[to.row][to.col], Zone(to.row, to.col));
    var b1 := Put(Put(s.board, fr, fc, sw.0), to.row, to.col, sw.1);
    if m.Jump? then Put(b1, m.jumped.row, m.jumped.col, Vacant) else b1
  }

  /** The piece lands on the destination, crowned if it arrives on its promotion
      row; the source cell is emptied and so is the jumped cell. */
  lemma MovedBoardEnds(s: Game, m: ValidMove)
    requires IsGrid(s.board) && Placement(s.board) && MovesFresh(s) && m in s.moves
    ensures var p := s.board[s.selRow][s.selCol].piece;
      && MovedBoard(s, m)[m.moveTo.row][m.moveTo.col]
           == Occupied(Piece(p.owner, p.isKing || m.moveTo.row == PromotionRow(p.owner)))
      && MovedBoard(s, m)[s.selRow][s.selCol] == Vacant
      && (m.Jump? ==> MovedBoard(s, m)[m.jumped.row][m.jumped.col] == Vacant)
    ensures Playable(m.moveTo.row, m.moveTo.col) && s.board[s.selRow][s.selCol].piece.owner != None
  {
    var fr, fc, to := s.selRow, s.selCol, m.moveTo;
    ValidMoveListSound(s.board, fr, fc, s.jumpsExist, m);
    var mine := s.board[fr][fc];
    var p := mine.piece;
    assert Playable(fr, fc) && p.owner != None;
    DestinationPlayable(s.board, fr, fc, s.jumpsExist, m);
    var sw := Swapped(mine, Zone(fr, fc), s.board[to.row][to.col], Zone(to.row, to.col));
    assert sw.0 == Vacant;
    assert Promotes(Zone(to.row, to.col), p.owner) <==> to.row == PromotionRow(p.owner);
    assert sw.1 == Occupied(Piece(p.owner, p.isKing || to.row == PromotionRow(p.owner)));
  }

  /** Every other cell keeps its occupant. */
  lemma MovedBoardRest(s: Game, m: ValidMove)
    requires IsGrid(s.board) && Placement(s.board) && MovesFresh(s) && m in s.moves
    ensures forall i, j | 0 <= i < 8 && 0 <= j < 8 ::
      (Pos(i, j) != m.moveTo && Pos(i, j) != Pos(s.selRow, s.selCol) && (m.Jump? ==> Pos(i, j) != m.jumped))
      ==> MovedBoard(s, m)[i][j] == s.board[i][j]
  {
    ValidMoveListSound(s.board, s.selRow, s.selCol, s.jumpsExist, m);
  }

  /** What a move does to each cell of the board. */
  lemma MovedBoardCells(s: Game, m: ValidMove)
    requires IsGrid(s.board) && Placement(s.board) && MovesFresh(s) && m in s.moves
    ensures var p := s.board[s.selRow][s.selCol].piece;
      && MovedBoard(s, m)[m.moveTo.row][m.moveTo.col]
           == Occupied(Piece(p.owner, p.isKing || m.moveTo.row == PromotionRow(p.owner)))
      && MovedBoard(s, m)[s.selRow][s.selCol] == Vacant
      && (m.Jump? ==> MovedBoard(s, m)[m.jumped.row][m.jumped.col] == Vacant)
    ensures forall i, j | 0 <= i < 8 && 0 <= j < 8 ::
      (Pos(i, j) != m.moveTo && Pos(i, j) != Pos(s.selRow, s.selCol) && (m.Jump? ==> Pos(i, j) != m.jumped))
      ==> MovedBoard(s, m)[i][j] == s.board[i][j]
  {
    MovedBoardEnds(s, m);
    MovedBoardRest(s, m);
  }

  /** Applying a move keeps pieces on selectable cells. */
  lemma MovedBoardPlacement(s: Game, m: ValidMove)
    requires IsGrid(s.board) && Placement(s.board) && MovesFresh(s) && m in s.moves
    ensures Placement(MovedBoard(s, m))
  {
    MovedBoardEnds(s, m);
    MovedBoardRest(s, m);
    var b: Grid := MovedBoard(s, m);
    forall i: int, j: int | 0 <= i < 8 && 0 <= j < 8 && b[i][j].Occupied?
      ensures Playable(i, j) && b[i][j].piece.owner != None
    {
      if Pos(i, j) != m.moveTo {
        assert b[i][j] == s.board[i][j];
      }
    }
  }

  /** How a move changes the count of one side: a jump takes one piece from the
      side that is not moving, nothing else changes a count. */
  lemma MovedBoardCount(s: Game, m: ValidMove, side: Player)
    requires IsGrid(s.board) && Placement(s.board) && MovesFresh(s) && m in s.moves
    requires side != None
    ensures Count(MovedBoard(s, m), side)
              == Count(s.board, side) - (if m.Jump? && side != s.curr then 1 else 0)
  {
    var fr, fc, to := s.selRow, s.selCol, m.moveTo;
    ValidMoveListSound(s.board, fr, fc, s.jumpsExist, m);
    var mine := s.board[fr][fc];
    var sw := Swapped(mine, Zone(fr, fc), s.board[to.row][to.col], Zone(to.row, to.col));
    assert sw.0 == Vacant && OwnerOf(sw.1) == s.curr;
    var b0 := Put(s.board, fr, fc, sw.0);
    var b1 := Put(b0, to.row, to.col, sw.1);
    CountUpdate(s.board, fr, fc, sw.0, side);
    CountUpdate(b0, to.row, to.col, sw.1, side);
    if m.Jump? {
      CountUpdate(b1, m.jumped.row, m.jumped.col, Vacant, side);
      assert b1[m.jumped.row][m.jumped.col] == s.board[m.jumped.row][m.jumped.col];
    }
  }

  /** Applying a move changes only the mover's opponent's count, by exactly one
      for a jump, and the piece lands on a cell as a piece of its own side. */
  lemma MovedBoardCounts(s: Game, m: ValidMove)
    requires IsGrid(s.board) && Placement(s.board) && MovesFresh(s) && m in s.moves
    ensures Count(MovedBoard(s, m), s.curr) == Count(s.board, s.curr)
    ensures Count(MovedBoard(s, m), NextPlayer(s.curr))
              == Count(s.board, NextPlayer(s.curr)) - (if m.Jump? then 1 else 0)
    ensures MovedBoard(s, m)[m.moveTo.row][m.moveTo.col].Occupied?
    ensures MovedBoard(s, m)[m.moveTo.row][m.moveTo.col].piece.owner == s.curr
  {
    MovedBoardEnds(s, m);
    MovedBoardCount(s, m, s.curr);
    MovedBoardCount(s, m, NextPlayer(s.curr));
  }

  /** The state right after move m of the selected piece, before the turn chains
      or passes: the moved board, the opponent's count after a capture, the
      double-jump flag (recomputed after a jump only), and the selection and its
      destinations unhighlighted. */
  function Applied(s: Game, m: ValidMove): (t: Game)
    requires Ready(s) && m in s.moves
    ensures IsGrid(t.board) && IsLit(t.lit) && Placement(t.board)
    ensures OnBoard(m.moveTo.row, m.moveTo.col) && t.board[m.moveTo.row][m.moveTo.col].Occupied?
    ensures t.curr == s.curr && t.selRow == s.selRow && t.selCol == s.selCol
    ensures t.moves == s.moves && t.jumpsExist == s.jumpsExist
  {
    MovedBoardCounts(s, m);
    MovedBoardPlacement(s, m);
    var b := MovedBoard(s, m);
    s.(board := b,
       lit := HighlightAll(Highlight(s.lit, s.selRow, s.selCol, false), s.moves, false),
       redCount := if m.Jump? && s.curr != Red then s.redCount - 1 else s.redCount,
       blkCount := if m.Jump? && s.curr == Red then s.blkCount - 1 else s.blkCount,
       dblJumpExist := if m.Jump? then JumpAvailable(b, m.moveTo.row, m.moveTo.col) else s.dblJumpExist)
  }

  /** A state that agrees with Applied field by field is Applied. */
  lemma AppliedFrom(s: Game, m: ValidMove, t: Game)
    requires Ready(s) && m in s.moves
    requires t.board == MovedBoard(s, m)
    requires OnBoard(m.moveTo.row, m.moveTo.col) && t.board[m.moveTo.row][m.moveTo.col].Occupied?
    requires t.lit == HighlightAll(Highlight(s.lit, s.selRow, s.selCol, false), s.moves, false)
    requires t.redCount == (if m.Jump? && s.curr != Red then s.redCount - 1 else s.redCount)
    requires t.blkCount == (if m.Jump? && s.curr == Red then s.blkCount - 1 else s.blkCount)
    requires t.dblJumpExist == if m.Jump? then JumpAvailable(t.board, m.moveTo.row, m.moveTo.col) else s.dblJumpExist
    requires t.curr == s.curr && t.selRow == s.selRow && t.selCol == s.selCol
    requires t.moves == s.moves && t.jumpsExist == s.jumpsExist
    ensures t == Applied(s, m)
  {
  }

  /** Handing the turn over: no selection, the other side to move, and the jumps
      flag rescanned for that side. The move list is left as it was. */
  function Passed(t: Game): Game
    requires IsGrid(t.board)
  {
    var next := NextPlayer(t.curr);
    t.(curr := next, selRow := -1, selCol := -1, jumpsExist := CanJumpAny(t.board, next))
  }

  /** Applying move m of the selected piece (the body of TryToMakeMove once the
      destination is found): a jump that leaves a further jump for the same piece
      keeps the turn and selects the landing cell; everything else clears the
      selection, hands the turn over and rescans for jumps. */
  function Moved(s: Game, m: ValidMove): Game
    requires Ready(s) && m in s.moves
  {
    var t := Applied(s, m);
    if !t.dblJumpExist then Passed(t) else Select(t, m.moveTo.row, m.moveTo.col)
  }

  /** TryToMakeMove: moves to (r, c) when it is the destination of an entry of the
      move list, and reports whether it did. */
  function TryMove(s: Game, r: int, c: int): (res: (bool, Game))
    requires Inv(s) && (Selected(s) || s.dblJumpExist)
  {
    var i := FirstMatch(s.moves, r, c);
    if i == |s.moves| then (false, s) else (true, Moved(s, s.moves[i]))
  }

  /** While a chain is in progress the move list holds jumps only. */
  lemma ChainMovesAreJumps(s: Game, m: ValidMove)
    requires Inv(s) && s.dblJumpExist && m in s.moves
    ensures m.Jump?
  {
    CaptureGate(s.board, s.selRow, s.selCol, m);
  }

  /** Mandatory capture: when the side to move has a jump anywhere (outside a
      chain), none of its pieces is offered a simple step. */
  lemma MandatoryCapture(s: Game, i: int, j: int, m: ValidMove)
    requires Inv(s) && !s.dblJumpExist && CanJumpAny(s.board, s.curr)
    requires OnBoard(i, j) && s.board[i][j].Occupied?
    requires m in ValidMoveList(s.board, i, j, s.jumpsExist)
    ensures m.Jump?
  {
    CaptureGate(s.board, i, j, m);
  }

  /** The side that loses a piece when the side to move jumps. */
  lemma OpponentOfTurn(s: Game)
    requires s.curr != None
    ensures s.curr == Red ==> NextPlayer(s.curr) == Black
    ensures s.curr == Black ==> NextPlayer(s.curr) == Red
  {
  }

  /** The piece counts after Moved agree with the board. */
  lemma MovedCounts(s: Game, m: ValidMove)
    requires Inv(s) && MovesFresh(s) && m in s.moves
    ensures Moved(s, m).redCount == Count(Moved(s, m).board, Red)
    ensures Moved(s, m).blkCount == Count(Moved(s, m).board, Black)
  {
    MovedBoardCounts(s, m);
    OpponentOfTurn(s);
  }

  /** A move that ends the turn leaves a consistent state. */
  lemma MovedInvPass(s: Game, m: ValidMove)
    requires Inv(s) && MovesFresh(s) && m in s.moves
    requires !Moved(s, m).dblJumpExist
    ensures Inv(Moved(s, m))
  {
    MovedBoardPlacement(s, m);
    MovedCounts(s, m);
  }

  /** A jump that leaves a further jump keeps a consistent state. */
  lemma MovedInvChain(s: Game, m: ValidMove)
    requires Inv(s) && MovesFresh(s) && m in s.moves
    requires Moved(s, m).dblJumpExist
    ensures Inv(Moved(s, m))
  {
    var fr, fc, to := s.selRow, s.selCol, m.moveTo;
    MovedBoardPlacement(s, m);
    MovedCounts(s, m);
    MovedBoardCounts(s, m);
    var b := MovedBoard(s, m);
    if m.Step? {
      assert s.dblJumpExist;
      ChainMovesAreJumps(s, m);
    }
    assert JumpAvailable(b, to.row, to.col);
    JumpAvailableIffListed(b, to.row, to.col, s.jumpsExist);
    if !s.dblJumpExist {
      JumpAvailableIffListed(s.board, fr, fc, s.jumpsExist);
      assert CanJumpFrom(s.board, s.curr, fr, fc);
    }
    var t := Moved(s, m);
    assert t.board == b && t.curr == s.curr && t.selRow == to.row && t.selCol == to.col;
    assert t.moves == ValidMoveList(b, to.row, to.col, s.jumpsExist) && t.jumpsExist == s.jumpsExist;
    assert IsGrid(t.board) && IsLit(t.lit);
    assert Targets(t.moves);
    assert MovesFresh(t);
    assert t.moves != [];
  }

  lemma MovedInv(s: Game, m: ValidMove)
    requires Inv(s) && MovesFresh(s) && m in s.moves
    ensures Inv(Moved(s, m))
  {
    if Moved(s, m).dblJumpExist {
      MovedInvChain(s, m);
    } else {
      MovedInvPass(s, m);
    }
  }

  /** TryToMakeMove keeps the invariant. */
  lemma TryMoveInv(s: Game, r: int, c: int)
    requires Inv(s) && (Selected(s) || s.dblJumpExist)
    ensures Inv(TryMove(s, r, c).1)
  {
    var i := FirstMatch(s.moves, r, c);
    if i < |s.moves| {
      MovedInv(s, s.moves[i]);
    }
  }

  /** TryToMakeMove refuses a destination that is not in the move list, and then
      changes nothing. */
  lemma TryMoveRefusal(s: Game, r: int, c: int)
    requires Inv(s) && (Selected(s) || s.dblJumpExist)
    ensures !TryMove(s, r, c).0 <==> forall m :: m in s.moves ==> m.moveTo != Pos(r, c)
    ensures !TryMove(s, r, c).0 ==> TryMove(s, r, c).1 == s
  {
    var i := FirstMatch(s.moves, r, c);
    if i < |s.moves| {
      assert s.moves[i] in s.moves;
    }
  }

  /** A move TryToMakeMove makes: a jump empties the jumped cell and takes exactly
      one piece from the opponent's count, a step changes no count; the mover lands
      on (r, c), crowned on its promotion row, and its cell is left empty. */
  lemma TryMoveEffect(s: Game, r: int, c: int)
    requires Inv(s) && (Selected(s) || s.dblJumpExist)
    requires TryMove(s, r, c).0
    ensures var m := s.moves[FirstMatch(s.moves, r, c)];
      var t := TryMove(s, r, c).1;
      var p := s.board[s.selRow][s.selCol].piece;
      && m.moveTo == Pos(r, c)
      && t.board[r][c] == Occupied(Piece(s.curr, p.isKing || r == PromotionRow(s.curr)))
      && t.board[s.selRow][s.selCol] == Vacant
      && (m.Jump? ==> t.board[m.jumped.row][m.jumped.col] == Vacant)
      && (s.curr == Red ==> t.redCount == s.redCount && t.blkCount == s.blkCount - (if m.Jump? then 1 else 0))
      && (s.curr == Black ==> t.blkCount == s.blkCount && t.redCount == s.redCount - (if m.Jump? then 1 else 0))
  {
    var m := s.moves[FirstMatch(s.moves, r, c)];
    MovedBoardCells(s, m);
    MovedInv(s, m);
  }

  /** After a move the turn chains or advances: a jump with a further jump from
      the landing cell keeps the side and selects that cell; otherwise the
      selection is cleared, the turn passes to the other side and the jumps flag
      is that side's board-wide scan. */
  lemma TryMoveTurn(s: Game, r: int, c: int)
    requires Inv(s) && (Selected(s) || s.dblJumpExist)
    requires TryMove(s, r, c).0
    ensures var m := s.moves[FirstMatch(s.moves, r, c)];
      var t := TryMove(s, r, c).1;
      IsGrid(t.board) && OnBoard(r, c) && t.board[r][c].Occupied? &&
      if m.Jump? && JumpAvailable(t.board, r, c) then
        && t.curr == s.curr && t.selRow == r && t.selCol == c && t.dblJumpExist
        && t.moves == ValidMoveList(t.board, r, c, t.jumpsExist)
      else
        && !Selected(t) && !t.dblJumpExist
        && t.curr == NextPlayer(s.curr)
        && t.jumpsExist == CanJumpAny(t.board, t.curr)
  {
    var m := s.moves[FirstMatch(s.moves, r, c)];
    assert m in s.moves && m.moveTo == Pos(r, c);
    assert Ready(s);
    var a := Applied(s, m);
    assert TryMove(s, r, c).1 == Moved(s, m);
    if m.Step? && s.dblJumpExist {
      ChainMovesAreJumps(s, m);
    }
    assert a.dblJumpExist <==> m.Jump? && JumpAvailable(a.board, r, c);
  }

  // ---------------------------------------------------------------- clicks

  /** Selecting the piece at (r, c): highlight it, compute and highlight its moves. */
  function Select(s: Game, r: int, c: int): Game
    requires IsGrid(s.board) && IsLit(s.lit) && Owned(s.board) && OnBoard(r, c) && s.board[r][c].Occupied?
  {
    var ms := ValidMoveList(s.board, r, c, s.jumpsExist);
    s.(selRow := r, selCol := c, moves := ms,
       lit := HighlightAll(Highlight(s.lit, r, c, true), ms, true))
  }

  /** Dropping the selection: unhighlight it and its moves, clear the move list. */
  function Deselected(s: Game): Game
    requires IsLit(s.lit) && OnBoard(s.selRow, s.selCol) && Targets(s.moves)
  {
    s.(selRow := -1, selCol := -1, moves := [],
       lit := HighlightAll(Highlight(s.lit, s.selRow, s.selCol, false), s.moves, false))
  }

  /** SpaceClick on the cell (r, c). */
  function Click(s: Game, r: int, c: int): Game
    requires Inv(s) && OnBoard(r, c)
  {
    if !Playable(r, c) then s
    else if s.dblJumpExist then TryMove(s, r, c).1
    else if !Selected(s) then
      if s.board[r][c].Occupied? && OwnerOf(s.board[r][c]) == s.curr then Select(s, r, c) else s
    else if s.board[r][c].Vacant? then TryMove(s, r, c).1
    else if r == s.selRow && c == s.selCol then Deselected(s)
    else if OwnerOf(s.board[r][c]) == s.curr then Select(Deselected(s), r, c)
    else s
  }

  /** Every click keeps the invariant. */
  lemma ClickInv(s: Game, r: int, c: int)
    requires Inv(s) && OnBoard(r, c)
    ensures Inv(Click(s, r, c))
  {
    if Playable(r, c) {
      if s.dblJumpExist || (Selected(s) && s.board[r][c].Vacant?) {
        TryMoveInv(s, r, c);
      }
    }
  }

  /** A click on a cell that is not selectable changes nothing. */
  lemma ClickUnselectable(s: Game, r: int, c: int)
    requires Inv(s) && OnBoard(r, c) && !Playable(r, c)
    ensures Click(s, r, c) == s
  {
  }

  /** During a chain a click either changes nothing or makes a further jump with
      the same piece: the selection cannot be dropped or moved, and no simple step
      is possible. */
  lemma ClickDuringChain(s: Game, r: int, c: int)
    requires Inv(s) && OnBoard(r, c) && s.dblJumpExist
    ensures var t := Click(s, r, c);
      t == s || (t.redCount + t.blkCount == s.redCount + s.blkCount - 1 && t.board[s.selRow][s.selCol] == Vacant)
  {
    if Playable(r, c) && TryMove(s, r, c).0 {
      var m := s.moves[FirstMatch(s.moves, r, c)];
      ChainMovesAreJumps(s, m);
      TryMoveEffect(s, r, c);
    } else if Playable(r, c) {
      TryMoveRefusal(s, r, c);
    }
  }

  /** Clicking the selected piece drops the selection, clears the move list and
      unhighlights the piece and its destinations; the board is left alone. */
  lemma ClickSelectedDeselects(s: Game, r: int, c: int)
    requires Inv(s) && OnBoard(r, c) && Playable(r, c) && !s.dblJumpExist
    requires Selected(s) && r == s.selRow && c == s.selCol && s.board[r][c].Occupied?
    ensures var t := Click(s, r, c);
      && !Selected(t) && t.moves == [] && t.board == s.board && t.curr == s.curr
      && !t.lit[r][c]
      && forall m :: m in s.moves && Playable(m.moveTo.row, m.moveTo.col) ==> !t.lit[m.moveTo.row][m.moveTo.col]
  {
    var l1 := Highlight(s.lit, r, c, false);
    forall m | m in s.moves && Playable(m.moveTo.row, m.moveTo.col)
      ensures !Click(s, r, c).lit[m.moveTo.row][m.moveTo.col]
    {
      HighlightAllSets(l1, s.moves, false, m.moveTo.row, m.moveTo.col);
    }
    if s.moves != [] {
      ValidMoveListExact(s.board, r, c, s.jumpsExist, Step(Pos(r, c)));
      ValidMoveListExact(s.board, r, c, s.jumpsExist, Jump(Pos(r, c), Pos(r, c)));
      forall m | m in s.moves ensures m.moveTo != Pos(r, c) {
        ValidMoveListSound(s.board, r, c, s.jumpsExist, m);
      }
    }
    HighlightAllSets(l1, s.moves, false, r, c);
  }

  /** Clicking a piece of the side to move (outside a chain, not the selected one)
      selects it, with its own move list; the board is left alone. A piece without
      moves is selected all the same. */
  lemma ClickOwnPieceSelects(s: Game, r: int, c: int)
    requires Inv(s) && OnBoard(r, c) && Playable(r, c) && !s.dblJumpExist
    requires s.board[r][c].Occupied? && s.board[r][c].piece.owner == s.curr
    requires !(r == s.selRow && c == s.selCol)
    ensures var t := Click(s, r, c);
      && t.selRow == r && t.selCol == c && t.lit[r][c]
      && t.moves == ValidMoveList(s.board, r, c, s.jumpsExist)
      && t.board == s.board && t.curr == s.curr && !t.dblJumpExist
  {
    var ms := ValidMoveList(s.board, r, c, s.jumpsExist);
    forall m | m in ms ensures m.moveTo != Pos(r, c) {
      ValidMoveListSound(s.board, r, c, s.jumpsExist, m);
    }
    if Selected(s) {
      HighlightAllSets(Highlight(Deselected(s).lit, r, c, true), ms, true, r, c);
    } else {
      HighlightAllSets(Highlight(s.lit, r, c, true), ms, true, r, c);
    }
  }

  /** Clicking a piece of the other side (other than a stale selection) changes nothing. */
  lemma ClickOpponentIgnored(s: Game, r: int, c: int)
    requires Inv(s) && OnBoard(r, c) && !s.dblJumpExist
    requires s.board[r][c].Occupied? && s.board[r][c].piece.owner != s.curr
    requires !(r == s.selRow && c == s.selCol)
    ensures Click(s, r, c) == s
  {
  }
}
