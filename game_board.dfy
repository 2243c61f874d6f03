/** The GameBoard control of Checkers/GameBoard.cs: an 8x8 array of BoardSpace
    objects plus the turn, selection, move list, jump flags and piece counts.
    Ghost fields mirror the occupants and highlight flags of the cells so that
    every operation is proved against the functions of module Turns. */
module Engine {
  import opened Players
  import opened Spaces
  import opened MoveRules
  import opened Turns

  /** A grid with no pieces at all. */
  ghost function Cleared(): (g: Grid)
    ensures IsGrid(g)
  {
    seq(8, i => seq(8, j => Vacant))
  }

  /** Two grids with the same cells are equal. */
  lemma GridExt(g: Grid, h: Grid)
    requires IsGrid(g) && IsGrid(h)
    requires forall i, j | 0 <= i < 8 && 0 <= j < 8 :: g[i][j] == h[i][j]
    ensures g == h
  {
    forall i | 0 <= i < 8
      ensures g[i] == h[i]
    {
      assert forall j | 0 <= j < 8 :: g[i][j] == h[i][j];
    }
  }

  /** A state with the dealt board, Black to move, no moves, no jumps and twelve
      pieces a side is the restarted state, whatever its selection, and keeps
      the invariant. */
  lemma IsRestarted(t: Game, r: int, c: int, l: seq<seq<bool>>)
    requires t.board == InitialBoard() && t.lit == l && IsLit(l) && t.curr == Black
    requires t.selRow == r && t.selCol == c && ((r == -1 && c == -1) || OnBoard(r, c))
    requires t.moves == [] && !t.jumpsExist && !t.dblJumpExist && t.redCount == 12 && t.blkCount == 12
    ensures t == Restarted(r, c, l) && Inv(t)
  {
    RestartedInv(r, c, l);
  }

  /** The search loop of TryToMakeMove: the index of the first entry of the move
      list whose destination is (r, c), or |ms| when there is none. */
  method FindMove(ms: seq<ValidMove>, r: int, c: int) returns (i: int)
    ensures i == FirstMatch(ms, r, c)
  {
    i := 0;
    while i < |ms|
      invariant 0 <= i <= |ms|
      invariant forall k :: 0 <= k < i ==> ms[k].moveTo != Pos(r, c)
    {
      if ms[i].moveTo.row == r && ms[i].moveTo.col == c {
        return;
      }
      i := i + 1;
    }
  }

  class GameBoard {
    var spaces: array2<BoardSpace?>
    var curr: Player
    var validMoves: seq<ValidMove>
    var selRow: int
    var selCol: int
    var jumpsExist: bool
    var dblJumpExist: bool
    var redCount: int
    var blkCount: int

    /** The occupants and highlight flags of the cells, by row and column. */
    ghost var board: Grid
    ghost var lit: seq<seq<bool>>
    /** The 64 cells the array holds. */
    ghost var Cells: set<BoardSpace>

    ghost function State(): Game
      reads this
    {
      Game(board, lit, curr, selRow, selCol, validMoves, jumpsExist, dblJumpExist, redCount, blkCount)
    }

    /** The array has the board's size and the selection is none or a cell. */
    predicate Shell()
      reads this
    {
      && spaces.Length0 == 8 && spaces.Length1 == 8
      && ((selRow == -1 && selCol == -1) || OnBoard(selRow, selCol))
    }

    /** Every slot of the array holds a cell of Cells that knows its own row and
        column, and every cell of Cells sits in its own slot. */
    ghost predicate Layout()
      reads this`spaces, this`Cells, spaces
    {
      && spaces.Length0 == 8 && spaces.Length1 == 8
      && (forall i, j | 0 <= i < 8 && 0 <= j < 8 ::
            spaces[i, j] != null && spaces[i, j] in Cells && spaces[i, j].row == i && spaces[i, j].col == j)
      && (forall c | c in Cells :: OnBoard(c.row, c.col) && spaces[c.row, c.col] == c)
    }

    /** Cell c is selectable exactly on a playable square, has the promotion zone
        RestartGame gives it, and agrees with the ghost board and flags. */
    ghost predicate Agrees(c: BoardSpace)
      reads this`board, this`lit, c
      requires IsGrid(board) && IsLit(lit) && OnBoard(c.row, c.col)
    {
      && c.selectable == Playable(c.row, c.col)
      && c.ableToKing == Zone(c.row, c.col)
      && c.occupant == board[c.row][c.col]
      && c.isSelected == lit[c.row][c.col]
    }

    ghost predicate Mirrors()
      reads this`spaces, this`board, this`lit, this`Cells, spaces, Cells
    {
      && Layout() && IsGrid(board) && IsLit(lit)
      && forall c | c in Cells :: Agrees(c)
    }

    /** What Mirrors says about the cell in slot (i, j). */
    lemma CellAt(i: int, j: int)
      requires Mirrors() && OnBoard(i, j)
      ensures spaces[i, j] != null && spaces[i, j] in Cells
      ensures spaces[i, j].row == i && spaces[i, j].col == j
      ensures spaces[i, j].selectable == Playable(i, j) && spaces[i, j].ableToKing == Zone(i, j)
      ensures spaces[i, j].occupant == board[i][j] && spaces[i, j].isSelected == lit[i][j]
    {
      assert Agrees(spaces[i, j]);
    }

    ghost predicate Valid()
      reads this, spaces, Cells
    {
      Shell() && Mirrors() && Inv(State())
    }

    /** A new board has an array of empty slots and no selection; the turn is the
        enumeration's first value and no game has been dealt yet. */
    constructor ()
      ensures Shell() && fresh(spaces) && Cells == {}
      ensures forall i, j | 0 <= i < 8 && 0 <= j < 8 :: spaces[i, j] == null
      ensures selRow == -1 && selCol == -1 && curr == Red && validMoves == []
      ensures !jumpsExist && !dblJumpExist && redCount == 0 && blkCount == 0
    {
      spaces := new BoardSpace?[8, 8]((i, j) => null);
      selCol := -1;
      selRow := -1;
      curr := Red;
      validMoves := [];
      jumpsExist := false;
      dblJumpExist := false;
      redCount := 0;
      blkCount := 0;
      board := Cleared();
      lit := Unlit();
      Cells := {};
    }

    /** One pass of RestartGame's inner loop: a fresh empty cell for every column
        of row i, selectable on playable squares and with the row's promotion zone. */
    method CreateRow(i: int) returns (ghost row: set<BoardSpace>)
      requires 0 <= i < 8 && spaces.Length0 == 8 && spaces.Length1 == 8
      modifies spaces
      ensures forall a, b | 0 <= a < 8 && 0 <= b < 8 && a != i :: spaces[a, b] == old(spaces[a, b])
      ensures forall b | 0 <= b < 8 ::
        && spaces[i, b] != null && spaces[i, b] in row && spaces[i, b].row == i && spaces[i, b].col == b
        && spaces[i, b].selectable == Playable(i, b) && spaces[i, b].ableToKing == Zone(i, b)
        && spaces[i, b].occupant == Vacant && !spaces[i, b].isSelected
      ensures forall c | c in row :: c.row == i && 0 <= c.col < 8 && spaces[i, c.col] == c && fresh(c)
    {
      row := {};
      var j := 0;
      while j < 8
        modifies spaces
        invariant 0 <= j <= 8
        invariant forall a, b | 0 <= a < 8 && 0 <= b < 8 && a != i :: spaces[a, b] == old(spaces[a, b])
        invariant forall b | 0 <= b < j ::
          && spaces[i, b] != null && spaces[i, b] in row && spaces[i, b].row == i && spaces[i, b].col == b
          && spaces[i, b].selectable == Playable(i, b) && spaces[i, b].ableToKing == Zone(i, b)
          && spaces[i, b].occupant == Vacant && !spaces[i, b].isSelected
        invariant forall c | c in row :: c.row == i && 0 <= c.col < j && spaces[i, c.col] == c && fresh(c)
      {
        var decider := (i + j) % 2;
        var sp := new BoardSpace(i, j, None, decider == 0);
        spaces[i, j] := sp;
        if i == 0 {
          sp.IsAbleToKing(YesRed);
        }
        if i == 7 {
          sp.IsAbleToKing(YesBlack);
        }
        row := row + {sp};
        j := j + 1;
      }
    }

    /** Creates the 64 cells of a first game: selectable on the playable squares,
        empty, unlit, row 0 crowning red and row 7 crowning black. */
    method CreateSpaces()
      requires Shell()
      modifies this`board, this`lit, this`Cells, spaces
      ensures spaces == old(spaces)
      ensures Mirrors() && board == Cleared() && lit == Unlit()
      ensures forall c | c in Cells :: fresh(c)
    {
      ghost var made: set<BoardSpace> := {};
      var i := 0;
      while i < 8
        modifies spaces
        invariant 0 <= i <= 8
        invariant forall a, b | 0 <= a < i && 0 <= b < 8 ::
          && spaces[a, b] != null && spaces[a, b] in made && spaces[a, b].row == a && spaces[a, b].col == b
          && spaces[a, b].selectable == Playable(a, b) && spaces[a, b].ableToKing == Zone(a, b)
          && spaces[a, b].occupant == Vacant && !spaces[a, b].isSelected
        invariant forall c | c in made :: 0 <= c.row < i && 0 <= c.col < 8 && spaces[c.row, c.col] == c
        invariant forall c | c in made :: fresh(c)
      {
        ghost var row := CreateRow(i);
        made := made + row;
        i := i + 1;
      }
      Cells := made;
      board := Cleared();
      lit := Unlit();
    }

    /** PlaceMarker on the cell (i, j), with the ghost board following. */
    method PlaceAt(i: int, j: int, owner: Player)
      requires Mirrors() && OnBoard(i, j)
      modifies this`board, Cells`occupant
      ensures Mirrors() && board == Put(old(board), i, j, Placed(owner))
    {
      CellAt(i, j);
      var x := spaces[i, j];
      x.PlaceMarker(owner);
      board := Put(board, i, j, Placed(owner));
      forall c | c in Cells
        ensures Agrees(c)
      {
        if c != x {
          assert c.row != i || c.col != j;
        }
      }
    }

    /** One pass of RestartGame's dealing loop: a marker of the given side on
        every playable square of row i; nothing else changes. */
    method DealRow(i: int, temp: Player)
      requires Mirrors() && 0 <= i < 8
      modifies this`board, Cells`occupant
      ensures spaces == old(spaces)
      ensures Mirrors()
      ensures forall a, b | 0 <= a < 8 && 0 <= b < 8 ::
        board[a][b] == if a == i && Playable(a, b) then Placed(temp) else old(board)[a][b]
    {
      var offset := i % 2;
      var j := 0;
      while j < 8
        modifies this`board, Cells`occupant
        invariant 0 <= j <= 8 && j % 2 == 0
        invariant spaces == old(spaces)
        invariant Mirrors()
        invariant forall a, b | 0 <= a < 8 && 0 <= b < 8 ::
          board[a][b] == if a == i && b < j && Playable(a, b) then Placed(temp) else old(board)[a][b]
      {
        PlaceAt(i, j + offset, temp);
        j := j + 2;
      }
    }

    /** Deals the starting position onto existing cells: one marker per playable
        square, black on rows 0-2, none on rows 3-4, red on rows 5-7. */
    method DealPieces()
      requires Mirrors()
      requires forall a, b | 0 <= a < 8 && 0 <= b < 8 :: !Playable(a, b) ==> board[a][b] == Vacant
      modifies this`board, Cells`occupant
      ensures spaces == old(spaces)
      ensures Mirrors() && board == InitialBoard()
    {
      ghost var b0 := board;
      var i := 0;
      while i < 8
        modifies this`board, Cells`occupant
        invariant 0 <= i <= 8
        invariant Mirrors()
        invariant forall a, b | 0 <= a < 8 && 0 <= b < 8 ::
          board[a][b] == if a < i then InitialBoard()[a][b] else b0[a][b]
      {
        var temp := Black;
        if i == 3 || i == 4 {
          temp := None;
        }
        if i >= 5 {
          temp := Red;
        }
        assert temp == DealtOwner(i);
        DealRow(i, temp);
        i := i + 1;
      }
      GridExt(board, InitialBoard());
    }

    /** The second half of RestartGame: the starting position is dealt onto the
        existing cells and Black is to move with 12 pieces a side. */
    method Deal()
      requires Shell() && Mirrors()
      requires forall a, b | 0 <= a < 8 && 0 <= b < 8 :: !Playable(a, b) ==> board[a][b] == Vacant
      modifies this`validMoves, this`curr, this`jumpsExist, this`dblJumpExist
      modifies this`blkCount, this`redCount, this`board, Cells`occupant
      ensures Valid() && State() == Restarted(old(selRow), old(selCol), old(lit))
    {
      ghost var r0, c0, l0 := selRow, selCol, lit;
      ResetTurn();
      DealPieces();
      IsRestarted(State(), r0, c0, l0);
    }

    /** The scalar part of RestartGame: an empty move list, Black to move, no
        jumps pending and 12 pieces a side. */
    method ResetTurn()
      modifies this`validMoves, this`curr, this`jumpsExist, this`dblJumpExist
      modifies this`blkCount, this`redCount
      ensures validMoves == [] && curr == Black && !jumpsExist && !dblJumpExist
      ensures blkCount == 12 && redCount == 12
    {
      validMoves := [];
      curr := Black;
      jumpsExist := false;
      dblJumpExist := false;
      blkCount := 12;
      redCount := 12;
    }

    /** RestartGame: a first game creates the cells, a restart reuses them (their
        highlight flags and the selection are left as they were); then the
        starting position is dealt and Black is to move with 12 pieces a side. */
    method RestartGame(isRestart: bool)
      requires Shell()
      requires isRestart ==> Valid()
      modifies this, spaces, Cells`occupant
      ensures Valid() && spaces == old(spaces)
      ensures State() == Restarted(old(selRow), old(selCol), if isRestart then old(lit) else Unlit())
    {
      if !isRestart {
        CreateSpaces();
      }
      Deal();
    }

    /** One pass of JumpAvailable's loop: whether direction k offers the piece at
        (r, c) a jump. */
    method JumpToward(r: int, c: int, k: int) returns (found: bool)
      requires Mirrors() && OnBoard(r, c) && board[r][c].Occupied? && 0 <= k < 4
      ensures found == JumpInDir(board, r, c, k)
    {
      CellAt(r, c);
      var cur := spaces[r, c];
      var newRow := r + Differences[k].deltaRow;
      var newCol := c + Differences[k].deltaCol;
      found := false;
      if 0 <= newRow <= 7 && 0 <= newCol <= 7 {
        CellAt(newRow, newCol);
        var over := spaces[newRow, newCol];
        if OwnerOf(over.occupant) == None {
          return;
        }
        if OwnerOf(cur.occupant) != OwnerOf(over.occupant) && !(over.HoldingKing() && !cur.HoldingKing()) {
          newRow := newRow + Differences[k].deltaRow;
          newCol := newCol + Differences[k].deltaCol;
          if 0 <= newRow <= 7 && 0 <= newCol <= 7 {
            CellAt(newRow, newCol);
            if OwnerOf(spaces[newRow, newCol].occupant) == None {
              found := true;
            }
          }
        }
      }
    }

    /** JumpAvailable: whether the piece on `space` has a jump. */
    method JumpAvailable(space: BoardSpace) returns (found: bool)
      requires Mirrors() && space in Cells && space.occupant.Occupied?
      ensures found == MoveRules.JumpAvailable(board, space.row, space.col)
    {
      CellAt(space.row, space.col);
      var start, end;
      if space.HoldingKing() {
        start, end := 0, 3;
      } else if OwnerOf(space.occupant) == Red {
        start, end := 2, 3;
      } else {
        start, end := 0, 1;
      }
      var k := start;
      while k <= end
        invariant start <= k <= end + 1
        invariant forall k': nat | start <= k' < k :: !JumpInDir(board, space.row, space.col, k')
      {
        found := JumpToward(space.row, space.col, k);
        if found {
          return;
        }
        k := k + 1;
      }
      return false;
    }

    /** One pass of GetValidMoveList's loop: what direction k adds for the piece
        at (r, c). */
    method MovesToward(r: int, c: int, k: int) returns (add: seq<ValidMove>)
      requires Mirrors() && OnBoard(r, c) && board[r][c].Occupied? && 0 <= k < 4
      ensures add == MoveInDir(board, r, c, jumpsExist, k)
    {
      CellAt(r, c);
      var piece := spaces[r, c].occupant.piece;
      add := [];
      var d := Differences[k];
      var newRow := r + d.deltaRow;
      var newCol := c + d.deltaCol;
      if 0 <= newRow <= 7 && 0 <= newCol <= 7 {
        CellAt(newRow, newCol);
        var target := spaces[newRow, newCol];
        if OwnerOf(target.occupant) == None {
          if !jumpsExist {
            add := [Step(Pos(newRow, newCol))];
          }
        } else if piece.owner != target.occupant.piece.owner && !(target.occupant.piece.isKing && !piece.isKing) {
          var mayBeJumped := Pos(newRow, newCol);
          newRow := newRow + d.deltaRow;
          newCol := newCol + d.deltaCol;
          if 0 <= newRow <= 7 && 0 <= newCol <= 7 {
            CellAt(newRow, newCol);
            if OwnerOf(spaces[newRow, newCol].occupant) == None {
              add := [Jump(Pos(newRow, newCol), mayBeJumped)];
            }
          }
        }
      }
    }

    /** GetValidMoveList: the moves of the piece on `space`, in the order the
        directions are tried. */
    method GetValidMoveList(space: BoardSpace) returns (moves: seq<ValidMove>)
      requires Mirrors() && space in Cells && space.occupant.Occupied?
      ensures moves == ValidMoveList(board, space.row, space.col, jumpsExist)
    {
      var r, c := space.row, space.col;
      CellAt(r, c);
      var piece := space.occupant.piece;
      moves := [];
      var start, end;
      if piece.isKing {
        start, end := 0, 3;
      } else if piece.owner == Red {
        start, end := 2, 3;
      } else {
        start, end := 0, 1;
      }
      assert start == FirstDiff(piece) && end == LastDiff(piece);
      var i := start;
      while i <= end
        invariant start <= i <= end + 1
        invariant moves == MovesBetween(board, r, c, jumpsExist, start, i)
      {
        var add := MovesToward(r, c, i);
        moves := moves + add;
        i := i + 1;
      }
    }

    /** PiecesCanBeJumped: whether any piece of the side to move has a jump. */
    method PiecesCanBeJumped() returns (found: bool)
      requires Mirrors() && Owned(board)
      ensures found == CanJumpAny(board, curr)
    {
      var i := 0;
      while i < 8
        invariant 0 <= i <= 8
        invariant forall a, b | 0 <= a < i && 0 <= b < 8 :: !CanJumpFrom(board, curr, a, b)
      {
        var j := 0;
        while j < 8
          invariant 0 <= j <= 8
          invariant forall a, b | 0 <= a < 8 && 0 <= b < 8 && (a < i || (a == i && b < j)) ::
            !CanJumpFrom(board, curr, a, b)
        {
          CellAt(i, j);
          var currSpace := spaces[i, j];
          if currSpace.GetOwner() != curr || currSpace.Empty() {
            j := j + 1;
            continue;
          }
          var jump := JumpAvailable(currSpace);
          if jump {
            assert CanJumpFrom(board, curr, i, j);
            return true;
          }
          j := j + 1;
        }
        i := i + 1;
      }
      return false;
    }

    /** GetValidMoves: with a selection, the move list becomes the selected
        piece's; without one nothing changes. */
    method GetValidMoves()
      requires Shell() && Mirrors()
      requires SpaceSelected() ==> board[selRow][selCol].Occupied?
      modifies this`validMoves
      ensures SpaceSelected() ==> validMoves == ValidMoveList(board, selRow, selCol, jumpsExist)
      ensures !SpaceSelected() ==> validMoves == old(validMoves)
    {
      if selCol == -1 || selRow == -1 {
        return;
      }
      validMoves := GetValidMoveList(spaces[selRow, selCol]);
    }

    /** SpaceSelected: a selection exists exactly when it names a cell. */
    predicate SpaceSelected()
      reads this
      ensures Shell() ==> (SpaceSelected() <==> OnBoard(selRow, selCol))
    {
      !(selRow == -1 || selCol == -1)
    }

    /** NextPlayer: Red hands over to Black, and anything else to Red. */
    method NextPlayer()
      modifies this`curr
      ensures curr == Players.NextPlayer(old(curr))
    {
      if curr == Red {
        curr := Black;
      } else {
        curr := Red;
      }
    }

    /** Sets the highlight flag of every destination of ms, in list order. */
    method HighlightMoves(ms: seq<ValidMove>, v: bool)
      requires Mirrors() && Targets(ms)
      modifies this`lit, Cells`isSelected
      ensures Mirrors() && lit == HighlightAll(old(lit), ms, v)
    {
      var i := 0;
      while i < |ms|
        invariant 0 <= i <= |ms|
        invariant Mirrors()
        invariant HighlightAll(lit, ms[i..], v) == HighlightAll(old(lit), ms, v)
      {
        assert ms[i..] == [ms[i]] + ms[i + 1..];
        var to := ms[i].moveTo;
        HighlightAt(to.row, to.col, v);
        i := i + 1;
      }
    }

    /** Sets the highlight flag of the cell (r, c). */
    method HighlightAt(r: int, c: int, v: bool)
      requires Mirrors() && OnBoard(r, c)
      modifies this`lit, Cells`isSelected
      ensures Mirrors() && lit == Turns.Highlight(old(lit), r, c, v)
    {
      spaces[r, c].Highlight(v);
      lit := Turns.Highlight(lit, r, c, v);
    }

    /** SwapPieces between the cells (fr, fc) and (tr, tc), with the ghost board
        following. */
    method SwapAt(fr: int, fc: int, tr: int, tc: int)
      requires Mirrors() && OnBoard(fr, fc) && OnBoard(tr, tc) && (fr != tr || fc != tc)
      modifies this`board, Cells`occupant
      ensures Mirrors()
      ensures var sw := Swapped(old(board)[fr][fc], Zone(fr, fc), old(board)[tr][tc], Zone(tr, tc));
        board == Put(Put(old(board), fr, fc, sw.0), tr, tc, sw.1)
    {
      CellAt(fr, fc);
      CellAt(tr, tc);
      var from := spaces[fr, fc];
      var dest := spaces[tr, tc];
      ghost var sw := Swapped(board[fr][fc], Zone(fr, fc), board[tr][tc], Zone(tr, tc));
      from.SwapPieces(dest);
      board := Put(Put(board, fr, fc, sw.0), tr, tc, sw.1);
      forall c | c in Cells
        ensures Agrees(c)
      {
        if c != from && c != dest {
          assert (c.row != fr || c.col != fc) && (c.row != tr || c.col != tc);
        }
      }
    }

    /** JumpSpace on the cell (r, c), with the ghost board following. */
    method JumpAt(r: int, c: int)
      requires Mirrors() && OnBoard(r, c)
      modifies this`board, Cells`occupant
      ensures Mirrors() && board == Put(old(board), r, c, Vacant)
    {
      CellAt(r, c);
      var x := spaces[r, c];
      x.JumpSpace();
      board := Put(board, r, c, Vacant);
      forall c' | c' in Cells
        ensures Agrees(c')
      {
        if c' != x {
          assert c'.row != r || c'.col != c;
        }
      }
    }

    /** The piece count of the side not to move drops by one. */
    method Decrement()
      modifies this`redCount, this`blkCount
      ensures curr == Red ==> blkCount == old(blkCount) - 1 && redCount == old(redCount)
      ensures curr != Red ==> redCount == old(redCount) - 1 && blkCount == old(blkCount)
    {
      if curr == Red {
        blkCount := blkCount - 1;
      } else {
        redCount := redCount - 1;
      }
    }

    /** The capture part of a jump over `over` landing on `to`: the jumped piece
        leaves, the opponent's count drops by one, and the landing piece is checked
        for a further jump. */
    method Capture(over: Pos, to: Pos)
      requires Mirrors() && OnBoard(over.row, over.col) && OnBoard(to.row, to.col) && over != to
      requires board[to.row][to.col].Occupied?
      modifies this`board, this`redCount, this`blkCount, this`dblJumpExist, Cells`occupant
      ensures Mirrors() && board == Put(old(board), over.row, over.col, Vacant)
      ensures old(curr) == Red ==> blkCount == old(blkCount) - 1 && redCount == old(redCount)
      ensures old(curr) != Red ==> redCount == old(redCount) - 1 && blkCount == old(blkCount)
      ensures board[to.row][to.col].Occupied?
      ensures dblJumpExist == MoveRules.JumpAvailable(board, to.row, to.col)
    {
      JumpAt(over.row, over.col);
      Decrement();
      CellAt(to.row, to.col);
      var again := JumpAvailable(spaces[to.row, to.col]);
      dblJumpExist := again;
    }

    /** The swap and the capture of a move of the selected piece. */
    method ApplyMove(m: ValidMove, ghost s: Game)
      requires s == State() && Mirrors() && Ready(s) && m in s.moves
      modifies this`board, this`redCount, this`blkCount, this`dblJumpExist, Cells`occupant
      ensures Mirrors() && board == MovedBoard(s, m)
      ensures OnBoard(m.moveTo.row, m.moveTo.col) && board[m.moveTo.row][m.moveTo.col].Occupied?
      ensures redCount == (if m.Jump? && s.curr != Red then s.redCount - 1 else s.redCount)
      ensures blkCount == (if m.Jump? && s.curr == Red then s.blkCount - 1 else s.blkCount)
      ensures dblJumpExist == if m.Jump? then MoveRules.JumpAvailable(board, m.moveTo.row, m.moveTo.col) else s.dblJumpExist
    {
      assert OnBoard(m.moveTo.row, m.moveTo.col) && m.moveTo != Pos(selRow, selCol)
          && (m.Jump? ==> OnBoard(m.jumped.row, m.jumped.col) && m.jumped != m.moveTo) by {
        ValidMoveListSound(s.board, s.selRow, s.selCol, s.jumpsExist, m);
      }
      SwapAt(selRow, selCol, m.moveTo.row, m.moveTo.col);
      assert board[m.moveTo.row][m.moveTo.col].Occupied?;
      if m.Jump? {
        Capture(m.jumped, m.moveTo);
      }
    }

    /** Unhighlights the selected cell and every destination of the move list. */
    method ClearHighlights()
      requires Mirrors() && OnBoard(selRow, selCol) && Targets(validMoves)
      modifies this`lit, Cells`isSelected
      ensures Mirrors() && lit == HighlightAll(Turns.Highlight(old(lit), selRow, selCol, false), validMoves, false)
    {
      HighlightAt(selRow, selCol, false);
      HighlightMoves(validMoves, false);
    }

    /** The end of a turn: no selection, the other side to move, and the jumps
        flag rescanned for that side. */
    method EndTurn()
      requires Mirrors() && Owned(board)
      modifies this`selRow, this`selCol, this`curr, this`jumpsExist
      ensures selRow == -1 && selCol == -1 && curr == Players.NextPlayer(old(curr))
      ensures jumpsExist == CanJumpAny(board, curr)
    {
      selCol := -1;
      selRow := -1;
      NextPlayer();
      jumpsExist := PiecesCanBeJumped();
    }

    /** EndTurn as a step of the game. A separate method keeps each proof small:
        EndTurn proves the field updates, this one the whole-state equation. */
    method PassTurn()
      requires Mirrors() && Owned(board)
      modifies this`selRow, this`selCol, this`curr, this`jumpsExist
      ensures Mirrors() && State() == Passed(old(State()))
    {
      EndTurn();
    }

    /** Selects the piece at (r, c): highlights it, computes its moves and
        highlights their destinations. */
    method SelectAt(r: int, c: int)
      requires Mirrors() && OnBoard(r, c) && board[r][c].Occupied?
      modifies this`selRow, this`selCol, this`validMoves, this`lit, Cells`isSelected
      ensures Mirrors() && selRow == r && selCol == c
      ensures validMoves == ValidMoveList(board, r, c, jumpsExist)
      ensures lit == HighlightAll(Turns.Highlight(old(lit), r, c, true), validMoves, true)
    {
      selCol := c;
      selRow := r;
      HighlightAt(r, c, true);
      GetValidMoves();
      HighlightMoves(validMoves, true);
    }

    /** SelectAt as a step of the game. A separate method keeps each proof small:
        SelectAt proves the field updates, this one the whole-state equation. */
    method SelectPiece(r: int, c: int)
      requires Mirrors() && Owned(board) && OnBoard(r, c) && board[r][c].Occupied?
      modifies this`selRow, this`selCol, this`validMoves, this`lit, Cells`isSelected
      ensures Mirrors() && State() == Select(old(State()), r, c)
    {
      SelectAt(r, c);
    }

    /** Drops the selection: unhighlights it and its moves and clears the list. */
    method Deselect()
      requires Mirrors() && OnBoard(selRow, selCol) && Targets(validMoves)
      modifies this`selRow, this`selCol, this`validMoves, this`lit, Cells`isSelected
      ensures Mirrors() && State() == Deselected(old(State()))
    {
      ClearHighlights();
      selCol := -1;
      selRow := -1;
      validMoves := [];
    }

    /** The first half of making the move at entry i of the move list: the swap,
        the capture and the removal of the old highlights. */
    method ApplyAndClear(i: int, ghost s: Game)
      requires s == State() && Mirrors() && Ready(s) && 0 <= i < |validMoves|
      modifies this`board, this`lit, this`redCount, this`blkCount, this`dblJumpExist
      modifies Cells`occupant, Cells`isSelected
      ensures Mirrors() && State() == Applied(s, s.moves[i])
    {
      var m := validMoves[i];
      ApplyMove(m, s);
      ghost var t := State();
      ClearHighlights();
      assert State() == t.(lit := lit);
      AppliedFrom(s, s.moves[i], State());
    }

    /** The body of TryToMakeMove once entry i of the move list has been found. */
    method MakeMove(i: int)
      requires Mirrors() && Ready(State()) && 0 <= i < |validMoves|
      modifies this`board, this`lit, this`redCount, this`blkCount, this`dblJumpExist
      modifies this`selRow, this`selCol, this`curr, this`jumpsExist, this`validMoves
      modifies Cells`occupant, Cells`isSelected
      ensures Mirrors() && State() == Moved(old(State()), old(validMoves[i]))
    {
      ghost var s := State();
      var m := validMoves[i];
      ApplyAndClear(i, s);
      ghost var t := State();
      if !dblJumpExist {
        PassTurn();
      } else {
        SelectPiece(m.moveTo.row, m.moveTo.col);
      }
    }

    /** TryToMakeMove: finds (toRow, toCol) among the destinations of the move
        list and, if it is there, makes that move, then chains or ends the turn. */
    method TryToMakeMove(toRow: int, toCol: int) returns (moveMade: bool)
      requires Valid() && (SpaceSelected() || dblJumpExist)
      modifies this, Cells`occupant, Cells`isSelected
      ensures Valid() && spaces == old(spaces) && Cells == old(Cells)
      ensures (moveMade, State()) == TryMove(old(State()), toRow, toCol)
    {
      ghost var s := State();
      var i := FindMove(validMoves, toRow, toCol);
      moveMade := i < |validMoves|;
      if moveMade {
        assert Ready(s);
        MakeMove(i);
        TryMoveInv(s, toRow, toCol);
      }
    }

    /** SpaceClick: what a click on the cell `clicked` does. */
    method SpaceClick(clicked: BoardSpace)
      requires Valid() && clicked in Cells
      modifies this, Cells`occupant, Cells`isSelected
      ensures Valid() && spaces == old(spaces) && Cells == old(Cells)
      ensures State() == Click(old(State()), clicked.row, clicked.col)
    {
      ghost var s := State();
      ClickInv(s, clicked.row, clicked.col);
      if clicked.selectable {
        if dblJumpExist {
          var made := TryToMakeMove(clicked.row, clicked.col);
          if made {
            return;
          }
        } else if !SpaceSelected() {
          if !clicked.Empty() && clicked.GetOwner() == curr {
            SelectPiece(clicked.row, clicked.col);
          }
        } else if clicked.Empty() {
          var made := TryToMakeMove(clicked.row, clicked.col);
          if made {
            return;
          }
        } else if clicked.row == selRow && clicked.col == selCol {
          Deselect();
        } else if clicked.GetOwner() == curr {
          Deselect();
          SelectPiece(clicked.row, clicked.col);
        }
      }
    }
  }
}
