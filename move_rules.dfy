/** The move generator of GameBoard (Checkers/GameBoard.cs): the direction table,
    the legal destinations of a piece, jump detection for one piece and for a side. */
module MoveRules {
  import opened Players
  import opened Markers
  import opened Spaces

  /** A cell coordinate. */
  datatype Pos = Pos(row: int, col: int)

  /** The occupants of the 8x8 grid, indexed [row][col]. */
  type Grid = seq<seq<Occupant>>

  predicate IsGrid(g: Grid) {
    |g| == 8 && forall i :: 0 <= i < 8 ==> |g[i]| == 8
  }

  predicate OnBoard(r: int, c: int) {
    0 <= r <= 7 && 0 <= c <= 7
  }

  /** The selectable cells: (row + col) even. Pieces are only ever placed there. */
  predicate Playable(r: int, c: int) {
    (r + c) % 2 == 0
  }

  /** Every piece on the grid belongs to Red or Black. */
  predicate Owned(g: Grid)
    requires IsGrid(g)
  {
    forall i, j | 0 <= i < 8 && 0 <= j < 8 :: g[i][j].Occupied? ==> g[i][j].piece.owner != None
  }

  /** One diagonal direction (the `MoveDiffs` struct). */
  datatype MoveDiffs = MoveDiffs(deltaRow: int, deltaCol: int)

  /** The `Differences` table: the two row+1 diagonals first, the two row-1 diagonals last. */
  const Differences: seq<MoveDiffs> := [MoveDiffs(1, 1), MoveDiffs(1, -1), MoveDiffs(-1, -1), MoveDiffs(-1, 1)]

  /** An entry of the valid-move list: a step, or a jump over the `jumped` cell
      (the source's `ValidMove` with a null or non-null ToBeJumped). */
  datatype ValidMove = Step(moveTo: Pos) | Jump(moveTo: Pos, jumped: Pos)

  /** First and last index into Differences that a piece considers: all four for a
      king, the last two for a red piece, the first two otherwise. */
  function FirstDiff(p: Piece): nat {
    if p.isKing then 0 else if p.owner == Red then 2 else 0
  }

  function LastDiff(p: Piece): nat {
    if p.isKing then 3 else if p.owner == Red then 3 else 1
  }

  /** The directions a piece considers: every diagonal for a king, only row-1
      diagonals for a red piece, only row+1 diagonals for any other piece. */
  lemma DirectionSets(p: Piece, k: nat)
    requires k < 4
    ensures FirstDiff(p) <= k <= LastDiff(p) <==>
      (p.isKing || (p.owner == Red && Differences[k].deltaRow == -1) || (p.owner != Red && Differences[k].deltaRow == 1))
  {
  }

  /** The mover may jump the target: they belong to different sides, and a
      non-king never jumps a king. */
  predicate MayJump(mover: Piece, target: Piece) {
    mover.owner != target.owner && !(target.isKing && !mover.isKing)
  }

  /** What direction k adds to GetValidMoveList for the piece at (r, c): a step to an
      empty neighbour when no jumps exist, or a jump over a neighbour the piece may
      take to the empty cell beyond it. */
  function MoveInDir(g: Grid, r: int, c: int, jumpsExist: bool, k: nat): seq<ValidMove>
    requires IsGrid(g) && OnBoard(r, c) && g[r][c].Occupied? && k < 4
  {
    var d := Differences[k];
    var ar, ac := r + d.deltaRow, c + d.deltaCol;
    if !OnBoard(ar, ac) then []
    else if OwnerOf(g[ar][ac]) == None then
      if !jumpsExist then [Step(Pos(ar, ac))] else []
    else if MayJump(g[r][c].piece, g[ar][ac].piece) then
      var lr, lc := ar + d.deltaRow, ac + d.deltaCol;
      if OnBoard(lr, lc) && OwnerOf(g[lr][lc]) == None then [Jump(Pos(lr, lc), Pos(ar, ac))] else []
    else []
  }

  /** The entries of directions lo .. hi-1, in table order. */
  function MovesBetween(g: Grid, r: int, c: int, jumpsExist: bool, lo: nat, hi: nat): (ms: seq<ValidMove>)
    requires IsGrid(g) && OnBoard(r, c) && g[r][c].Occupied? && lo <= hi <= 4
    ensures forall m :: m in ms ==> OnBoard(m.moveTo.row, m.moveTo.col)
    ensures forall m :: m in ms && m.Jump? ==> OnBoard(m.jumped.row, m.jumped.col)
    decreases hi
  {
    if lo == hi then []
    else MovesBetween(g, r, c, jumpsExist, lo, hi - 1) + MoveInDir(g, r, c, jumpsExist, hi - 1)
  }

  /** GetValidMoveList: the valid-move list of the piece at (r, c). */
  function ValidMoveList(g: Grid, r: int, c: int, jumpsExist: bool): seq<ValidMove>
    requires IsGrid(g) && OnBoard(r, c) && g[r][c].Occupied?
  {
    var p := g[r][c].piece;
    MovesBetween(g, r, c, jumpsExist, FirstDiff(p), LastDiff(p) + 1)
  }

  /** Whether direction k offers the piece at (r, c) a jump (the body of JumpAvailable's loop). */
  predicate JumpInDir(g: Grid, r: int, c: int, k: nat)
    requires IsGrid(g) && OnBoard(r, c) && g[r][c].Occupied? && k < 4
  {
    var d := Differences[k];
    var ar, ac := r + d.deltaRow, c + d.deltaCol;
    && OnBoard(ar, ac)
    && OwnerOf(g[ar][ac]) != None
    && MayJump(g[r][c].piece, g[ar][ac].piece)
    && OnBoard(ar + d.deltaRow, ac + d.deltaCol)
    && OwnerOf(g[ar + d.deltaRow][ac + d.deltaCol]) == None
  }

  /** JumpAvailable: some direction the piece at (r, c) considers offers a jump. */
  predicate JumpAvailable(g: Grid, r: int, c: int)
    requires IsGrid(g) && OnBoard(r, c) && g[r][c].Occupied?
  {
    var p := g[r][c].piece;
    exists k: nat :: FirstDiff(p) <= k <= LastDiff(p) && JumpInDir(g, r, c, k)
  }

  /** The cell (i, j) holds a piece of side p that can jump. */
  predicate CanJumpFrom(g: Grid, p: Player, i: int, j: int)
    requires IsGrid(g) && OnBoard(i, j)
  {
    g[i][j].Occupied? && OwnerOf(g[i][j]) == p && JumpAvailable(g, i, j)
  }

  /** PiecesCanBeJumped: some piece of side p can jump. */
  predicate CanJumpAny(g: Grid, p: Player)
    requires IsGrid(g)
  {
    exists i, j | 0 <= i < 8 && 0 <= j < 8 :: CanJumpFrom(g, p, i, j)
  }

  /** The shape an entry of direction k must have: a step to the empty neighbour
      (only when no jumps exist), or a jump over an opposing neighbour the mover may
      take to the empty cell beyond it. */
  predicate Fits(g: Grid, r: int, c: int, jumpsExist: bool, k: nat, m: ValidMove)
    requires IsGrid(g) && OnBoard(r, c) && g[r][c].Occupied? && k < 4
  {
    var d := Differences[k];
    var near := Pos(r + d.deltaRow, c + d.deltaCol);
    var far := Pos(r + 2 * d.deltaRow, c + 2 * d.deltaCol);
    match m
    case Step(to) =>
      && !jumpsExist && to == near
      && OnBoard(to.row, to.col) && g[to.row][to.col].Vacant?
    case Jump(to, over) =>
      && over == near && to == far
      && OnBoard(over.row, over.col) && OnBoard(to.row, to.col)
      && g[over.row][over.col].Occupied?
      && MayJump(g[r][c].piece, g[over.row][over.col].piece)
      && g[to.row][to.col].Vacant?
  }

  lemma MoveInDirExact(g: Grid, r: int, c: int, jumpsExist: bool, k: nat, m: ValidMove)
    requires IsGrid(g) && Owned(g) && OnBoard(r, c) && g[r][c].Occupied? && k < 4
    ensures m in MoveInDir(g, r, c, jumpsExist, k) <==> Fits(g, r, c, jumpsExist, k, m)
  {
    var d := Differences[k];
    var ar, ac := r + d.deltaRow, c + d.deltaCol;
    if OnBoard(ar, ac) {
      OwnerNoneIffVacant(g[ar][ac]);
      if OnBoard(ar + d.deltaRow, ac + d.deltaCol) {
        OwnerNoneIffVacant(g[ar + d.deltaRow][ac + d.deltaCol]);
      }
    }
  }

  lemma {:induction false} MovesBetweenExact(g: Grid, r: int, c: int, jumpsExist: bool, lo: nat, hi: nat, m: ValidMove)
    requires IsGrid(g) && Owned(g) && OnBoard(r, c) && g[r][c].Occupied? && lo <= hi <= 4
    ensures m in MovesBetween(g, r, c, jumpsExist, lo, hi) <==> exists k: nat :: lo <= k < hi && Fits(g, r, c, jumpsExist, k, m)
    decreases hi
  {
    if lo < hi {
      MovesBetweenExact(g, r, c, jumpsExist, lo, hi - 1, m);
      MoveInDirExact(g, r, c, jumpsExist, hi - 1, m);
    }
  }

  /** An entry is in the valid-move list exactly when it has the shape of a step or
      jump in one of the directions the piece considers: the list is sound and complete. */
  lemma ValidMoveListExact(g: Grid, r: int, c: int, jumpsExist: bool, m: ValidMove)
    requires IsGrid(g) && Owned(g) && OnBoard(r, c) && g[r][c].Occupied?
    ensures m in ValidMoveList(g, r, c, jumpsExist) <==>
      exists k: nat :: FirstDiff(g[r][c].piece) <= k <= LastDiff(g[r][c].piece) && Fits(g, r, c, jumpsExist, k, m)
  {
    var p := g[r][c].piece;
    MovesBetweenExact(g, r, c, jumpsExist, FirstDiff(p), LastDiff(p) + 1, m);
  }

  /** Every entry lands on an empty cell of the board: a step one diagonal away, a
      jump two diagonals away over an opposing piece the mover may take; a
      non-king black piece only moves to higher rows, a non-king red piece only to
      lower rows. */
  lemma ValidMoveListSound(g: Grid, r: int, c: int, jumpsExist: bool, m: ValidMove)
    requires IsGrid(g) && Owned(g) && OnBoard(r, c) && g[r][c].Occupied?
    requires m in ValidMoveList(g, r, c, jumpsExist)
    ensures OnBoard(m.moveTo.row, m.moveTo.col) && g[m.moveTo.row][m.moveTo.col].Vacant?
    ensures m.Step? ==> !jumpsExist && (m.moveTo.row - r == 1 || m.moveTo.row - r == -1)
                                    && (m.moveTo.col - c == 1 || m.moveTo.col - c == -1)
    ensures m.Jump? ==>
      && (m.jumped.row - r == 1 || m.jumped.row - r == -1)
      && (m.jumped.col - c == 1 || m.jumped.col - c == -1)
      && m.moveTo.row == 2 * m.jumped.row - r && m.moveTo.col == 2 * m.jumped.col - c
      && OnBoard(m.jumped.row, m.jumped.col)
      && g[m.jumped.row][m.jumped.col].Occupied?
      && g[m.jumped.row][m.jumped.col].piece.owner != g[r][c].piece.owner
      && (g[r][c].piece.isKing || !g[m.jumped.row][m.jumped.col].piece.isKing)
    ensures !g[r][c].piece.isKing && g[r][c].piece.owner == Black ==> m.moveTo.row > r
    ensures !g[r][c].piece.isKing && g[r][c].piece.owner == Red ==> m.moveTo.row < r
  {
    ValidMoveListExact(g, r, c, jumpsExist, m);
    var k: nat :| FirstDiff(g[r][c].piece) <= k <= LastDiff(g[r][c].piece) && Fits(g, r, c, jumpsExist, k, m);
  }

  /** The capture gate: while jumps exist the list holds jumps only. */
  lemma CaptureGate(g: Grid, r: int, c: int, m: ValidMove)
    requires IsGrid(g) && Owned(g) && OnBoard(r, c) && g[r][c].Occupied?
    requires m in ValidMoveList(g, r, c, true)
    ensures m.Jump?
  {
    ValidMoveListSound(g, r, c, true, m);
  }

  /** Jump entries do not depend on the jumps-exist flag. */
  lemma JumpsIgnoreFlag(g: Grid, r: int, c: int, m: ValidMove)
    requires IsGrid(g) && Owned(g) && OnBoard(r, c) && g[r][c].Occupied? && m.Jump?
    ensures m in ValidMoveList(g, r, c, true) <==> m in ValidMoveList(g, r, c, false)
  {
    ValidMoveListExact(g, r, c, true, m);
    ValidMoveListExact(g, r, c, false, m);
    var p := g[r][c].piece;
    if m in ValidMoveList(g, r, c, false) {
      var k: nat :| FirstDiff(p) <= k <= LastDiff(p) && Fits(g, r, c, false, k, m);
      assert Fits(g, r, c, true, k, m);
    }
    if m in ValidMoveList(g, r, c, true) {
      var k: nat :| FirstDiff(p) <= k <= LastDiff(p) && Fits(g, r, c, true, k, m);
      assert Fits(g, r, c, false, k, m);
    }
  }

  /** A non-king's jump never captures a king. */
  lemma NonKingNeverJumpsKing(g: Grid, r: int, c: int, jumpsExist: bool, m: ValidMove)
    requires IsGrid(g) && Owned(g) && OnBoard(r, c) && g[r][c].Occupied? && !g[r][c].piece.isKing
    requires m in ValidMoveList(g, r, c, jumpsExist) && m.Jump?
    ensures OnBoard(m.jumped.row, m.jumped.col) && g[m.jumped.row][m.jumped.col].Occupied?
    ensures !g[m.jumped.row][m.jumped.col].piece.isKing
  {
    ValidMoveListSound(g, r, c, jumpsExist, m);
  }

  /** Every destination of a piece on a selectable cell is selectable. */
  lemma DestinationPlayable(g: Grid, r: int, c: int, jumpsExist: bool, m: ValidMove)
    requires IsGrid(g) && Owned(g) && OnBoard(r, c) && g[r][c].Occupied? && Playable(r, c)
    requires m in ValidMoveList(g, r, c, jumpsExist)
    ensures Playable(m.moveTo.row, m.moveTo.col)
  {
    ValidMoveListSound(g, r, c, jumpsExist, m);
    if m.Step? {
      DisplacementParity(r, c, m.moveTo.row, m.moveTo.col, true, 0, 0);
    } else {
      DisplacementParity(r, c, m.moveTo.row, m.moveTo.col, false, m.jumped.row, m.jumped.col);
    }
  }

  /** A diagonal step, or a jump over a diagonal neighbour, keeps the parity of the coordinate sum. */
  lemma DisplacementParity(r: int, c: int, tr: int, tc: int, step: bool, jr: int, jc: int)
    requires step ==> (tr - r == 1 || tr - r == -1) && (tc - c == 1 || tc - c == -1)
    requires !step ==> (jr - r == 1 || jr - r == -1) && (jc - c == 1 || jc - c == -1)
                       && tr == 2 * jr - r && tc == 2 * jc - c
    ensures (tr + tc) % 2 == (r + c) % 2
  {
    var d := (tr + tc) - (r + c);
    assert d == -4 || d == -2 || d == 0 || d == 2 || d == 4;
    EvenShift(r + c, d);
  }

  /** Moving the coordinate sum by an even amount of at most four keeps its parity. */
  lemma EvenShift(a: int, d: int)
    requires d == -4 || d == -2 || d == 0 || d == 2 || d == 4
    ensures (a + d) % 2 == a % 2
  {
  }

  /** A direction with a jump puts that jump in the valid-move list. */
  lemma JumpListed(g: Grid, r: int, c: int, jumpsExist: bool, k: nat)
    requires IsGrid(g) && Owned(g) && OnBoard(r, c) && g[r][c].Occupied?
    requires FirstDiff(g[r][c].piece) <= k <= LastDiff(g[r][c].piece) && JumpInDir(g, r, c, k)
    ensures exists m :: m in ValidMoveList(g, r, c, jumpsExist) && m.Jump?
  {
    var d := Differences[k];
    var m := Jump(Pos(r + 2 * d.deltaRow, c + 2 * d.deltaCol), Pos(r + d.deltaRow, c + d.deltaCol));
    OwnerNoneIffVacant(g[r + 2 * d.deltaRow][c + 2 * d.deltaCol]);
    assert Fits(g, r, c, jumpsExist, k, m);
    ValidMoveListExact(g, r, c, jumpsExist, m);
  }

  /** A jump in the valid-move list comes from a direction with a jump. */
  lemma ListedJump(g: Grid, r: int, c: int, jumpsExist: bool, m: ValidMove)
    requires IsGrid(g) && Owned(g) && OnBoard(r, c) && g[r][c].Occupied?
    requires m in ValidMoveList(g, r, c, jumpsExist) && m.Jump?
    ensures JumpAvailable(g, r, c)
  {
    var p := g[r][c].piece;
    ValidMoveListExact(g, r, c, jumpsExist, m);
    var k: nat :| FirstDiff(p) <= k <= LastDiff(p) && Fits(g, r, c, jumpsExist, k, m);
    assert JumpInDir(g, r, c, k);
  }

  /** JumpAvailable holds exactly when the valid-move list has a jump entry,
      whatever the jumps-exist flag. */
  lemma JumpAvailableIffListed(g: Grid, r: int, c: int, jumpsExist: bool)
    requires IsGrid(g) && Owned(g) && OnBoard(r, c) && g[r][c].Occupied?
    ensures JumpAvailable(g, r, c) <==> exists m :: m in ValidMoveList(g, r, c, jumpsExist) && m.Jump?
  {
    var p := g[r][c].piece;
    if JumpAvailable(g, r, c) {
      var k: nat :| FirstDiff(p) <= k <= LastDiff(p) && JumpInDir(g, r, c, k);
      JumpListed(g, r, c, jumpsExist, k);
    }
    if exists m :: m in ValidMoveList(g, r, c, jumpsExist) && m.Jump? {
      var m :| m in ValidMoveList(g, r, c, jumpsExist) && m.Jump?;
      ListedJump(g, r, c, jumpsExist, m);
    }
  }
}
