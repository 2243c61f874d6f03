/** One cell of the board (Checkers/BoardSpace.cs), without its drawing code. */
module Spaces {
  import opened Players
  import opened Markers

  /** Which side a piece must belong to for this cell to crown it. */
  datatype CanKing = No | YesRed | YesBlack

  /** What a cell holds. The source keeps a CheckerMarker reference or null; every
      marker is referenced by exactly one cell and SwapPieces only moves references,
      so the marker's value stands in for the reference. */
  datatype Occupant = Vacant | Occupied(piece: Piece)

  /** GetOwner: the occupant's owner, None for an empty cell. */
  function OwnerOf(o: Occupant): Player {
    match o
    case Vacant => None
    case Occupied(p) => p.owner
  }

  /** A cell's owner is None exactly when it is empty, as long as its piece
      belongs to one of the two sides. */
  lemma OwnerNoneIffVacant(o: Occupant)
    requires o.Occupied? ==> o.piece.owner != None
    ensures OwnerOf(o) == None <==> o.Vacant?
    ensures o.Occupied? ==> OwnerOf(o) == o.piece.owner
  {
  }

  /** PlaceMarker: a new non-king piece for Black or Red, no piece for anyone else. */
  function Placed(owner: Player): (o: Occupant)
    ensures o.Vacant? <==> owner == None
    ensures o.Occupied? ==> o.piece.owner == owner && !o.piece.isKing
  {
    match owner
    case Black => Occupied(NewPiece(Black))
    case Red => Occupied(NewPiece(Red))
    case None => Vacant
  }

  /** A cell of zone `zone` crowns the pieces of `side`. */
  predicate Promotes(zone: CanKing, side: Player) {
    (zone == YesRed && side == Red) || (zone == YesBlack && side == Black)
  }

  /** KingContainedPiece: crowns the piece, if any. */
  function Crowned(o: Occupant): Occupant {
    match o
    case Vacant => Vacant
    case Occupied(p) => Occupied(Kinged(p))
  }

  /** SwapPieces on two distinct cells: the pair (new occupant of this cell, new
      occupant of the other cell). The occupants trade places; then the first piece
      that lands on a cell crowning its side is crowned, this cell checked first. */
  function Swapped(mine: Occupant, myZone: CanKing, theirs: Occupant, theirZone: CanKing): (r: (Occupant, Occupant))
    ensures r.0 == theirs || (theirs.Occupied? && Promotes(myZone, theirs.piece.owner) && r.0 == Crowned(theirs))
    ensures r.1 == mine || (mine.Occupied? && Promotes(theirZone, mine.piece.owner) && r.1 == Crowned(mine))
    ensures r.0 == theirs || r.1 == mine
    ensures OwnerOf(r.0) == OwnerOf(theirs) && OwnerOf(r.1) == OwnerOf(mine)
  {
    if theirs.Occupied? && Promotes(myZone, theirs.piece.owner) then (Crowned(theirs), mine)
    else if mine.Occupied? && Promotes(theirZone, mine.piece.owner) then (theirs, Crowned(mine))
    else (theirs, mine)
  }

  class BoardSpace {
    const row: int
    const col: int
    const selectable: bool
    var occupant: Occupant
    var ableToKing: CanKing
    var isSelected: bool

    constructor (row: int, col: int, owner: Player, selectable: bool)
      ensures this.row == row && this.col == col && this.selectable == selectable
      ensures occupant == Placed(owner) && ableToKing == No && !isSelected
    {
      this.row := row;
      this.col := col;
      this.selectable := selectable;
      isSelected := false;
      ableToKing := No;
      new;
      PlaceMarker(owner);
    }

    /** Sets the promotion zone, on selectable cells only. */
    method IsAbleToKing(ck: CanKing)
      modifies this`ableToKing
      ensures ableToKing == if selectable then ck else old(ableToKing)
    {
      if selectable {
        ableToKing := ck;
      }
    }

    /** Sets the highlight flag, on selectable cells only. */
    method Highlight(isSelected: bool)
      modifies this`isSelected
      ensures this.isSelected == if selectable then isSelected else old(this.isSelected)
    {
      if selectable {
        this.isSelected := isSelected;
      }
    }

    /** The `Owner` property. */
    function GetOwner(): (p: Player)
      reads this
      requires occupant.Occupied? ==> occupant.piece.owner != None
      ensures p == None <==> Empty()
    {
      OwnerOf(occupant)
    }

    /** The `IsEmpty` property. */
    predicate Empty()
      reads this
    {
      occupant.Vacant?
    }

    method PlaceMarker(owner: Player)
      modifies this`occupant
      ensures occupant == Placed(owner)
    {
      if owner == Black {
        occupant := Occupied(NewPiece(Black));
      } else if owner == Red {
        occupant := Occupied(NewPiece(Red));
      } else {
        occupant := Vacant;
      }
    }

    method RemovePiece()
      modifies this`occupant
      ensures occupant == Vacant
    {
      occupant := Vacant;
    }

    /** A jumped cell loses its piece. */
    method JumpSpace()
      modifies this`occupant
      ensures occupant == Vacant
    {
      RemovePiece();
    }

    method KingContainedPiece()
      modifies this`occupant
      ensures occupant == Crowned(old(occupant))
    {
      if occupant.Occupied? {
        occupant := Occupied(Kinged(occupant.piece));
      }
    }

    method SwapPieces(b: BoardSpace)
      modifies this`occupant, b`occupant
      ensures b != this ==> (occupant, b.occupant) == Swapped(old(occupant), ableToKing, old(b.occupant), b.ableToKing)
      ensures b == this ==> occupant == Swapped(old(occupant), ableToKing, old(occupant), ableToKing).0
    {
      var temp := b.occupant;
      b.SetPiece(occupant);
      occupant := temp;
      if !Empty() && ableToKing == YesRed && occupant.piece.owner == Red {
        KingContainedPiece();
      } else if !Empty() && ableToKing == YesBlack && occupant.piece.owner == Black {
        KingContainedPiece();
      } else if !b.Empty() && b.ableToKing == YesBlack && b.occupant.piece.owner == Black {
        b.KingContainedPiece();
      } else if !b.Empty() && b.ableToKing == YesRed && b.occupant.piece.owner == Red {
        b.KingContainedPiece();
      }
    }

    method SetPiece(o: Occupant)
      modifies this`occupant
      ensures occupant == o
    {
      occupant := o;
    }

    /** Whether the cell holds a king; the source dereferences the occupant, so the
        cell must not be empty. */
    function HoldingKing(): (k: bool)
      reads this
      requires occupant.Occupied?
      ensures k <==> Crowned(occupant) == occupant
    {
      occupant.piece.isKing
    }
  }
}
