/** A checker piece (Checkers/CheckerMarker.cs), without its drawing code. */
module Markers {
  import opened Players

  /** The state of a CheckerMarker: whose piece it is and whether it is a king. */
  datatype Piece = Piece(owner: Player, isKing: bool)

  /** The state of a freshly made marker. */
  function NewPiece(owner: Player): Piece {
    Piece(owner, false)
  }

  /** The state of a marker after KingMe. */
  function Kinged(p: Piece): Piece {
    p.(isKing := true)
  }

  /** Crowning twice is crowning once, and the owner is kept. */
  lemma KingedIdempotent(p: Piece)
    ensures Kinged(Kinged(p)) == Kinged(p)
    ensures Kinged(p).owner == p.owner && Kinged(p).isKing
  {
  }

  /** The mutable marker object itself. */
  class CheckerMarker {
    var owner: Player
    var isKing: bool

    /** The value this marker currently stands for. */
    function Value(): Piece
      reads this
    {
      Piece(owner, isKing)
    }

    constructor (ownedBy: Player)
      ensures owner == ownedBy && !isKing
      ensures Value() == NewPiece(ownedBy)
    {
      owner := ownedBy;
      isKing := false;
    }

    /** The `Owner` setter: changes the owner and nothing else. */
    method SetOwner(p: Player)
      modifies this`owner
      ensures owner == p && isKing == old(isKing)
    {
      owner := p;
    }

    /** The `IsKing` setter: changes the king flag and nothing else. */
    method SetIsKing(k: bool)
      modifies this`isKing
      ensures isKing == k && owner == old(owner)
    {
      isKing := k;
    }

    method KingMe()
      modifies this`isKing
      ensures isKing && owner == old(owner)
      ensures Value() == Kinged(old(Value()))
    {
      isKing := true;
    }
  }
}
