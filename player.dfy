/** The sides of the game (Checkers/GameBoard.cs, enum `Player`). */
module Players {

  /** Who owns a piece, or whose turn it is; `None` marks an empty cell. */
  datatype Player = Red | Black | None

  /** The side that moves next (GameBoard.NextPlayer): Red hands over to Black,
      every other value to Red. */
  function NextPlayer(p: Player): (q: Player)
    ensures q != None && q != p
  {
    if p == Red then Black else Red
  }

  /** Two turn changes give the turn back to the side that had it. */
  lemma NextPlayerInvolution(p: Player)
    requires p != None
    ensures NextPlayer(NextPlayer(p)) == p
  {
  }
}
