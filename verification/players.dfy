/** The two sides of a two-player game, as the game-state interface numbers them. */
module Players {

  datatype PlayerId = First | Second

  /** The side that is not `p`: the player who made the last move when `p` is to move. */
  function Other(p: PlayerId): (q: PlayerId)
    ensures q != p
  {
    if p == First then Second else First
  }

  /** Flipping the side twice gives the side back. */
  lemma OtherInvolution(p: PlayerId)
    ensures Other(Other(p)) == p
  {
  }
}
