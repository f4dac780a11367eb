/** The rule set a game is played under. */
module GameRules {

  /**
   * Misere: whoever takes the last object loses.
   * Normal: whoever takes the last object wins.
   * Subtract: one heap, at most `removalLimit` objects per turn, whoever takes the last object wins.
   */
  datatype Variation = Misere | Normal | Subtract

  /** The variation used when none is named. */
  const DEFAULT_VARIATION: Variation := Misere

  datatype Rules = Rules(variation: Variation, removalLimit: int)
}
