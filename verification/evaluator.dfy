/**
 * The static evaluator the game tree scores positions with. Scores are
 * from the first player's point of view: positive favours the first
 * player. A finished game scores the win value; otherwise the score says
 * whether the position is likely won for the player who just moved. A
 * small bonus for the size of the last move is added on top.
 */
module NimEvaluator {
  import opened Wrappers
  import opened Players
  import opened GameRules
  import opened Boards
  import opened NimStates
  import opened ZHashing
  import opened NimSums
  import opened BitwiseXor

  /** The score of a won game. */
  const WIN_VALUE: int := 10000
  /** The score of a position that is likely won. */
  const LIKELY_WIN_VALUE: int := 5000

  /** The score that means the first player has won. */
  function FirstPlayerWinsValue(): (r: int)
    ensures r > 0 && r > LIKELY_WIN_VALUE + MAX_OBJECTS
  {
    WIN_VALUE
  }

  /** The score that means the second player has won: the first player's, negated. */
  function SecondPlayerWinsValue(): (r: int)
    ensures r == -FirstPlayerWinsValue()
  {
    -WIN_VALUE
  }

  /**
   * The value `v` counted in favour of `p`, seen from the first player's
   * side: it keeps its size, and it is positive exactly when it is a gain
   * for the first player.
   */
  function Favour(p: PlayerId, v: int): (r: int)
    ensures r == v || r == -v
    ensures r > 0 <==> (p == First && v > 0) || (p == Second && v < 0)
  {
    if p.First? then v else -v
  }

  /** A value in favour of one player is the negation of the same value in favour of the other. */
  lemma FavourOther(p: PlayerId, v: int)
    ensures Favour(Other(p), v) == -Favour(p, v)
    ensures Favour(p, -v) == -Favour(p, v)
  {
  }

  /**
   * The score of a position likely won (`wins`) or likely lost for the
   * player who just moved: LIKELY_WIN_VALUE in that player's favour
   * exactly when it is won.
   */
  function MoverScore(s: NimState, wins: bool): (r: int)
    ensures r == LIKELY_WIN_VALUE || r == -LIKELY_WIN_VALUE
    ensures wins <==> r == Favour(Other(s.nextPlayer), LIKELY_WIN_VALUE)
    ensures r > 0 <==> (wins <==> s.nextPlayer == Second)
  {
    Favour(Other(s.nextPlayer), if wins then LIKELY_WIN_VALUE else -LIKELY_WIN_VALUE)
  }

  /**
   * Misere: with exactly one heap above one object the player who just
   * moved is losing; with none, that player is winning exactly when an odd
   * number of heaps is left (the nim-sum is not 0); otherwise that player
   * is winning exactly when the nim-sum is 0.
   */
  function EvaluateMisere(s: NimState): (r: int)
    requires Valid(s.board)
    ensures r == LIKELY_WIN_VALUE || r == -LIKELY_WIN_VALUE
    ensures CountAbove(s.board.heaps, 1) == 1 ==> r == Favour(Other(s.nextPlayer), -LIKELY_WIN_VALUE)
    ensures CountAbove(s.board.heaps, 1) == 0 ==>
      (r == Favour(Other(s.nextPlayer), LIKELY_WIN_VALUE) <==> Count(s.board) % 2 == 1)
    ensures CountAbove(s.board.heaps, 1) >= 2 ==>
      (r == Favour(Other(s.nextPlayer), LIKELY_WIN_VALUE) <==> NimSum(s.board) == 0)
    ensures r == Favour(Other(s.nextPlayer), LIKELY_WIN_VALUE) <==> MisereLosing(s.board)
  {
    var significant := CountAbove(s.board.heaps, 1);
    MisereCases(s.board);
    if significant == 1 then MoverScore(s, false)
    else if significant == 0 then MoverScore(s, NimSum(s.board) != 0)
    else MoverScore(s, NimSum(s.board) == 0)
  }

  /** With no heap above one object the nim-sum is not 0 exactly when an odd number of heaps is left. */
  lemma MisereCases(b: Board)
    requires Valid(b)
    ensures CountAbove(b.heaps, 1) == 0 ==> (NimSum(b) != 0 <==> Count(b) % 2 == 1)
  {
    if CountAbove(b.heaps, 1) == 0 {
      MisereOnesParity(b);
    }
  }

  /** Normal play: the player who just moved is winning exactly when the nim-sum is 0. */
  function EvaluateNormal(s: NimState): (r: int)
    requires Valid(s.board)
    ensures r == LIKELY_WIN_VALUE || r == -LIKELY_WIN_VALUE
    ensures r == Favour(Other(s.nextPlayer), LIKELY_WIN_VALUE) <==> NimSum(s.board) == 0
  {
    MoverScore(s, NimSum(s.board) == 0)
  }

  /**
   * Subtraction: no opinion (0) when more than one object may be removed
   * per turn; otherwise the player who just moved is winning exactly when
   * the heap is a multiple of the limit plus one. Only whether the
   * remainder is zero matters, so the sign convention of the remainder
   * does not.
   */
  function EvaluateSubtract(rules: Rules, s: NimState): (r: int)
    requires Valid(s.board)
    requires rules.removalLimit != -1
    ensures rules.removalLimit > 1 ==> r == 0
    ensures rules.removalLimit <= 1 ==>
      && (r == LIKELY_WIN_VALUE || r == -LIKELY_WIN_VALUE)
      && (r == Favour(Other(s.nextPlayer), LIKELY_WIN_VALUE) <==> s.board.heaps[0] % (rules.removalLimit + 1) == 0)
  {
    if rules.removalLimit > 1 then 0
    else MoverScore(s, Heap(s.board, 0) % (rules.removalLimit + 1) == 0)
  }

  /** The score before the last-move bonus: the win value for a finished game, at most a likely win otherwise. */
  function BaseScore(rules: Rules, s: NimState): (r: int)
    requires WellFormed(s)
    requires rules.variation == Subtract && !IsGameOver(s) ==> rules.removalLimit != -1
    ensures IsGameOver(s) ==> r == Favour(Winner(s).value, WIN_VALUE)
    ensures !IsGameOver(s) ==> -LIKELY_WIN_VALUE <= r <= LIKELY_WIN_VALUE
    ensures !IsGameOver(s) && rules.variation == Misere ==>
      (r == Favour(Other(s.nextPlayer), LIKELY_WIN_VALUE) <==> MisereLosing(s.board))
    ensures !IsGameOver(s) && rules.variation == Normal ==>
      (r == Favour(Other(s.nextPlayer), LIKELY_WIN_VALUE) <==> NimSum(s.board) == 0)
    ensures !IsGameOver(s) && rules.variation == Subtract && rules.removalLimit > 1 ==> r == 0
    ensures !IsGameOver(s) && rules.variation == Subtract && rules.removalLimit <= 1 ==>
      (r == Favour(Other(s.nextPlayer), LIKELY_WIN_VALUE) <==> s.board.heaps[0] % (rules.removalLimit + 1) == 0)
  {
    if IsGameOver(s) then Favour(Winner(s).value, WIN_VALUE)
    else match rules.variation
      case Misere => EvaluateMisere(s)
      case Normal => EvaluateNormal(s)
      case Subtract => EvaluateSubtract(rules, s)
  }

  /** The bonus of `n` for the player who just removed `n` objects, if there was a move. */
  function Bonus(s: NimState): (r: int)
    requires WellFormed(s)
    ensures -MAX_OBJECTS <= r <= MAX_OBJECTS
  {
    if s.lastMove.Some? then Favour(Other(s.nextPlayer), s.lastMove.value.n) else 0
  }

  /**
   * The evaluator's score. A finished game's score is decisive, with the
   * winner's sign, and a score that is not decisive lies strictly inside
   * the band between the two win values.
   */
  function Evaluate(rules: Rules, s: NimState): (r: int)
    requires WellFormed(s)
    requires rules.variation == Subtract && !IsGameOver(s) ==> rules.removalLimit != -1
    ensures IsGameOver(s) && Winner(s) == Some(First) ==> r >= FirstPlayerWinsValue() - MAX_OBJECTS
    ensures IsGameOver(s) && Winner(s) == Some(Second) ==> r <= SecondPlayerWinsValue() + MAX_OBJECTS
    ensures !IsGameOver(s) ==> -(LIKELY_WIN_VALUE + MAX_OBJECTS) <= r <= LIKELY_WIN_VALUE + MAX_OBJECTS
    ensures s.lastMove.None? ==> r == BaseScore(rules, s)
    ensures s.lastMove.Some? ==> r - BaseScore(rules, s) == Favour(Other(s.nextPlayer), s.lastMove.value.n)
  {
    BaseScore(rules, s) + Bonus(s)
  }

  /**
   * Seen from the other side: the base score of an unfinished position
   * with the turn handed to the other player is the negation.
   */
  lemma BaseScoreAntisymmetric(rules: Rules, s: NimState)
    requires WellFormed(s) && !IsGameOver(s)
    requires rules.variation == Subtract ==> rules.removalLimit != -1
    ensures BaseScore(rules, s.(nextPlayer := Other(s.nextPlayer))) == -BaseScore(rules, s)
  {
  }

  /**
   * Normal play: the score favours the player who just moved exactly when
   * no reply reaches nim-sum 0, the losing positions for the side to move
   * by Bouton's theorem.
   */
  lemma NormalScoreMeaning(rules: Rules, s: NimState)
    requires WellFormed(s) && !IsGameOver(s) && rules.variation == Normal
    ensures BaseScore(rules, s) == Favour(Other(s.nextPlayer), LIKELY_WIN_VALUE)
        <==> forall i, n :: IsLegal(s.board, i, n) ==> NimSum(Remove(s.board, i, n).0) != 0
  {
    if NimSum(s.board) == 0 {
      forall i, n | IsLegal(s.board, i, n)
        ensures NimSum(Remove(s.board, i, n).0) != 0
      {
        RemoveChangesNimSum(s.board, i, n);
      }
    } else {
      var i, n := WinningMoveExists(s.board);
    }
  }

  /**
   * Misere: the score favours the player who just moved exactly when every
   * reply of the side to move leaves a position in which the player who
   * just moved is not losing; so the rule marks exactly the positions lost
   * for the side to move.
   */
  lemma MisereScoreMeaning(rules: Rules, s: NimState)
    requires WellFormed(s) && !IsGameOver(s) && rules.variation == Misere
    ensures BaseScore(rules, s) == Favour(Other(s.nextPlayer), LIKELY_WIN_VALUE)
        <==> forall i, n :: IsLegal(s.board, i, n) ==> !MisereLosing(Remove(s.board, i, n).0)
  {
    MisereLosingIsExact(s.board);
  }

  /**
   * Misere with exactly one heap above one object, scored as lost for the
   * player who just moved: the side to move has a reply that leaves only
   * single objects, an odd number of them, which the rule scores as won
   * for that side.
   */
  lemma MisereOneBigHeapScore(t: ZTable, rules: Rules, s: NimState) returns (i: int, n: int)
    requires ValidTable(t) && WellFormed(s) && !IsGameOver(s) && rules.variation == Misere
    requires CountAbove(s.board.heaps, 1) == 1
    ensures BaseScore(rules, s) == Favour(s.nextPlayer, LIKELY_WIN_VALUE)
    ensures IsLegal(s.board, i, n)
    ensures var r := Play(t, s, i, n);
      !IsGameOver(r) && BaseScore(rules, r) == Favour(s.nextPlayer, LIKELY_WIN_VALUE)
  {
    OneBigHeapBaseScore(rules, s);
    i, n := MisereOneBigHeapReply(s.board);
    var r := Play(t, s, i, n);
    LosingBaseScore(rules, r);
    OtherInvolution(s.nextPlayer);
  }

  /** Misere with exactly one heap above one object: the score favours the side to move. */
  lemma OneBigHeapBaseScore(rules: Rules, s: NimState)
    requires WellFormed(s) && !IsGameOver(s) && rules.variation == Misere
    requires CountAbove(s.board.heaps, 1) == 1
    ensures BaseScore(rules, s) == Favour(s.nextPlayer, LIKELY_WIN_VALUE)
  {
    FavourOther(Other(s.nextPlayer), LIKELY_WIN_VALUE);
    OtherInvolution(s.nextPlayer);
  }

  /** Misere: an unfinished position losing for the side to move scores for the player who just moved. */
  lemma LosingBaseScore(rules: Rules, s: NimState)
    requires WellFormed(s) && rules.variation == Misere
    requires MisereLosing(s.board) && Count(s.board) != 0
    ensures !IsGameOver(s) && BaseScore(rules, s) == Favour(Other(s.nextPlayer), LIKELY_WIN_VALUE)
  {
  }

  /** Subtraction one object at a time: the score favours the player who just moved exactly when the heap is even. */
  lemma SubtractOneAtATimeScore(rules: Rules, s: NimState)
    requires WellFormed(s) && !IsGameOver(s)
    requires rules.variation == Subtract && rules.removalLimit == 1
    ensures BaseScore(rules, s) == Favour(Other(s.nextPlayer), LIKELY_WIN_VALUE) <==> s.board.heaps[0] % 2 == 0
  {
  }
}
