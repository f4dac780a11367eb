/**
 * A Nim position as the game tree sees it: the board, the rule variation,
 * the side to move, the Zobrist fingerprint kept in step with them, and
 * the last move made.
 */
module NimStates {
  import opened Wrappers
  import opened Players
  import opened GameRules
  import opened Boards
  import opened ZHashing

  /** A move: remove `n` objects from heap `i`. */
  datatype Move = Move(i: int, n: int)

  datatype NimState = NimState(
    board: Board,
    variation: Variation,
    nextPlayer: PlayerId,
    zHash: ZHash,
    lastMove: Option<Move>)

  /** The failure the winner query signals for a variation it does not handle. */
  datatype WinnerError = UnknownVariation

  /**
   * The board is valid, and a recorded last move fits the 8-bit fields it
   * is stored in without truncation.
   */
  predicate WellFormed(s: NimState)
  {
    && Valid(s.board)
    && (s.lastMove.Some? ==> 0 <= s.lastMove.value.i < MAX_HEAPS && 0 < s.lastMove.value.n <= MAX_OBJECTS)
  }

  /** The fingerprint equals the hash of the board and side to move computed from scratch. */
  predicate Consistent(t: ZTable, s: NimState)
  {
    ValidTable(t) && WellFormed(s) && s.zHash == HashOf(t, s.board, s.nextPlayer)
  }

  /**
   * The position's fingerprint: its Zobrist hash value. Under any table the
   * fingerprint is kept consistent with, a finished game with the first
   * player to move has the fingerprint of the empty board.
   */
  function Fingerprint(s: NimState): (r: u64)
    ensures forall t :: Consistent(t, s) && IsEmpty(s.board) && s.nextPlayer == First ==> r == EMPTY
  {
    assert forall t :: Consistent(t, s) && IsEmpty(s.board) && s.nextPlayer == First ==> s.zHash.value == EMPTY by {
      forall t | Consistent(t, s) && IsEmpty(s.board) && s.nextPlayer == First
        ensures s.zHash.value == EMPTY
      {
        EmptyBoardHash(t, s.board);
      }
    }
    s.zHash.value
  }

  /** The game is over when the board is empty, which is when no move is legal. */
  function IsGameOver(s: NimState): (r: bool)
    ensures Valid(s.board) ==> (r <==> Count(s.board) == 0)
    ensures Valid(s.board) ==> (r <==> forall i, n :: !IsLegal(s.board, i, n))
  {
    assert Valid(s.board) && !IsEmpty(s.board) ==> exists i :: IsLegal(s.board, i, 1) by {
      if Valid(s.board) && !IsEmpty(s.board) {
        var i :| 0 <= i < |s.board.heaps| && s.board.heaps[i] != 0;
        assert IsLegal(s.board, i, 1);
      }
    }
    IsEmpty(s.board)
  }

  /** A fresh position: board `b`, `p` to move, the fingerprint hashed from scratch, no last move. */
  function NewState(t: ZTable, b: Board, variation: Variation, p: PlayerId): (s: NimState)
    requires ValidTable(t) && Valid(b)
    ensures Consistent(t, s)
    ensures s.board == b && s.variation == variation && s.nextPlayer == p && s.lastMove.None?
  {
    NimState(b, variation, p, HashOf(t, b, p), None)
  }

  /**
   * The winner of a finished game. In misere the side to move wins, since
   * the other side took the last object; in normal play and in the
   * subtraction game the side that took the last object wins.
   */
  function Winner(s: NimState): (r: Option<PlayerId>)
    ensures r.None? <==> !IsGameOver(s)
    ensures r.Some? && s.variation == Misere ==> r.value == s.nextPlayer
    ensures r.Some? && s.variation != Misere ==> r.value == Other(s.nextPlayer)
  {
    if !IsGameOver(s) then None
    else if s.variation == Misere then Some(s.nextPlayer)
    else Some(Other(s.nextPlayer))
  }

  /**
   * The winner query as written: it handles misere and normal play only,
   * and a finished subtraction game reaches its failing assertion.
   */
  function WinnerAsWritten(s: NimState): (r: Result<Option<PlayerId>, WinnerError>)
    ensures r.Failure? <==> IsGameOver(s) && s.variation == Subtract
    ensures r.Success? ==> r.value == Winner(s)
  {
    if !IsGameOver(s) then Success(None)
    else match s.variation
      case Misere => Success(Some(s.nextPlayer))
      case Normal => Success(Some(Other(s.nextPlayer)))
      case Subtract => Failure(UnknownVariation)
  }

  /**
   * Removes `n` objects from heap `i`: updates the board and the
   * fingerprint for the heap, passes the turn and updates the fingerprint
   * for it, and records the move.
   */
  function Play(t: ZTable, s: NimState, i: int, n: int): (r: NimState)
    requires ValidTable(t) && WellFormed(s)
    requires IsLegal(s.board, i, n)
    ensures WellFormed(r)
    ensures r.board == Remove(s.board, i, n).0
    ensures r.variation == s.variation && r.nextPlayer == Other(s.nextPlayer)
    ensures r.lastMove == Some(Move(i, n))
    ensures Consistent(t, s) ==> Consistent(t, r)
  {
    var from := s.board.heaps[i];
    var (b, to) := Remove(s.board, i, n);
    var z := ChangeNextPlayer(t, ChangeHeap(t, s.zHash, i, from, to));
    ChangeHeapMatchesHashOf(t, s.board, s.nextPlayer, i, to);
    ChangeNextPlayerMatchesHashOf(t, b, s.nextPlayer);
    NimState(b, s.variation, Other(s.nextPlayer), z, Some(Move(i, n)))
  }

  /** Plays `ms` in order; `None` when some move is not legal where it is played. */
  function PlayAll(t: ZTable, s: NimState, ms: seq<Move>): (r: Option<NimState>)
    requires ValidTable(t) && WellFormed(s)
    ensures r.Some? ==> WellFormed(r.value) && r.value.variation == s.variation
    ensures r.Some? ==> r.value.nextPlayer == (if |ms| % 2 == 0 then s.nextPlayer else Other(s.nextPlayer))
    ensures r.Some? && Consistent(t, s) ==> Consistent(t, r.value)
    ensures r.Some? && |ms| > 0 ==> r.value.lastMove == Some(ms[|ms| - 1])
    decreases |ms|
  {
    if |ms| == 0 then Some(s)
    else if !IsLegal(s.board, ms[0].i, ms[0].n) then None
    else
      var s' := Play(t, s, ms[0].i, ms[0].n);
      var r := PlayAll(t, s', ms[1..]);
      PlayAllStep(t, s, s', ms, r);
      r
  }

  /** The contract of `PlayAll` carries over from the rest of the moves to all of them. */
  lemma PlayAllStep(t: ZTable, s: NimState, s': NimState, ms: seq<Move>, r: Option<NimState>)
    requires |ms| > 0
    requires s'.variation == s.variation && s'.nextPlayer == Other(s.nextPlayer)
    requires s'.lastMove == Some(ms[0])
    requires Consistent(t, s) ==> Consistent(t, s')
    requires r.Some? ==> WellFormed(r.value) && r.value.variation == s'.variation
    requires r.Some? ==> r.value.nextPlayer == (if |ms[1..]| % 2 == 0 then s'.nextPlayer else Other(s'.nextPlayer))
    requires r.Some? && Consistent(t, s') ==> Consistent(t, r.value)
    requires |ms| == 1 ==> r == Some(s')
    requires r.Some? && |ms[1..]| > 0 ==> r.value.lastMove == Some(ms[1..][|ms[1..]| - 1])
    ensures r.Some? ==> WellFormed(r.value) && r.value.variation == s.variation
    ensures r.Some? ==> r.value.nextPlayer == (if |ms| % 2 == 0 then s.nextPlayer else Other(s.nextPlayer))
    ensures r.Some? && Consistent(t, s) ==> Consistent(t, r.value)
    ensures r.Some? && |ms| > 0 ==> r.value.lastMove == Some(ms[|ms| - 1])
  {
    OtherInvolution(s.nextPlayer);
    NextParity(|ms| - 1);
    assert |ms| > 1 ==> ms[1..][|ms[1..]| - 1] == ms[|ms| - 1];
  }

  /**
   * Positions reached from a consistent start by any two move sequences
   * have equal fingerprints when they have equal boards and sides to move.
   */
  lemma FingerprintDeterminedByPosition(t: ZTable, s: NimState, ms1: seq<Move>, ms2: seq<Move>)
    requires Consistent(t, s)
    requires PlayAll(t, s, ms1).Some? && PlayAll(t, s, ms2).Some?
    requires PlayAll(t, s, ms1).value.board == PlayAll(t, s, ms2).value.board
    requires |ms1| % 2 == |ms2| % 2
    ensures Fingerprint(PlayAll(t, s, ms1).value) == Fingerprint(PlayAll(t, s, ms2).value)
  {
  }

  /**
   * The last move decides a finished game: in misere the player who took
   * the last object loses, otherwise that player wins.
   */
  lemma LastMoverOutcome(t: ZTable, s: NimState, i: int, n: int)
    requires ValidTable(t) && WellFormed(s)
    requires IsLegal(s.board, i, n) && IsGameOver(Play(t, s, i, n))
    ensures Winner(Play(t, s, i, n)) == Some(if s.variation == Misere then Other(s.nextPlayer) else s.nextPlayer)
  {
    OtherInvolution(s.nextPlayer);
  }

  /** A finished subtraction game makes the winner query as written fail, where the corrected one names the last mover. */
  lemma WinnerAsWrittenFailsOnSubtraction(t: ZTable)
    requires ValidTable(t)
    ensures var s := Play(t, NewState(t, Board([1]), Subtract, First), 0, 1);
      IsGameOver(s) && WinnerAsWritten(s).Failure? && Winner(s) == Some(First)
  {
    var s0 := NewState(t, Board([1]), Subtract, First);
    var s := Play(t, s0, 0, 1);
    assert s.board.heaps == [0];
  }

  /**
   * On the board 1 0 1 with the first player to move, taking heap 2 and
   * then heap 0 empties the board, hands the turn back to the first player
   * and brings the fingerprint back to EMPTY; the first move changes only
   * heap 2.
   */
  lemma TwoMoveScenario(t: ZTable)
    requires ValidTable(t)
    ensures var s0 := NewState(t, Board([1, 0, 1]), DEFAULT_VARIATION, First);
      var s1 := Play(t, s0, 2, 1);
      var s2 := Play(t, s1, 0, 1);
      && s1.board == Board([1, 0, 0]) && s1.nextPlayer == Second && s1.lastMove == Some(Move(2, 1))
      && IsGameOver(s2) && s2.nextPlayer == First && Fingerprint(s2) == EMPTY
  {
    var s0 := NewState(t, Board([1, 0, 1]), DEFAULT_VARIATION, First);
    var s1 := Play(t, s0, 2, 1);
    var s2 := Play(t, s1, 0, 1);
    assert s1.board.heaps == [1, 0, 0];
    assert s2.board.heaps == [0, 0, 0];
    EmptyBoardHash(t, s2.board);
  }
}
