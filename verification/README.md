# Nim game layer in Dafny

This project models the game layer that sits under the computer player of a
console Nim program:

- the board of heaps;
- the 64-bit Zobrist fingerprint of a position;
- the game state with its move operation and winner rule;
- the computer player's generator of successor positions;
- the static evaluator that scores positions;
- the command-line check and default configuration of `main.cpp`.

All operations are pure functions over immutable datatypes. Mutating C++
members (`Board::remove`, `ZHash::changeHeap`, `NimState::move`) return the
updated value instead.

Modules and files:

| file | module | models |
|---|---|---|
| `wrappers.dfy` | `Wrappers` | `Option` and `Result` for optional values and failures |
| `players.dfy` | `Players` | the two sides and `otherPlayer` |
| `rules.dfy` | `GameRules` | the variations (misère, normal, subtraction) and the removal limit |
| `xor.dfy` | `BitwiseXor` | bitwise exclusive-or on non-negative integers and its algebra |
| `board.dfy` | `Boards` | `Board`: construction check, `empty`, `heap`, `nimSum`, `count`, `remove` |
| `nim_sum.dfy` | `NimSums` | how a removal changes the nim-sum; Bouton's theorem; the single-object endgame |
| `zhash.dfy` | `ZHashing` | `ZHash`: constants, construction from a board, incremental updates, order independence |
| `nim_state.dfy` | `NimStates` | `NimState`: construction, `winner`, `move`, sequences of moves |
| `responses.dfy` | `ComputerPlayer` | `ComputerPlayer::responseGenerator` |
| `evaluator.dfy` | `NimEvaluator` | `NimEvaluator::evaluate` and its three variation rules |
| `command_line.dfy` | `CommandLine` | the option check and the turn order, rules and heaps chosen from the options |

Notes on how the model reads the code:

- **The Zobrist table is a parameter.** It is not generated. `ValidTable` states its shape: 26 rows of 100 entries, with entry 0 of every row equal to `EMPTY`. Every hash property is proved for every such table.
- **Fingerprints are integers.** A fingerprint is an integer in `[0, 2^64)` (`u64`). The C++ `^=` on `uint64_t` is `Toggle`, the exclusive-or of integers. That equals the machine operation on values in this range, and `XorBelow` shows the result stays in range.
- **Heap counts are integers.** The C++ stores heap counts as `int8_t` and moves as pairs of `int8_t`. Every count and move the model admits lies in `[0, 99]`, so no truncation arises.
- **Source assertions become preconditions.** `assert`s on callers (`Board::heap`, `Board::remove`, `ZHash::changeHeap`, `NimState::move`, the single-heap assertion of the subtraction generator) are `requires` clauses.
- **The board constructor can fail.** Its assertions are checks of the caller's data, so `Create` returns `None` when they fail.
- **The rules come from the code, not the header.** `Components/Rules.h` lists only misère and normal. The computer player, the evaluator and `main.cpp` also use a subtraction variation and a removal limit, so `Rules` holds a variation of three kinds and a limit.
- **Distinct heaps are found by a scan.** `responseGenerator` sorts (size, index) pairs and keeps the first pair of each size. `DistinctHeaps` produces the same list by scanning sizes from 0 to `MAX_OBJECTS`. Each size present is listed once with its lowest index, and sizes increase. The contracts of `DistinctFrom`, `DistinctFromCovers` and `DistinctHeapsCover` state exactly what the sort and unique produce.
- **Help text and checks disagree; the checks win.** The `--initial` help text speaks of 1 to 5 heaps of 1 to 9 objects, but the check enforces `MAX_HEAPS` (26) and `MAX_OBJECTS` (99). The subtraction limit message says the limit must be "between 1 and" the heap size, yet a limit equal to the heap is rejected. `Validate` follows the checks in both cases.

## Model

| member | source | states |
|---|---|---|
| Boards.Create | Components/Board.cpp:9-17 | construction succeeds exactly when there are 1 to MAX_HEAPS heaps, each of 0 to MAX_OBJECTS objects; the board then holds exactly the given heaps |
| Boards.IsEmpty | Components/Board.cpp:20-23 | the board is empty exactly when every heap holds 0 objects |
| Boards.Heap | Components/Board.cpp:25-29 | reading heap `i` needs `0 <= i < size` and gives a count in [0, MAX_OBJECTS] |
| Boards.NimSum | Components/Board.cpp:31-34 | the exclusive-or fold of the heaps stays below 128, and an empty board has nim-sum 0 |
| Boards.Count | Components/Board.cpp:36-39 | the number of non-empty heaps is at most the size, and 0 exactly when the board is empty |
| Boards.CountAbove | ComputerPlayer/NimEvaluator.cpp:73 | the number of heaps above `k` is 0 exactly when none exceeds `k`, and the size exactly when all do |
| Boards.Remove | Components/Board.cpp:41-47 | removing `n` from heap `i` keeps the board valid and its size, lowers heap `i` by `n`, returns that new count, and leaves every other heap unchanged |
| BitwiseXor.XorComm | NimState/ZHash.h:15 | exclusive-or is commutative, so the order of the facts toggled into a fingerprint does not matter |
| BitwiseXor.XorAssoc | NimState/ZHash.h:15 | exclusive-or is associative, so how the toggles are grouped does not matter |
| BitwiseXor.XorCancel | NimState/ZHash.cpp:33-34 | toggling the same value twice restores the start |
| BitwiseXor.XorBelow | NimState/ZHash.h:21 | the exclusive-or of two values below `2^k` is below `2^k`, so 64-bit values stay 64-bit |
| BitwiseXor.XorBit | Components/Board.cpp:33 | a binary digit of `a ^ b` is set exactly when it is set in one of `a`, `b` but not both |
| NimSums.XorUpdate | Components/Board.cpp:31-34 | changing one heap toggles its old count out of the nim-sum and the new count in |
| NimSums.RemoveChangesNimSum | ComputerPlayer/NimEvaluator.cpp:92-101 | every legal removal changes the nim-sum, so from nim-sum 0 every reply leaves a non-zero nim-sum |
| NimSums.WinningMoveExists | ComputerPlayer/NimEvaluator.cpp:92-101 | from a non-zero nim-sum some legal removal leaves nim-sum 0 (Bouton's theorem) |
| NimSums.MisereOnesParity | ComputerPlayer/NimEvaluator.cpp:81-86 | with no heap above one object, the nim-sum is 0 exactly when an even number of heaps is left |
| NimSums.OneBigHeapNimSum | ComputerPlayer/NimEvaluator.cpp:75-79 | with exactly one heap above one object the nim-sum is not 0 |
| NimSums.MisereOneBigHeapReply | ComputerPlayer/NimEvaluator.cpp:75-79 | with exactly one heap above one object, some legal removal leaves only single objects, an odd number of them, a losing position for the opponent |
| NimSums.MisereLosingIsExact | ComputerPlayer/NimEvaluator.cpp:70-89 | on a non-empty board, the misère rule calls the side to move losing exactly when every legal reply leaves the opponent not losing; an empty board is not losing for the side to move |
| NimSums.MisereOnesCase | ComputerPlayer/NimEvaluator.cpp:81-86 | with every heap at most one object on a non-empty board, the side to move is losing exactly when every reply leaves the opponent not losing |
| NimSums.MisereZeroSumReplies | ComputerPlayer/NimEvaluator.cpp:88-89 | with two or more heaps above one object and nim-sum 0, every legal reply leaves the opponent not losing |
| NimSums.MisereWinningReply | ComputerPlayer/NimEvaluator.cpp:88-89 | with two or more heaps above one object and a non-zero nim-sum, some legal reply leaves the opponent losing |
| ZHashing.NewZHash | NimState/ZHash.cpp:11-25 | hashing heap by heap gives the exclusive-or of row `i`'s entry for every heap `i`, toggled with the next-player value exactly when the second player is to move |
| ZHashing.HashOf | NimState/ZHash.cpp:11-25 | the from-scratch fingerprint is the heaps' hash when the first player is to move, and that hash with the next-player value toggled in when the second is |
| ZHashing.IsUndefined | NimState/ZHash.h:42-43 | a fingerprint is undefined exactly when all 64 of its binary digits are set, the complement of EMPTY |
| ZHashing.Less | NimState/ZHash.h:69-73 | no fingerprint is below itself, nothing is below EMPTY and UNDEFINED is below nothing |
| ZHashing.ChangeHeap | NimState/ZHash.cpp:28-36 | a heap change leaves the fingerprint unchanged exactly when the old and new counts' entries are equal, and toggling the two entries back restores it |
| ZHashing.ChangeNextPlayer | NimState/ZHash.cpp:38-42 | a side change leaves the fingerprint unchanged exactly when the next-player value is EMPTY, and toggling that value again restores it |
| ZHashing.UndefinedIsComplement | NimState/ZHash.h:24-43 | EMPTY has no binary digit set, UNDEFINED has exactly the 64 low digits set, and only UNDEFINED is undefined |
| ZHashing.LessIsStrictTotalOrder | NimState/ZHash.h:64-73 | `<` on fingerprints is a strict total order, and equality is equality of values |
| ZHashing.ChangeHeapInvolution | NimState/ZHash.cpp:28-36 | making the same heap change twice restores the fingerprint; a change to the same count does nothing |
| ZHashing.ChangeNextPlayerInvolution | NimState/ZHash.cpp:38-42 | changing the side to move twice restores the fingerprint |
| ZHashing.HeapsHashUpdate | NimState/ZHash.cpp:15-20 | storing a new count in one heap toggles that heap's old entry out of the board hash and the new entry in |
| ZHashing.ChangeHeapMatchesHashOf | NimState/ZHash.cpp:28-36 | the incremental heap update of a board's fingerprint equals the fingerprint of the changed board hashed from scratch |
| ZHashing.ChangeNextPlayerMatchesHashOf | NimState/ZHash.cpp:38-42 | the incremental side update equals the fingerprint hashed from scratch with the other side to move |
| ZHashing.EmptyBoardHash | NimState/ZHash.cpp:15-25 | an empty board with the first player to move hashes to EMPTY, whatever its number of heaps |
| ZHashing.ApplyAllPermutation | NimState/ZHash.h:15 | any reordering of a list of heap and side changes leads to the same fingerprint |
| ZHashing.ApplyAllTwice | NimState/ZHash.cpp:33-40 | applying a list of changes and then the same list again restores the fingerprint |
| NimStates.NewState | NimState/NimState.cpp:10-19 | a new state holds the given board, variation and side, has no last move, and its fingerprint is the hash of board and side |
| NimStates.Fingerprint | NimState/NimState.h:23-24 | under any table the fingerprint is kept consistent with, a finished game with the first player to move has fingerprint EMPTY |
| NimStates.IsGameOver | NimState/NimState.h:32-33 | the game is over exactly when no heap is left non-empty, which is exactly when no move is legal |
| NimStates.Winner | NimState/NimState.cpp:21-37 | there is a winner exactly when the game is over; in misère it is the side to move, otherwise the other side |
| NimStates.WinnerAsWritten | NimState/NimState.cpp:21-37 | the winner query fails exactly for a finished subtraction game, and otherwise agrees with `Winner` |
| NimStates.WinnerAsWrittenFailsOnSubtraction | NimState/NimState.cpp:33-35 | after the first player takes the last object of a one-heap subtraction game, the query fails while `Winner` names the first player |
| NimStates.Play | NimState/NimState.cpp:40-53 | a move removes `n` from heap `i`, keeps the variation, passes the turn, records the move, and keeps the fingerprint equal to the hash of board and side |
| NimStates.PlayAll | NimState/NimState.cpp:40-53 | after any sequence of legal moves the fingerprint still equals the hash of board and side, the side to move follows the parity of the number of moves, and the last move is recorded |
| NimStates.FingerprintDeterminedByPosition | NimState/NimState.cpp:40-53 | two move sequences that reach the same board with the same side to move give the same fingerprint |
| NimStates.LastMoverOutcome | NimState/NimState.cpp:29-32 | when a move empties the board, its mover loses in misère and wins otherwise |
| NimStates.TwoMoveScenario | NimState/test/test-NimState.cpp:74-93 | on 1 0 1, taking heap 2 and then heap 0 gives 1 0 0 with the second player to move, then an empty board with the first player to move and fingerprint EMPTY |
| NimEvaluator.FirstPlayerWinsValue | ComputerPlayer/NimEvaluator.h:27 | the first player's win value is positive and above every score that is not decisive |
| NimEvaluator.SecondPlayerWinsValue | ComputerPlayer/NimEvaluator.h:30 | the second player's win value is the negation of the first player's |
| NimEvaluator.Favour | ComputerPlayer/NimEvaluator.cpp:65-68 | the value is `v` or `-v`, and it is positive exactly when `v` is positive for the first player or negative for the second |
| NimEvaluator.FavourOther | ComputerPlayer/NimEvaluator.cpp:65-68 | favouring the other player negates the value, and so does negating what is favoured |
| NimEvaluator.MoverScore | ComputerPlayer/NimEvaluator.cpp:65-68 | the score is plus or minus LIKELY_WIN_VALUE; it favours the player who just moved exactly when that player is winning; it is positive exactly when the winning side is the first player |
| NimEvaluator.EvaluateMisere | ComputerPlayer/NimEvaluator.cpp:62-90 | with exactly one heap above one object the score is against the player who just moved; with none, it favours that player exactly when an odd number of heaps is left; with two or more, exactly when the nim-sum is 0; in every case exactly when the side to move is losing misère Nim |
| NimEvaluator.EvaluateNormal | ComputerPlayer/NimEvaluator.cpp:92-101 | the score is plus or minus LIKELY_WIN_VALUE and favours the player who just moved exactly when the nim-sum is 0 |
| NimEvaluator.EvaluateSubtract | ComputerPlayer/NimEvaluator.cpp:103-116 | with a limit above 1 the score is 0; otherwise it is plus or minus LIKELY_WIN_VALUE and favours the player who just moved exactly when the heap is a multiple of the limit plus one |
| NimEvaluator.BaseScore | ComputerPlayer/NimEvaluator.cpp:26-49 | a finished game scores WIN_VALUE for its winner; any other position scores within LIKELY_WIN_VALUE, for the player who just moved exactly when the side to move is losing misère Nim, when the nim-sum is 0 in normal play, or when the heap is a multiple of the limit plus one in a subtraction game with limit at most 1, and 0 in a subtraction game with a larger limit |
| NimEvaluator.Bonus | ComputerPlayer/NimEvaluator.cpp:54-58 | the last-move adjustment is at most MAX_OBJECTS in size |
| NimEvaluator.Evaluate | ComputerPlayer/NimEvaluator.cpp:20-60 | a finished game scores at least WIN_VALUE - MAX_OBJECTS with its winner's sign; any other position scores within LIKELY_WIN_VALUE + MAX_OBJECTS; a last move of `n` adds `n` for its mover |
| NimEvaluator.BaseScoreAntisymmetric | ComputerPlayer/NimEvaluator.cpp:62-116 | for an unfinished position, handing the turn to the other side negates the base score |
| NimEvaluator.NormalScoreMeaning | ComputerPlayer/NimEvaluator.cpp:92-101 | in normal play the score favours the player who just moved exactly when every reply leaves a non-zero nim-sum |
| NimEvaluator.MisereScoreMeaning | ComputerPlayer/NimEvaluator.cpp:62-90 | in misère the score favours the player who just moved exactly when every reply leaves a position that is not losing for the player to move after it, so the rule scores the true misère outcome |
| NimEvaluator.MisereOneBigHeapScore | ComputerPlayer/NimEvaluator.cpp:75-79 | with exactly one heap above one object the score favours the side to move, which has a legal reply after which the score still favours it |
| NimEvaluator.SubtractOneAtATimeScore | ComputerPlayer/NimEvaluator.cpp:111-115 | in the subtraction game with limit 1, the score favours the player who just moved exactly when the heap is even |
| Players.Other | ComputerPlayer/NimEvaluator.cpp:9-12 | the other player differs from the given one |
| Players.OtherInvolution | ComputerPlayer/NimEvaluator.cpp:9-12 | the other player of the other player is the given one |
| ComputerPlayer.FirstIndexOf | ComputerPlayer/ComputerPlayer.cpp:76-85 | the index found holds the size and no earlier heap does; the board's size means none does |
| ComputerPlayer.DistinctFrom | ComputerPlayer/ComputerPlayer.cpp:76-85 | the listed sizes strictly increase, and each is paired with the first heap holding it |
| ComputerPlayer.DistinctFromCovers | ComputerPlayer/ComputerPlayer.cpp:76-85 | every heap size in range present on the board is listed |
| ComputerPlayer.DistinctHeaps | ComputerPlayer/ComputerPlayer.cpp:76-85 | one entry per size, sizes increasing, each naming the first heap of that size |
| ComputerPlayer.DistinctHeapsCover | ComputerPlayer/ComputerPlayer.cpp:76-85 | every heap is represented by the first heap of its size |
| ComputerPlayer.TakeUpTo | ComputerPlayer/ComputerPlayer.cpp:92-97 | the `k`-th move removes `k + 1` objects from the same heap, and there are `m` of them |
| ComputerPlayer.MovesFor | ComputerPlayer/ComputerPlayer.cpp:88-99 | every move lies on a first heap of its size and removes between 1 and that heap's count |
| ComputerPlayer.MovesForOrdered | ComputerPlayer/ComputerPlayer.cpp:88-99 | heaps listed in increasing size give moves ordered by heap size, then by the number removed |
| ComputerPlayer.MovesForComplete | ComputerPlayer/ComputerPlayer.cpp:88-99 | every removal of 1 up to the size of a listed heap is generated |
| ComputerPlayer.ResponseMoves | ComputerPlayer/ComputerPlayer.cpp:61-100 | every move is legal, and moves come smaller heap sizes first and smaller removals first within a heap; subtraction gives exactly min(heap, limit) moves (none when that is negative), the `k`-th removing `k + 1` from heap 0; otherwise moves lie on first heaps of their size |
| ComputerPlayer.ResponseMovesComplete | ComputerPlayer/ComputerPlayer.cpp:75-99 | outside subtraction, every legal removal is generated on the first heap of the same size |
| ComputerPlayer.ResponseMovesCount | ComputerPlayer/ComputerPlayer.cpp:76-99 | outside subtraction, the number of moves is the sum of the distinct non-zero heap sizes |
| ComputerPlayer.NoResponseMeansNoMove | ComputerPlayer/ComputerPlayer.cpp:61-100 | there is no response exactly when the board is empty, or in subtraction when the limit is below 1 |
| ComputerPlayer.ResponsesAreDistinct | ComputerPlayer/ComputerPlayer.cpp:75-99 | no two generated moves lead to the same board |
| ComputerPlayer.ResponseGenerator | ComputerPlayer/ComputerPlayer.cpp:54-102 | each response differs from the parent only in the heap of the move it records, which shrank by the removed amount; it keeps the variation, passes the turn and keeps the fingerprint consistent; no two responses have the same board |
| ComputerPlayer.ResponseGeneratorFollowsMoves | ComputerPlayer/ComputerPlayer.cpp:88-99 | there is one response per generated move, in the order of the moves, each recording its move |
| CommandLine.Validate | main.cpp:57-99 | options are accepted exactly when `Acceptable` holds, and each rejection names the first failed test in the code's order |
| CommandLine.HumanGoesFirstAsWritten | main.cpp:102-109 | as written, the human always moves first |
| CommandLine.SecondFlagIgnored | main.cpp:102-109 | with `--second` given, the human still moves first |
| CommandLine.HumanGoesFirst | main.cpp:102-109 | the human moves first exactly when `--second` is not given |
| CommandLine.Configure | main.cpp:102-125 | the human plays first, because `first` starts true (line 24) and no option clears it; normal play when asked for, then subtraction, else misère; defaults 1 3 5 7 9 and heap 21 with limit 4; given values replace them; the board is valid with no empty heap, and a subtraction limit is between 1 and one below the heap |
| CommandLine.ConfigureIntended | main.cpp:102-125 | the same rules and heaps as `Configure`, with the human playing second exactly when `--second` is given |
| CommandLine.AcceptedConfigurationPlayable | main.cpp:60-125 | every accepted configuration starts on a valid, non-empty board, and a subtraction game's limit lies strictly between 0 and the heap |

## Left out

- The generic search engine (game tree, transposition table, static evaluator base class, game state base class) is not part of this model. Its source is not available, so nothing about negamax or caching is modelled.
- `ComputerPlayer::move` and the `ComputerPlayer` constructor are left out. They are thin wrappers over the game tree, plus seeding of the C library random generator.
- The generation of the Zobrist table by a Mersenne Twister is left out. The table is a parameter, and its only assumed property is that count-0 entries are `EMPTY`. Distinctness of entries depends on concrete random values, so claims that one move changes the fingerprint are not modelled.
- The human player, the console display, the game loop and the parsing of command-line text are left out; they are I/O.
- The parsing rule that at most one order flag and at most one variation flag may appear is assumed by `Parsable`, not modelled.
- Values of `--initial` that do not fit in `int8_t` are left out. Parsing rejects them before the check runs.
- Floating-point scores are left out. Every score the evaluator produces is an integer of magnitude at most 10099, so scores are `int`.
- Board equality and fingerprint equality are not modelled separately. Each is Dafny's equality on the datatype; `ZHash` equality on the value is stated in `LessIsStrictTotalOrder`.
- The accessors (`heaps`, `size`, `value`, `whoseTurn`, `lastMove`, the value constructor of `ZHash`) are datatype fields. They have no separate members.
- Raw-pointer ownership of the generated successors is left out. The responses are a sequence of values.
- NimEvaluator.EvaluateSubtract: requires a removal limit other than -1. The code divides by zero there; every configuration the command line produces has a limit of at least 1.
- NimEvaluator.Evaluate: a finished subtraction game is scored with the corrected `Winner`. The code's winner query stops there; see Findings.
- The removal limit recorded for misère and normal play is `NO_REMOVAL_LIMIT` (0). The `Rules` class with its constructor is not part of this model, and the limit is never read outside the subtraction game.
- The header/implementation signature differences (the `ComputerPlayer` constructor, the pair type of the last move) are not modelled; the implementation files are followed.

## Findings

| source | as written | input that shows it | evidently intended | confidence | as-written member | corrected member |
|---|---|---|---|---|---|---|
| NimState/NimState.cpp:27-35 | `winner()` handles only misère and normal play; for a finished subtraction game it reaches `assert(false)` and has no winner | board `[1]`, subtraction rules, first player removes 1 object | the player who took the last object wins the subtraction game, as the `--subtraction` help text says; the evaluator asks this query for every finished game | not executed; high | NimStates.WinnerAsWrittenFailsOnSubtraction | NimStates.Winner |
| main.cpp:102-109 | `first` starts true and a flag can only set it, so the human always moves first | `--second` | `--second` lets the computer move first, as its help text says | not executed; high | CommandLine.SecondFlagIgnored | CommandLine.ConfigureIntended |
