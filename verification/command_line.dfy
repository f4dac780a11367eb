/**
 * The program's command-line configuration: the check run on the parsed
 * options, and the choice of turn order, rules and starting heaps that
 * follows it. Parsing itself is not modelled; an `Arguments` value is
 * what parsing leaves behind.
 */
module CommandLine {
  import opened Wrappers
  import opened Players
  import opened GameRules
  import opened Boards

  /**
   * The options as given: which flags appeared and the `--initial`
   * values. At most one of `--first`/`--second` and at most one of
   * `--misere`/`--normal`/`--subtraction` may appear; parsing rejects
   * anything else before the check below runs.
   */
  datatype Arguments = Arguments(
    firstGiven: bool,
    secondGiven: bool,
    misereGiven: bool,
    normalGiven: bool,
    subtractionGiven: bool,
    initial: seq<int>)

  /** The reasons the check rejects the options, in the order it tests them. */
  datatype ConfigError =
    | SubtractionSetup        // subtraction needs no values or exactly a heap and a limit
    | HeapSizeOutOfRange      // the subtraction heap is not 1 to MAX_OBJECTS
    | RemovalLimitOutOfRange  // the subtraction limit is not 1 to one less than the heap
    | TooManyHeaps            // more than MAX_HEAPS values
    | HeapObjectsOutOfRange   // some value is not 1 to MAX_OBJECTS

  /** What the program starts with: who the human plays, the rules, and the starting heaps. */
  datatype Config = Config(human: PlayerId, rules: Rules, heaps: seq<int>)

  /** The heaps of the misere and normal games when none are given. */
  const DEFAULT_HEAPS: seq<int> := [1, 3, 5, 7, 9]
  /** The heap of the subtraction game when none is given. */
  const DEFAULT_SUBTRACTION_HEAP: int := 21
  /** The removal limit of the subtraction game when none is given. */
  const DEFAULT_REMOVAL_LIMIT: int := 4
  /** The removal limit recorded for misere and normal play, where it is never read. */
  const NO_REMOVAL_LIMIT: int := 0
  /** The value the `--first` option starts with before parsing. */
  const FIRST_DEFAULT: bool := true

  /** The options parsing lets through: at most one order flag and at most one variation flag. */
  predicate Parsable(a: Arguments)
  {
    && !(a.firstGiven && a.secondGiven)
    && (if a.misereGiven then 1 else 0) + (if a.normalGiven then 1 else 0) + (if a.subtractionGiven then 1 else 0) <= 1
  }

  /**
   * The options the check accepts, stated as one condition: for the
   * subtraction game no values, or a heap of 1 to MAX_OBJECTS and a limit
   * of 1 to one less than the heap; otherwise at most MAX_HEAPS values,
   * each 1 to MAX_OBJECTS.
   */
  predicate Acceptable(a: Arguments)
  {
    if a.subtractionGiven then
      |a.initial| == 0 || (|a.initial| == 2 && 1 <= a.initial[0] <= MAX_OBJECTS && 1 <= a.initial[1] < a.initial[0])
    else
      |a.initial| <= MAX_HEAPS && forall k :: 0 <= k < |a.initial| ==> 1 <= a.initial[k] <= MAX_OBJECTS
  }

  /**
   * The check run after parsing: `None` when the options are accepted,
   * otherwise the first failed test. In the subtraction game the value
   * count is tested first, then the heap, then the limit; otherwise the
   * value count, then each value in turn.
   */
  method Validate(a: Arguments) returns (r: Option<ConfigError>)
    ensures r.None? <==> Acceptable(a)
    ensures a.subtractionGiven ==> (r == Some(SubtractionSetup) <==> |a.initial| != 0 && |a.initial| != 2)
    ensures a.subtractionGiven && |a.initial| == 2 ==>
      && (r == Some(HeapSizeOutOfRange) <==> !(1 <= a.initial[0] <= MAX_OBJECTS))
      && (r == Some(RemovalLimitOutOfRange) <==> 1 <= a.initial[0] <= MAX_OBJECTS && !(1 <= a.initial[1] < a.initial[0]))
    ensures !a.subtractionGiven ==>
      && (r == Some(TooManyHeaps) <==> |a.initial| > MAX_HEAPS)
      && (r == Some(HeapObjectsOutOfRange) <==>
            |a.initial| <= MAX_HEAPS && exists k :: 0 <= k < |a.initial| && !(1 <= a.initial[k] <= MAX_OBJECTS))
  {
    var initial := a.initial;
    if a.subtractionGiven {
      if |initial| != 0 && |initial| != 2 {
        return Some(SubtractionSetup);
      }
      if |initial| == 2 {
        if initial[0] < 1 || initial[0] > MAX_OBJECTS {
          return Some(HeapSizeOutOfRange);
        }
        if initial[1] < 1 || initial[1] >= initial[0] {
          return Some(RemovalLimitOutOfRange);
        }
      }
    } else {
      if |initial| > MAX_HEAPS {
        return Some(TooManyHeaps);
      }
      var k := 0;
      while k < |initial|
        invariant 0 <= k <= |initial|
        invariant forall j :: 0 <= j < k ==> 1 <= initial[j] <= MAX_OBJECTS
      {
        if initial[k] < 1 || initial[k] > MAX_OBJECTS {
          return Some(HeapObjectsOutOfRange);
        }
        k := k + 1;
      }
    }
    return None;
  }

  /**
   * Whether the human moves first, as written: `first` starts true and a
   * flag can only set it, so the `--second` branch is never reached.
   */
  function HumanGoesFirstAsWritten(a: Arguments): (r: bool)
    ensures r
  {
    var first := a.firstGiven || FIRST_DEFAULT;
    var second := a.secondGiven;
    if first then true
    else if second then false
    else true
  }

  /** With `--second` the program still lets the human move first. */
  lemma SecondFlagIgnored()
    ensures var a := Arguments(false, true, false, false, false, []);
      Parsable(a) && a.secondGiven && HumanGoesFirstAsWritten(a)
  {
  }

  /**
   * Whether the human moves first, with `first` starting false so that
   * only the flag sets it: the human moves first unless `--second` is
   * given, which is what the options' help text promises.
   */
  function HumanGoesFirst(a: Arguments): (r: bool)
    requires Parsable(a)
    ensures r <==> !a.secondGiven
  {
    var first := a.firstGiven;
    var second := a.secondGiven;
    if first then true
    else if second then false
    else true
  }

  /**
   * The configuration the program starts with once the check passes.
   * Normal play is chosen when asked for, then the subtraction game, and
   * misere otherwise; given values replace the default heaps, and in the
   * subtraction game the second value is the limit. The human's side comes
   * from the turn-order code as written, so the human always plays first.
   */
  function Configure(a: Arguments): (c: Config)
    requires Parsable(a) && Acceptable(a)
    ensures c.human == First
    ensures c.rules.variation == Normal <==> a.normalGiven
    ensures c.rules.variation == Subtract <==> a.subtractionGiven
    ensures c.rules.variation == Misere <==> !a.normalGiven && !a.subtractionGiven
    ensures c.rules.variation != Subtract ==> c.heaps == (if |a.initial| == 0 then DEFAULT_HEAPS else a.initial)
    ensures c.rules.variation == Subtract ==>
      && |c.heaps| == 1
      && 1 <= c.rules.removalLimit < c.heaps[0]
      && (|a.initial| == 0 ==> c.heaps == [DEFAULT_SUBTRACTION_HEAP] && c.rules.removalLimit == DEFAULT_REMOVAL_LIMIT)
      && (|a.initial| == 2 ==> c.heaps == [a.initial[0]] && c.rules.removalLimit == a.initial[1])
    ensures Valid(Board(c.heaps)) && forall k :: 0 <= k < |c.heaps| ==> c.heaps[k] > 0
  {
    var human := if HumanGoesFirstAsWritten(a) then First else Second;
    if a.normalGiven then
      Config(human, Rules(Normal, NO_REMOVAL_LIMIT), if |a.initial| == 0 then DEFAULT_HEAPS else a.initial)
    else if a.subtractionGiven then
      Config(human,
             Rules(Subtract, if |a.initial| == 0 then DEFAULT_REMOVAL_LIMIT else a.initial[1]),
             if |a.initial| == 0 then [DEFAULT_SUBTRACTION_HEAP] else [a.initial[0]])
    else
      Config(human, Rules(Misere, NO_REMOVAL_LIMIT), if |a.initial| == 0 then DEFAULT_HEAPS else a.initial)
  }

  /**
   * The configuration with the turn order the options promise: the same
   * rules and heaps as `Configure`, with the human playing second exactly
   * when `--second` is given.
   */
  function ConfigureIntended(a: Arguments): (c: Config)
    requires Parsable(a) && Acceptable(a)
    ensures c.human == Second <==> a.secondGiven
    ensures c.rules == Configure(a).rules && c.heaps == Configure(a).heaps
  {
    Configure(a).(human := if HumanGoesFirst(a) then First else Second)
  }

  /** The two configurations differ exactly when `--second` is given. */
  lemma ConfigureDiffersOnSecond(a: Arguments)
    requires Parsable(a) && Acceptable(a)
    ensures Configure(a) != ConfigureIntended(a) <==> a.secondGiven
  {
  }

  /**
   * Every accepted configuration can be played: the board is valid, and in
   * the subtraction game the one heap is larger than the limit, so both
   * players have a move at the start.
   */
  lemma AcceptedConfigurationPlayable(a: Arguments)
    requires Parsable(a) && Acceptable(a)
    ensures var c := Configure(a);
      && Valid(Board(c.heaps))
      && !IsEmpty(Board(c.heaps))
      && (c.rules.variation == Subtract ==> |c.heaps| == 1 && 0 < c.rules.removalLimit < c.heaps[0])
  {
    var c := Configure(a);
    assert c.heaps[0] > 0;
  }
}
