/**
 * The computer player's response generator: every position reachable in
 * one move, without repeating a move on two heaps of the same size. In
 * the subtraction game only the first heap is played, and at most the
 * removal limit may be taken.
 */
module ComputerPlayer {
  import opened Wrappers
  import opened Players
  import opened GameRules
  import opened Boards
  import opened ZHashing
  import opened NimStates

  /** A heap chosen to represent all heaps of its size: its size and the index of the heap. */
  datatype HeapRef = HeapRef(size: int, index: int)

  /** The index of the first heap holding `v` objects, or `|h|` when there is none. */
  function FirstIndexOf(h: seq<int>, v: int): (i: int)
    ensures 0 <= i <= |h|
    ensures i < |h| ==> h[i] == v
    ensures forall j :: 0 <= j < i ==> h[j] != v
  {
    if |h| == 0 then 0
    else if h[0] == v then 0
    else 1 + FirstIndexOf(h[1..], v)
  }

  /** Heap `i` is the first one of its size. */
  predicate IsFirstOfSize(h: seq<int>, i: int)
  {
    0 <= i < |h| && FirstIndexOf(h, h[i]) == i
  }

  /** `ref` names the first heap of its size, and that heap has the size recorded. */
  predicate Represents(h: seq<int>, ref: HeapRef)
  {
    IsFirstOfSize(h, ref.index) && h[ref.index] == ref.size
  }

  /** The recorded sizes strictly increase. */
  predicate SizesIncrease(refs: seq<HeapRef>)
  {
    forall k, l :: 0 <= k < l < |refs| ==> refs[k].size < refs[l].size
  }

  /**
   * The sizes from `v` up to MAX_OBJECTS that some heap has, in
   * increasing order, each with the first heap of that size: the pairs
   * (size, index) sorted and then thinned to one per size.
   */
  function DistinctFrom(h: seq<int>, v: int): (r: seq<HeapRef>)
    ensures forall k :: 0 <= k < |r| ==> v <= r[k].size && Represents(h, r[k])
    ensures SizesIncrease(r)
    decreases MAX_OBJECTS + 1 - v
  {
    if v > MAX_OBJECTS then []
    else if FirstIndexOf(h, v) < |h| then [HeapRef(v, FirstIndexOf(h, v))] + DistinctFrom(h, v + 1)
    else DistinctFrom(h, v + 1)
  }

  /** Every heap size from `v` up to MAX_OBJECTS present on the board is listed. */
  lemma {:induction false} DistinctFromCovers(h: seq<int>, v: int, j: int)
    requires 0 <= j < |h| && v <= h[j] <= MAX_OBJECTS
    ensures exists k :: 0 <= k < |DistinctFrom(h, v)| && DistinctFrom(h, v)[k].size == h[j]
    decreases MAX_OBJECTS + 1 - v
  {
    var r := DistinctFrom(h, v);
    if h[j] == v {
      assert FirstIndexOf(h, v) < |h|;
      assert r[0].size == h[j];
    } else {
      DistinctFromCovers(h, v + 1, j);
      var rest := DistinctFrom(h, v + 1);
      var k :| 0 <= k < |rest| && rest[k].size == h[j];
      var i := FirstIndexOf(h, v);
      if i < |h| {
        assert r == [HeapRef(v, i)] + rest;
        assert r[k + 1] == rest[k];
      } else {
        assert r == rest;
      }
    }
  }

  /** One representative per heap size present on the board, in increasing order of size. */
  function DistinctHeaps(h: seq<int>): (r: seq<HeapRef>)
    ensures forall k :: 0 <= k < |r| ==> Represents(h, r[k])
    ensures SizesIncrease(r)
  {
    DistinctFrom(h, 0)
  }

  /** Every heap is represented by the first heap of its size. */
  lemma DistinctHeapsCover(h: seq<int>, i: int)
    requires Counts(h) && 0 <= i < |h|
    ensures exists k :: 0 <= k < |DistinctHeaps(h)| && DistinctHeaps(h)[k].index == FirstIndexOf(h, h[i])
  {
    var r := DistinctHeaps(h);
    DistinctFromCovers(h, 0, i);
    var k :| 0 <= k < |r| && r[k].size == h[i];
    assert Represents(h, r[k]);
  }

  /** Removing 1, 2, ..., `m` objects from heap `i`, in that order. */
  function TakeUpTo(i: int, m: int): (r: seq<Move>)
    ensures |r| == if m < 0 then 0 else m
    ensures forall k :: 0 <= k < |r| ==> r[k] == Move(i, k + 1)
  {
    if m <= 0 then [] else TakeUpTo(i, m - 1) + [Move(i, m)]
  }

  /** Move `a` comes before move `b`: on a smaller heap, or on a heap of the same size removing fewer. */
  predicate Before(h: seq<int>, a: Move, b: Move)
  {
    && 0 <= a.i < |h| && 0 <= b.i < |h|
    && (h[a.i] < h[b.i] || (h[a.i] == h[b.i] && a.n < b.n))
  }

  /** Each move comes `Before` every later one. */
  predicate InOrder(h: seq<int>, ms: seq<Move>)
  {
    forall k, l :: 0 <= k < l < |ms| ==> Before(h, ms[k], ms[l])
  }

  /** Every removal from each listed heap that holds objects, heap by heap. */
  function MovesFor(h: seq<int>, refs: seq<HeapRef>): (r: seq<Move>)
    requires forall j :: 0 <= j < |refs| ==> Represents(h, refs[j])
    ensures forall k :: 0 <= k < |r| ==> IsFirstOfSize(h, r[k].i) && 0 < r[k].n <= h[r[k].i]
    decreases |refs|
  {
    if |refs| == 0 then []
    else
      var ref := refs[0];
      assert Represents(h, ref);
      (if ref.size > 0 then TakeUpTo(ref.index, ref.size) else []) + MovesFor(h, refs[1..])
  }

  /** Heaps listed with at least `lo` objects give moves on heaps of at least `lo` objects. */
  lemma {:induction false} MovesForAbove(h: seq<int>, refs: seq<HeapRef>, lo: int)
    requires forall j :: 0 <= j < |refs| ==> Represents(h, refs[j]) && lo <= refs[j].size
    ensures forall k :: 0 <= k < |MovesFor(h, refs)| ==> lo <= h[MovesFor(h, refs)[k].i]
    decreases |refs|
  {
    if |refs| > 0 {
      MovesForAbove(h, refs[1..], lo);
    }
  }

  /** Heaps listed in increasing size give moves in the order `Before`. */
  lemma {:induction false} MovesForOrdered(h: seq<int>, refs: seq<HeapRef>)
    requires forall j :: 0 <= j < |refs| ==> Represents(h, refs[j])
    requires SizesIncrease(refs)
    ensures InOrder(h, MovesFor(h, refs))
    decreases |refs|
  {
    if |refs| > 0 {
      var ref := refs[0];
      var here := if ref.size > 0 then TakeUpTo(ref.index, ref.size) else [];
      var rest := MovesFor(h, refs[1..]);
      MovesForOrdered(h, refs[1..]);
      MovesForAbove(h, refs[1..], ref.size + 1);
      assert MovesFor(h, refs) == here + rest;
      assert Represents(h, ref);
      assert InOrder(h, here) by {
        forall k, l | 0 <= k < l < |here|
          ensures Before(h, here[k], here[l])
        {
          assert here[k] == Move(ref.index, k + 1) && here[l] == Move(ref.index, l + 1);
        }
      }
      forall k, l | 0 <= k < |here| && 0 <= l < |rest|
        ensures Before(h, here[k], rest[l])
      {
        assert here[k].i == ref.index;
      }
      InOrderConcat(h, here, rest);
    }
  }

  /** Two runs in order, with every move of the first before every move of the second, are in order together. */
  lemma InOrderConcat(h: seq<int>, a: seq<Move>, b: seq<Move>)
    requires InOrder(h, a) && InOrder(h, b)
    requires forall k, l :: 0 <= k < |a| && 0 <= l < |b| ==> Before(h, a[k], b[l])
    ensures InOrder(h, a + b)
  {
    var r := a + b;
    forall k, l | 0 <= k < l < |r|
      ensures Before(h, r[k], r[l])
    {
      if l < |a| {
        assert r[k] == a[k] && r[l] == a[l];
      } else if k < |a| {
        assert r[k] == a[k] && r[l] == b[l - |a|];
      } else {
        assert r[k] == b[k - |a|] && r[l] == b[l - |a|];
      }
    }
  }

  /** Every removal from every listed heap is among the moves. */
  lemma {:induction false} MovesForComplete(h: seq<int>, refs: seq<HeapRef>, j: int, n: int)
    requires forall j :: 0 <= j < |refs| ==> Represents(h, refs[j])
    requires 0 <= j < |refs| && 0 < n <= refs[j].size
    ensures Move(refs[j].index, n) in MovesFor(h, refs)
    decreases |refs|
  {
    var here := if refs[0].size > 0 then TakeUpTo(refs[0].index, refs[0].size) else [];
    assert MovesFor(h, refs) == here + MovesFor(h, refs[1..]);
    if j == 0 {
      assert here[n - 1] == Move(refs[0].index, n);
    } else {
      assert refs[1..][j - 1] == refs[j];
      MovesForComplete(h, refs[1..], j - 1, n);
    }
  }

  /**
   * The moves the generator produces. In the subtraction game (one heap)
   * these are removals of 1 up to the smaller of the heap and the limit
   * from heap 0; otherwise removals from the first heap of each distinct
   * non-zero size only. Either way they come smaller heap sizes first,
   * and smaller removals first within a heap.
   */
  function ResponseMoves(rules: Rules, b: Board): (r: seq<Move>)
    requires Valid(b)
    requires rules.variation == Subtract ==> |b.heaps| == 1
    ensures forall k :: 0 <= k < |r| ==> IsLegal(b, r[k].i, r[k].n)
    ensures InOrder(b.heaps, r)
    ensures rules.variation == Subtract ==>
      && |r| == (if b.heaps[0] < rules.removalLimit then b.heaps[0] else if rules.removalLimit < 0 then 0 else rules.removalLimit)
      && forall k :: 0 <= k < |r| ==> r[k] == Move(0, k + 1)
    ensures rules.variation != Subtract ==> forall k :: 0 <= k < |r| ==> IsFirstOfSize(b.heaps, r[k].i)
  {
    if rules.variation == Subtract then
      var max := if b.heaps[0] < rules.removalLimit then b.heaps[0] else rules.removalLimit;
      var r := TakeUpTo(0, max);
      assert InOrder(b.heaps, r) by {
        forall k, l | 0 <= k < l < |r|
          ensures Before(b.heaps, r[k], r[l])
        {
          assert r[k] == Move(0, k + 1) && r[l] == Move(0, l + 1);
        }
      }
      r
    else
      var refs := DistinctHeaps(b.heaps);
      MovesForOrdered(b.heaps, refs);
      MovesFor(b.heaps, refs)
  }

  /**
   * Outside the subtraction game every legal move is covered: the same
   * removal from the first heap of the same size is generated.
   */
  lemma ResponseMovesComplete(rules: Rules, b: Board, i: int, n: int)
    requires Valid(b) && rules.variation != Subtract
    requires IsLegal(b, i, n)
    ensures Move(FirstIndexOf(b.heaps, b.heaps[i]), n) in ResponseMoves(rules, b)
  {
    var refs := DistinctHeaps(b.heaps);
    DistinctHeapsCover(b.heaps, i);
    var k :| 0 <= k < |refs| && refs[k].index == FirstIndexOf(b.heaps, b.heaps[i]);
    assert Represents(b.heaps, refs[k]);
    MovesForComplete(b.heaps, refs, k, n);
  }

  /**
   * There is no response exactly when there is no object to take: the
   * board is empty, or, in the subtraction game, the limit is below one.
   */
  lemma NoResponseMeansNoMove(rules: Rules, b: Board)
    requires Valid(b)
    requires rules.variation == Subtract ==> |b.heaps| == 1
    ensures |ResponseMoves(rules, b)| == 0 <==>
      (IsEmpty(b) || (rules.variation == Subtract && rules.removalLimit <= 0))
  {
    var r := ResponseMoves(rules, b);
    if |r| > 0 {
      assert IsLegal(b, r[0].i, r[0].n);
    }
    if rules.variation != Subtract && !IsEmpty(b) {
      var i :| 0 <= i < |b.heaps| && b.heaps[i] != 0;
      ResponseMovesComplete(rules, b, i, b.heaps[i]);
    }
  }

  /**
   * No two moves the generator produces lead to the same board: two moves
   * on one heap remove different amounts, and two moves on different heaps
   * each leave their own heap changed.
   */
  lemma ResponsesAreDistinct(rules: Rules, b: Board)
    requires Valid(b)
    requires rules.variation == Subtract ==> |b.heaps| == 1
    ensures var r := ResponseMoves(rules, b);
      forall k, l :: 0 <= k < l < |r| ==> Remove(b, r[k].i, r[k].n).0 != Remove(b, r[l].i, r[l].n).0
  {
    var r := ResponseMoves(rules, b);
    forall k, l | 0 <= k < l < |r|
      ensures Remove(b, r[k].i, r[k].n).0 != Remove(b, r[l].i, r[l].n).0
    {
      var mk, ml := r[k], r[l];
      assert mk.i != ml.i || mk.n < ml.n;
      var bk, bl := Remove(b, mk.i, mk.n).0, Remove(b, ml.i, ml.n).0;
      assert bk.heaps[mk.i] != bl.heaps[mk.i];
    }
  }

  /** The sum of the distinct sizes from `v` up to MAX_OBJECTS that some heap of `h` has. */
  function DistinctSizeSum(h: seq<int>, v: int): int
    decreases MAX_OBJECTS + 1 - v
  {
    if v > MAX_OBJECTS then 0
    else (if v in h then v else 0) + DistinctSizeSum(h, v + 1)
  }

  /** The moves for the sizes from `v` on number the sum of those sizes. */
  lemma {:induction false} MovesForCount(h: seq<int>, v: int)
    requires v >= 0
    ensures |MovesFor(h, DistinctFrom(h, v))| == DistinctSizeSum(h, v)
    decreases MAX_OBJECTS + 1 - v
  {
    if v <= MAX_OBJECTS {
      MovesForCount(h, v + 1);
      var rest := DistinctFrom(h, v + 1);
      var i := FirstIndexOf(h, v);
      if i < |h| {
        var refs := [HeapRef(v, i)] + rest;
        assert DistinctFrom(h, v) == refs && refs[1..] == rest;
        var here := if v > 0 then TakeUpTo(i, v) else [];
        assert MovesFor(h, refs) == here + MovesFor(h, rest);
        assert v in h;
        assert DistinctSizeSum(h, v) == |here| + DistinctSizeSum(h, v + 1);
      } else {
        assert DistinctFrom(h, v) == rest;
        assert v !in h;
      }
    }
  }

  /**
   * Outside the subtraction game there is one response per removal from
   * each distinct non-zero heap size: their number is the sum of those
   * sizes.
   */
  lemma ResponseMovesCount(rules: Rules, b: Board)
    requires Valid(b) && rules.variation != Subtract
    ensures |ResponseMoves(rules, b)| == DistinctSizeSum(b.heaps, 1)
  {
    MovesForCount(b.heaps, 0);
  }

  /**
   * `r` is the position after move `m` from `s`: heap `m.i` shrank by
   * `m.n` objects and no other heap changed; the variation is kept, the
   * turn passes, the move is recorded, and a consistent fingerprint stays
   * consistent.
   */
  predicate Succeeds(t: ZTable, s: NimState, m: Move, r: NimState)
  {
    var i, h, g := m.i, s.board.heaps, r.board.heaps;
    && |g| == |h| && 0 <= i < |h|
    && 0 < m.n && g[i] == h[i] - m.n
    && (forall j :: 0 <= j < |h| && j != i ==> g[j] == h[j])
    && r.variation == s.variation
    && r.nextPlayer == Other(s.nextPlayer)
    && r.lastMove == Some(m)
    && (Consistent(t, s) ==> Consistent(t, r))
  }

  /**
   * The responses to a position: the position after each generated move,
   * in the order of the moves. Each follows from the parent by the move it
   * records, and no two are the same board.
   */
  function ResponseGenerator(t: ZTable, rules: Rules, s: NimState): (r: seq<NimState>)
    requires ValidTable(t) && WellFormed(s)
    requires rules.variation == Subtract ==> |s.board.heaps| == 1
    ensures forall k :: 0 <= k < |r| ==> r[k].lastMove.Some? && Succeeds(t, s, r[k].lastMove.value, r[k])
    ensures forall k, l :: 0 <= k < l < |r| ==> r[k].board != r[l].board
  {
    var ms := ResponseMoves(rules, s.board);
    var r := seq(|ms|, k requires 0 <= k < |ms| => Play(t, s, ms[k].i, ms[k].n));
    assert forall k :: 0 <= k < |r| ==> r[k].lastMove.Some? && Succeeds(t, s, r[k].lastMove.value, r[k]) by {
      forall k | 0 <= k < |r|
        ensures r[k].lastMove.Some? && Succeeds(t, s, r[k].lastMove.value, r[k])
      {
        var m := ms[k];
        assert r[k] == Play(t, s, m.i, m.n);
      }
    }
    assert forall k, l :: 0 <= k < l < |r| ==> r[k].board != r[l].board by {
      ResponsesAreDistinct(rules, s.board);
      forall k, l | 0 <= k < l < |r|
        ensures r[k].board != r[l].board
      {
        assert r[k].board == Remove(s.board, ms[k].i, ms[k].n).0;
        assert r[l].board == Remove(s.board, ms[l].i, ms[l].n).0;
      }
    }
    r
  }

  /** The responses are the generated moves played in order: one per move, recording that move. */
  lemma ResponseGeneratorFollowsMoves(t: ZTable, rules: Rules, s: NimState)
    requires ValidTable(t) && WellFormed(s)
    requires rules.variation == Subtract ==> |s.board.heaps| == 1
    ensures var r, ms := ResponseGenerator(t, rules, s), ResponseMoves(rules, s.board);
      |r| == |ms| && forall k :: 0 <= k < |r| ==> r[k].lastMove == Some(ms[k])
  {
  }
}
