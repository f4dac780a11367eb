/**
 * Facts about the nim-sum that the evaluator's scores rest on: how one
 * removal changes it, what it says about boards of single objects, and
 * Bouton's theorem for the normal game.
 */
module NimSums {
  import opened Boards
  import opened BitwiseXor

  /** The fold of the first `k` counts reads nothing beyond them. */
  lemma {:induction false} XorPrefixOnly(h: seq<int>, g: seq<int>, k: nat)
    requires Counts(h) && Counts(g) && k <= |h| && k <= |g|
    requires forall j :: 0 <= j < k ==> h[j] == g[j]
    ensures XorUpTo(h, k) == XorUpTo(g, k)
  {
    if k > 0 {
      XorPrefixOnly(h, g, k - 1);
    }
  }

  /** Storing `c` in heap `i < k` toggles the old count out of the fold and `c` into it. */
  lemma {:induction false} XorUpdate(h: seq<int>, k: nat, i: int, c: int)
    requires Counts(h) && 0 <= i < k <= |h| && 0 <= c <= MAX_OBJECTS
    ensures Counts(h[i := c])
    ensures XorUpTo(h[i := c], k) == Xor(Xor(XorUpTo(h, k), h[i]), c)
  {
    var g := h[i := c];
    if i < k - 1 {
      XorUpdate(h, k - 1, i, c);
      XorSwap(Xor(XorUpTo(h, k - 1), h[i]), c, h[k - 1]);
      XorSwap(XorUpTo(h, k - 1), h[i], h[k - 1]);
    } else {
      XorPrefixOnly(h, g, k - 1);
      XorCancel(XorUpTo(h, k - 1), h[i]);
    }
  }

  /** Every legal removal changes the nim-sum, so from nim-sum 0 every move leads to a non-zero nim-sum. */
  lemma RemoveChangesNimSum(b: Board, i: int, n: int)
    requires Valid(b) && IsLegal(b, i, n)
    ensures NimSum(Remove(b, i, n).0) != NimSum(b)
  {
    var h := b.heaps;
    assert Remove(b, i, n).0.heaps == h[i := h[i] - n];
    XorUpdate(h, |h|, i, h[i] - n);
    XorChanges(NimSum(b), h[i], h[i] - n);
  }

  /** On heaps holding at most one object each, the fold is the parity of the non-empty heaps. */
  lemma {:induction false} OnesParity(h: seq<int>, k: nat)
    requires forall j :: 0 <= j < |h| ==> 0 <= h[j] <= 1
    requires k <= |h|
    ensures XorUpTo(h, k) == CountAbove(h[..k], 0) % 2
  {
    if k > 0 {
      OnesParity(h, k - 1);
      OnesParityStep(h, k);
    } else {
      assert h[..k] == [];
    }
  }

  /** One more heap of at most one object keeps the fold equal to the parity of the non-empty heaps. */
  lemma OnesParityStep(h: seq<int>, k: nat)
    requires Counts(h) && 0 < k <= |h| && h[k - 1] <= 1
    requires XorUpTo(h, k - 1) == CountAbove(h[..k - 1], 0) % 2
    ensures XorUpTo(h, k) == CountAbove(h[..k], 0) % 2
  {
    var hk, x := h[..k], h[k - 1];
    var c := CountAbove(h[..k - 1], 0);
    assert hk[..k - 1] == h[..k - 1] && hk[k - 1] == x;
    assert CountAbove(hk, 0) == c + x;
    ParityStep(XorUpTo(h, k - 1), c, x);
  }

  /** Toggling a single digit `x` into the parity of `c` gives the parity of `c + x`. */
  lemma ParityStep(p: nat, c: nat, x: int)
    requires p == c % 2 && 0 <= x <= 1
    ensures Xor(p, x) == (c + x) % 2
  {
    if x == 0 {
      XorZero(p);
    } else {
      XorOne(p);
      NextParity(c);
    }
  }

  /** With no heap above one object, the nim-sum is 0 exactly when an even number of heaps is left. */
  lemma MisereOnesParity(b: Board)
    requires Valid(b)
    requires CountAbove(b.heaps, 1) == 0
    ensures NimSum(b) == 0 <==> Count(b) % 2 == 0
  {
    OnesParity(b.heaps, |b.heaps|);
    assert b.heaps[..|b.heaps|] == b.heaps;
  }

  /** A digit set in the fold of the first `k` counts is set in one of them. */
  lemma {:induction false} XorBitWitness(h: seq<int>, k: nat, d: nat) returns (j: int)
    requires Counts(h) && k <= |h|
    requires Bit(XorUpTo(h, k), d)
    ensures 0 <= j < k && Bit(h[j], d)
  {
    if k == 0 {
      ZeroHasNoBit(d);
      assert false;
    }
    XorBit(XorUpTo(h, k - 1), h[k - 1], d);
    if Bit(h[k - 1], d) {
      j := k - 1;
    } else {
      j := XorBitWitness(h, k - 1, d);
    }
  }

  /**
   * Bouton's theorem, winning half: from a non-zero nim-sum some legal
   * removal leaves nim-sum 0.
   */
  lemma WinningMoveExists(b: Board) returns (i: int, n: int)
    requires Valid(b) && NimSum(b) != 0
    ensures IsLegal(b, i, n) && NimSum(Remove(b, i, n).0) == 0
  {
    var h, s := b.heaps, NimSum(b);
    var d := HighBit(s);
    i := XorBitWitness(h, |h|, d);
    var w := Xor(h[i], s);
    XorTopBitDecreases(h[i], s, d);
    n := h[i] - w;
    assert Remove(b, i, n).0.heaps == h[i := w];
    XorUpdate(h, |h|, i, w);
    XorComm(h[i], s);
    XorSelf(Xor(s, h[i]));
  }

  /** Storing `v` in heap `j` takes that heap's old contribution out of the count of heaps above `k` and puts the new one in. */
  lemma {:induction false} CountAboveUpdate(h: seq<int>, k: int, j: int, v: int)
    requires 0 <= j < |h|
    ensures CountAbove(h[j := v], k) + (if h[j] > k then 1 else 0) == CountAbove(h, k) + (if v > k then 1 else 0)
    decreases |h|
  {
    var g := h[j := v];
    var last := |h| - 1;
    assert CountAbove(h, k) == CountAbove(h[..last], k) + (if h[last] > k then 1 else 0);
    assert CountAbove(g, k) == CountAbove(g[..last], k) + (if g[last] > k then 1 else 0);
    if j < last {
      assert g[..last] == h[..last][j := v];
      CountAboveUpdate(h[..last], k, j, v);
    } else {
      assert g[..last] == h[..last];
    }
  }

  /** Counts of at most one object fold to 0 or 1. */
  lemma {:induction false} SmallFold(h: seq<int>, k: nat)
    requires Counts(h) && k <= |h|
    requires forall j :: 0 <= j < |h| ==> h[j] <= 1
    ensures XorUpTo(h, k) < 2
  {
    assert Pow2(1) == 2;
    if k > 0 {
      SmallFold(h, k - 1);
      XorBelow(XorUpTo(h, k - 1), h[k - 1], 1);
    }
  }

  /** A board with exactly one heap above one object has a non-zero nim-sum: the big heap's higher digits are never cancelled. */
  lemma OneBigHeapNimSum(b: Board)
    requires Valid(b) && CountAbove(b.heaps, 1) == 1
    ensures NimSum(b) != 0
  {
    var h := b.heaps;
    var j :| 0 <= j < |h| && h[j] > 1;
    var h0 := h[j := 0];
    CountAboveUpdate(h, 1, j, 0);
    SmallFold(h0, |h|);
    XorUpdate(h0, |h|, j, h[j]);
    assert h0[j := h[j]] == h;
    var a := XorUpTo(h0, |h|);
    XorZero(a);
    if NimSum(b) == 0 {
      assert Xor(a, h[j]) == 0;
      XorComm(a, h[j]);
      XorCancel(h[j], a);
      XorZero(a);
      assert false;
    }
  }

  /**
   * The side to move loses misere Nim with best play: with every heap at
   * most one object, when an odd number of heaps is left; with two or more
   * heaps above one object, when the nim-sum is 0; with exactly one heap
   * above one object, never.
   */
  predicate MisereLosing(b: Board)
    requires Valid(b)
  {
    var big := CountAbove(b.heaps, 1);
    if big == 0 then Count(b) % 2 == 1 else big >= 2 && NimSum(b) == 0
  }

  /** A removal changes the number of heaps above one object only through the heap it takes from. */
  lemma RemoveCountsBig(b: Board, i: int, n: int)
    requires Valid(b) && IsLegal(b, i, n)
    ensures CountAbove(Remove(b, i, n).0.heaps, 1) + (if b.heaps[i] > 1 then 1 else 0)
         == CountAbove(b.heaps, 1) + (if b.heaps[i] - n > 1 then 1 else 0)
  {
    var h, v := b.heaps, b.heaps[i] - n;
    assert Remove(b, i, n).0.heaps == h[i := v];
    CountAboveUpdate(h, 1, i, v);
  }

  /** A removal empties a heap, and lowers the number of non-empty heaps by one, exactly when it takes the whole heap. */
  lemma RemoveCountsNonEmpty(b: Board, i: int, n: int)
    requires Valid(b) && IsLegal(b, i, n)
    ensures Count(Remove(b, i, n).0) + 1 == Count(b) + (if b.heaps[i] - n > 0 then 1 else 0)
  {
    var h, v := b.heaps, b.heaps[i] - n;
    assert Remove(b, i, n).0 == Board(h[i := v]);
    CountAboveUpdate(h, 0, i, v);
  }

  /** Both counts after a removal. */
  lemma RemoveCounts(b: Board, i: int, n: int)
    requires Valid(b) && IsLegal(b, i, n)
    ensures CountAbove(Remove(b, i, n).0.heaps, 1) + (if b.heaps[i] > 1 then 1 else 0)
         == CountAbove(b.heaps, 1) + (if b.heaps[i] - n > 1 then 1 else 0)
    ensures Count(Remove(b, i, n).0) + 1 == Count(b) + (if b.heaps[i] - n > 0 then 1 else 0)
  {
    RemoveCountsBig(b, i, n);
    RemoveCountsNonEmpty(b, i, n);
  }

  /** With exactly one heap above one object, the side to move can leave only single objects, an odd number of them. */
  lemma MisereOneBigHeapReply(b: Board) returns (i: int, n: int)
    requires Valid(b) && CountAbove(b.heaps, 1) == 1
    ensures IsLegal(b, i, n)
    ensures CountAbove(Remove(b, i, n).0.heaps, 1) == 0 && Count(Remove(b, i, n).0) % 2 == 1
    ensures MisereLosing(Remove(b, i, n).0)
  {
    var h := b.heaps;
    var j :| 0 <= j < |h| && h[j] > 1;
    var c := CountAbove(h[j := 0], 0);
    assert c + 1 == Count(b) by {
      CountAboveUpdate(h, 0, j, 0);
    }
    if c % 2 == 1 {
      i, n := j, h[j];
    } else {
      i, n := j, h[j] - 1;
    }
    var after := Remove(b, i, n).0;
    assert CountAbove(after.heaps, 1) == 0 by {
      RemoveCountsBig(b, i, n);
    }
    assert Count(after) % 2 == 1 by {
      RemoveCountsNonEmpty(b, i, n);
      assert Count(after) == (if c % 2 == 1 then c else c + 1);
      NextParity(c);
    }
  }

  /** On single objects only, a removal takes one heap away, so it flips whether the side to move is losing. */
  lemma MisereOnesReply(b: Board, i: int, n: int)
    requires Valid(b) && CountAbove(b.heaps, 1) == 0 && IsLegal(b, i, n)
    ensures MisereLosing(Remove(b, i, n).0) <==> !MisereLosing(b)
  {
    assert b.heaps[i] == 1 && n == 1;
    RemoveCountsBig(b, i, n);
    RemoveCountsNonEmpty(b, i, n);
    MisereOnesFlip(Remove(b, i, n).0, b);
  }

  /** On single objects only, one heap more flips whether the side to move is losing. */
  lemma MisereOnesFlip(a: Board, b: Board)
    requires Valid(a) && Valid(b)
    requires CountAbove(a.heaps, 1) == 0 && CountAbove(b.heaps, 1) == 0
    requires Count(b) == Count(a) + 1
    ensures MisereLosing(a) <==> !MisereLosing(b)
  {
    NextParity(Count(a));
  }

  /** On single objects only, the side to move is losing exactly when every reply leaves the opponent not losing. */
  lemma MisereOnesCase(b: Board)
    requires Valid(b) && !IsEmpty(b) && CountAbove(b.heaps, 1) == 0
    ensures MisereLosing(b) <==> forall i, n :: IsLegal(b, i, n) ==> !MisereLosing(Remove(b, i, n).0)
  {
    forall i, n | IsLegal(b, i, n)
      ensures MisereLosing(Remove(b, i, n).0) <==> !MisereLosing(b)
    {
      MisereOnesReply(b, i, n);
    }
    if !MisereLosing(b) {
      var i :| 0 <= i < |b.heaps| && b.heaps[i] != 0;
      assert IsLegal(b, i, 1);
    }
  }

  /** With two or more heaps above one object, every reply to nim-sum 0 leaves a position that is not losing for the side to move. */
  lemma MisereZeroSumReplies(b: Board, i: int, n: int)
    requires Valid(b) && CountAbove(b.heaps, 1) >= 2 && NimSum(b) == 0
    requires IsLegal(b, i, n)
    ensures !MisereLosing(Remove(b, i, n).0)
  {
    RemoveCounts(b, i, n);
    RemoveChangesNimSum(b, i, n);
  }

  /** With two or more heaps above one object and a non-zero nim-sum, some reply reaches nim-sum 0 with two heaps above one still left. */
  lemma MisereWinningReply(b: Board) returns (i: int, n: int)
    requires Valid(b) && CountAbove(b.heaps, 1) >= 2 && NimSum(b) != 0
    ensures IsLegal(b, i, n) && MisereLosing(Remove(b, i, n).0)
  {
    i, n := WinningMoveExists(b);
    RemoveCounts(b, i, n);
    var after := Remove(b, i, n).0;
    if CountAbove(after.heaps, 1) == 1 {
      OneBigHeapNimSum(after);
      assert false;
    }
  }

  /**
   * The misere rule is exactly the losing positions of misere Nim: the
   * empty board is won for the side to move (the other side took the last
   * object), and any other position is losing exactly when every reply
   * leaves a position that is not losing for the opponent.
   */
  lemma MisereLosingIsExact(b: Board)
    requires Valid(b)
    ensures IsEmpty(b) ==> !MisereLosing(b)
    ensures !IsEmpty(b) ==>
      (MisereLosing(b) <==> forall i, n :: IsLegal(b, i, n) ==> !MisereLosing(Remove(b, i, n).0))
  {
    if !IsEmpty(b) {
      var big := CountAbove(b.heaps, 1);
      if big == 0 {
        MisereOnesCase(b);
      } else if big == 1 {
        var i, n := MisereOneBigHeapReply(b);
      } else if NimSum(b) == 0 {
        forall i, n | IsLegal(b, i, n)
          ensures !MisereLosing(Remove(b, i, n).0)
        {
          MisereZeroSumReplies(b, i, n);
        }
      } else {
        var i, n := MisereWinningReply(b);
      }
    }
  }
}
