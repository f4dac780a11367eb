/**
 * The Nim board: a row of heaps, each holding a number of objects, and the
 * queries the players and the evaluator ask of it.
 */
module Boards {
  import opened Wrappers
  import opened BitwiseXor

  /** Most heaps a board may have. */
  const MAX_HEAPS: int := 26
  /** Most objects a single heap may hold. */
  const MAX_OBJECTS: int := 99

  /** The number of objects in each heap, left to right; `|heaps|` is the board's size. */
  datatype Board = Board(heaps: seq<int>)

  /** Every count lies between 0 and MAX_OBJECTS. */
  predicate Counts(h: seq<int>)
  {
    forall i :: 0 <= i < |h| ==> 0 <= h[i] <= MAX_OBJECTS
  }

  /** The construction invariant: one to MAX_HEAPS heaps, each holding 0 to MAX_OBJECTS objects. */
  predicate Valid(b: Board)
  {
    0 < |b.heaps| <= MAX_HEAPS && Counts(b.heaps)
  }

  /**
   * Builds a board from heap counts, checking them one by one as the
   * constructor does; `None` stands for a failed construction check.
   */
  method Create(heaps: seq<int>) returns (r: Option<Board>)
    ensures r.Some? <==> (0 < |heaps| <= MAX_HEAPS && forall i :: 0 <= i < |heaps| ==> 0 <= heaps[i] <= MAX_OBJECTS)
    ensures r.Some? ==> r.value.heaps == heaps && Valid(r.value)
  {
    if !(0 < |heaps| <= MAX_HEAPS) {
      return None;
    }
    var k := 0;
    while k < |heaps|
      invariant 0 <= k <= |heaps|
      invariant forall j :: 0 <= j < k ==> 0 <= heaps[j] <= MAX_OBJECTS
    {
      if !(0 <= heaps[k] <= MAX_OBJECTS) {
        return None;
      }
      k := k + 1;
    }
    return Some(Board(heaps));
  }

  /** True when no heap holds an object. */
  function AllZero(h: seq<int>): (r: bool)
    ensures r <==> forall i :: 0 <= i < |h| ==> h[i] == 0
  {
    |h| == 0 || (h[0] == 0 && AllZero(h[1..]))
  }

  /** The number of heaps holding more than `k` objects. */
  function CountAbove(h: seq<int>, k: int): (r: nat)
    ensures r <= |h|
    ensures r == 0 <==> forall i :: 0 <= i < |h| ==> h[i] <= k
    ensures r == |h| <==> forall i :: 0 <= i < |h| ==> h[i] > k
  {
    if |h| == 0 then 0
    else CountAbove(h[..|h| - 1], k) + (if h[|h| - 1] > k then 1 else 0)
  }

  /** The exclusive-or of the first `k` counts, folded from 0 left to right. */
  function XorUpTo(h: seq<int>, k: nat): nat
    requires Counts(h) && k <= |h|
  {
    if k == 0 then 0 else Xor(XorUpTo(h, k - 1), h[k - 1])
  }

  /** True when the board holds no object at all: the game is over. */
  function IsEmpty(b: Board): (r: bool)
    ensures r <==> forall i :: 0 <= i < |b.heaps| ==> b.heaps[i] == 0
  {
    AllZero(b.heaps)
  }

  /** The number of objects in heap `i`. */
  function Heap(b: Board, i: int): (r: int)
    requires Valid(b)
    requires 0 <= i < |b.heaps|
    ensures 0 <= r <= MAX_OBJECTS
  {
    b.heaps[i]
  }

  /** The nim-sum of the board: the exclusive-or of every heap, starting from 0. */
  function NimSum(b: Board): (r: int)
    requires Valid(b)
    ensures 0 <= r < 128
    ensures IsEmpty(b) ==> r == 0
  {
    XorUpToBelow(b.heaps, |b.heaps|);
    XorAllZero(b.heaps, |b.heaps|);
    XorUpTo(b.heaps, |b.heaps|)
  }

  /** The number of heaps that still hold objects. */
  function Count(b: Board): (r: nat)
    requires Valid(b)
    ensures r <= |b.heaps|
    ensures r == 0 <==> IsEmpty(b)
  {
    CountAbove(b.heaps, 0)
  }

  /** Removing `n` objects from heap `i` is allowed. */
  predicate IsLegal(b: Board, i: int, n: int)
  {
    0 <= i < |b.heaps| && 0 < n <= b.heaps[i]
  }

  /** Removes `n` objects from heap `i`, returning the new board and the heap's new count. */
  function Remove(b: Board, i: int, n: int): (r: (Board, int))
    requires Valid(b)
    requires IsLegal(b, i, n)
    ensures Valid(r.0)
    ensures |r.0.heaps| == |b.heaps|
    ensures r.0.heaps[i] == b.heaps[i] - n && r.1 == r.0.heaps[i]
    ensures forall j :: 0 <= j < |b.heaps| && j != i ==> r.0.heaps[j] == b.heaps[j]
  {
    var b' := Board(b.heaps[i := b.heaps[i] - n]);
    (b', b'.heaps[i])
  }

  /** Counts up to MAX_OBJECTS fold to a value below 128 = 2^7. */
  lemma {:induction false} XorUpToBelow(h: seq<int>, k: nat)
    requires Counts(h) && k <= |h|
    ensures XorUpTo(h, k) < 128
  {
    assert Pow2(7) == 128;
    if k > 0 {
      XorUpToBelow(h, k - 1);
      XorBelow(XorUpTo(h, k - 1), h[k - 1], 7);
    }
  }

  /** Heaps that are all empty have nim-sum 0. */
  lemma {:induction false} XorAllZero(h: seq<int>, k: nat)
    requires Counts(h) && k <= |h|
    ensures AllZero(h) ==> XorUpTo(h, k) == 0
  {
    if k > 0 && AllZero(h) {
      XorAllZero(h, k - 1);
    }
  }

  /** Consecutive numbers have opposite parity. */
  lemma NextParity(a: int)
    ensures ((a + 1) % 2 == 1) != (a % 2 == 1)
  {
  }
}
