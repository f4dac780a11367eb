/**
 * Zobrist hashing of Nim positions: a 64-bit fingerprint built by
 * toggling (exclusive-or) one table value per (heap, count) fact and one
 * for "the second player is to move". The table's values come from a
 * random generator at start-up; here the table is a parameter, and every
 * property is proved for any table that has the required shape and maps
 * empty heaps to 0.
 */
module ZHashing {
  import opened Boards
  import opened Players
  import opened BitwiseXor

  /** The number of distinct 64-bit values. */
  const WORD: int := 0x1_0000_0000_0000_0000

  /** An unsigned 64-bit value. */
  type u64 = x: int | 0 <= x < WORD

  /** The fingerprint of an empty board with the first player to move. */
  const EMPTY: u64 := 0
  /** A value reserved for "no fingerprint": the complement of EMPTY. */
  const UNDEFINED: u64 := WORD - 1

  /** A fingerprint. The default fingerprint is `ZHash(EMPTY)`. */
  datatype ZHash = ZHash(value: u64)

  /** The table of values toggled in and out: `heap[i][n]` for "heap `i` holds `n` objects". */
  datatype ZTable = ZTable(heap: seq<seq<u64>>, nextPlayer: u64)

  /** One row per possible heap, one entry per possible count, and an empty heap contributes nothing. */
  predicate ValidTable(t: ZTable)
  {
    && |t.heap| == MAX_HEAPS
    && forall i :: 0 <= i < |t.heap| ==> |t.heap[i]| == MAX_OBJECTS + 1 && t.heap[i][0] == EMPTY
  }

  /** The exclusive-or of two 64-bit values. */
  function Toggle(a: u64, b: u64): u64
  {
    Pow2Of64();
    XorBelow(a, b, 64);
    Xor(a, b)
  }

  /** The fingerprint is the reserved undefined value: all 64 of its binary digits are set. */
  function IsUndefined(z: ZHash): (r: bool)
    ensures r <==> LowDigitsSet(z.value, 64)
  {
    Pow2Of64();
    OnlyAllOnes(64, z.value);
    z.value == UNDEFINED
  }

  /**
   * Fingerprints are ordered by their values: no fingerprint is below
   * itself, nothing is below EMPTY and UNDEFINED is below nothing.
   */
  function Less(x: ZHash, y: ZHash): (r: bool)
    ensures x == y ==> !r
    ensures r ==> x.value != UNDEFINED && y != ZHash(EMPTY)
  {
    x.value < y.value
  }

  /** The value toggled for heap `i` holding `n` objects. */
  function Entry(t: ZTable, i: int, n: int): u64
    requires ValidTable(t)
    requires 0 <= i < MAX_HEAPS && 0 <= n <= MAX_OBJECTS
  {
    t.heap[i][n]
  }

  /** The value toggled for the side to move: nothing for the first player. */
  function SideValue(t: ZTable, p: PlayerId): u64
  {
    if p == Second then t.nextPlayer else EMPTY
  }

  /** The exclusive-or of the entries for every heap of `h`, heap `i` using row `i`. */
  function HeapsHash(t: ZTable, h: seq<int>): u64
    requires ValidTable(t)
    requires |h| <= MAX_HEAPS && Counts(h)
  {
    if |h| == 0 then EMPTY
    else Toggle(HeapsHash(t, h[..|h| - 1]), Entry(t, |h| - 1, h[|h| - 1]))
  }

  /**
   * The fingerprint of board `b` with `p` to move, computed from scratch:
   * the heaps' hash when the first player is to move, and that hash with
   * the side value toggled in when the second is.
   */
  function HashOf(t: ZTable, b: Board, p: PlayerId): (r: ZHash)
    requires ValidTable(t) && Valid(b)
    ensures p == First ==> r.value == HeapsHash(t, b.heaps)
    ensures p == Second ==> Toggle(r.value, t.nextPlayer) == HeapsHash(t, b.heaps)
  {
    var hh := HeapsHash(t, b.heaps);
    XorZero(hh);
    XorCancel(hh, t.nextPlayer);
    ZHash(Toggle(hh, SideValue(t, p)))
  }

  /**
   * Builds the fingerprint of a board and side to move, heap by heap, as
   * the board-and-player constructor does.
   */
  method NewZHash(t: ZTable, b: Board, p: PlayerId) returns (z: ZHash)
    requires ValidTable(t) && Valid(b)
    ensures z == HashOf(t, b, p)
  {
    var v := EMPTY;
    var i := 0;
    while i < |b.heaps|
      invariant 0 <= i <= |b.heaps|
      invariant v == HeapsHash(t, b.heaps[..i])
    {
      assert b.heaps[..i + 1][..i] == b.heaps[..i];
      v := Toggle(v, t.heap[i][b.heaps[i]]);
      i := i + 1;
    }
    assert b.heaps[..i] == b.heaps;
    if p == Second {
      v := Toggle(v, t.nextPlayer);
    } else {
      XorZero(v);
    }
    z := ZHash(v);
  }

  /**
   * Updates a fingerprint for heap `i` going from `from` to `to` objects.
   * The fingerprint changes exactly when the two counts' entries differ,
   * and toggling the entries back restores it.
   */
  function ChangeHeap(t: ZTable, z: ZHash, i: int, from: int, to: int): (r: ZHash)
    requires ValidTable(t)
    requires 0 <= i < MAX_HEAPS
    requires 0 <= from <= MAX_OBJECTS && 0 <= to <= MAX_OBJECTS
    ensures r == z <==> Entry(t, i, from) == Entry(t, i, to)
    ensures Toggle(Toggle(r.value, Entry(t, i, to)), Entry(t, i, from)) == z.value
  {
    var a, c := Entry(t, i, from), Entry(t, i, to);
    XorChanges(z.value, a, c);
    XorCancel(Xor(z.value, a), c);
    XorCancel(z.value, a);
    ZHash(Toggle(Toggle(z.value, a), c))
  }

  /**
   * Updates a fingerprint for the side to move changing. The fingerprint
   * changes unless the side value is EMPTY, and toggling it again restores it.
   */
  function ChangeNextPlayer(t: ZTable, z: ZHash): (r: ZHash)
    ensures r == z <==> t.nextPlayer == EMPTY
    ensures Toggle(r.value, t.nextPlayer) == z.value
  {
    XorChanges(z.value, t.nextPlayer, EMPTY);
    XorZero(Xor(z.value, t.nextPlayer));
    XorCancel(z.value, t.nextPlayer);
    ZHash(Toggle(z.value, t.nextPlayer))
  }

  /** Every one of the 64 binary digits of UNDEFINED is set, where EMPTY has none. */
  lemma UndefinedIsComplement()
    ensures forall k: nat :: Bit(UNDEFINED, k) <==> k < 64
    ensures forall k: nat :: !Bit(EMPTY, k)
    ensures !IsUndefined(ZHash(EMPTY)) && IsUndefined(ZHash(UNDEFINED))
  {
    Pow2Of64();
    forall k: nat
      ensures Bit(UNDEFINED, k) <==> k < 64
    {
      AllOnes(64, k);
    }
    forall k: nat
      ensures !Bit(EMPTY, k)
    {
      ZeroHasNoBit(k);
    }
  }

  /** `Less` is a strict total order, and two fingerprints are equal exactly when their values are. */
  lemma LessIsStrictTotalOrder(x: ZHash, y: ZHash, w: ZHash)
    ensures !Less(x, x)
    ensures Less(x, y) ==> !Less(y, x)
    ensures Less(x, y) && Less(y, w) ==> Less(x, w)
    ensures x == y || Less(x, y) || Less(y, x)
    ensures x == y <==> x.value == y.value
  {
  }

  /** Making the same heap change twice restores the fingerprint, and a change to the same count does nothing. */
  lemma ChangeHeapInvolution(t: ZTable, z: ZHash, i: int, from: int, to: int)
    requires ValidTable(t)
    requires 0 <= i < MAX_HEAPS
    requires 0 <= from <= MAX_OBJECTS && 0 <= to <= MAX_OBJECTS
    ensures ChangeHeap(t, ChangeHeap(t, z, i, from, to), i, from, to) == z
    ensures ChangeHeap(t, z, i, to, to) == z
  {
    var a, c := Entry(t, i, from), Entry(t, i, to);
    var y := Xor(Xor(z.value, a), c);
    XorSwap(y, a, c);
    XorCancel(Xor(z.value, a), c);
    XorCancel(z.value, a);
    XorCancel(z.value, c);
  }

  /** Changing the side to move twice restores the fingerprint. */
  lemma ChangeNextPlayerInvolution(t: ZTable, z: ZHash)
    ensures ChangeNextPlayer(t, ChangeNextPlayer(t, z)) == z
  {
    XorCancel(z.value, t.nextPlayer);
  }

  /** Storing `v` in heap `i` toggles that heap's old entry out of the heaps' hash and the new one in. */
  lemma {:induction false} HeapsHashUpdate(t: ZTable, h: seq<int>, i: int, v: int)
    requires ValidTable(t)
    requires |h| <= MAX_HEAPS && Counts(h)
    requires 0 <= i < |h| && 0 <= v <= MAX_OBJECTS
    ensures Counts(h[i := v])
    ensures HeapsHash(t, h[i := v]) == Toggle(Toggle(HeapsHash(t, h), Entry(t, i, h[i])), Entry(t, i, v))
    decreases |h|
  {
    var g := h[i := v];
    var last := |h| - 1;
    var rest := HeapsHash(t, h[..last]);
    var old_, new_ := Entry(t, i, h[i]), Entry(t, i, v);
    assert HeapsHash(t, h) == Toggle(rest, Entry(t, last, h[last]));
    assert HeapsHash(t, g) == Toggle(HeapsHash(t, g[..last]), Entry(t, last, g[last]));
    if i < last {
      var e := Entry(t, last, h[last]);
      assert g[..last] == h[..last][i := v];
      HeapsHashUpdate(t, h[..last], i, v);
      XorSwap(Xor(rest, old_), new_, e);
      XorSwap(rest, old_, e);
    } else {
      assert g[..last] == h[..last];
      XorCancel(rest, old_);
    }
  }

  /**
   * The incremental update agrees with hashing from scratch: changing heap
   * `i` from its count to `v` gives the fingerprint of the changed board.
   */
  lemma ChangeHeapMatchesHashOf(t: ZTable, b: Board, p: PlayerId, i: int, v: int)
    requires ValidTable(t) && Valid(b)
    requires 0 <= i < |b.heaps| && 0 <= v <= MAX_OBJECTS
    ensures Valid(Board(b.heaps[i := v]))
    ensures ChangeHeap(t, HashOf(t, b, p), i, b.heaps[i], v) == HashOf(t, Board(b.heaps[i := v]), p)
  {
    var a, c := Entry(t, i, b.heaps[i]), Entry(t, i, v);
    var hh, s := HeapsHash(t, b.heaps), SideValue(t, p);
    HeapsHashUpdate(t, b.heaps, i, v);
    XorSwap(Xor(hh, s), a, c);
    XorSwap(hh, s, a);
    XorSwap(Xor(hh, a), s, c);
  }

  /** Changing the side to move gives the fingerprint of the same board with the other side to move. */
  lemma ChangeNextPlayerMatchesHashOf(t: ZTable, b: Board, p: PlayerId)
    requires ValidTable(t) && Valid(b)
    ensures ChangeNextPlayer(t, HashOf(t, b, p)) == HashOf(t, b, Other(p))
  {
    var hh := HeapsHash(t, b.heaps);
    XorZero(hh);
    XorCancel(hh, t.nextPlayer);
  }

  /** The heaps' hash of all-empty heaps is EMPTY. */
  lemma {:induction false} EmptyHeapsHash(t: ZTable, h: seq<int>)
    requires ValidTable(t) && |h| <= MAX_HEAPS && Counts(h)
    requires forall j :: 0 <= j < |h| ==> h[j] == 0
    ensures HeapsHash(t, h) == EMPTY
  {
    if |h| > 0 {
      EmptyHeapsHash(t, h[..|h| - 1]);
    }
  }

  /** Empty heaps contribute nothing, so an empty board with the first player to move hashes to EMPTY, whatever its size. */
  lemma EmptyBoardHash(t: ZTable, b: Board)
    requires ValidTable(t) && Valid(b) && IsEmpty(b)
    ensures HashOf(t, b, First).value == EMPTY
  {
    EmptyHeapsHash(t, b.heaps);
  }

  /** One incremental change to a fingerprint. */
  datatype Change = HeapChange(i: int, from: int, to: int) | PlayerChange

  /** The change stays within the table. */
  predicate ValidChange(c: Change)
  {
    c.HeapChange? ==> 0 <= c.i < MAX_HEAPS && 0 <= c.from <= MAX_OBJECTS && 0 <= c.to <= MAX_OBJECTS
  }

  /** Every change of `cs` stays within the table. */
  predicate ValidChanges(cs: seq<Change>)
  {
    forall k :: 0 <= k < |cs| ==> ValidChange(cs[k])
  }

  /** Makes one change. */
  function Apply(t: ZTable, z: ZHash, c: Change): ZHash
    requires ValidTable(t) && ValidChange(c)
  {
    match c
    case HeapChange(i, from, to) => ChangeHeap(t, z, i, from, to)
    case PlayerChange => ChangeNextPlayer(t, z)
  }

  /** Makes the changes of `cs` one after another, first to last. */
  function ApplyAll(t: ZTable, z: ZHash, cs: seq<Change>): ZHash
    requires ValidTable(t) && ValidChanges(cs)
    decreases |cs|
  {
    if |cs| == 0 then z else ApplyAll(t, Apply(t, z, cs[0]), cs[1..])
  }

  /** The value one change toggles into a fingerprint. */
  function Delta(t: ZTable, c: Change): u64
    requires ValidTable(t) && ValidChange(c)
  {
    match c
    case HeapChange(i, from, to) => Toggle(Entry(t, i, from), Entry(t, i, to))
    case PlayerChange => t.nextPlayer
  }

  /** The exclusive-or of the values all changes of `cs` toggle. */
  function Deltas(t: ZTable, cs: seq<Change>): u64
    requires ValidTable(t) && ValidChanges(cs)
  {
    if |cs| == 0 then EMPTY else Toggle(Delta(t, cs[0]), Deltas(t, cs[1..]))
  }

  /** Making one change toggles its value into the fingerprint. */
  lemma ApplyToggles(t: ZTable, z: ZHash, c: Change)
    requires ValidTable(t) && ValidChange(c)
    ensures Apply(t, z, c).value == Toggle(z.value, Delta(t, c))
  {
    if c.HeapChange? {
      XorAssoc(z.value, Entry(t, c.i, c.from), Entry(t, c.i, c.to));
    }
  }

  /** Making a sequence of changes toggles the exclusive-or of their values into the fingerprint. */
  lemma {:induction false} ApplyAllToggles(t: ZTable, z: ZHash, cs: seq<Change>)
    requires ValidTable(t) && ValidChanges(cs)
    ensures ApplyAll(t, z, cs).value == Toggle(z.value, Deltas(t, cs))
    decreases |cs|
  {
    if |cs| == 0 {
      XorZero(z.value);
    } else {
      ApplyToggles(t, z, cs[0]);
      ApplyAllToggles(t, Apply(t, z, cs[0]), cs[1..]);
      XorAssoc(z.value, Delta(t, cs[0]), Deltas(t, cs[1..]));
    }
  }

  /** The values of two change lists joined toggle to the exclusive-or of each list's values. */
  lemma {:induction false} DeltasConcat(t: ZTable, cs: seq<Change>, ds: seq<Change>)
    requires ValidTable(t) && ValidChanges(cs) && ValidChanges(ds)
    ensures ValidChanges(cs + ds)
    ensures Deltas(t, cs + ds) == Toggle(Deltas(t, cs), Deltas(t, ds))
  {
    if |cs| == 0 {
      assert cs + ds == ds;
      XorZero(Deltas(t, ds));
    } else {
      assert (cs + ds)[1..] == cs[1..] + ds;
      DeltasConcat(t, cs[1..], ds);
      XorAssoc(Delta(t, cs[0]), Deltas(t, cs[1..]), Deltas(t, ds));
    }
  }

  /** Taking out the change at position `j` takes its value out of the list's value. */
  lemma {:induction false} DeltasRemove(t: ZTable, ds: seq<Change>, j: int)
    requires ValidTable(t) && ValidChanges(ds) && 0 <= j < |ds|
    ensures ValidChanges(ds[..j] + ds[j + 1..])
    ensures Deltas(t, ds) == Toggle(Delta(t, ds[j]), Deltas(t, ds[..j] + ds[j + 1..]))
  {
    if j > 0 {
      var tail := ds[1..];
      DeltasRemove(t, tail, j - 1);
      assert ds[..j] + ds[j + 1..] == [ds[0]] + (tail[..j - 1] + tail[j..]);
      var rest := Deltas(t, tail[..j - 1] + tail[j..]);
      XorAssoc(Delta(t, ds[0]), Delta(t, ds[j]), rest);
      XorComm(Delta(t, ds[0]), Delta(t, ds[j]));
      XorAssoc(Delta(t, ds[j]), Delta(t, ds[0]), rest);
    } else {
      assert ds[..j] + ds[j + 1..] == ds[1..];
    }
  }

  /** In a reordering `ds` of `cs`, some position `j` holds `cs[0]`, and the rest of `ds` reorders the rest of `cs`. */
  lemma MatchFirst(cs: seq<Change>, ds: seq<Change>) returns (j: int)
    requires |cs| > 0 && multiset(cs) == multiset(ds)
    ensures 0 <= j < |ds| && ds[j] == cs[0]
    ensures multiset(cs[1..]) == multiset(ds[..j] + ds[j + 1..])
  {
    assert cs == [cs[0]] + cs[1..];
    assert multiset(cs) == multiset{cs[0]} + multiset(cs[1..]);
    assert cs[0] in multiset(ds);
    j :| 0 <= j < |ds| && ds[j] == cs[0];
    assert ds == ds[..j] + [ds[j]] + ds[j + 1..];
    assert multiset(ds) == multiset(ds[..j]) + multiset{ds[j]} + multiset(ds[j + 1..]);
    assert multiset(ds[..j] + ds[j + 1..]) == multiset(ds[..j]) + multiset(ds[j + 1..]);
    assert multiset(ds[..j] + ds[j + 1..]) == multiset(ds) - multiset{ds[j]};
    assert multiset(cs[1..]) == multiset(cs) - multiset{cs[0]};
  }

  /** Change lists holding the same changes, in any order, toggle the same value. */
  lemma {:induction false} DeltasPermutation(t: ZTable, cs: seq<Change>, ds: seq<Change>)
    requires ValidTable(t) && ValidChanges(cs) && ValidChanges(ds)
    requires multiset(cs) == multiset(ds)
    ensures Deltas(t, cs) == Deltas(t, ds)
    decreases |cs|
  {
    if |cs| == 0 {
      assert |ds| == |multiset(ds)| == 0;
    } else {
      var j := MatchFirst(cs, ds);
      var rest := ds[..j] + ds[j + 1..];
      DeltasRemove(t, ds, j);
      DeltasPermutation(t, cs[1..], rest);
    }
  }

  /**
   * The fingerprint does not depend on the order of the changes: any
   * reordering of a change list leads to the same fingerprint.
   */
  lemma ApplyAllPermutation(t: ZTable, z: ZHash, cs: seq<Change>, ds: seq<Change>)
    requires ValidTable(t) && ValidChanges(cs) && ValidChanges(ds)
    requires multiset(cs) == multiset(ds)
    ensures ApplyAll(t, z, cs) == ApplyAll(t, z, ds)
  {
    ApplyAllToggles(t, z, cs);
    ApplyAllToggles(t, z, ds);
    DeltasPermutation(t, cs, ds);
  }

  /** Making a list of changes and then the same list again restores the fingerprint. */
  lemma ApplyAllTwice(t: ZTable, z: ZHash, cs: seq<Change>)
    requires ValidTable(t) && ValidChanges(cs)
    ensures ValidChanges(cs + cs)
    ensures ApplyAll(t, z, cs + cs) == z
  {
    DeltasConcat(t, cs, cs);
    XorSelf(Deltas(t, cs));
    ApplyAllToggles(t, z, cs + cs);
    XorZero(z.value);
  }
}
