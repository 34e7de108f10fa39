/**
 Index arithmetic of the ring (src/shd_utils.h), and the arithmetic that relates
 a position in the history of samples to the buffer slot that stores it.

 The C helpers mix int and uint32_t operands, so their sums are reduced modulo
 2^32 before the remainder by the ring size is taken.  The functions here are
 written without that detour, and `IndexIsUnsignedRemainder` shows that nothing is
 lost on the ranges the library uses.
 */
module Index {
  import opened Errno

  const TWO32 := 0x1_0000_0000

  /** Largest ring considered: every int the code computes then fits in 31 bits. */
  const MAX_SAMPLES := 0x4000_0000

  /** The number of samples of a section. */
  type Size = n: nat | 1 <= n <= MAX_SAMPLES witness 1

  /** Conversion to uint32_t. */
  function U32(x: int): (u: nat)
    ensures u < TWO32
    ensures 0 <= x < TWO32 ==> u == x
    ensures -TWO32 <= x < 0 ==> u == x + TWO32
    decreases if x < 0 then TWO32 - x else x
  {
    if x < 0 then U32(x + TWO32) else if x < TWO32 then x else U32(x - TWO32)
  }

  lemma {:induction false} U32Decomposes(x: int) returns (q: int)
    ensures x == q * TWO32 + U32(x)
    decreases if x < 0 then TWO32 - x else x
  {
    if x < 0 {
      q := U32Decomposes(x + TWO32);
      q := q - 1;
    } else if x < TWO32 {
      q := 0;
    } else {
      q := U32Decomposes(x - TWO32);
      q := q + 1;
    }
  }

  lemma U32IsRemainder(x: int)
    ensures U32(x) == x % TWO32
  {
    var q := U32Decomposes(x);
  }

  /** Fits in the C type int. */
  predicate IsInt(x: int) {
    -0x8000_0000 <= x < 0x8000_0000
  }

  function Min(a: int, b: int): int {
    if a < b then a else b
  }

  // ------------------------------------------------------------------
  // Remainder and quotient by the ring size.  The e-th sample ever committed
  // (from 0) is stored in slot e modulo n, on lap e / n.

  function SlotOf(e: nat, n: Size): (s: nat)
    ensures s < n
    ensures e < n ==> s == e
    ensures n <= e < 2 * n ==> s == e - n
  {
    if e < n then e else SlotOf(e - n, n)
  }

  function LapOf(e: nat, n: Size): nat {
    if e < n then 0 else 1 + LapOf(e - n, n)
  }

  /** SlotOf and LapOf are the operators % and / on natural numbers. */
  lemma SlotIsRemainder(e: nat, n: Size)
    ensures SlotOf(e, n) == e % n && LapOf(e, n) == e / n
  {
    SlotDecomposes(e, n);
    QuotientUnique(n, LapOf(e, n), SlotOf(e, n), e / n, e % n);
  }

  lemma {:induction false} SlotDecomposes(e: nat, n: Size)
    ensures e == n * LapOf(e, n) + SlotOf(e, n)
  {
    if e >= n {
      SlotDecomposes(e - n, n);
    }
  }

  lemma QuotientUnique(n: nat, q: int, r: nat, q': int, r': nat)
    requires r < n && r' < n && n * q + r == n * q' + r'
    ensures q == q' && r == r'
  {
    if q != q' {
      var d := if q < q' then q' - q else q - q';
      assert n * d == n * (if q < q' then q' else q) - n * (if q < q' then q else q');
      assert n * d >= n by { AtLeastOnce(n, d); }
    }
  }

  lemma AtLeastOnce(n: nat, d: nat)
    requires d >= 1
    ensures n * d >= n
  {
  }

  // ------------------------------------------------------------------
  // The C helpers

  /** Number of steps from idx1 forward to idx2. */
  function IntervalBetween(idx1: int, idx2: int, size: Size): nat {
    if idx1 <= idx2 then U32(idx2 - idx1) else U32(idx2 + size - idx1)
  }

  function IndexNAfter(idx: int, k: int, size: Size): (r: nat)
    requires 0 <= idx + k < 2 * size
    ensures r < size
  {
    if idx + k < size then idx + k else idx + k - size
  }

  function IndexNBefore(idx: int, k: int, size: Size): (r: nat)
    requires 0 <= idx + size - k < 2 * size
    ensures r < size
  {
    if idx >= k then idx - k else idx - k + size
  }

  function IndexNext(idx: int, size: Size): (r: nat)
    requires -1 <= idx < size
    ensures r < size
  {
    IndexNAfter(idx, 1, size)
  }

  function IndexPrevious(idx: int, size: Size): (r: nat)
    requires 0 <= idx < size
    ensures r < size
  {
    IndexNBefore(idx, 1, size)
  }

  lemma U32Nested(a: int, k: int)
    ensures U32(U32(a) - k) == U32(a - k)
  {
    hide U32;
    var q := U32Decomposes(a);
    U32IsRemainder(U32(a) - k);
    U32IsRemainder(a - k);
    assert a - k == U32(a) - k + q * TWO32;
  }

  lemma RemainderOf(x: nat, size: Size)
    requires x < 2 * size
    ensures U32(x) % size == if x < size then x else x - size
  {
    SlotIsRemainder(x, size);
  }

  /** On the ranges in which the library calls them, these are the C expressions
      (idx + k) % size and (idx + size - k) % size, evaluated in uint32_t. */
  lemma IndexIsUnsignedRemainder(idx: int, k: int, size: Size)
    ensures 0 <= idx + k < 2 * size ==> IndexNAfter(idx, k, size) == U32(idx + k) % size
    ensures 0 <= idx + size - k < 2 * size ==> IndexNBefore(idx, k, size) == U32(U32(idx + size) - k) % size
  {
    if 0 <= idx + k < 2 * size {
      RemainderOf(idx + k, size);
    }
    if 0 <= idx + size - k < 2 * size {
      U32Nested(idx + size, k);
      RemainderOf(idx + size - k, size);
    }
  }

  /** Moving k positions on in history moves k slots on around the ring. */
  lemma {:induction false} SlotAdvance(e: nat, k: nat, n: Size)
    requires k <= n
    ensures SlotOf(e + k, n) == if SlotOf(e, n) + k < n then SlotOf(e, n) + k else SlotOf(e, n) + k - n
  {
    if e >= n {
      SlotAdvance(e - n, k, n);
    }
  }

  /** Positions less than a ring apart are stored in different slots. */
  lemma SlotsDiffer(e: nat, f: nat, n: Size)
    requires e < f < e + n
    ensures SlotOf(e, n) != SlotOf(f, n)
  {
    SlotAdvance(e, f - e, n);
  }

  lemma {:induction false} LapMonotone(e: nat, f: nat, n: Size)
    requires e <= f
    ensures LapOf(e, n) <= LapOf(f, n)
  {
    if e >= n {
      LapMonotone(e - n, f - n, n);
    }
  }

  /** The C helpers compute slots of history positions. */
  lemma NextSlot(c: nat, n: Size)
    ensures IndexNext(LastIndex(c, n), n) == SlotOf(c, n)
  {
    if c > 0 {
      SlotAdvance(c - 1, 1, n);
    }
  }

  /** Slot of the newest of c samples; -1 when there is none. */
  function LastIndex(c: nat, n: Size): int {
    if c == 0 then -1 else SlotOf(c - 1, n)
  }

  lemma AfterSlot(e: nat, k: nat, n: Size)
    requires k <= n
    ensures IndexNAfter(SlotOf(e, n), k, n) == SlotOf(e + k, n)
  {
    SlotAdvance(e, k, n);
  }

  lemma BeforeSlot(e: nat, k: nat, n: Size)
    requires k <= e && k <= n
    ensures IndexNBefore(SlotOf(e, n), k, n) == SlotOf(e - k, n)
  {
    SlotAdvance(e - k, k, n);
  }

  lemma SlotRepeats(e: nat, n: Size)
    requires e >= n
    ensures SlotOf(e, n) == SlotOf(e - n, n)
  {
  }

  /** The interval between two slots is the distance in history, modulo the ring. */
  lemma {:induction false} IntervalOfSlots(e: nat, f: nat, n: Size)
    requires e <= f
    ensures IntervalBetween(SlotOf(e, n), SlotOf(f, n), n) == SlotOf(f - e, n)
    decreases f
  {
    hide U32, SlotOf;
    if f - e < n {
      SlotAdvance(e, f - e, n);
    } else {
      IntervalOfSlots(e, f - n, n);
      SlotRepeats(f, n);
      SlotRepeats(f - e, n);
    }
  }

  // ------------------------------------------------------------------
  // How often a slot is chosen among the first r positions.

  function Hits(r: nat, s: nat, n: Size): nat {
    if r == 0 then 0 else Hits(r - 1, s, n) + if SlotOf(r - 1, n) == s then 1 else 0
  }

  /** None of the positions r0 to r1 - 1 is stored in slot s. */
  predicate NotReserved(r0: nat, r1: nat, s: nat, n: Size) {
    forall e :: r0 <= e < r1 ==> SlotOf(e, n) != s
  }

  /** The count stands still exactly while the slot is not chosen. */
  lemma {:induction false} HitsStill(r0: nat, r1: nat, s: nat, n: Size)
    requires r0 <= r1
    ensures Hits(r0, s, n) <= Hits(r1, s, n)
    ensures Hits(r0, s, n) == Hits(r1, s, n) <==> NotReserved(r0, r1, s, n)
  {
    if r0 < r1 {
      HitsStill(r0, r1 - 1, s, n);
      assert SlotOf(r1 - 1, n) == s || Hits(r1, s, n) == Hits(r1 - 1, s, n);
    }
  }

  /** Position e is the choice number LapOf(e), from 0, of its slot. */
  lemma {:induction false} HitsAt(e: nat, n: Size)
    ensures Hits(e + 1, SlotOf(e, n), n) == LapOf(e, n) + 1
  {
    var s := SlotOf(e, n);
    if e < n {
      assert forall f :: 0 <= f < e ==> SlotOf(f, n) != s;
      HitsStill(0, e, s, n);
    } else {
      HitsAt(e - n, n);
      forall f | e - n + 1 <= f < e
        ensures SlotOf(f, n) != s
      {
        SlotsDiffer(f, e, n);
      }
      HitsStill(e - n + 1, e, s, n);
    }
  }

  /** A slot has been chosen once r has passed its own number, and not before. */
  lemma HitsFirst(r: nat, s: nat, n: Size)
    requires s < n
    ensures Hits(r, s, n) > 0 <==> s < r
  {
    if s < r {
      HitsAt(s, n);
      HitsStill(s + 1, r, s, n);
    } else {
      assert forall f :: 0 <= f < r ==> SlotOf(f, n) == f;
      HitsStill(0, r, s, n);
    }
  }

  // ------------------------------------------------------------------
  // Reservation of a sample

  /** Samples found to have been written by others since this context's last one: the
      interval between its last slot and the next one, less one, as uint32_t. */
  function UnexpectedSamples(prevIndex: int, index: int, n: Size): nat {
    U32(IntervalBetween(prevIndex, index, n) - 1)
  }

  function ClaimResult(prevIndex: int, index: int, n: Size): int {
    if UnexpectedSamples(prevIndex, index, n) > 0 && prevIndex != -1 then -EFAULT else 0
  }

  /** `k` samples by other contexts since the last one of this context, at position e,
      go unnoticed exactly when k is a multiple of the ring size (its remainder
      SlotOf(k, n) is 0). */
  lemma UnexpectedIsRemainder(e: nat, k: nat, n: Size)
    requires n >= 2
    ensures ClaimResult(SlotOf(e, n), SlotOf(e + k + 1, n), n) == if SlotOf(k, n) == 0 then 0 else -EFAULT
  {
    hide SlotOf;
    IntervalOfSlots(e, e + k + 1, n);
    SlotAdvance(k, 1, n);
  }

  /** With a single slot, the second write is reported as foreign. */
  lemma SingleSlotRing()
    ensures ClaimResult(0, IndexNext(0, 1), 1) == -EFAULT
  {
    assert IndexNext(0, 1) == 0;
  }
}
