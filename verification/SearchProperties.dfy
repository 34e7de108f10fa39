/**
 What the search methods mean, exactly when they mean it, and what the overwrite
 check of shd_search_end can see.
 */
module SearchProperties {
  import opened Index
  import opened Ring
  import opened Search

  // ------------------------------------------------------------------
  // Samples by date

  /** On samples that a binary search can handle, the hint does not matter, except for the
      binary search on a single sample. */
  lemma HintsAgree(hist: seq<Sample>, n: nat, date: int, hint: Hint)
    requires hist != [] && n >= 2 && (hint == Binary ==> Searchable(hist, n, date))
    ensures Reference(hist, n, date, hint) == Reference(hist, n, date, Naive)
       <==> !(hint == Binary && |hist| == 1 && hist[0].meta.ts < date)
  {
    if |hist| == 1 {
      assert Oldest(1, n) == 0;
    } else if hint == Binary {
      BinaryIsNaive(hist, n, date);
    }
  }

  /** Some sample in the ring is before the date. */
  ghost predicate SomeBefore(hist: seq<Sample>, n: nat, date: int) {
    exists q :: Oldest(|hist|, n) <= q < |hist| && hist[q].meta.ts < date
  }

  /** Where a search by date sees a ring that is full, or has a sample before the date
      that it can find. */
  ghost predicate Anchored(hist: seq<Sample>, n: nat, date: int, hint: Hint) {
    |hist| >= n || (SomeBefore(hist, n, date) && !(hint == Binary && |hist| == 1))
  }

  lemma AnchoredFinds(hist: seq<Sample>, n: nat, date: int, hint: Hint)
    requires hist != [] && n >= 2 && (hint == Binary ==> Searchable(hist, n, date))
    ensures Anchored(hist, n, date, hint) <==> |hist| >= n || Reference(hist, n, date, hint) >= 0
  {
    var p := NewestBefore(hist, Oldest(|hist|, n), |hist|, date);
    assert p >= 0 ==> hist[p].meta.ts < date;
    HintsAgree(hist, n, date, hint);
  }

  /** First-before gives the newest sample of the ring before the date, and no match
      exactly when there is none. */
  lemma FirstBeforeMeetsSpec(hist: seq<Sample>, n: nat, date: int, hint: Hint)
    requires hist != [] && n >= 2 && !(hint == Binary && |hist| == 1)
    requires hint == Binary ==> Searchable(hist, n, date)
    ensures var p := BeforePosition(hist, n, date, hint);
            && (p == |hist| <==> !SomeBefore(hist, n, date))
            && (p != |hist| ==> Oldest(|hist|, n) <= p < |hist| && hist[p].meta.ts < date)
            && forall q :: Oldest(|hist|, n) <= q < |hist| && p < q ==> hist[q].meta.ts >= date
  {
    var p := Reference(hist, n, date, hint);
    HintsAgree(hist, n, date, hint);
    assert p >= 0 ==> hist[p].meta.ts < date;
  }

  /** Position a is the oldest sample of the ring not before the date; none if a is c. */
  ghost predicate IsFirstAfter(hist: seq<Sample>, n: nat, date: int, a: int) {
    && Oldest(|hist|, n) <= a <= |hist|
    && (forall q :: Oldest(|hist|, n) <= q < a ==> hist[q].meta.ts < date)
    && (a < |hist| ==> hist[a].meta.ts >= date)
  }

  /** First-after meets its specification exactly when the ring is full or has a sample
      before the date; otherwise it designates a slot that was never written. */
  lemma FirstAfterMeetsSpec(hist: seq<Sample>, n: nat, date: int, hint: Hint)
    requires hist != [] && n >= 2 && SortedFrom(hist, Oldest(|hist|, n))
    ensures IsFirstAfter(hist, n, date, AfterPosition(hist, n, date, hint)) <==> Anchored(hist, n, date, hint)
    ensures !Anchored(hist, n, date, hint) ==> AfterPosition(hist, n, date, hint) < 0
  {
    AnchoredFinds(hist, n, date, hint);
    HintsAgree(hist, n, date, hint);
  }

  function Abs(x: int): nat {
    if x < 0 then -x else x
  }

  /** No sample of the ring is closer to the date than the one at position p. */
  ghost predicate IsClosest(hist: seq<Sample>, n: nat, date: int, p: int) {
    && Oldest(|hist|, n) <= p < |hist|
    && forall q :: Oldest(|hist|, n) <= q < |hist| ==> Abs(hist[p].meta.ts - date) <= Abs(hist[q].meta.ts - date)
  }

  /** Closest is an argmin exactly when the ring is full or has a sample before the
      date. */
  lemma ClosestIsArgmin(hist: seq<Sample>, n: nat, date: int, hint: Hint)
    requires hist != [] && n >= 2 && SortedFrom(hist, Oldest(|hist|, n))
    ensures IsClosest(hist, n, date, ClosestPosition(hist, n, date, hint)) <==> Anchored(hist, n, date, hint)
    ensures !Anchored(hist, n, date, hint) ==> ClosestPosition(hist, n, date, hint) < 0
  {
    hide NewestBefore, BinaryReference;
    AnchoredFinds(hist, n, date, hint);
    HintsAgree(hist, n, date, hint);
  }

  /** Between the two neighbours of the date, a tie goes to the earlier one. */
  lemma ClosestTieGoesToEarlier(hist: seq<Sample>, n: nat, date: int, hint: Hint)
    requires var p := Reference(hist, n, date, hint);
             0 <= p < |hist| - 1 && hist[p + 1].meta.ts >= date
    ensures var p := Reference(hist, n, date, hint);
            ClosestPosition(hist, n, date, hint) ==
            if hist[p + 1].meta.ts - date < date - hist[p].meta.ts then p + 1 else p
  {
  }

  // ------------------------------------------------------------------
  // The overwrite check

  /** Slot s is chosen `margin` steps after position c. */
  lemma NextChoice(c: nat, s: nat, n: Size) returns (margin: nat)
    requires s < n
    ensures margin < n && SlotOf(c + margin, n) == s
    ensures margin == IntervalBetween(SlotOf(c, n), s, n)
    ensures NotReserved(c, c + margin, s, n)
  {
    margin := IntervalBetween(SlotOf(c, n), s, n);
    SlotAdvance(c, margin, n);
    forall e | c <= e < c + margin
      ensures SlotOf(e, n) != s
    {
      SlotsDiffer(e, c + margin, n);
    }
  }

  /** A slot rewritten since the search started counts more than the newest slot did. */
  lemma RewrittenCounts(c: nat, e: nat, r: nat, n: Size)
    requires 0 < c <= e < r
    ensures Hits(r, SlotOf(e, n), n) - 1 >= LapOf(c - 1, n)
  {
    HitsAt(e, n);
    HitsStill(e + 1, r, SlotOf(e, n), n);
    LapMonotone(c - 1, e, n);
  }

  /** The check after k more commits, in terms of the remainder of k by the ring size. */
  lemma OverwriteCheckIsRemainder<T>(slots: seq<Slot<T>>, hist: seq<T>, r: nat,
                                     slots': seq<Slot<T>>, hist': seq<T>, r': nat, wStart: nat, margin: nat)
    requires hist != [] && Holds(slots, hist, r) && Holds(slots', hist', r')
    requires |slots'| == |slots| && |hist| <= |hist'| && wStart < |slots|
    requires margin == IntervalBetween(SlotOf(|hist|, |slots|), wStart, |slots|)
    requires margin < |slots| && SlotOf(|hist| + margin, |slots|) == wStart
    ensures var ctx := SearchStart(SlotOf(|hist| - 1, |slots|), slots);
            SearchEnd(SlotOf(|hist'| - 1, |slots|), ctx, wStart, slots')
            <==> margin < SlotOf(|hist'| - |hist|, |slots|)
  {
    hide Counters, Contents, SlotOf, SearchEnd, IntervalBetween;
    var k := |hist'| - |hist|;
    if margin < SlotOf(k, |slots|) {
      SlotNotLarger(k, |slots|);
      CounterTells(slots, hist, r, slots', hist', r', |hist| + margin);
    }
    CheckLogic(slots', SearchStart(SlotOf(|hist| - 1, |slots|), slots), wStart, |hist|, k, margin);
  }

  /** The check, once the counter is known not to spoil it. */
  lemma CheckLogic<T>(slots: seq<Slot<T>>, ctx: SearchCtx, wStart: nat, c: nat, k: nat, margin: nat)
    requires IsRing(slots) && wStart < |slots| && c > 0 && ctx.tIndex == SlotOf(c - 1, |slots|)
    requires margin == IntervalBetween(SlotOf(c, |slots|), wStart, |slots|)
    requires margin < SlotOf(k, |slots|) ==> slots[wStart].nbWrites >= ctx.nbWritesTop
    ensures SearchEnd(SlotOf(c + k - 1, |slots|), ctx, wStart, slots) <==> margin < SlotOf(k, |slots|)
  {
    NewSamples(c, k, |slots|);
  }

  /** The index arithmetic of the check. */
  lemma NewSamples(c: nat, k: nat, n: Size)
    requires c > 0
    ensures IndexNext(SlotOf(c - 1, n), n) == SlotOf(c, n)
    ensures IntervalBetween(SlotOf(c - 1, n), SlotOf(c + k - 1, n), n) == SlotOf(k, n)
  {
    NextSlot(c, n);
    IntervalOfSlots(c - 1, c - 1 + k, n);
  }

  /** The counter of a slot rewritten since then is at least that of the newest slot. */
  lemma CounterTells<T>(slots: seq<Slot<T>>, hist: seq<T>, r: nat,
                        slots': seq<Slot<T>>, hist': seq<T>, r': nat, e: nat)
    requires hist != [] && Holds(slots, hist, r) && Holds(slots', hist', r')
    requires |slots'| == |slots| && |hist| <= e < |hist'|
    ensures slots'[SlotOf(e, |slots|)].nbWrites >= slots[SlotOf(|hist| - 1, |slots|)].nbWrites
  {
    TopCounter(slots, hist, r);
    RewrittenCounts(|hist|, e, r', |slots|);
  }

  lemma {:induction false} SlotNotLarger(k: nat, n: Size)
    ensures SlotOf(k, n) <= k
    ensures SlotOf(k, n) == k <==> k < n
  {
    if k >= n {
      SlotNotLarger(k - n, n);
    }
  }

  /** With k commits since the search started, a positive check always means that the
      window's start was rewritten; for k below the ring size the check is exact. */
  lemma OverwriteCheckIsExact<T>(slots: seq<Slot<T>>, hist: seq<T>, r: nat,
                                 slots': seq<Slot<T>>, hist': seq<T>, r': nat, wStart: nat)
    requires hist != [] && Holds(slots, hist, r) && Holds(slots', hist', r')
    requires |slots'| == |slots| && |hist| <= |hist'| && wStart < |slots|
    ensures var c, k, n: Size := |hist|, |hist'| - |hist|, |slots|;
            var check := SearchEnd(SlotOf(|hist'| - 1, n), SearchStart(SlotOf(c - 1, n), slots), wStart, slots');
            && (check ==> !NotReserved(c, c + k, wStart, n))
            && (k < n ==> (check <==> !NotReserved(c, c + k, wStart, n)))
  {
    var margin := NextChoice(|hist|, wStart, |slots|);
    OverwriteCheckIsRemainder(slots, hist, r, slots', hist', r', wStart, margin);
    SlotNotLarger(|hist'| - |hist|, |slots|);
  }

  /** Boundary: a consumer lapped by a whole number of rings sees no overwrite at all. */
  lemma LappedLooksUntouched<T>(slots: seq<Slot<T>>, hist: seq<T>, r: nat,
                                slots': seq<Slot<T>>, hist': seq<T>, r': nat, wStart: nat)
    requires hist != [] && Holds(slots, hist, r) && Holds(slots', hist', r')
    requires |slots'| == |slots| && |hist| < |hist'| && wStart < |slots|
    requires SlotOf(|hist'| - |hist|, |slots|) == 0
    ensures !SearchEnd(SlotOf(|hist'| - 1, |slots|), SearchStart(SlotOf(|hist| - 1, |slots|), slots), wStart, slots')
    ensures !NotReserved(|hist|, |hist'|, wStart, |slots|)
  {
    var margin := NextChoice(|hist|, wStart, |slots|);
    OverwriteCheckIsRemainder(slots, hist, r, slots', hist', r', wStart, margin);
    SlotNotLarger(|hist'| - |hist|, |slots|);
  }

  /** After a negative check with fewer than a ring of commits, the samples from
      position a on are still in the ring, unless the write in progress, which the
      check cannot see, is replacing the first of them. */
  lemma NegativeCheckKeepsWindow<T>(slots: seq<Slot<T>>, hist: seq<T>, r: nat,
                                    slots': seq<Slot<T>>, hist': seq<T>, r': nat, a: nat)
    requires hist != [] && Holds(slots, hist, r) && Holds(slots', hist', r')
    requires |slots'| == |slots| && |hist| <= |hist'| < |hist| + |slots|
    requires a < |hist| <= a + |slots|
    requires !SearchEnd(SlotOf(|hist'| - 1, |slots|), SearchStart(SlotOf(|hist| - 1, |slots|), slots),
                        SlotOf(a, |slots|), slots')
    ensures |hist'| <= a + |slots|
    ensures r' <= a + |slots| <==> r' == |hist'| || SlotOf(|hist'|, |slots|) != SlotOf(a, |slots|)
  {
    hide Counters, Contents, SearchEnd;
    var n: Size := |slots|;
    OverwriteCheckIsExact(slots, hist, r, slots', hist', r', SlotOf(a, n));
    assert SlotOf(a + n, n) == SlotOf(a, n);
    if |hist'| < a + n {
      SlotsDiffer(a, |hist'|, n);
    }
  }
}
