/**
 What each search method of a request selects (src/shd_window.c), in the terms of its
 documentation: the position of the reference sample that `Window.Set` and `Consumer.Find`
 put their window around.
 */
module Selection {
  import opened Index
  import opened Ring
  import opened Search
  import opened SearchProperties
  import opened Windows

  /** The samples are sorted as a search by date with this hint needs them. */
  ghost predicate SortedAsNeeded(hist: seq<Sample>, n: nat, req: Request, hint: Hint) {
    && (req.how == Closest || req.how == FirstAfter ==> SortedFrom(hist, Oldest(|hist|, n)))
    && (req.how == FirstBefore && hint == Binary ==> Searchable(hist, n, req.date))
  }

  /** Latest selects the newest sample.  Oldest selects a sample of the ring with none
      before it until the ring is full, and with exactly one before it from then on. */
  lemma LatestAndOldest(hist: seq<Sample>, n: nat, req: Request, hint: Hint)
    requires hist != [] && n >= 2
    ensures var p := RefPosition(hist, n, req, hint);
            && (req.how == Latest ==> p == |hist| - 1)
            && (req.how == OldestSample ==>
                 && Oldest(|hist|, n) <= p < |hist|
                 && (|hist| < n ==> p == 0)
                 && (|hist| >= n ==> p == |hist| - n + 1))
  {
  }

  /** First-before selects the newest sample of the ring before the date, and nothing
      exactly when there is none; the binary search on one sample finds nothing. */
  lemma FirstBeforeSelects(hist: seq<Sample>, n: nat, req: Request, hint: Hint)
    requires hist != [] && n >= 2 && req.how == FirstBefore && SortedAsNeeded(hist, n, req, hint)
    ensures var p := RefPosition(hist, n, req, hint);
            if hint == Binary && |hist| == 1 then p == |hist|
            else
              && (p == |hist| <==> !SomeBefore(hist, n, req.date))
              && (p != |hist| ==> Oldest(|hist|, n) <= p < |hist| && hist[p].meta.ts < req.date)
              && forall q :: Oldest(|hist|, n) <= q < |hist| && p < q ==> hist[q].meta.ts >= req.date
  {
    if !(hint == Binary && |hist| == 1) {
      FirstBeforeMeetsSpec(hist, n, req.date, hint);
    }
  }

  /** First-after selects the oldest sample of the ring not before the date, or nothing if
      all are before it, exactly when the ring is full or a sample before the date is
      found; otherwise it selects a slot that was never written. */
  lemma FirstAfterSelects(hist: seq<Sample>, n: nat, req: Request, hint: Hint)
    requires hist != [] && n >= 2 && req.how == FirstAfter && SortedAsNeeded(hist, n, req, hint)
    ensures var p := RefPosition(hist, n, req, hint);
            && (IsFirstAfter(hist, n, req.date, p) <==> Anchored(hist, n, req.date, hint))
            && (!Anchored(hist, n, req.date, hint) ==> p < 0)
  {
    FirstAfterMeetsSpec(hist, n, req.date, hint);
  }

  /** Closest selects a sample of the ring that no other is closer to the date than,
      exactly under the same condition.  The one selected is not before the date only if
      its predecessor is strictly farther from it; if it is before the date, its successor
      is not. */
  lemma ClosestSelects(hist: seq<Sample>, n: nat, req: Request, hint: Hint)
    requires hist != [] && n >= 2 && req.how == Closest && SortedAsNeeded(hist, n, req, hint)
    ensures var p := RefPosition(hist, n, req, hint);
            && (IsClosest(hist, n, req.date, p) <==> Anchored(hist, n, req.date, hint))
            && (!Anchored(hist, n, req.date, hint) ==> p < 0)
    ensures var p, lo, date := RefPosition(hist, n, req, hint), Oldest(|hist|, n), req.date;
            IsClosest(hist, n, date, p) ==>
              && (hist[p].meta.ts >= date && p > lo ==>
                   hist[p - 1].meta.ts < date && hist[p].meta.ts - date < date - hist[p - 1].meta.ts)
              && (hist[p].meta.ts < date && p + 1 < |hist| ==> hist[p + 1].meta.ts >= date)
  {
    hide NewestBefore, BinaryReference;
    ClosestIsArgmin(hist, n, req.date, hint);
    HintsAgree(hist, n, req.date, hint);
  }

  /** In a ring in which no sample is being written, the window is set around the
      position that these lemmas are about; an unknown method matches nothing. */
  lemma SelectedInRing(slots: seq<Slot<Sample>>, hist: seq<Sample>, req: Request, hint: Hint)
    requires IsRing(slots) && hist != []
    ensures SeenPosition(slots, hist, |hist|, req, hint) == RefPosition(hist, |slots|, req, hint)
    ensures req.how == Unknown ==> RefPosition(hist, |slots|, req, hint) == |hist|
  {
    SeenIsHistory(slots, hist, |hist|, req, hint);
  }
}
