/**
 Searching the ring (src/shd_search.c, src/shd_sample.c).

 The searches run on an image of the slots that does not change meanwhile; what
 they return is stated in terms of the history of committed samples.  After c
 samples, a ring of n slots holds the positions from c - n to c - 1 of the history,
 one a slot; a position below zero stands for a slot that no sample has reached.
 Position c, the next sample, stands for "no match".

 While a sample is being written, a search takes what stands in its slot for the oldest
 sample of a full ring.  `Seen` is the history with that content, and the searches are
 specified on it; `FoundStands` says when this makes no difference.
 */
module Search {
  import opened Index
  import opened Ring

  type Byte = bv8

  /** Sample metadata; a timespec is a number of nanoseconds. */
  datatype Metadata = Metadata(ts: int, exp: int)
  datatype Sample = Sample(meta: Metadata, blob: seq<Byte>)

  datatype Hint = Naive | Binary | ByDate

  /** Newest slot when the search starts, and the counter of that slot. */
  datatype SearchCtx = SearchCtx(tIndex: int, nbWritesTop: int)

  function SearchStart<T>(writeIndex: int, slots: seq<Slot<T>>): SearchCtx
    requires 0 <= writeIndex < |slots|
  {
    SearchCtx(writeIndex, slots[writeIndex].nbWrites)
  }

  /** The window's start has been overwritten since the search started. */
  function SearchEnd<T>(writeIndex: int, ctx: SearchCtx, wStart: nat, slots: seq<Slot<T>>): bool
    requires IsRing(slots) && wStart < |slots| && 0 <= ctx.tIndex < |slots|
  {
    var n: Size := |slots|;
    var margin := IntervalBetween(IndexNext(ctx.tIndex, n), wStart, n);
    var nbNewSamples := IntervalBetween(ctx.tIndex, writeIndex, n);
    nbNewSamples > 0 && margin < nbNewSamples && slots[wStart].nbWrites >= ctx.nbWritesTop
  }

  function TimestampCmp(sample: Sample, date: int): int {
    if sample.meta.ts < date then -1 else if sample.meta.ts == date then 0 else 1
  }

  /** Negative when `after` is closer to the date, or when a duration is negative. */
  function ClosestTimestamp(before: Sample, after: Sample, date: int): (r: int)
    ensures r >= 0 <==> before.meta.ts <= date <= after.meta.ts && date - before.meta.ts <= after.meta.ts - date
    ensures r == 0 <==> before.meta.ts <= date <= after.meta.ts && date - before.meta.ts == after.meta.ts - date
  {
    var durationBefore := date - before.meta.ts;
    var durationAfter := after.meta.ts - date;
    if durationBefore < 0 || durationAfter < 0 then -1
    else if durationAfter < durationBefore then -1
    else if durationAfter == durationBefore then 0
    else 1
  }

  // ------------------------------------------------------------------
  // Positions of the history

  /** Oldest position still in a ring of n slots after c samples. */
  function Oldest(c: nat, n: nat): nat {
    if c >= n then c - n else 0
  }

  /** The slot of position p, when the newest of c samples is in slot tIndex. */
  function IndexOf(tIndex: int, c: nat, p: int, n: Size): nat
    requires 0 <= tIndex < n && c - n <= p < c
  {
    IndexNBefore(tIndex, c - 1 - p, n)
  }

  lemma IndexOfPosition(c: nat, p: nat, n: Size)
    requires p < c <= p + n
    ensures IndexOf(SlotOf(c - 1, n), c, p, n) == SlotOf(p, n)
  {
    BeforeSlot(c - 1, c - 1 - p, n);
  }

  /** The newest position in [lo, hi) whose sample is before the date; -1 if none. */
  function NewestBefore(hist: seq<Sample>, lo: nat, hi: nat, date: int): (p: int)
    requires lo <= hi <= |hist|
    ensures p == -1 || lo <= p < hi
    ensures p >= 0 ==> hist[p].meta.ts < date
    ensures forall q :: lo <= q < hi && p < q ==> hist[q].meta.ts >= date
  {
    if hi == lo then -1
    else if hist[hi - 1].meta.ts < date then hi - 1
    else NewestBefore(hist, lo, hi - 1, date)
  }

  lemma NewestBeforeIs(hist: seq<Sample>, lo: nat, hi: nat, date: int, p: int)
    requires lo <= hi <= |hist| && -1 <= p < hi
    requires p >= 0 ==> lo <= p && hist[p].meta.ts < date
    requires forall q :: lo <= q < hi && p < q ==> hist[q].meta.ts >= date
    ensures NewestBefore(hist, lo, hi, date) == p
  {
  }

  /** Timestamps do not decrease from position lo on. */
  ghost predicate SortedFrom(hist: seq<Sample>, lo: nat) {
    forall i, j :: lo <= i <= j < |hist| ==> hist[i].meta.ts <= hist[j].meta.ts
  }

  // ------------------------------------------------------------------
  // Depth

  /** What shd_search_get_max_depth measures: the whole ring if the newest slot has
      been written twice, else the number of valid slots back from the newest. */
  predicate IsDepth<T>(slots: seq<Slot<T>>, ctx: SearchCtx, depth: nat)
    requires IsRing(slots) && 0 <= ctx.tIndex < |slots|
  {
    if ctx.nbWritesTop > 0 then depth == |slots|
    else
      && depth <= |slots|
      && (forall d :: 0 <= d < depth ==> slots[IndexNBefore(ctx.tIndex, d, |slots|)].nbWrites != -1)
      && (depth < |slots| ==> slots[IndexNBefore(ctx.tIndex, depth, |slots|)].nbWrites == -1)
  }

  method MaxDepth<T>(slots: seq<Slot<T>>, ctx: SearchCtx) returns (depth: nat)
    requires IsRing(slots) && 0 <= ctx.tIndex < |slots|
    ensures IsDepth(slots, ctx, depth)
  {
    if ctx.nbWritesTop > 0 {
      return |slots|;
    }
    depth := 0;
    while depth < |slots|
      invariant depth <= |slots|
      invariant forall d :: 0 <= d < depth ==> slots[IndexNBefore(ctx.tIndex, d, |slots|)].nbWrites != -1
    {
      var idx := IndexNBefore(ctx.tIndex, depth, |slots|);
      if slots[idx].nbWrites == -1 {
        break;
      }
      depth := depth + 1;
    }
  }

  /** The newest sample's counter is its lap, also while the next one is written. */
  lemma TopCounter<T>(slots: seq<Slot<T>>, hist: seq<T>, r: nat)
    requires hist != [] && Holds(slots, hist, r)
    ensures slots[SlotOf(|hist| - 1, |slots|)].nbWrites == LapOf(|hist| - 1, |slots|)
  {
    HitsAt(|hist| - 1, |slots|);
    SlotsDiffer(|hist| - 1, |hist|, |slots|);
  }

  /** The depth is the number of samples in the ring, in every state except the one
      where all slots but the last hold a sample and the last is being written. */
  lemma DepthIsCommits<T>(slots: seq<Slot<T>>, hist: seq<T>, r: nat, ctx: SearchCtx, depth: nat)
    requires hist != [] && Holds(slots, hist, r)
    requires ctx == SearchStart(SlotOf(|hist| - 1, |slots|), slots)
    requires IsDepth(slots, ctx, depth)
    ensures depth == if |hist| == |slots| - 1 && r == |slots| then |slots| else Min(|hist|, |slots|)
  {
    var n: Size, c := |slots|, |hist|;
    TopCounter(slots, hist, r);
    LapZero(c - 1, n);
    if c <= n {
      if depth < n {
        HitsFirst(r, IndexNBefore(c - 1, depth, n), n);
      }
      if c < depth {
        HitsFirst(r, IndexNBefore(c - 1, c, n), n);
      }
    }
  }

  lemma LapZero(e: nat, n: Size)
    ensures LapOf(e, n) == 0 <==> e < n
  {
  }

  // ------------------------------------------------------------------
  // The reference sample

  /** The slots back from the start index of a search hold the samples back from the
      newest one, and the slot beyond them is invalid. */
  ghost predicate View(slots: seq<Slot<Sample>>, ctx: SearchCtx, hist: seq<Sample>) {
    && IsRing(slots) && hist != [] && 0 <= ctx.tIndex < |slots|
    && (ctx.nbWritesTop > 0 <==> |hist| > |slots|)
    && HoldsBack(slots, ctx.tIndex, hist)
  }

  ghost predicate HoldsBack(slots: seq<Slot<Sample>>, t: int, hist: seq<Sample>)
    requires IsRing(slots) && 0 <= t < |slots|
  {
    forall d :: 0 <= d < |slots| ==>
      var slot := slots[IndexNBefore(t, d, |slots|)];
      && (d < |hist| ==> slot.nbWrites != -1 && slot.content == hist[|hist| - 1 - d])
      && (d == |hist| ==> slot.nbWrites == -1)
  }

  /** A sample is being written into a slot that a search takes for a valid one. */
  predicate SeesReserved(c: nat, r: nat, n: nat) {
    r > c && c + 1 >= n
  }

  /** The history as a search sees it: the content of the slot being written, if that
      slot is in the search's depth, stands in the place of the oldest sample. */
  function Seen(slots: seq<Slot<Sample>>, hist: seq<Sample>, r: nat): (seen: seq<Sample>)
    requires IsRing(slots)
    ensures |seen| == if SeesReserved(|hist|, r, |slots|) && |hist| < |slots| then |hist| + 1 else |hist|
  {
    var open := slots[SlotOf(|hist|, |slots|)].content;
    if !SeesReserved(|hist|, r, |slots|) then hist
    else if |hist| < |slots| then [open] + hist
    else hist[|hist| - |slots| := open]
  }

  /** The slot d steps back from the newest of c samples, and what it counts. */
  lemma SlotBack(c: nat, d: nat, n: Size)
    requires 0 < c && d < n
    ensures var s := IndexNBefore(SlotOf(c - 1, n), d, n);
            && (d < c ==> s == SlotOf(c - 1 - d, n))
            && (Hits(c, s, n) > 0 <==> d < c)
  {
    hide SlotOf;
    if d < c {
      BeforeSlot(c - 1, d, n);
      HitsAt(c - 1 - d, n);
      HitsStill(c - d, c, SlotOf(c - 1 - d, n), n);
    } else {
      HitsFirst(c, c - 1 - d + n, n);
    }
  }

  /** Only the farthest slot back is the one after the newest. */
  lemma FarthestBack(c: nat, d: nat, n: Size)
    requires 0 < c && d < n
    ensures IndexNBefore(SlotOf(c - 1, n), d, n) == SlotOf(c, n) <==> d == n - 1
  {
    SlotAdvance(c - 1, 1, n);
  }

  /** What stands d back from the newest sample, as a search sees it. */
  lemma SeenBack(slots: seq<Slot<Sample>>, hist: seq<Sample>, r: nat, d: nat)
    requires IsRing(slots) && hist != [] && |hist| <= r && d < |slots|
    ensures var seen, c, n: Size := Seen(slots, hist, r), |hist|, |slots|;
            if SeesReserved(c, r, n) && d == n - 1 then
              d < |seen| && seen[|seen| - 1 - d] == slots[SlotOf(c, n)].content
            else
              (d < |seen| <==> d < c) && (d < |seen| ==> seen[|seen| - 1 - d] == hist[c - 1 - d])
  {
  }

  /** The slot d steps back is valid, and holds the sample d back, unless it is being
      written. */
  lemma SettledBack<T>(slots: seq<Slot<T>>, hist: seq<T>, r: nat, d: nat)
    requires hist != [] && Holds(slots, hist, r) && d < |slots|
    requires r == |hist| || d < |slots| - 1
    ensures var slot := slots[IndexNBefore(SlotOf(|hist| - 1, |slots|), d, |slots|)];
            && (d < |hist| <==> slot.nbWrites != -1)
            && (d < |hist| ==> slot.content == hist[|hist| - 1 - d])
  {
    hide SlotOf;
    var n: Size, c := |slots|, |hist|;
    SlotBack(c, d, n);
    FarthestBack(c, d, n);
    HitsStill(c, r, IndexNBefore(SlotOf(c - 1, n), d, n), n);
    assert d < c ==> hist[c - 1 - d] == slots[SlotOf(c - 1 - d, n)].content;
  }

  /** The farthest slot back counts as valid while it is being written. */
  lemma OpenBack<T>(slots: seq<Slot<T>>, hist: seq<T>)
    requires hist != [] && Holds(slots, hist, |hist| + 1)
    ensures IndexNBefore(SlotOf(|hist| - 1, |slots|), |slots| - 1, |slots|) == SlotOf(|hist|, |slots|)
    ensures slots[SlotOf(|hist|, |slots|)].nbWrites != -1
  {
    FarthestBack(|hist|, |slots| - 1, |slots|);
    SlotInFlight(slots, hist);
  }

  lemma TopSeen(slots: seq<Slot<Sample>>, hist: seq<Sample>, r: nat)
    requires hist != [] && Holds(slots, hist, r)
    ensures slots[SlotOf(|hist| - 1, |slots|)].nbWrites > 0 <==> |Seen(slots, hist, r)| > |slots|
  {
    TopCounter(slots, hist, r);
    LapZero(|hist| - 1, |slots|);
  }

  lemma RingGivesView(slots: seq<Slot<Sample>>, hist: seq<Sample>, r: nat)
    requires hist != [] && Holds(slots, hist, r)
    ensures View(slots, SearchStart(SlotOf(|hist| - 1, |slots|), slots), Seen(slots, hist, r))
  {
    TopSeen(slots, hist, r);
    AllSeen(slots, hist, r, SlotOf(|hist| - 1, |slots|), Seen(slots, hist, r));
  }

  lemma AllSeen(slots: seq<Slot<Sample>>, hist: seq<Sample>, r: nat, t: nat, seen: seq<Sample>)
    requires hist != [] && Holds(slots, hist, r) && t == SlotOf(|hist| - 1, |slots|) && seen == Seen(slots, hist, r)
    ensures HoldsBack(slots, t, seen)
  {
    forall d | 0 <= d < |slots|
      ensures var slot := slots[IndexNBefore(t, d, |slots|)];
              && (d < |seen| ==> slot.nbWrites != -1 && slot.content == seen[|seen| - 1 - d])
              && (d == |seen| ==> slot.nbWrites == -1)
    {
      SlotSeen(slots, hist, r, d);
    }
  }

  lemma SlotSeen(slots: seq<Slot<Sample>>, hist: seq<Sample>, r: nat, d: nat)
    requires hist != [] && Holds(slots, hist, r) && d < |slots|
    ensures var seen := Seen(slots, hist, r);
            var slot := slots[IndexNBefore(SlotOf(|hist| - 1, |slots|), d, |slots|)];
            && (d < |seen| ==> slot.nbWrites != -1 && slot.content == seen[|seen| - 1 - d])
            && (d == |seen| ==> slot.nbWrites == -1)
  {
    hide Counters, Contents, Seen, SlotOf;
    SeenBack(slots, hist, r, d);
    if r > |hist| && d == |slots| - 1 {
      OpenBack(slots, hist);
    } else {
      SettledBack(slots, hist, r, d);
    }
  }

  /** The newest sample before the date, as a position of the history, in the ring as a
      search sees it; |hist| - |seen| - 1 if there is none. */
  function SeenBefore(slots: seq<Slot<Sample>>, hist: seq<Sample>, r: nat, date: int): int
    requires IsRing(slots)
  {
    var seen := Seen(slots, hist, r);
    NewestBefore(seen, Oldest(|seen|, |slots|), |seen|, date) - (|seen| - |hist|)
  }

  /** The sample at position p is before the date, and no later one is. */
  ghost predicate NewestAt(hist: seq<Sample>, date: int, p: nat)
    requires p < |hist|
  {
    hist[p].meta.ts < date && forall q :: p < q < |hist| ==> hist[q].meta.ts >= date
  }

  lemma NewestBeforeExactly(hist: seq<Sample>, lo: nat, date: int, p: nat)
    requires lo <= p < |hist|
    ensures NewestBefore(hist, lo, |hist|, date) == p <==> NewestAt(hist, date, p)
  {
    if NewestAt(hist, date, p) {
      NewestBeforeIs(hist, lo, |hist|, date, p);
    }
  }

  lemma NewestInSuffix(hist: seq<Sample>, seen: seq<Sample>, date: int, p: nat, p': nat)
    requires p < |hist| && p' < |seen| && hist[p..] == seen[p'..]
    ensures NewestAt(hist, date, p) ==> NewestAt(seen, date, p')
  {
    assert hist[p] == hist[p..][0] == seen[p'];
    forall q | p' < q < |seen| && NewestAt(hist, date, p)
      ensures seen[q].meta.ts >= date
    {
      assert seen[q] == seen[p'..][q - p'] == hist[q - p' + p];
    }
  }

  /** A sample whose slot is not being written is found in the ring as it is seen exactly
      when it is the newest one before the date in the history. */
  lemma FoundStands(slots: seq<Slot<Sample>>, hist: seq<Sample>, r: nat, date: int, p: nat)
    requires IsRing(slots) && |hist| <= r <= |hist| + 1
    requires p < |hist| && r <= p + |slots|
    ensures SeenBefore(slots, hist, r, date) == p <==> NewestBefore(hist, Oldest(|hist|, |slots|), |hist|, date) == p
  {
    var seen := Seen(slots, hist, r);
    var p' := p + (|seen| - |hist|);
    assert hist[p..] == seen[p'..];
    NewestBeforeExactly(hist, Oldest(|hist|, |slots|), date, p);
    NewestBeforeExactly(seen, Oldest(|seen|, |slots|), date, p');
    NewestInSuffix(hist, seen, date, p, p');
    NewestInSuffix(seen, hist, date, p', p);
  }

  /** The loop of the backward scan. */
  method SearchNaive(slots: seq<Slot<Sample>>, date: int, ctx: SearchCtx, ghost hist: seq<Sample>)
    returns (found: bool, mIndex: int, searched: nat)
    requires View(slots, ctx, hist)
    ensures var lo := Oldest(|hist|, |slots|);
            var p := NewestBefore(hist, lo, |hist|, date);
            && (found <==> p >= 0)
            && (found ==> mIndex == IndexOf(ctx.tIndex, |hist|, p, |slots|))
            && searched == if found then |hist| - p else |hist| - lo
  {
    ghost var c := |hist|;
    ghost var passed := 0;
    var maxDepth := MaxDepth(slots, ctx);
    ViewDepth(slots, ctx, hist, maxDepth);
    found, searched, mIndex := false, 0, ctx.tIndex;
    while searched < maxDepth && !found
      invariant searched == (if found then passed + 1 else passed) <= maxDepth
      invariant forall q :: c - passed <= q < c ==> hist[q].meta.ts >= date
      invariant passed < maxDepth ==> mIndex == IndexNBefore(ctx.tIndex, passed, |slots|)
      invariant found ==> hist[c - 1 - passed].meta.ts < date
      decreases maxDepth - searched, !found
    {
      if TimestampCmp(slots[mIndex].content, date) < 0 {
        found := true;
      } else {
        mIndex := IndexPrevious(mIndex, |slots|);
        passed := passed + 1;
      }
      searched := searched + 1;
    }
    NewestBeforeIs(hist, Oldest(c, |slots|), c, date, if found then c - 1 - passed else -1);
  }

  function Pow2(k: nat): nat {
    if k == 0 then 1 else 2 * Pow2(k - 1)
  }

  /** Halvings, rounding up, from k to 1. */
  function Halvings(k: nat): nat {
    if k <= 1 then 0 else 1 + Halvings((k + 1) / 2)
  }

  lemma {:induction false} Pow2Monotone(k: nat, l: nat)
    requires k <= l
    ensures Pow2(k) <= Pow2(l)
  {
    if k > 0 {
      Pow2Monotone(k - 1, l - 1);
    } else if l > 0 {
      Pow2Monotone(0, l - 1);
    }
  }

  lemma {:induction false} HalvingsMonotone(k: nat, l: nat)
    requires k <= l
    ensures Halvings(k) <= Halvings(l)
  {
    if k > 1 {
      HalvingsMonotone((k + 1) / 2, (l + 1) / 2);
    }
  }

  lemma HalfFewer(imin: nat, imax: nat, imid: nat, imin': nat, imax': nat)
    requires imin < imax && imid == (imin + imax) / 2
    requires (imin' == imid + 1 && imax' == imax) || (imin' == imin && imax' == imid)
    ensures imin <= imin' <= imax' <= imax && imax' - imin' < imax - imin
    ensures Halvings(imax' - imin' + 1) < Halvings(imax - imin + 1)
  {
    HalvingsMonotone(imax' - imin' + 1, (imax - imin + 2) / 2);
  }

  lemma {:induction false} HalvingsBound(k: nat)
    requires k >= 2
    ensures Pow2(Halvings(k)) <= 2 * (k - 1)
  {
    if k > 2 {
      HalvingsBound((k + 1) / 2);
    }
  }

  lemma SearchedBound(searched: nat, depth: nat)
    requires depth >= 1 && searched <= Halvings(depth)
    ensures Pow2(searched) < 2 * depth
  {
    Pow2Monotone(searched, Halvings(depth));
    if depth >= 2 {
      HalvingsBound(depth);
    }
  }

  /** Where the halving of [imin, imax] ends, counted from position lo.  In whatever order
      the timestamps are, the sample there is not before the date, or it is the last one,
      and the sample before it is before the date, or it is the first one. */
  function Target(hist: seq<Sample>, lo: nat, date: int, imin: nat, imax: nat): (r: nat)
    requires imin <= imax && lo + imax < |hist|
    ensures imin <= r <= imax
    ensures r > imin ==> hist[lo + r - 1].meta.ts < date
    ensures r < imax ==> hist[lo + r].meta.ts >= date
    ensures r == imin == 0 && imax >= 2 ==> hist[lo + 1].meta.ts >= date
    decreases imax - imin
  {
    if imin == imax then imin
    else
      var imid := (imin + imax) / 2;
      if hist[lo + imid].meta.ts < date then Target(hist, lo, date, imid + 1, imax)
      else Target(hist, lo, date, imin, imid)
  }

  lemma TargetStep(hist: seq<Sample>, lo: nat, date: int, imin: nat, imax: nat, imid: nat, imin': nat, imax': nat)
    requires imin < imax && lo + imax < |hist| && imid == (imin + imax) / 2
    requires if hist[lo + imid].meta.ts < date then imin' == imid + 1 && imax' == imax
             else imin' == imin && imax' == imid
    ensures imin' <= imax' <= imax
    ensures Target(hist, lo, date, imin', imax') == Target(hist, lo, date, imin, imax)
  {
  }

  /** What the binary search finds: the sample at the target, or the one before it. */
  function BinaryReference(hist: seq<Sample>, n: nat, date: int): (p: int)
    ensures p == -1 || Oldest(|hist|, n) <= p < |hist|
    ensures p >= 0 ==> hist[p].meta.ts < date && (p + 1 < |hist| ==> hist[p + 1].meta.ts >= date)
    ensures p == -1 && |hist| >= 2 && n >= 2 ==> hist[Oldest(|hist|, n)].meta.ts >= date
    ensures p == -1 && |hist| >= 3 && n >= 3 ==> hist[Oldest(|hist|, n) + 1].meta.ts >= date
  {
    if |hist| < 2 || n < 2 then -1
    else
      var lo := Oldest(|hist|, n);
      var t := Target(hist, lo, date, 0, |hist| - 1 - lo);
      if hist[lo + t].meta.ts < date then lo + t else if t > 0 then lo + t - 1 else -1
  }

  /** The last steps of the binary search, from its target. */
  lemma FromTarget(hist: seq<Sample>, n: nat, date: int, maxDepth: nat, t: nat)
    requires hist != [] && n >= 2 && maxDepth == Min(|hist|, n)
    requires t == Target(hist, |hist| - maxDepth, date, 0, maxDepth - 1)
    ensures t < maxDepth && Oldest(|hist|, n) == |hist| - maxDepth
    ensures maxDepth == 1 ==> BinaryReference(hist, n, date) == -1
    ensures maxDepth >= 2 ==>
              BinaryReference(hist, n, date) ==
              if hist[|hist| - maxDepth + t].meta.ts < date then |hist| - maxDepth + t
              else if t > 0 then |hist| - maxDepth + t - 1 else -1
  {
    hide Target;
  }

  /** The samples that a search sees are sorted, or all but an oldest one that is still
      being written, and one of those is before the date. */
  ghost predicate Searchable(hist: seq<Sample>, n: nat, date: int) {
    var lo := Oldest(|hist|, n);
    || SortedFrom(hist, lo)
    || (|hist| >= 3 && n >= 3 && SortedFrom(hist, lo + 1) && hist[lo + 1].meta.ts < date)
  }

  /** On two or more such samples it is what the backward scan finds. */
  lemma BinaryIsNaive(hist: seq<Sample>, n: nat, date: int)
    requires |hist| >= 2 && n >= 2 && Searchable(hist, n, date)
    ensures BinaryReference(hist, n, date) == NewestBefore(hist, Oldest(|hist|, n), |hist|, date)
  {
    var lo, p := Oldest(|hist|, n), BinaryReference(hist, n, date);
    NewestBeforeIs(hist, lo, |hist|, date, p);
  }

  lemma NewestOfTwo(hist: seq<Sample>, date: int)
    requires |hist| >= 2
    ensures NewestBefore(hist, |hist| - 2, |hist|, date) ==
            if hist[|hist| - 1].meta.ts < date then |hist| - 1
            else if hist[|hist| - 2].meta.ts < date then |hist| - 2 else -1
  {
    assert hist[|hist| - 2].meta.ts >= date ==> NewestBefore(hist, |hist| - 2, |hist| - 1, date) == -1;
  }

  lemma TargetOfTwo(hist: seq<Sample>, date: int)
    requires |hist| >= 2
    ensures Target(hist, |hist| - 2, date, 0, 1) == if hist[|hist| - 2].meta.ts < date then 1 else 0
  {
  }

  /** Boundary: on two samples in the wrong order, the newer before the date, it finds
      nothing; that is the only case in which two samples mislead it. */
  lemma BinaryOnTwo(hist: seq<Sample>, n: nat, date: int)
    requires n >= 2 && |hist| >= 2 && (|hist| == 2 || n == 2)
    ensures var older, newer := hist[|hist| - 2], hist[|hist| - 1];
            BinaryReference(hist, n, date) == NewestBefore(hist, Oldest(|hist|, n), |hist|, date)
            <==> !(newer.meta.ts < date <= older.meta.ts)
  {
    hide NewestBefore, BinaryReference, Target;
    NewestOfTwo(hist, date);
    TargetOfTwo(hist, date);
    FromTarget(hist, n, date, 2, Target(hist, |hist| - 2, date, 0, 1));
  }

  /** While a sample is being written into a full ring of at least three slots, with the
      settled samples sorted and the oldest of them before the date, the binary search
      finds the newest one before the date, whatever stands in the open slot. */
  lemma BinaryFoundStands(slots: seq<Slot<Sample>>, hist: seq<Sample>, date: int)
    requires IsRing(slots) && |hist| >= |slots| >= 3
    requires SortedFrom(hist, |hist| - |slots| + 1) && hist[|hist| - |slots| + 1].meta.ts < date
    ensures BinaryReference(Seen(slots, hist, |hist| + 1), |slots|, date)
         == NewestBefore(hist, |hist| - |slots| + 1, |hist|, date)
  {
    hide NewestBefore, BinaryReference, SlotOf;
    var lo, seen := |hist| - |slots|, Seen(slots, hist, |hist| + 1);
    var p := NewestBefore(hist, lo + 1, |hist|, date);
    BinaryIsNaive(seen, |slots|, date);
    NewestBeforeIs(seen, lo, |hist|, date, p);
  }

  /** The slot of the sample at relative index i, and its comparison with the date. */
  method Probe(slots: seq<Slot<Sample>>, date: int, ctx: SearchCtx, maxDepth: nat, i: nat, ghost hist: seq<Sample>)
    returns (mIndex: nat, res: int)
    requires View(slots, ctx, hist) && i < maxDepth == Min(|hist|, |slots|)
    ensures mIndex == IndexNBefore(ctx.tIndex, maxDepth - 1 - i, |slots|)
    ensures res == TimestampCmp(hist[|hist| - maxDepth + i], date)
  {
    mIndex := IndexNBefore(ctx.tIndex, maxDepth - 1 - i, |slots|);
    res := TimestampCmp(slots[mIndex].content, date);
  }

  /** One round of the binary search: probe the middle and keep the half that contains
      the target. */
  method Narrow(slots: seq<Slot<Sample>>, date: int, ctx: SearchCtx, maxDepth: nat, imin: nat, imax: nat,
                ghost hist: seq<Sample>)
    returns (imin': nat, imax': nat, imid: nat, mIndex: int, res: int)
    requires View(slots, ctx, hist) && maxDepth == Min(|hist|, |slots|) && imin < imax < maxDepth
    ensures imin <= imin' <= imax' <= imax
    ensures Target(hist, |hist| - maxDepth, date, imin', imax') == Target(hist, |hist| - maxDepth, date, imin, imax)
    ensures imax' - imin' < imax - imin && Halvings(imax' - imin' + 1) < Halvings(imax - imin + 1)
    ensures imid < maxDepth && mIndex == IndexNBefore(ctx.tIndex, maxDepth - 1 - imid, |slots|)
    ensures res == TimestampCmp(hist[|hist| - maxDepth + imid], date)
  {
    assert IsInt(imin + imax) && IsInt(ctx.tIndex + |slots|);
    imid := (imin + imax) / 2;
    mIndex, res := Probe(slots, date, ctx, maxDepth, imid, hist);
    imin', imax' := imin, imax;
    if res < 0 {
      imin' := imid + 1;
    } else {
      imax' := imid;
    }
    HalfFewer(imin, imax, imid, imin', imax');
    TargetStep(hist, |hist| - maxDepth, date, imin, imax, imid, imin', imax');
  }

  /** The loop of the binary search, over positions relative to the oldest sample. */
  method Bisect(slots: seq<Slot<Sample>>, date: int, ctx: SearchCtx, maxDepth: nat, ghost hist: seq<Sample>)
    returns (imin: nat, imid: nat, mIndex: int, res: int, searched: nat)
    requires View(slots, ctx, hist) && maxDepth == Min(|hist|, |slots|)
    ensures imin == Target(hist, |hist| - maxDepth, date, 0, maxDepth - 1)
    ensures if maxDepth == 1 then imid == res == 0
            else imid < maxDepth
                 && mIndex == IndexNBefore(ctx.tIndex, maxDepth - 1 - imid, |slots|)
                 && res == TimestampCmp(hist[|hist| - maxDepth + imid], date)
    ensures searched <= Halvings(maxDepth)
  {
    var imax := maxDepth - 1;
    imin, imid, res, mIndex, searched := 0, 0, 0, -1, 0;
    while imin < imax
      invariant imin <= imax < maxDepth
      invariant Target(hist, |hist| - maxDepth, date, imin, imax)
             == Target(hist, |hist| - maxDepth, date, 0, maxDepth - 1)
      invariant if searched == 0 then imid == res == 0 && imin == 0 && imax == maxDepth - 1
                else maxDepth >= 2 && imid < maxDepth
                     && mIndex == IndexNBefore(ctx.tIndex, maxDepth - 1 - imid, |slots|)
                     && res == TimestampCmp(hist[|hist| - maxDepth + imid], date)
      invariant searched + Halvings(imax - imin + 1) <= Halvings(maxDepth)
      decreases imax - imin
    {
      imin, imax, imid, mIndex, res := Narrow(slots, date, ctx, maxDepth, imin, imax, hist);
      searched := searched + 1;
    }
  }

  lemma ViewDepth(slots: seq<Slot<Sample>>, ctx: SearchCtx, hist: seq<Sample>, depth: nat)
    requires View(slots, ctx, hist) && IsDepth(slots, ctx, depth)
    ensures depth == Min(|hist|, |slots|)
  {
    var n: Size := |slots|;
    assert IndexNBefore(ctx.tIndex, Min(depth, n - 1), n) < n;
    assert IndexNBefore(ctx.tIndex, Min(|hist|, n - 1), n) < n;
  }

  /** Binary search over the rotated ring, in whatever order the timestamps are.  With one
      sample, its loop never runs and it finds nothing. */
  method SearchBinary(slots: seq<Slot<Sample>>, date: int, ctx: SearchCtx, ghost hist: seq<Sample>)
    returns (found: bool, mIndex: int, searched: nat)
    requires View(slots, ctx, hist)
    ensures var p := BinaryReference(hist, |slots|, date);
            (found <==> p >= 0) && (found ==> mIndex == IndexOf(ctx.tIndex, |hist|, p, |slots|))
    ensures Pow2(searched) < 2 * Min(|hist|, |slots|)
  {
    hide Target, Halvings, Pow2, BinaryReference;
    var maxDepth := MaxDepth(slots, ctx);
    ViewDepth(slots, ctx, hist, maxDepth);
    var imin, imid, res;
    imin, imid, mIndex, res, searched := Bisect(slots, date, ctx, maxDepth, hist);
    SearchedBound(searched, maxDepth);
    if imin != imid {
      mIndex, res := Probe(slots, date, ctx, maxDepth, imin, hist);
    }
    FromTarget(hist, |slots|, date, maxDepth, imin);
    if res >= 0 {
      if imin > 0 {
        mIndex := IndexPrevious(mIndex, |slots|);
        found := true;
      } else {
        found := false;
      }
    } else {
      found := true;
    }
  }

  /** The sample that a reference search finds. */
  function Reference(hist: seq<Sample>, n: nat, date: int, hint: Hint): (p: int)
    ensures p == -1 || Oldest(|hist|, n) <= p < |hist|
  {
    if hint == Binary then BinaryReference(hist, n, date) else NewestBefore(hist, Oldest(|hist|, n), |hist|, date)
  }

  method SearchReference(slots: seq<Slot<Sample>>, date: int, ctx: SearchCtx, hint: Hint, ghost hist: seq<Sample>)
    returns (found: bool, mIndex: int)
    requires View(slots, ctx, hist)
    ensures var p := Reference(hist, |slots|, date, hint);
            (found <==> p >= 0) && (found ==> mIndex == IndexOf(ctx.tIndex, |hist|, p, |slots|))
  {
    var searched;
    match hint
    case Naive => found, mIndex, searched := SearchNaive(slots, date, ctx, hist);
    case Binary => found, mIndex, searched := SearchBinary(slots, date, ctx, hist);
    case ByDate => found, mIndex, searched := SearchNaive(slots, date, ctx, hist);
  }

  // ------------------------------------------------------------------
  // The search methods

  /** SHD_OLDEST: the first sample until the ring is full, then the second oldest. */
  function OldestPosition(c: nat, n: nat): (p: nat)
    ensures c < n ==> p == Oldest(c, n)
    ensures c >= n ==> p == Oldest(c, n) + 1
  {
    if c >= n then c - n + 1 else 0
  }

  method SearchOldest<T>(slots: seq<Slot<T>>, ctx: SearchCtx, ghost hist: seq<T>, ghost r: nat)
    returns (idx: int)
    requires hist != [] && Holds(slots, hist, r)
    requires ctx == SearchStart(SlotOf(|hist| - 1, |slots|), slots)
    ensures idx == SlotOf(OldestPosition(|hist|, |slots|), |slots|)
    ensures |hist| < |slots| ==> idx == SlotOf(0, |slots|)
    ensures |hist| >= |slots| ==> idx == SlotOf(|hist| - |slots| + 1, |slots|)
  {
    var maxDepth := MaxDepth(slots, ctx);
    DepthIsCommits(slots, hist, r, ctx, maxDepth);
    IndexOfPosition(|hist|, OldestPosition(|hist|, |slots|), |slots|);
    if maxDepth == |slots| {
      idx := IndexNAfter(ctx.tIndex, 2, |slots|);
    } else {
      idx := IndexNBefore(ctx.tIndex, maxDepth - 1, |slots|);
    }
  }

  /** SHD_FIRST_BEFORE: the newest sample before the date, or no match. */
  function BeforePosition(hist: seq<Sample>, n: nat, date: int, hint: Hint): int {
    var p := Reference(hist, n, date, hint);
    if p >= 0 then p else |hist|
  }

  /** SHD_FIRST_AFTER: the successor of the newest sample before the date; without
      one, the slot after the newest sample. */
  function AfterPosition(hist: seq<Sample>, n: nat, date: int, hint: Hint): int {
    var p := Reference(hist, n, date, hint);
    if p >= 0 then p + 1 else |hist| - n
  }

  /** SHD_CLOSEST. */
  function ClosestPosition(hist: seq<Sample>, n: nat, date: int, hint: Hint): int {
    var p := Reference(hist, n, date, hint);
    if p < 0 then |hist| - n
    else if p == |hist| - 1 then p
    else if ClosestTimestamp(hist[p], hist[p + 1], date) < 0 then p + 1
    else p
  }

  method FirstMatchAfter(slots: seq<Slot<Sample>>, date: int, ctx: SearchCtx, hint: Hint, ghost hist: seq<Sample>)
    returns (idx: int)
    requires View(slots, ctx, hist)
    ensures var p := AfterPosition(hist, |slots|, date, hint);
            idx == if p == |hist| then -1 else IndexOf(ctx.tIndex, |hist|, p, |slots|)
  {
    var found, mIndex := SearchReference(slots, date, ctx, hint, hist);
    idx := -1;
    if found {
      if mIndex != ctx.tIndex {
        idx := IndexNext(mIndex, |slots|);
      }
    } else {
      idx := IndexNext(ctx.tIndex, |slots|);
    }
  }

  method FirstMatchBefore(slots: seq<Slot<Sample>>, date: int, ctx: SearchCtx, hint: Hint, ghost hist: seq<Sample>)
    returns (idx: int)
    requires View(slots, ctx, hist)
    ensures var p := BeforePosition(hist, |slots|, date, hint);
            idx == if p == |hist| then -1 else IndexOf(ctx.tIndex, |hist|, p, |slots|)
  {
    var found, mIndex := SearchReference(slots, date, ctx, hint, hist);
    idx := if found then mIndex else -1;
  }

  lemma ViewSample(slots: seq<Slot<Sample>>, ctx: SearchCtx, hist: seq<Sample>, p: nat)
    requires View(slots, ctx, hist) && p < |hist| <= p + |slots|
    ensures slots[IndexOf(ctx.tIndex, |hist|, p, |slots|)].content == hist[p]
  {
  }

  method ClosestMatch(slots: seq<Slot<Sample>>, date: int, ctx: SearchCtx, hint: Hint, ghost hist: seq<Sample>)
    returns (idx: int)
    requires View(slots, ctx, hist)
    ensures idx == IndexOf(ctx.tIndex, |hist|, ClosestPosition(hist, |slots|, date, hint), |slots|)
  {
    hide NewestBefore, BinaryReference, Target, HoldsBack, ClosestTimestamp;
    var found, bIndex := SearchReference(slots, date, ctx, hint, hist);
    if !found {
      idx := IndexNext(ctx.tIndex, |slots|);
    } else if bIndex == ctx.tIndex {
      idx := ctx.tIndex;
    } else {
      var aIndex := IndexNext(bIndex, |slots|);
      ghost var p := Reference(hist, |slots|, date, hint);
      assert bIndex == IndexNBefore(ctx.tIndex, |hist| - 1 - p, |slots|);
      assert aIndex == IndexNBefore(ctx.tIndex, |hist| - 2 - p, |slots|);
      ViewSample(slots, ctx, hist, p);
      ViewSample(slots, ctx, hist, p + 1);
      var ret := ClosestTimestamp(slots[bIndex].content, slots[aIndex].content, date);
      idx := if ret < 0 then aIndex else bIndex;
    }
  }
}
