/**
 The reading window of a consumer (src/shd_window.c): the slots around a reference
 sample, clipped to the ring, and their copy into a flat buffer.
 */
module Windows {
  import opened Errno
  import opened Index
  import opened Ring
  import opened Search

  datatype SearchMethod = Latest | OldestSample | Closest | FirstAfter | FirstBefore | Unknown

  /** A search; `before` and `after` are uint32_t. */
  datatype Request = Request(how: SearchMethod, date: int, before: nat, after: nat)

  /** Both counts keep their value when they are converted to int. */
  predicate CountsAreInts(req: Request) {
    IsInt(req.before) && IsInt(req.after)
  }

  /** Position of the reference sample; |hist| if there is no match. */
  function RefPosition(hist: seq<Sample>, n: nat, req: Request, hint: Hint): int {
    match req.how
    case Latest => |hist| - 1
    case OldestSample => OldestPosition(|hist|, n)
    case Closest => ClosestPosition(hist, n, req.date, hint)
    case FirstAfter => AfterPosition(hist, n, req.date, hint)
    case FirstBefore => BeforePosition(hist, n, req.date, hint)
    case Unknown => |hist|
  }

  /** Position of the reference sample in the ring as a search sees it. */
  function SeenPosition(slots: seq<Slot<Sample>>, hist: seq<Sample>, r: nat, req: Request, hint: Hint): int
    requires IsRing(slots)
  {
    var seen := Seen(slots, hist, r);
    RefPosition(seen, |slots|, req, hint) - (|seen| - |hist|)
  }

  /** Without a write in progress the search sees the history; a search for the latest or
      the oldest sample always does, and a search for the first one before a date does
      when the sample it finds is not being replaced. */
  lemma SeenIsHistory(slots: seq<Slot<Sample>>, hist: seq<Sample>, r: nat, req: Request, hint: Hint)
    requires IsRing(slots) && hist != [] && |hist| <= r <= |hist| + 1
    ensures r == |hist| || req.how == Latest || req.how == OldestSample ==>
              SeenPosition(slots, hist, r, req, hint) == RefPosition(hist, |slots|, req, hint)
    ensures var p := SeenPosition(slots, hist, r, req, hint);
            req.how == FirstBefore && hint != Binary && 0 <= p < |hist| && r <= p + |slots| ==>
              p == RefPosition(hist, |slots|, req, hint)
  {
    var p := SeenPosition(slots, hist, r, req, hint);
    if req.how == FirstBefore && hint != Binary && 0 <= p < |hist| && r <= p + |slots| {
      FoundStands(slots, hist, r, req.date, p);
    }
  }

  lemma RefInRing(hist: seq<Sample>, n: nat, req: Request, hint: Hint)
    requires hist != [] && n >= 2
    ensures |hist| - n <= RefPosition(hist, n, req, hint) <= |hist|
  {
  }

  lemma SeenInRing(slots: seq<Slot<Sample>>, hist: seq<Sample>, r: nat, req: Request, hint: Hint)
    requires IsRing(slots) && hist != []
    ensures |hist| - |slots| <= SeenPosition(slots, hist, r, req, hint) <= |hist|
  {
    RefInRing(Seen(slots, hist, r), |slots|, req, hint);
  }

  /** First and last position of the window around position p of c samples. */
  function WindowLo(c: nat, n: nat, p: int, before: nat): int {
    p - Min(p - (c - n), before)
  }

  function WindowHi(c: nat, p: int, after: nat): int {
    p + Min(c - 1 - p, after)
  }

  /** The window is an interval of the ring that contains the reference; it never has
      more slots than the ring, nor more than were asked for. */
  lemma WindowIsClipped(c: nat, n: Size, p: int, before: nat, after: nat)
    requires c - n <= p < c
    ensures var lo, hi := WindowLo(c, n, p, before), WindowHi(c, p, after);
            && c - n <= lo <= p <= hi <= c - 1
            && (lo == c - n || p - lo == before) && p - lo <= before
            && (hi == c - 1 || hi - p == after) && hi - p <= after
            && 1 <= hi - lo + 1 <= Min(n, before + after + 1)
  {
  }

  /** The index arithmetic of the window: intervals are distances between positions. */
  lemma WindowIndices(t: int, c: nat, n: Size, p: int, before: nat, after: nat)
    requires 0 <= t < n && c - n <= p < c
    ensures var lo, hi := WindowLo(c, n, p, before), WindowHi(c, p, after);
            var ref := IndexOf(t, c, p, n);
            && c - n <= lo <= p <= hi < c
            && IntervalBetween(ref, t, n) == c - 1 - p
            && IntervalBetween(IndexNext(t, n), ref, n) == p - (c - n)
            && IndexNBefore(ref, Min(p - (c - n), before), n) == IndexOf(t, c, lo, n)
            && IndexNAfter(ref, Min(c - 1 - p, after), n) == IndexOf(t, c, hi, n)
            && IntervalBetween(IndexOf(t, c, lo, n), IndexOf(t, c, hi, n), n) == hi - lo
            && IntervalBetween(IndexOf(t, c, lo, n), ref, n) == p - lo
  {
  }

  lemma RefRow(c: nat, n: Size, p: nat, before: nat, after: nat)
    requires p < c <= p + n && WindowLo(c, n, p, before) >= 0
    ensures var lo, hi := WindowLo(c, n, p, before), WindowHi(c, p, after);
            && c - n <= lo <= p <= hi < c && hi - lo + 1 <= n
            && IndexOf(SlotOf(c - 1, n), c, lo, n) == SlotOf(lo, n)
            && IntervalBetween(SlotOf(lo, n), IndexOf(SlotOf(c - 1, n), c, p, n), n) == p - lo
  {
    WindowIsClipped(c, n, p, before, after);
    IndexOfPosition(c, WindowLo(c, n, p, before), n);
    WindowIndices(SlotOf(c - 1, n), c, n, p, before, 0);
  }

  /** All of the window was committed exactly when the ring is full, or enough samples
      precede the reference; else its first slots were never written. */
  lemma WindowIsCommitted(c: nat, n: Size, p: int, before: nat)
    requires c - n <= p < c
    ensures WindowLo(c, n, p, before) >= 0 <==> p >= 0 && (c >= n || before <= p)
  {
  }

  /** The latest, the oldest and the first sample before a date are always committed
      samples, so a search for one of them alone never leaves the history. */
  lemma SingleSampleIsCommitted(hist: seq<Sample>, n: Size, req: Request, hint: Hint)
    requires hist != [] && n >= 2 && req.how in {Latest, OldestSample, FirstBefore}
    requires req.before == req.after == 0 && RefPosition(hist, n, req, hint) < |hist|
    ensures var p := RefPosition(hist, n, req, hint);
            && Oldest(|hist|, n) <= p < |hist|
            && WindowLo(|hist|, n, p, req.before) == p == WindowHi(|hist|, p, req.after)
  {
  }

  /** `count` consecutive slots from `start`, each read through `field`, oldest first. */
  function Rows<A>(slots: seq<Slot<Sample>>, start: nat, count: nat, field: Sample -> seq<A>): seq<A>
    requires start < |slots| <= MAX_SAMPLES && count <= |slots|
  {
    if count == 0 then []
    else Rows(slots, start, count - 1, field) + field(slots[IndexNAfter(start, count - 1, |slots|)].content)
  }

  lemma OneRow<A>(slots: seq<Slot<Sample>>, start: nat, field: Sample -> seq<A>)
    requires start < |slots| <= MAX_SAMPLES
    ensures Rows(slots, start, 1, field) == field(slots[start].content)
  {
    assert Rows(slots, start, 0, field) == [];
  }

  /** Every sample is read as `size` elements. */
  ghost predicate FieldSize<A>(slots: seq<Slot<Sample>>, field: Sample -> seq<A>, size: nat) {
    forall i :: 0 <= i < |slots| ==> |field(slots[i].content)| == size
  }

  /** The history from position lo, read through `field`. */
  function Interval<A>(hist: seq<Sample>, lo: nat, count: nat, field: Sample -> seq<A>): seq<A>
    requires lo + count <= |hist|
  {
    if count == 0 then [] else Interval(hist, lo, count - 1, field) + field(hist[lo + count - 1])
  }

  lemma {:induction false} IntervalSize<A>(hist: seq<Sample>, lo: nat, count: nat, field: Sample -> seq<A>, size: nat)
    requires lo + count <= |hist|
    requires forall e :: lo <= e < lo + count ==> |field(hist[e])| == size
    ensures |Interval(hist, lo, count, field)| == size * count
  {
    if count > 0 {
      IntervalSize(hist, lo, count - 1, field, size);
      NextChunk(size, count - 1, count);
    }
  }

  lemma SliceOfJoin<A>(a: seq<A>, b: seq<A>, i: nat, j: nat)
    requires i <= j
    ensures j <= |a| ==> (a + b)[i..j] == a[i..j]
    ensures i == |a| && j == |a| + |b| ==> (a + b)[i..j] == b
  {
  }

  /** Row j of the copy is the j-th sample of the interval. */
  lemma {:induction false} IntervalRow<A>(hist: seq<Sample>, lo: nat, count: nat, field: Sample -> seq<A>,
                                              size: nat, j: nat)
    requires lo + count <= |hist| && j < count
    requires forall e :: lo <= e < lo + count ==> |field(hist[e])| == size
    ensures |Interval(hist, lo, count, field)| == size * count
    ensures 0 <= size * j <= size * j + size <= size * count
    ensures Interval(hist, lo, count, field)[size * j..size * j + size] == field(hist[lo + j])
  {
    IntervalSize(hist, lo, count, field, size);
    IntervalSize(hist, lo, count - 1, field, size);
    NextChunk(size, j, count);
    SliceOfJoin(Interval(hist, lo, count - 1, field), field(hist[lo + count - 1]), size * j, size * j + size);
    if j < count - 1 {
      IntervalRow(hist, lo, count - 1, field, size, j);
    }
  }

  /** Walking the window slot by slot walks the history sample by sample: it never
      crosses from the newest sample to the oldest. */
  lemma {:induction false} RowsAreHistory<A>(slots: seq<Slot<Sample>>, hist: seq<Sample>, r: nat, start: nat,
                                                 lo: nat, count: nat, field: Sample -> seq<A>)
    requires IsRing(slots) && Contents(slots, hist, r) && count <= |slots|
    requires lo + count <= |hist| && r <= lo + |slots| && start == SlotOf(lo, |slots|)
    ensures Rows(slots, start, count, field) == Interval(hist, lo, count, field)
  {
    if count > 0 {
      RowsAreHistory(slots, hist, r, start, lo, count - 1, field);
      RowIsSample(slots, hist, r, start, lo, count - 1);
    }
  }

  /** The slot j steps from that of position lo holds the j-th sample from there. */
  lemma RowIsSample(slots: seq<Slot<Sample>>, hist: seq<Sample>, r: nat, start: nat, lo: nat, j: nat)
    requires IsRing(slots) && Contents(slots, hist, r) && j < |slots|
    requires lo + j < |hist| && r <= lo + |slots| && start == SlotOf(lo, |slots|)
    ensures slots[IndexNAfter(start, j, |slots|)].content == hist[lo + j]
  {
    AfterSlot(lo, j, |slots|);
  }

  class Window {
    var startIdx: int
    var refIdx: int
    var endIdx: int
    var nbMatches: int

    predicate Empty()
      reads this
    {
      startIdx == refIdx == endIdx == nbMatches == -1
    }

    /** A window with no match is entirely reset. */
    predicate Valid()
      reads this
    {
      nbMatches < 0 ==> Empty()
    }

    constructor ()
      ensures Valid() && Empty()
    {
      startIdx, refIdx, endIdx, nbMatches := 0, 0, 0, 0;
      new;
      var _ := Reset();
    }

    method Reset() returns (ret: int)
      requires Valid()
      modifies this
      ensures Empty()
      ensures ret == if old(nbMatches) < 0 then -EPERM else 0
    {
      if nbMatches < 0 {
        return -EPERM;
      }
      startIdx, refIdx, endIdx, nbMatches := -1, -1, -1, -1;
      return 0;
    }

    /** The slot of the reference sample, -1 if there is no match. */
    static method FindReference(slots: seq<Slot<Sample>>, ctx: SearchCtx, req: Request, hint: Hint,
                                ghost hist: seq<Sample>, ghost r: nat)
      returns (refIdx: int)
      requires hist != [] && Holds(slots, hist, r)
      requires ctx == SearchStart(SlotOf(|hist| - 1, |slots|), slots)
      requires req.how != Unknown
      ensures var p := SeenPosition(slots, hist, r, req, hint);
              && |hist| - |slots| <= p <= |hist|
              && refIdx == if p == |hist| then -1 else IndexOf(ctx.tIndex, |hist|, p, |slots|)
    {
      hide Counters, Contents, Seen, SlotOf, View;
      ghost var seen := Seen(slots, hist, r);
      RingGivesView(slots, hist, r);
      RefInRing(seen, |slots|, req, hint);
      match req.how
      case Latest => refIdx := ctx.tIndex;
      case OldestSample =>
        refIdx := SearchOldest(slots, ctx, hist, r);
        IndexOfPosition(|hist|, OldestPosition(|hist|, |slots|), |slots|);
      case Closest => refIdx := ClosestMatch(slots, req.date, ctx, hint, seen);
      case FirstAfter => refIdx := FirstMatchAfter(slots, req.date, ctx, hint, seen);
      case FirstBefore => refIdx := FirstMatchBefore(slots, req.date, ctx, hint, seen);
    }

    /** The window of an empty result, or around the reference at position p. */
    ghost predicate Around(t: int, c: nat, n: Size, p: int, req: Request)
      requires 0 <= t < n && c - n <= p < c
      reads this
    {
      WindowIsClipped(c, n, p, req.before, req.after);
      var lo, hi := WindowLo(c, n, p, req.before), WindowHi(c, p, req.after);
      && nbMatches == hi - lo + 1
      && startIdx == IndexOf(t, c, lo, n)
      && refIdx == IndexOf(t, c, p, n)
      && endIdx == IndexOf(t, c, hi, n)
    }

    /** Clips the window to the ring, unless its start was overwritten meanwhile. */
    method Clip(ref: int, ctx: SearchCtx, writeIndex': int, slots': seq<Slot<Sample>>, req: Request,
                ghost c: nat, ghost p: int)
      returns (ret: int)
      requires Empty() && CountsAreInts(req) && IsRing(slots') && 0 <= ctx.tIndex < |slots'|
      requires 0 <= writeIndex' < |slots'|
      requires c - |slots'| <= p < c && ref == IndexOf(ctx.tIndex, c, p, |slots'|)
      modifies this
      ensures c - |slots'| <= WindowLo(c, |slots'|, p, req.before) < c
      ensures var wStart := IndexOf(ctx.tIndex, c, WindowLo(c, |slots'|, p, req.before), |slots'|);
              if SearchEnd(writeIndex', ctx, wStart, slots')
              then ret == -EFAULT && Empty()
              else Around(ctx.tIndex, c, |slots'|, p, req) && ret == nbMatches > 0
    {
      hide SearchEnd, IntervalBetween, IndexNBefore, IndexNext;
      var n := |slots'|;
      WindowIndices(ctx.tIndex, c, n, p, req.before, req.after);
      var nbMoreRecent := IntervalBetween(ref, ctx.tIndex, n);
      var nbOlder := IntervalBetween(IndexNext(ctx.tIndex, n), ref, n);
      var wStart := IndexNBefore(ref, Min(nbOlder, req.before), n);
      var overwritten := SearchEnd(writeIndex', ctx, wStart, slots');
      if overwritten {
        return -EFAULT;
      }
      SetAround(ref, nbOlder, nbMoreRecent, ctx.tIndex, n, req, c, p);
      return nbMatches;
    }

    method SetAround(ref: int, nbOlder: nat, nbMoreRecent: nat, t: int, n: Size, req: Request,
                     ghost c: nat, ghost p: int)
      requires 0 <= t < n && c - n <= p < c && ref == IndexOf(t, c, p, n)
      requires nbOlder == p - (c - n) && nbMoreRecent == c - 1 - p
      modifies this
      ensures Around(t, c, n, p, req) && nbMatches > 0
    {
      hide IntervalBetween, IndexNBefore, IndexNAfter;
      WindowIndices(t, c, n, p, req.before, req.after);
      refIdx := ref;
      endIdx := IndexNAfter(ref, Min(nbMoreRecent, req.after), n);
      startIdx := IndexNBefore(ref, Min(nbOlder, req.before), n);
      nbMatches := 1 + IntervalBetween(startIdx, endIdx, n);
    }

    /** Reading a window whose first position lo is not below zero gives the samples lo to
        lo + nbMatches - 1 of the history, and the row of the reference sample is the
        interval from the start slot to the reference slot. */
    lemma CopyIsHistory<A>(slots: seq<Slot<Sample>>, hist: seq<Sample>, r: nat, p: nat, req: Request,
                           field: Sample -> seq<A>)
      requires IsRing(slots) && Contents(slots, hist, r) && p < |hist| <= p + |slots|
      requires Around(SlotOf(|hist| - 1, |slots|), |hist|, |slots|, p, req)
      requires 0 <= WindowLo(|hist|, |slots|, p, req.before) && r <= WindowLo(|hist|, |slots|, p, req.before) + |slots|
      ensures var lo := WindowLo(|hist|, |slots|, p, req.before);
              && startIdx == SlotOf(lo, |slots|) && 0 < nbMatches <= |slots| && lo + nbMatches <= |hist|
              && Rows(slots, startIdx, nbMatches, field) == Interval(hist, lo, nbMatches, field)
              && lo + IntervalBetween(startIdx, refIdx, |slots|) == p
    {
      var lo := WindowLo(|hist|, |slots|, p, req.before);
      RefRow(|hist|, |slots|, p, req.before, req.after);
      RowsAreHistory(slots, hist, r, startIdx, lo, nbMatches, field);
    }

    /** The window has the reference slot, as many slots before it as were asked for, or all
        older ones, and as many after it as were asked for, or all newer ones. */
    lemma WindowMeetsRequest(t: int, c: nat, n: Size, p: int, req: Request)
      requires 0 <= t < n && c - n <= p < c && Around(t, c, n, p, req)
      ensures var before, after := Min(p - (c - n), req.before), Min(c - 1 - p, req.after);
              && 0 <= before && 0 <= after && before + after < n
              && nbMatches == before + 1 + after
              && refIdx == IndexOf(t, c, p, n)
              && 0 <= startIdx == IndexNBefore(refIdx, before, n) && endIdx == IndexNAfter(refIdx, after, n)
              && IntervalBetween(startIdx, refIdx, n) == before
              && WindowLo(c, n, p, req.before) == p - before
    {
      WindowIndices(t, c, n, p, req.before, req.after);
    }

    /** The copy ends on the end slot. */
    lemma CopyEndsOnEnd(t: int, c: nat, n: Size, p: int, req: Request)
      requires 0 <= t < n && c - n <= p < c && Around(t, c, n, p, req)
      ensures 0 < nbMatches <= n && 0 <= startIdx < n
      ensures IndexNAfter(startIdx, nbMatches - 1, n) == endIdx
    {
      WindowIsClipped(c, n, p, req.before, req.after);
    }

    /** Sets the window for a search that starts on the image `slots` of the ring and
        ends, with the check against overwriting, on the image `slots'`. */
    method Set(writeIndex: int, slots: seq<Slot<Sample>>, writeIndex': int, slots': seq<Slot<Sample>>,
               req: Request, hint: Hint, ghost hist: seq<Sample>, ghost r: nat)
      returns (ret: int)
      requires Valid() && CountsAreInts(req)
      requires hist != [] && Holds(slots, hist, r)
      requires writeIndex == SlotOf(|hist| - 1, |slots|)
      requires |slots'| == |slots| && 0 <= writeIndex' < |slots|
      modifies this
      ensures Valid()
      ensures ret < 0 ==> Empty()
      ensures
        var n: Size, c, t := |slots|, |hist|, writeIndex;
        var p := SeenPosition(slots, hist, r, req, hint);
        if req.how == Unknown then ret == -EINVAL
        else if p == c then ret == -ENOENT
        else
          && c - n <= p < c
          && c - n <= WindowLo(c, n, p, req.before) < c
          && if SearchEnd(writeIndex', SearchStart(t, slots), IndexOf(t, c, WindowLo(c, n, p, req.before), n), slots')
             then ret == -EFAULT
             else Around(t, c, n, p, req) && ret == nbMatches > 0
    {
      var ctx := SearchStart(writeIndex, slots);
      var _ := Reset();
      if req.how == Unknown {
        return -EINVAL;
      }
      var ref := FindReference(slots, ctx, req, hint, hist, r);
      if ref < 0 {
        return -ENOENT;
      }
      ret := Clip(ref, ctx, writeIndex', slots', req, |hist|, SeenPosition(slots, hist, r, req, hint));
    }

    /** The same when nothing is published in between: there is no overwriting. */
    method SetOnStillRing(writeIndex: int, slots: seq<Slot<Sample>>, req: Request, hint: Hint,
                          ghost hist: seq<Sample>, ghost r: nat)
      returns (ret: int)
      requires Valid() && CountsAreInts(req)
      requires hist != [] && Holds(slots, hist, r)
      requires writeIndex == SlotOf(|hist| - 1, |slots|)
      modifies this
      ensures Valid()
      ensures ret < 0 ==> Empty()
      ensures
        var n: Size, c := |slots|, |hist|;
        var p := SeenPosition(slots, hist, r, req, hint);
        if req.how == Unknown then ret == -EINVAL
        else if p == c then ret == -ENOENT
        else
          && c - n <= p < c && Around(writeIndex, c, n, p, req)
          && ret == nbMatches > 0 && 0 <= startIdx < n
    {
      NoNewSample(slots, writeIndex);
      ret := Set(writeIndex, slots, writeIndex, slots, req, hint, hist, r);
    }

    /** Copies the window, oldest sample first, into consecutive chunks of dst. */
    method Read<A>(slots: seq<Slot<Sample>>, dst: array<A>, dataSize: nat, field: Sample -> seq<A>)
      returns (copied: nat)
      requires IsRing(slots) && FieldSize(slots, field, dataSize)
      requires 0 <= startIdx < |slots| && 0 <= nbMatches <= |slots|
      requires dataSize * nbMatches <= dst.Length
      modifies dst
      ensures copied == nbMatches
      ensures |Rows(slots, startIdx, nbMatches, field)| == dataSize * nbMatches
      ensures dst[..] == Rows(slots, startIdx, nbMatches, field) + old(dst[dataSize * nbMatches..])
    {
      var sIndex, dIndex := startIdx, 0;
      while dIndex < nbMatches
        invariant 0 <= dIndex <= nbMatches
        invariant sIndex == IndexNAfter(startIdx, dIndex, |slots|)
        invariant |Rows(slots, startIdx, dIndex, field)| == dataSize * dIndex <= dst.Length
        invariant dst[..] == Rows(slots, startIdx, dIndex, field) + old(dst[dataSize * dIndex..])
      {
        NextChunk(dataSize, dIndex, nbMatches);
        var chunk := field(slots[sIndex].content);
        ghost var before := dst[..];
        CopyAt(dst, dataSize * dIndex, chunk);
        assert before[..dataSize * dIndex] == Rows(slots, startIdx, dIndex, field);
        assert before[dataSize * (dIndex + 1)..] == old(dst[dataSize * (dIndex + 1)..]);
        sIndex := IndexNext(sIndex, |slots|);
        dIndex := dIndex + 1;
      }
      return dIndex;
    }
  }

  /** With no new sample the overwrite check is negative, whatever the window. */
  lemma NoNewSample(slots: seq<Slot<Sample>>, t: int)
    requires IsRing(slots) && 0 <= t < |slots|
    ensures forall w: nat | w < |slots| :: !SearchEnd(t, SearchStart(t, slots), w, slots)
  {
  }

  /** Chunk d, and the rest of count chunks, in elements. */
  lemma NextChunk(size: nat, d: nat, count: nat)
    requires d <= count
    ensures 0 <= size * d <= size * count
    ensures size * (d + 1) == size * d + size
    ensures d < count ==> size * (d + 1) <= size * count
  {
    ProductGrows(size, 0, d);
    ProductGrows(size, d, count);
    if d < count {
      ProductGrows(size, d + 1, count);
    }
  }

  lemma {:induction false} ProductGrows(size: nat, a: nat, b: nat)
    requires a <= b
    ensures size * a <= size * b
  {
    if a < b {
      ProductGrows(size, a, b - 1);
      assert size * b == size * (b - 1) + size;
    }
  }

  /** memcpy. */
  method CopyAt<A>(dst: array<A>, at: nat, src: seq<A>)
    requires at + |src| <= dst.Length
    modifies dst
    ensures dst[..] == old(dst[..at]) + src + old(dst[at + |src|..])
  {
    var i := 0;
    while i < |src|
      invariant 0 <= i <= |src|
      invariant dst[..at + i] == old(dst[..at]) + src[..i]
      invariant dst[at + i..] == old(dst[at + i..])
    {
      dst[at + i] := src[i];
      i := i + 1;
    }
    assert dst[..] == dst[..at + i] + dst[at + i..];
  }
}
