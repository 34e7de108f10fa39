/**
 Where the guarantees of the protocol end: the exact condition under which no read is
 torn, and the reads that the end-of-read check accepts outside it.
 */
module ProtocolLimits {
  import opened Index
  import opened Ring
  import opened Protocol
  import opened ProtocolInvariant
  import opened ProtocolSafety
  import opened ProtocolRuns

  /** A consumer is about to sample the counter of its window, in the revision it opened. */
  ghost predicate Choosing(s: State) {
    && s.phase == Serving && s.reader.pc == Selected && s.reader.rev == s.nbCreations
    && IsRing(s.slots) && s.reader.start < |s.slots| && 1 <= s.reader.count <= |s.slots|
  }

  /** The window holds committed samples, none being replaced. */
  ghost predicate Protected(s: State)
    requires IsRing(s.slots)
  {
    exists a: nat :: WindowCommitted(s, s.reader.start, s.reader.count, a)
  }

  /** What the consumer copied is a contiguous run of the history. */
  ghost predicate Contiguous(r: Reader, hist: seq<Payload>) {
    exists a: nat :: Copied(r, hist, a)
  }

  /** The session opened by s1 is accepted in t, after the last step in m. */
  ghost predicate AcceptedLater(s1: State, m: State, t: State) {
    Later(s1, m) && StepBy(m, CheckRevision, t) && t.reader.pc == Accepted
  }

  /** In every continuation in which the read is accepted, it is not torn. */
  ghost predicate TornFree(s: State)
    requires Choosing(s)
  {
    forall m, t :: AcceptedLater(Apply(s, Snapshot), m, t) ==> Contiguous(t.reader, t.hist)
  }

  // ------------------------------------------------------------------
  // Which windows are committed

  /** A window that holds the newest sample of its start slot, and as many after it. */
  predicate StartsCommitted(c: nat, start: nat, count: nat, n: Size) {
    NewestIn(c, start, n) >= 0 && NewestIn(c, start, n) + count <= c
  }

  /** Only the newest sample of the start slot can start a committed window. */
  lemma CommittedStart(s: State, start: nat, count: nat, a: nat)
    requires IsRing(s.slots) && |s.hist| <= s.reserved && start < |s.slots| && 1 <= count
    requires WindowCommitted(s, start, count, a)
    ensures NewestIn(|s.hist|, start, |s.slots|) == a
    ensures s.reserved > |s.hist| ==> SlotOf(|s.hist|, |s.slots|) != start
  {
    var n: Size, e := |s.slots|, NewestIn(|s.hist|, start, |s.slots|);
    if a < e {
      SlotsDiffer(a, e, n);
    }
    if s.reserved > |s.hist| {
      SlotsDiffer(a, |s.hist|, n);
    }
  }

  /** The window is committed exactly when its start slot is not being written, was
      written before, and holds a sample followed by enough samples. */
  lemma ProtectedExactly(s: State)
    requires Reachable(s) && Choosing(s)
    ensures Protected(s) <==>
              && !(s.reserved > |s.hist| && SlotOf(|s.hist|, |s.slots|) == s.reader.start)
              && StartsCommitted(|s.hist|, s.reader.start, s.reader.count, |s.slots|)
  {
    hide Inv, SlotOf;
    ReservedBounds(s);
    var c, n: Size, start := |s.hist|, |s.slots|, s.reader.start;
    if a: nat :| WindowCommitted(s, start, s.reader.count, a) {
      CommittedStart(s, start, s.reader.count, a);
    } else if StartsCommitted(c, start, s.reader.count, n) {
      var e := NewestIn(c, start, n);
      NewestIsRecent(c, start, n);
      assert !WindowCommitted(s, start, s.reader.count, e);
    }
  }

  /** Row of the window in which the next sample is stored. */
  function NextRow(s: State): nat
    requires IsRing(s.slots) && s.reader.start < |s.slots|
  {
    IntervalBetween(s.reader.start, SlotOf(|s.hist|, |s.slots|), |s.slots|)
  }

  /** The next sample goes to a row of the window, without a new reservation of its start. */
  ghost predicate WritableRow(s: State)
    requires IsRing(s.slots) && s.reader.start < |s.slots|
  {
    NextRow(s) < s.reader.count && (NextRow(s) > 0 || s.reserved > |s.hist|)
  }

  /** The row of the next sample is its distance from the newest sample of the start. */
  lemma RowOfNext(c: nat, start: nat, n: Size)
    requires start < n
    ensures var e, j := NewestIn(c, start, n), IntervalBetween(start, SlotOf(c, n), n);
            && j < n && IndexNAfter(start, j, n) == SlotOf(c, n)
            && (j == 0 <==> SlotOf(c, n) == start)
            && (e >= 0 ==> c <= e + n && j == if c < e + n then c - e else 0)
  {
    var e := NewestIn(c, start, n);
    NewestIsRecent(c, start, n);
    if e >= 0 {
      IntervalOfSlots(e, c, n);
      assert SlotOf(c - e, n) == if c < e + n then c - e else 0;
    }
  }

  /** In terms of the slots: a window is committed exactly when its start slot was written
      and the next sample does not go to one of its rows unnoticed. */
  lemma ProtectedByRow(s: State)
    requires Reachable(s) && Choosing(s)
    ensures IndexNAfter(s.reader.start, NextRow(s), |s.slots|) == SlotOf(|s.hist|, |s.slots|)
    ensures Protected(s) <==> NewestIn(|s.hist|, s.reader.start, |s.slots|) >= 0 && !WritableRow(s)
  {
    ReservedBounds(s);
    ProtectedExactly(s);
    RowOfNext(|s.hist|, s.reader.start, |s.slots|);
  }

  lemma ReservedBounds(s: State)
    requires Reachable(s) && Choosing(s)
    ensures |s.hist| <= s.reserved <= |s.hist| + 1 && 1 <= s.reader.count <= |s.slots|
  {
    ReachableInv(s);
  }

  // ------------------------------------------------------------------
  // Committed windows are read untorn

  lemma ProtectedRead(s: State, a: nat, s1: State, m: State, t: State)
    requires Reachable(s) && Choosing(s)
    requires WindowCommitted(s, s.reader.start, s.reader.count, a)
    requires StepBy(s, Snapshot, s1) && AcceptedLater(s1, m, t)
    ensures Copied(t.reader, t.hist, a)
  {
    hide Enabled, Inv, Copied, Later;
    RevisionParity(s);
    var run, q, i := AcceptedReadRun(s, s1, m, t);
    WindowOfRead(run, q, i);
    TornReadFreedom(run, q, i, a);
    CopiedStays(m.reader, t.reader, m.hist, a);
  }

  lemma CopiedStays(r: Reader, r': Reader, hist: seq<Payload>, a: nat)
    requires Copied(r, hist, a) && r'.buf == r.buf && r'.count == r.count
    ensures Copied(r', hist, a)
  {
  }

  lemma ProtectedIsTornFree(s: State)
    requires Reachable(s) && Choosing(s) && Protected(s)
    ensures TornFree(s)
  {
    var a: nat :| WindowCommitted(s, s.reader.start, s.reader.count, a);
    forall m, t | AcceptedLater(Apply(s, Snapshot), m, t)
      ensures Contiguous(t.reader, t.hist)
    {
      ProtectedRead(s, a, Apply(s, Snapshot), m, t);
    }
  }

  // ------------------------------------------------------------------
  // Other windows can be read torn

  /** No sample has the value v in cell k. */
  ghost predicate FreshCell(hist: seq<Payload>, k: nat, v: Cell) {
    forall e :: 0 <= e < |hist| && k < |hist[e]| ==> hist[e][k] != v
  }

  /** There always is such a value. */
  lemma {:induction false} FreshValue(hist: seq<Payload>, k: nat) returns (v: Cell)
    ensures forall e :: 0 <= e < |hist| && k < |hist[e]| ==> hist[e][k] < v
    ensures FreshCell(hist, k, v)
  {
    if hist == [] {
      v := 0;
    } else {
      var x := hist[|hist| - 1];
      v := FreshValue(hist[..|hist| - 1], k);
      v := if k < |x| && x[k] >= v then x[k] + 1 else v;
    }
  }

  lemma FreshIsNotContiguous(r: Reader, hist: seq<Payload>, j: nat, k: nat)
    requires (j, k) in r.buf && FreshCell(hist, k, r.buf[(j, k)])
    ensures !Contiguous(r, hist)
  {
  }

  /** The check accepts a session whose start counter and revision are as they were. */
  lemma CheckAccepts(s1: State, u: State) returns (m: State, t: State)
    requires Later(s1, u) && IsRing(u.slots) && u.reader.pc == Session && u.reader.rev == u.nbCreations
    requires u.reader.start < |u.slots| && u.reader.snap == u.slots[u.reader.start].nbWrites
    ensures AcceptedLater(s1, m, t)
    ensures t.hist == u.hist && t.reader.buf == u.reader.buf && t.reader.rev == u.reader.rev == t.nbCreations
    ensures t.reader.count == u.reader.count
  {
    hide Apply, Enabled, Later;
    m := CounterStep(u);
    LaterStep(s1, u, CheckCounter, m);
    t := RevisionCheckStep(m);
  }

  /** The counters, the section's revision and the consumer's session are as before. */
  ghost predicate SameCounters(s: State, t: State) {
    && IsRing(t.slots) && |t.slots| == |s.slots| && t.nbCreations == s.nbCreations
    && forall i :: 0 <= i < |s.slots| ==> t.slots[i].nbWrites == s.slots[i].nbWrites
  }

  lemma StoreStep(s1: State, u: State, p: nat, k: nat, v: Cell) returns (t: State)
    requires Later(s1, u) && IsRing(u.slots) && Enabled(u, Store(p, k, v))
    ensures Later(s1, t) && SameCounters(u, t) && t.reader == u.reader && t.hist == u.hist
    ensures OpenSample(t, p) && t.writers == u.writers && t.width == u.width && t.magic == u.magic
    ensures var i := u.writers[p].index; t.slots[i].content == u.slots[i].content[k := v]
  {
    t := Apply(u, Store(p, k, v));
    LaterStep(s1, u, Store(p, k, v), t);
  }

  lemma LoadStep(s1: State, u: State, j: nat, k: nat) returns (t: State)
    requires Later(s1, u) && IsRing(u.slots) && Enabled(u, Load(j, k))
    ensures Later(s1, t) && t == u.(reader := t.reader)
    ensures var v := u.slots[IndexNAfter(u.reader.start, j, |u.slots|)].content[k];
            t.reader == u.reader.(buf := u.reader.buf[(j, k) := v])
  {
    t := Apply(u, Load(j, k));
    LaterStep(s1, u, Load(j, k), t);
  }

  lemma PublishStep(s1: State, u: State, p: nat) returns (t: State)
    requires Later(s1, u) && IsRing(u.slots) && OpenSample(u, p)
    ensures Later(s1, t) && SameCounters(u, t) && t.reader == u.reader && t.slots == u.slots
    ensures t.hist == u.hist + [u.slots[u.writers[p].index].content]
    ensures t == u.(writeIndex := t.writeIndex, hist := t.hist, author := t.author, writers := t.writers)
    ensures |t.writers| == |u.writers| && t.writers[p] == u.writers[p].(pc := WriterPc.Published)
    ensures forall q :: 0 <= q < |u.writers| && q != p ==> t.writers[q] == u.writers[q]
  {
    t := Apply(u, Publish(p));
    LaterStep(s1, u, Publish(p), t);
  }

  /** A context with an open sample stores v, the consumer copies it, and the context
      replaces it before it publishes the sample. */
  lemma StoreLoadStore(s1: State, u: State, p: nat, j: nat, k: nat, v: Cell) returns (t: State)
    requires Later(s1, u) && IsRing(u.slots) && u.reader.pc == Session && OpenSample(u, p)
    requires j < u.reader.count <= |u.slots| && u.reader.start < |u.slots|
    requires IndexNAfter(u.reader.start, j, |u.slots|) == u.writers[p].index
    requires k < |u.slots[u.writers[p].index].content|
    ensures Later(s1, t) && SameCounters(u, t)
    ensures t.reader == u.reader.(buf := u.reader.buf[(j, k) := v])
    ensures FreshCell(u.hist, k, v) ==> FreshCell(t.hist, k, v)
  {
    t := StoreStep(s1, u, p, k, v);
    t := LoadStep(s1, t, j, k);
    t := StoreStep(s1, t, p, k, v + 1);
    t := PublishStep(s1, t, p);
    FreshAppend(u.hist, t.hist[|u.hist|], k, v);
  }

  lemma FreshAppend(hist: seq<Payload>, x: Payload, k: nat, v: Cell)
    requires k < |x| && x[k] != v
    ensures FreshCell(hist, k, v) ==> FreshCell(hist + [x], k, v)
  {
  }

  /** If the next sample goes to a row of the window unnoticed, a producer that may write
      can make the consumer accept a cell that no sample ever had. */
  lemma WritableRowIsTorn(s: State, p: nat, k: nat) returns (m: State, t: State)
    requires Reachable(s) && Choosing(s) && WritableRow(s)
    requires CanWrite(s, p) && k < s.width
    ensures AcceptedLater(Apply(s, Snapshot), m, t) && !Contiguous(t.reader, t.hist)
  {
    var v := FreshValue(s.hist, k);
    var s1 := Apply(s, Snapshot);
    ReachableStep(s, Snapshot, s1);
    LaterAtOnce(s1);
    var u := WriterProceeds(s1, s1, p);
    OpenRow(s, s1, u, p, k);
    m, t := TornFromOpenSample(s1, u, p, NextRow(s), k, v);
  }

  lemma TornFromOpenSample(s1: State, u: State, p: nat, j: nat, k: nat, v: Cell) returns (m: State, t: State)
    requires Later(s1, u) && IsRing(u.slots) && u.reader.pc == Session && OpenSample(u, p)
    requires j < u.reader.count <= |u.slots| && u.reader.start < |u.slots|
    requires IndexNAfter(u.reader.start, j, |u.slots|) == u.writers[p].index
    requires k < |u.slots[u.writers[p].index].content|
    requires u.reader.rev == u.nbCreations && u.reader.snap == u.slots[u.reader.start].nbWrites
    requires FreshCell(u.hist, k, v)
    ensures AcceptedLater(s1, m, t) && !Contiguous(t.reader, t.hist)
  {
    var u' := StoreLoadStore(s1, u, p, j, k, v);
    m, t := CheckAccepts(s1, u');
    FreshIsNotContiguous(t.reader, t.hist, j, k);
  }

  /** The sample to be written next is in the window; its counter is not the start's. */
  lemma OpenRow(s: State, s1: State, u: State, p: nat, k: nat)
    requires Reachable(s) && Choosing(s) && WritableRow(s) && k < s.width
    requires StepBy(s, Snapshot, s1) && StillSamples(s1, u) && Reachable(u)
    requires OpenSample(u, p) && u.writers[p].index == SlotOf(|s.hist|, |s.slots|)
    ensures IsRing(u.slots) && u.reader == s1.reader && u.hist == s.hist && u.nbCreations == s.nbCreations
    ensures NextRow(s) < u.reader.count <= |u.slots| && u.reader.start == s.reader.start < |u.slots|
    ensures IndexNAfter(u.reader.start, NextRow(s), |u.slots|) == u.writers[p].index
    ensures k < |u.slots[u.writers[p].index].content|
    ensures u.reader.snap == u.slots[u.reader.start].nbWrites
  {
    ReachableInv(s);
    ReachableInv(u);
    ProtectedByRow(s);
  }

  // ------------------------------------------------------------------
  // A window read as it stands

  /** What stands in row j of the window. */
  function Row(s: State, j: nat): Payload
    requires IsRing(s.slots) && s.reader.start < |s.slots| && j < s.reader.count <= |s.slots|
  {
    s.slots[IndexNAfter(s.reader.start, j, |s.slots|)].content
  }

  /** Cell k of row j was copied as it stands in s. */
  ghost predicate CellCopied(s: State, buf: Copies, j: nat, k: nat)
    requires IsRing(s.slots) && s.reader.start < |s.slots| && j < s.reader.count <= |s.slots|
  {
    (j, k) in buf && k < |Row(s, j)| && buf[(j, k)] == Row(s, j)[k]
  }

  /** The first k cells of row j were copied as they stand in s. */
  ghost predicate RowCopied(s: State, buf: Copies, j: nat, k: nat)
    requires IsRing(s.slots) && s.reader.start < |s.slots| && j < s.reader.count <= |s.slots|
  {
    forall k' | 0 <= k' < k :: CellCopied(s, buf, j, k')
  }

  /** The first j rows of the window were copied as they stand in s. */
  ghost predicate RowsCopied(s: State, buf: Copies, j: nat)
    requires IsRing(s.slots) && s.reader.start < |s.slots| && j <= s.reader.count <= |s.slots|
  {
    forall j' | 0 <= j' < j :: RowCopied(s, buf, j', s.width)
  }

  function WithBuf(s: State, buf: Copies): State {
    s.(reader := s.reader.(buf := buf))
  }

  /** A consumer in a session that looks at the slots of s. */
  ghost predicate Reading(s: State, s1: State) {
    && Choosing(s) && Shape(s) && s1.slots == s.slots && s1.reader.pc == Session
    && s1.reader.start == s.reader.start && s1.reader.count == s.reader.count
  }

  lemma CopyCell(s: State, s1: State, buf: Copies, j: nat, k: nat) returns (buf': Copies)
    requires Reading(s, s1) && Later(s1, WithBuf(s1, buf)) && j < s.reader.count && k < s.width
    ensures k < |Row(s, j)| && buf' == buf[(j, k) := Row(s, j)[k]] && Later(s1, WithBuf(s1, buf'))
  {
    var t := LoadStep(s1, WithBuf(s1, buf), j, k);
    buf' := t.reader.buf;
    assert t == WithBuf(s1, buf');
  }

  /** Another row is copied, cell by cell. */
  lemma {:induction false} CopyRow(s: State, s1: State, buf: Copies, j: nat, k: nat) returns (buf': Copies)
    requires Reading(s, s1) && Later(s1, WithBuf(s1, buf)) && j < s.reader.count && k <= s.width
    requires RowsCopied(s, buf, j)
    ensures Later(s1, WithBuf(s1, buf')) && RowsCopied(s, buf', j) && RowCopied(s, buf', j, k)
  {
    buf' := buf;
    if k > 0 {
      var b := CopyRow(s, s1, buf, j, k - 1);
      buf' := CopyCell(s, s1, b, j, k - 1);
      CellsStay(s, b, buf', j, k - 1);
    }
  }

  lemma CellsStay(s: State, buf: Copies, buf': Copies, j: nat, k: nat)
    requires IsRing(s.slots) && s.reader.start < |s.slots| && j < s.reader.count <= |s.slots|
    requires RowsCopied(s, buf, j) && RowCopied(s, buf, j, k)
    requires k < |Row(s, j)| && buf' == buf[(j, k) := Row(s, j)[k]]
    ensures RowsCopied(s, buf', j) && RowCopied(s, buf', j, k + 1)
  {
    forall j', k' | 0 <= j' < j && 0 <= k' < s.width
      ensures CellCopied(s, buf', j', k')
    {
      assert RowCopied(s, buf, j', s.width) && CellCopied(s, buf, j', k');
    }
    forall k' | 0 <= k' < k + 1
      ensures CellCopied(s, buf', j, k')
    {
      assert k' < k ==> CellCopied(s, buf, j, k');
    }
  }

  lemma {:induction false} CopyRows(s: State, s1: State, j: nat) returns (buf: Copies)
    requires Reading(s, s1) && s1.reader.buf == map[] && j <= s.reader.count
    ensures Later(s1, WithBuf(s1, buf)) && RowsCopied(s, buf, j)
  {
    if j == 0 {
      LaterAtOnce(s1);
      buf := map[];
      assert WithBuf(s1, buf) == s1;
    } else {
      buf := CopyRows(s, s1, j - 1);
      buf := CopyRow(s, s1, buf, j - 1, s.width);
    }
  }

  /** As long as nobody writes, the window can be copied whole as it stands, written or
      not, and the read is accepted. */
  lemma WholeWindowIsAccepted(s: State) returns (m: State, t: State)
    requires Reachable(s) && Choosing(s)
    ensures AcceptedLater(Apply(s, Snapshot), m, t) && t.hist == s.hist && t.reader.count == s.reader.count
    ensures RowsCopied(s, t.reader.buf, s.reader.count)
  {
    ReachableInv(s);
    var s1 := Sampled(s);
    var buf := CopyRows(s, s1, s.reader.count);
    m, t := CheckAccepts(s1, WithBuf(s1, buf));
  }

  lemma Sampled(s: State) returns (s1: State)
    requires Choosing(s) && Shape(s)
    ensures s1 == Apply(s, Snapshot) && Reading(s, s1) && s1.reader.buf == map[] && s1.hist == s.hist
    ensures s1.reader.rev == s1.nbCreations && s1.reader.snap == s1.slots[s1.reader.start].nbWrites
  {
    s1 := Apply(s, Snapshot);
  }

  // ------------------------------------------------------------------
  // A window that a publication has reached before its counter is sampled

  /** Sample e alone has its value in cell k. */
  ghost predicate UniqueCell(hist: seq<Payload>, e: nat, k: nat)
    requires e < |hist| && k < |hist[e]|
  {
    forall f :: 0 <= f < |hist| && f != e && k < |hist[f]| ==> hist[f][k] != hist[e][k]
  }

  lemma PastTheEndIsNotContiguous(r: Reader, hist: seq<Payload>, e: nat, j: nat, k: nat)
    requires e < |hist| && k < |hist[e]| && UniqueCell(hist, e, k) && e + j >= |hist|
    requires (0, k) in r.buf && r.buf[(0, k)] == hist[e][k] && (j, k) in r.buf
    ensures !Contiguous(r, hist)
  {
    if a: nat :| Copied(r, hist, a) {
      assert false;
    }
  }

  /** A window that reaches past the newest sample is read from the newest samples and
      then from the oldest, and accepted, although nobody writes. */
  lemma StaleWindowIsTorn(s: State, e: nat, k: nat) returns (m: State, t: State)
    requires Reachable(s) && Choosing(s) && s.reserved == |s.hist| && k < s.width
    requires e == NewestIn(|s.hist|, s.reader.start, |s.slots|) && e + s.reader.count > |s.hist|
    requires k < |s.hist[e]| && UniqueCell(s.hist, e, k)
    ensures AcceptedLater(Apply(s, Snapshot), m, t) && t.hist == s.hist && !Contiguous(t.reader, t.hist)
  {
    var j := |s.hist| - e;
    RingRefinesHistory(s, s.reader.start);
    m, t := WholeWindowIsAccepted(s);
    assert RowCopied(s, t.reader.buf, 0, s.width) && RowCopied(s, t.reader.buf, j, s.width);
    assert CellCopied(s, t.reader.buf, 0, k) && CellCopied(s, t.reader.buf, j, k);
    PastTheEndIsNotContiguous(t.reader, t.hist, e, j, k);
  }

  lemma ReleaseStep(s1: State, u: State, p: nat) returns (t: State)
    requires Later(s1, u) && IsRing(u.slots) && Enabled(u, Release(p))
    ensures Later(s1, t) && t.slots == u.slots && t.hist == u.hist && t.reader == u.reader
    ensures t.phase == Serving && t.nbCreations == u.nbCreations && t.reserved == u.reserved
    ensures t.width == u.width && t.magic == u.magic
    ensures |t.writers| == |u.writers| && t.writers[p].pc == Rest && t.writers[p].index == -1 && t.writers[p].alive
    ensures forall q :: 0 <= q < |u.writers| && q != p ==> t.writers[q] == u.writers[q]
  {
    t := Apply(u, Release(p));
    LaterStep(s1, u, Release(p), t);
  }

  /** A producer that no other one keeps from writing commits a sample with value v in
      cell k, and leaves the section. */
  lemma WriterCommits(s0: State, s: State, p: nat, k: nat, v: Cell) returns (t: State)
    requires Reachable(s0) && Reachable(s) && Later(s0, s) && CanWrite(s, p) && k < s.width
    ensures Reachable(t) && Later(s0, t) && CanWrite(t, p) && !InRegion(t.writers[p]) && |t.writers| == |s.writers|
    ensures t.reader == s.reader && t.nbCreations == s.nbCreations && |t.slots| == |s.slots|
    ensures t.width == s.width && t.magic == s.magic
    ensures |t.hist| == |s.hist| + 1 && s.hist <= t.hist && t.reserved == |t.hist|
    ensures k < |t.hist[|s.hist|]| && t.hist[|s.hist|][k] == v
  {
    var u := WriterProceeds(s0, s, p);
    t := CommitOpenSample(s0, u, p, k, v);
  }

  lemma CommitOpenSample(s0: State, u: State, p: nat, k: nat, v: Cell) returns (t: State)
    requires Reachable(s0) && Reachable(u) && Later(s0, u) && CanWrite(u, p) && OpenSample(u, p) && k < u.width
    ensures Reachable(t) && Later(s0, t) && CanWrite(t, p) && !InRegion(t.writers[p]) && |t.writers| == |u.writers|
    ensures t.reader == u.reader && t.nbCreations == u.nbCreations && |t.slots| == |u.slots|
    ensures t.width == u.width && t.magic == u.magic
    ensures |t.hist| == |u.hist| + 1 && u.hist <= t.hist && t.reserved == |t.hist|
    ensures k < |t.hist[|u.hist|]| && t.hist[|u.hist|][k] == v
  {
    hide Later, Leads, Inv, SlotOf;
    OpenWidth(u, p);
    var u1 := StoreStep(s0, u, p, k, v);
    var u2 := PublishStep(s0, u1, p);
    t := ReleaseStep(s0, u2, p);
    ReachableLater(s0, t);
    NobodyWrites(t, p);
  }

  lemma OpenWidth(u: State, p: nat)
    requires Reachable(u) && OpenSample(u, p)
    ensures |u.slots[u.writers[p].index].content| == u.width
  {
    ReachableInv(u);
  }

  lemma NobodyWrites(s: State, p: nat)
    requires Reachable(s) && CanWrite(s, p) && !InRegion(s.writers[p])
    ensures s.reserved == |s.hist| && s.nbOngoing == 0
  {
    ReachableInv(s);
  }

  /** Boundary: the window is committed when the search has chosen it, but a sample is
      published over its start before the counter is sampled.  No write is in flight from
      then on, and yet the torn read is accepted. */
  lemma RepublishedStartIsTorn(s: State, p: nat, k: nat) returns (u: State, m: State, t: State)
    requires Reachable(s) && Choosing(s) && Protected(s) && s.reader.count >= 2
    requires s.reader.start == SlotOf(|s.hist|, |s.slots|)
    requires CanWrite(s, p) && k < s.width
    ensures Later(s, u) && Choosing(u) && u.nbOngoing == 0 && |u.hist| == |s.hist| + 1
    ensures AcceptedLater(Apply(u, Snapshot), m, t) && t.hist == u.hist && !Contiguous(t.reader, t.hist)
  {
    LaterAtOnce(s);
    var v := FreshValue(s.hist, k);
    u := WriterCommits(s, s, p, k, v);
    NobodyWrites(u, p);
    m, t := StaleWindowIsTorn(u, |s.hist|, k);
  }

  // ------------------------------------------------------------------
  // Odd revisions

  function OpeningSteps(start: nat): seq<Action> {
    [BeginCreation, LoadRevision, Select(start, 1), Snapshot]
  }

  function ErasingSteps(start: nat, k: nat): seq<Action> {
    [ResetIndex, ResetOngoing, WriteMagic, ZeroCell(start, k)]
  }

  function ReadingSteps(k: nat): seq<Action> {
    [Load(0, k), CheckCounter, CheckRevision]
  }

  lemma BeginStep(s: State) returns (t: State)
    requires IsRing(s.slots) && s.phase == Serving && Quiet(s)
    ensures StepBy(s, BeginCreation, t) && t.reader == s.reader && t.slots == s.slots && t.phase == Stamped
    ensures t.nbCreations == s.nbCreations + 1 && t.writeIndex == s.writeIndex
  {
    t := Apply(s, BeginCreation);
  }

  lemma LoadRevisionStep(s: State) returns (t: State)
    requires IsRing(s.slots) && s.reader.pc == ParityOk
    ensures StepBy(s, LoadRevision, t) && t == s.(reader := s.reader.(pc := Ready, rev := s.nbCreations))
  {
    t := Apply(s, LoadRevision);
  }

  lemma SelectStep(s: State, start: nat, count: nat) returns (t: State)
    requires IsRing(s.slots) && s.reader.pc == Ready && s.writeIndex != -1
    requires start < |s.slots| && 1 <= count <= |s.slots|
    ensures StepBy(s, Select(start, count), t)
    ensures t == s.(reader := s.reader.(pc := Selected, start := start, count := count))
  {
    t := Apply(s, Select(start, count));
  }

  lemma SnapshotStep(s: State) returns (t: State)
    requires IsRing(s.slots) && s.reader.pc == Selected && s.reader.start < |s.slots|
    ensures StepBy(s, Snapshot, t) && t == s.(reader := t.reader)
    ensures t.reader.pc == Session && t.reader.snap == s.slots[s.reader.start].nbWrites && t.reader.buf == map[]
    ensures t.reader.rev == s.reader.rev && t.reader.start == s.reader.start && t.reader.count == s.reader.count
  {
    t := Apply(s, Snapshot);
  }

  lemma OpenDuringCreation(s: State, start: nat) returns (t: State)
    requires IsRing(s.slots) && s.phase == Serving && Quiet(s) && s.reader.pc == ParityOk
    requires s.writeIndex != -1 && start < |s.slots|
    ensures Leads(s, OpeningSteps(start), t)
    ensures t.phase == Stamped && t.slots == s.slots && t.nbCreations == s.nbCreations + 1 && t.reader.pc == Session
    ensures t.reader.rev == t.nbCreations && t.reader.start == start && t.reader.count == 1
    ensures t.reader.snap == s.slots[start].nbWrites
  {
    hide Leads, Apply, Enabled;
    var s1 := BeginStep(s);
    var s2 := LoadRevisionStep(s1);
    var s3 := SelectStep(s2, start, 1);
    t := SnapshotStep(s3);
    LeadsFour(s, BeginCreation, s1, LoadRevision, s2, Select(start, 1), s3, Snapshot, t);
  }

  lemma EraseCell(s: State, start: nat, k: nat) returns (t: State)
    requires IsRing(s.slots) && s.phase == Stamped && start < |s.slots| && k < |s.slots[start].content|
    ensures Leads(s, ErasingSteps(start, k), t)
    ensures t.reader == s.reader && t.nbCreations == s.nbCreations && |t.slots| == |s.slots|
    ensures t.slots[start] == s.slots[start].(content := s.slots[start].content[k := 0])
  {
    var s1 := s.(writeIndex := -1, phase := IndexReset);
    var s2 := s1.(nbOngoing := 0, phase := OngoingReset);
    var s3 := s2.(magic := true, phase := Clearing);
    t := SetSlot(s3, start, s.slots[start].(content := s.slots[start].content[k := 0]));
    LeadsFour(s, ResetIndex, s1, ResetOngoing, s2, WriteMagic, s3, ZeroCell(start, k), t);
  }

  lemma LoadFirstStep(s: State, k: nat) returns (t: State)
    requires IsRing(s.slots) && s.reader.pc == Session && s.reader.start < |s.slots| && s.reader.count == 1
    requires k < |s.slots[s.reader.start].content|
    ensures StepBy(s, Load(0, k), t)
    ensures t == s.(reader := s.reader.(buf := s.reader.buf[(0, k) := s.slots[s.reader.start].content[k]]))
  {
    t := Apply(s, Load(0, k));
  }

  lemma CounterStep(s: State) returns (t: State)
    requires IsRing(s.slots) && s.reader.pc == Session && s.reader.start < |s.slots|
    requires s.reader.snap == s.slots[s.reader.start].nbWrites
    ensures StepBy(s, CheckCounter, t)
    ensures t == s.(reader := s.reader.(pc := CounterOk, snap := -1, checkReserved := s.reserved))
  {
    t := Apply(s, CheckCounter);
  }

  lemma RevisionCheckStep(s: State) returns (t: State)
    requires IsRing(s.slots) && s.reader.pc == CounterOk && s.reader.rev == s.nbCreations
    ensures StepBy(s, CheckRevision, t) && t == s.(reader := s.reader.(pc := Accepted))
  {
    t := Apply(s, CheckRevision);
  }

  lemma ReadCell(s: State, k: nat) returns (t: State)
    requires IsRing(s.slots) && s.reader.pc == Session && s.reader.start < |s.slots| && s.reader.count == 1
    requires s.reader.rev == s.nbCreations && s.reader.snap == s.slots[s.reader.start].nbWrites
    requires k < |s.slots[s.reader.start].content|
    ensures Leads(s, ReadingSteps(k), t)
    ensures t.reader.pc == Accepted && t.reader.rev == t.nbCreations == s.nbCreations
    ensures (0, k) in t.reader.buf && t.reader.buf[(0, k)] == s.slots[s.reader.start].content[k]
  {
    hide Leads, Apply, Enabled;
    var s1 := LoadFirstStep(s, k);
    var s2 := CounterStep(s1);
    t := RevisionCheckStep(s2);
    LeadsThree(s, Load(0, k), s1, CheckCounter, s2, CheckRevision, t);
  }

  lemma OddRevision(s: State, rev: int)
    requires Reachable(s) && s.phase == Serving && rev == s.nbCreations + 1
    ensures rev % 2 == 1
    ensures s.hist != [] ==> s.writeIndex != -1
  {
    ReachableInv(s);
  }

  /** Boundary: opening loads the revision number twice, once to see that it is even and
      once to keep it.  If a creation begins in between, the kept revision is odd, a
      window can be chosen before the index is reset, and the check at the end accepts a
      cell that the creation erased instead of the one selected. */
  lemma ErasedCellIsAccepted(s: State, start: nat, k: nat) returns (t: State)
    requires Reachable(s) && s.phase == Serving && Quiet(s) && s.reader.pc == ParityOk
    requires s.hist != [] && start < |s.slots| && k < |s.slots[start].content| && s.slots[start].content[k] != 0
    ensures Leads(s, OpeningSteps(start) + ErasingSteps(start, k) + ReadingSteps(k), t) && Reachable(t)
    ensures t.reader.pc == Accepted && t.reader.rev == t.nbCreations && t.reader.rev % 2 == 1
    ensures (0, k) in t.reader.buf && t.reader.buf[(0, k)] == 0 != s.slots[start].content[k]
  {
    var s1, s2;
    OddRevision(s, s.nbCreations + 1);
    s1, s2, t := ErasedReadStates(s, start, k);
    LeadsThrice(s, OpeningSteps(start), s1, ErasingSteps(start, k), s2, ReadingSteps(k), t);
  }

  lemma ErasedReadStates(s: State, start: nat, k: nat) returns (s1: State, s2: State, t: State)
    requires IsRing(s.slots) && s.phase == Serving && Quiet(s) && s.reader.pc == ParityOk
    requires s.writeIndex != -1 && start < |s.slots| && k < |s.slots[start].content|
    ensures Leads(s, OpeningSteps(start), s1) && Leads(s1, ErasingSteps(start, k), s2) && Leads(s2, ReadingSteps(k), t)
    ensures t.reader.pc == Accepted && t.reader.rev == t.nbCreations == s.nbCreations + 1
    ensures (0, k) in t.reader.buf && t.reader.buf[(0, k)] == 0
  {
    s1 := OpenDuringCreation(s, start);
    s2 := EraseCell(s1, start, k);
    t := ReadCell(s2, k);
  }
}
