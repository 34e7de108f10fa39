/**
 Runs that occur for every ring size: a section is created, filled and read, and the read
 is accepted, whole or torn or erased.
 */
module ProtocolExamples {
  import opened Index
  import opened Ring
  import opened Protocol
  import opened ProtocolInvariant
  import opened ProtocolSafety
  import opened ProtocolRuns
  import opened ProtocolLimits

  function ZeroSlots(n: Size, width: nat): (slots: seq<Slot<Payload>>)
    ensures |slots| == n
    ensures forall i :: 0 <= i < n ==> slots[i].nbWrites == 0 && |slots[i].content| == width
    ensures forall i, k :: 0 <= i < n && 0 <= k < width ==> slots[i].content[k] == 0
  {
    seq(n, _ => Slot(0, seq(width, _ => 0)))
  }

  /** Zeroed memory in which no section has been created. */
  function Blank(n: Size, width: nat): State {
    State(false, 0, 0, 0, ZeroSlots(n, width), width, Absent, [],
          Reader(Closed, 0, 0, 0, 0, map[], 0, 0, 0), 0, [], [], 0, -1)
  }

  lemma BlankReachable(n: Size, width: nat)
    requires n >= 2
    ensures Reachable(Blank(n, width))
  {
    RunReachable(Run([Blank(n, width)], []), Blank(n, width));
  }

  /** A section with no sample, and one producer context. */
  ghost predicate Created(s: State, n: Size, width: nat) {
    && Reachable(s) && s.phase == Serving && |s.slots| == n && s.width == width
    && s.writers == [NEW_WRITER] && s.magic && s.reader.pc == Closed && s.nbCreations == 2
  }

  lemma ClearedSection(n: Size, width: nat) returns (s5: State)
    requires n >= 2
    ensures Reachable(s5)
    ensures s5 == Blank(n, width).(nbCreations := 1, writeIndex := -1, magic := true, phase := Invalidating(0))
  {
    BlankReachable(n, width);
    var s1 := Blank(n, width).(nbCreations := 1, phase := Stamped);
    ReachableStep(Blank(n, width), BeginCreation, s1);
    var s2 := s1.(writeIndex := -1, phase := IndexReset);
    ReachableStep(s1, ResetIndex, s2);
    var s3 := s2.(phase := OngoingReset);
    ReachableStep(s2, ResetOngoing, s3);
    var s4 := s3.(magic := true, phase := Clearing);
    ReachableStep(s3, WriteMagic, s4);
    s5 := s4.(phase := Invalidating(0));
    ReachableStep(s4, FinishZeroing, s5);
  }

  lemma CreatedSection(n: Size, width: nat) returns (s: State)
    requires n >= 2
    ensures Created(s, n, width) && s.hist == []
  {
    var s5 := ClearedSection(n, width);
    var s6 := InvalidateRest(s5);
    s := s6.(nbCreations := 2, phase := Serving, epoch := 1, writers := [NEW_WRITER]);
    ReachableStep(s6, EndCreation, s);
  }

  /** c samples, numbered from 1 in cell 0, and no write in flight. */
  ghost predicate Filled(s: State, n: Size, width: nat, c: nat) {
    && Reachable(s) && |s.slots| == n && s.width == width && s.magic && s.reader.pc == Closed && s.nbCreations == 2
    && |s.writers| == 1 && CanWrite(s, 0) && !InRegion(s.writers[0])
    && |s.hist| == c && Numbered(s.hist)
  }

  predicate Numbered(hist: seq<Payload>) {
    forall e :: 0 <= e < |hist| ==> |hist[e]| > 0 && hist[e][0] == e + 1
  }

  lemma {:induction false} FilledSection(n: Size, width: nat, c: nat) returns (s: State)
    requires n >= 2 && width >= 1
    ensures Filled(s, n, width, c)
  {
    if c == 0 {
      s := CreatedSection(n, width);
    } else {
      s := FilledSection(n, width, c - 1);
      s := OneMore(s, n, width, c - 1);
    }
  }

  lemma OneMore(s: State, n: Size, width: nat, c: nat) returns (t: State)
    requires Filled(s, n, width, c) && width >= 1
    ensures Filled(t, n, width, c + 1)
  {
    LaterAtOnce(s);
    t := WriterCommits(s, s, 0, 0, c + 1);
    NumberedOn(s.hist, t.hist);
  }

  lemma NumberedOn(hist: seq<Payload>, hist': seq<Payload>)
    requires Numbered(hist) && hist <= hist' && |hist'| == |hist| + 1
    requires |hist'[|hist|]| > 0 && hist'[|hist|][0] == |hist| + 1
    ensures Numbered(hist')
  {
  }

  /** A consumer has seen an even revision number of a section with c samples. */
  ghost predicate Opening(s: State, n: Size, width: nat, c: nat) {
    && Reachable(s) && |s.slots| == n && s.width == width && s.nbCreations == 2 && s.phase == Serving
    && s.reader.pc == ParityOk && CanWrite(s, 0) && Quiet(s) && s.reserved == |s.hist| == c && Numbered(s.hist)
  }

  lemma OpeningSection(n: Size, width: nat, c: nat) returns (s: State)
    requires n >= 2 && width >= 1
    ensures Opening(s, n, width, c)
  {
    var s0 := FilledSection(n, width, c);
    NobodyWrites(s0, 0);
    var s1 := s0.(reader := s0.reader.(pc := Mapped));
    ReachableStep(s0, MapSection, s1);
    s := s1.(reader := s1.reader.(pc := ParityOk));
    ReachableStep(s1, LoadParity, s);
  }

  /** A consumer has chosen the window of `count` slots from `start`. */
  lemma ChosenWindow(s: State, n: Size, width: nat, c: nat, start: nat, count: nat) returns (t: State)
    requires Opening(s, n, width, c) && c >= 1 && start < n && 1 <= count <= n
    ensures Reachable(t) && Choosing(t) && t.reader.start == start && t.reader.count == count
    ensures t == s.(reader := t.reader)
  {
    RingRefinesHistory(s, start);
    var s1 := s.(reader := s.reader.(pc := Ready, rev := 2));
    ReachableStep(s, LoadRevision, s1);
    t := s1.(reader := s1.reader.(pc := Selected, start := start, count := count));
    ReachableStep(s1, Select(start, count), t);
  }

  /** Every cell of a sample was copied to row 0. */
  ghost predicate WholeSample(buf: Copies, x: Payload) {
    forall k | 0 <= k < |x| :: (0, k) in buf && buf[(0, k)] == x[k]
  }

  /** The newest of c samples is read whole, for every ring size and every c. */
  lemma AcceptedReadHappens(n: Size, width: nat, c: nat) returns (run: Run, q: nat, i: nat)
    requires n >= 2 && width >= 1 && c >= 1
    ensures IsRun(run) && AcceptedRead(run, q, i)
    ensures run.states[i].reader.rev % 2 == 0 && IsRing(run.states[q].slots)
    ensures var s, r := run.states[q], run.states[i].reader;
            && WindowCommitted(s, r.start, r.count, c - 1)
            && |s.hist| == c && |s.hist[c - 1]| == width && WholeSample(r.buf, s.hist[c - 1])
  {
    hide Inv, Hits, SlotOf, Later;
    var s0 := OpeningSection(n, width, c);
    var s := ChosenWindow(s0, n, width, c, SlotOf(c - 1, n), 1);
    ProtectedNewest(s, c, n);
    var m, t := WholeWindowIsAccepted(s);
    NewestRow(s, c, t.reader.buf);
    run, q, i := AcceptedReadRun(s, Apply(s, Snapshot), m, t);
    WindowOfRead(run, q, i);
  }

  lemma NewestRow(s: State, c: nat, buf: Copies)
    requires Reachable(s) && Choosing(s) && s.reserved == |s.hist| == c >= 1
    requires s.reader.start == SlotOf(c - 1, |s.slots|) && NewestIn(c, s.reader.start, |s.slots|) == c - 1
    requires RowsCopied(s, buf, s.reader.count)
    ensures |s.hist[c - 1]| == s.width && WholeSample(buf, s.hist[c - 1])
  {
    ReachableInv(s);
    RingRefinesHistory(s, s.reader.start);
    assert Row(s, 0) == s.hist[c - 1] && RowCopied(s, buf, 0, s.width);
    forall k | 0 <= k < s.width
      ensures (0, k) in buf && buf[(0, k)] == s.hist[c - 1][k]
    {
      assert CellCopied(s, buf, 0, k);
    }
  }

  lemma ProtectedNewest(s: State, c: nat, n: Size)
    requires n >= 2 && Choosing(s) && |s.slots| == n && s.reserved == |s.hist| == c >= 1
    requires s.reader.start == SlotOf(c - 1, n) && s.reader.count == 1
    ensures WindowCommitted(s, s.reader.start, 1, c - 1) && NewestIn(c, s.reader.start, n) == c - 1
  {
  }

  /** In a full ring, a window of all samples is chosen, and the oldest of them replaced
      before the counter of its slot is sampled. */
  lemma TornReadOccurs(n: Size, width: nat) returns (u: State, m: State, t: State)
    requires n >= 2 && width >= 1
    ensures Reachable(u) && Choosing(u) && u.nbOngoing == 0
    ensures AcceptedLater(Apply(u, Snapshot), m, t) && !Contiguous(t.reader, t.hist)
  {
    var s0 := OpeningSection(n, width, n);
    var s := ChosenWindow(s0, n, width, n, 0, n);
    assert WindowCommitted(s, 0, n, 0);
    u, m, t := RepublishedStartIsTorn(s, 0, 0);
    ReachableLater(s, u);
  }

  /** A full ring is read torn, and the read accepted, for every ring size. */
  lemma TornReadHappens(n: Size, width: nat) returns (run: Run, q: nat, i: nat)
    requires n >= 2 && width >= 1
    ensures IsRun(run) && AcceptedRead(run, q, i)
    ensures run.states[i].reader.rev % 2 == 0
    ensures run.states[q].nbOngoing == 0 && !Contiguous(run.states[i + 1].reader, run.states[i + 1].hist)
  {
    var u, m, t := TornReadOccurs(n, width);
    RevisionParity(u);
    run, q, i := AcceptedReadRun(u, Apply(u, Snapshot), m, t);
    WindowOfRead(run, q, i);
  }

  /** A sample is erased while it is read, and the read accepted, for every ring size. */
  lemma ErasedReadHappens(n: Size, width: nat, c: nat) returns (s: State, t: State)
    requires n >= 2 && width >= 1 && c >= 1
    ensures Opening(s, n, width, c) && s.slots[SlotOf(c - 1, n)].content == s.hist[c - 1]
    ensures Reachable(t) && t.reader.pc == Accepted && t.reader.rev == t.nbCreations
    ensures (0, 0) in t.reader.buf && t.reader.buf[(0, 0)] == 0 != s.hist[c - 1][0]
  {
    s := OpeningSection(n, width, c);
    RingRefinesHistory(s, SlotOf(c - 1, n));
    t := ErasedCellIsAccepted(s, SlotOf(c - 1, n), 0);
  }
}
