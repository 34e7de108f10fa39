/**
 The exact condition of torn-read freedom: the window shows a run of samples as it stands,
 and no producer can store into one of its rows before it reserves the start slot again.
 */
module ProtocolExact {
  import opened Index
  import opened Ring
  import opened Protocol
  import opened ProtocolInvariant
  import opened ProtocolSafety
  import opened ProtocolRuns
  import opened ProtocolLimits

  /** The rows of the window hold the samples a, a + 1, ... as they stand. */
  ghost predicate ShowsFrom(s: State, a: nat)
    requires Choosing(s)
  {
    a + s.reader.count <= |s.hist| && forall j | 0 <= j < s.reader.count :: Row(s, j) == s.hist[a + j]
  }

  ghost predicate ShowsRun(s: State)
    requires Choosing(s)
  {
    exists a: nat :: ShowsFrom(s, a)
  }

  /** Some producer can still write to the section. */
  ghost predicate SomeoneCanWrite(s: State) {
    exists p: nat :: CanWrite(s, p)
  }

  /** A producer can store into a row of the window without reserving its start. */
  ghost predicate CanBeStoredInto(s: State)
    requires Choosing(s)
  {
    WritableRow(s) && SomeoneCanWrite(s)
  }

  // ------------------------------------------------------------------
  // Nothing is stored into the window

  /** Before position e can be stored into a row of a window that is not writable, the
      start slot is reserved. */
  lemma RowComesAfterStart(c: nat, r: nat, start: nat, count: nat, n: Size, e: nat, j: nat)
    requires start < n && j < count <= n && c <= r <= c + 1 && c <= e
    requires var row := IntervalBetween(start, SlotOf(c, n), n); !(row < count && (row > 0 || r > c))
    requires SlotOf(e, n) == IndexNAfter(start, j, n)
    ensures !NotReserved(r, e + 1, start, n)
  {
    hide SlotOf, U32;
    var row := IntervalBetween(start, SlotOf(c, n), n);
    RowOfNext(c, start, n);
    var f := if row == 0 then c else c + n - row;
    SlotAdvance(c, f - c, n);
    if e < f {
      RowBeforeStart(SlotOf(c, n), row, start, e - c, n);
      SlotAdvance(c, e - c, n);
    }
    assert r <= f < e + 1 && SlotOf(f, n) == start;
  }

  /** k slots on from a row, short of the start, is k rows on. */
  lemma RowBeforeStart(s: nat, row: nat, start: nat, k: nat, n: Size)
    requires s < n && start < n && row + k < n && s == IndexNAfter(start, row, n)
    ensures forall j | 0 <= j < n :: IndexNAfter(s, k, n) == IndexNAfter(start, j, n) ==> j == row + k
  {
  }

  /** A producer that can write could already do so, or was kept from it by one that
      could: the dead hold on to their session. */
  lemma NobodyStaysNobody(s: State, a: Action, s': State)
    requires Inv(s) && StepBy(s, a, s') && s.phase == Serving && s'.phase == Serving
    ensures SomeoneCanWrite(s') ==> SomeoneCanWrite(s)
  {
    if p: nat :| CanWrite(s', p) {
      WriterBefore(s, a, s', p);
      if s.holder == -1 || s.holder == p {
        assert CanWrite(s, p);
      } else {
        assert CanWrite(s, s.holder);
      }
    }
  }

  lemma WriterBefore(s: State, a: Action, s': State, p: nat)
    requires Inv(s) && StepBy(s, a, s') && s.phase == Serving && s'.phase == Serving && CanWrite(s', p)
    ensures p < |s.writers| && s.writers[p].alive && s.writers[p].pc != Gone
    ensures s.holder != -1 && s.holder != p ==> s.writers[s.holder].alive && s.writers[s.holder].pc != Gone
  {
    hide Apply, Enabled, Counters, Contents, Holder, ReaderInv, OwnInv;
    if ByCreator(a) {
      CreatorFrame(s, a, s');
    } else if ByWriter(a) {
      OthersFrame(s, a, s');
      ActingWriter(s, a, s');
    } else {
      ReaderFrame(s, a, s');
    }
  }

  /** Only a live context acts, and none comes to life. */
  lemma ActingWriter(s: State, a: Action, s': State)
    requires StepBy(s, a, s') && ByWriter(a)
    ensures a.p < |s.writers| == |s'.writers| && s.writers[a.p].alive
    ensures s'.writers[a.p].pc == Gone <==> s.writers[a.p].pc == Gone
    ensures InRegion(s.writers[a.p]) ==> InRegion(s'.writers[a.p]) || s.writers[a.p].pc == WriterPc.Published
  {
  }

  // ------------------------------------------------------------------
  // A window that cannot be stored into

  ghost predicate Untouched(s: State, slots: seq<Slot<Payload>>)
    requires Choosing(s)
  {
    && |slots| == |s.slots|
    && forall j | 0 <= j < s.reader.count :: slots[IndexNAfter(s.reader.start, j, |slots|)].content == Row(s, j)
  }

  /** Everything copied so far is as it stands in s. */
  ghost predicate OnlyAsItStands(s: State, buf: Copies)
    requires Choosing(s)
  {
    forall j, k | (j, k) in buf :: j < s.reader.count && CellCopied(s, buf, j, k)
  }

  /** The start slot was not reserved between s and r reservations. */
  ghost predicate StartStands(s: State, r: nat)
    requires Choosing(s)
  {
    NotReserved(s.reserved, r, s.reader.start, |s.slots|)
  }

  /** x is a state of the session that s opens, in the same revision. */
  ghost predicate SameSession(s: State, x: State)
    requires Choosing(s)
  {
    && Inv(x) && x.phase == Serving && |x.slots| == |s.slots|
    && |s.hist| <= |x.hist| && |s.hist| <= s.reserved <= |s.hist| + 1 && s.reserved <= x.reserved
    && x.reader.start == s.reader.start && x.reader.count == s.reader.count
    && (WritableRow(s) ==> !SomeoneCanWrite(x))
  }

  /** Until the start slot is reserved again, the window and what is copied stay. */
  ghost predicate Frozen(s: State, x: State)
    requires Choosing(s)
  {
    && (x.reader.pc == Session && StartStands(s, x.reserved) ==>
          Untouched(s, x.slots) && OnlyAsItStands(s, x.reader.buf))
    && (x.reader.pc == CounterOk && StartStands(s, x.reader.checkReserved) ==> OnlyAsItStands(s, x.reader.buf))
  }

  lemma StoreMissesWindow(s: State, x: State, p: nat, k: nat, v: Cell, y: State)
    requires Choosing(s) && SameSession(s, x) && StepBy(x, Store(p, k, v), y)
    requires StartStands(s, x.reserved) && Untouched(s, x.slots)
    ensures Untouched(s, y.slots)
  {
    WriterIsHolder(x, p);
    assert CanWrite(x, p);
    var e := |x.hist|;
    forall j | 0 <= j < s.reader.count
      ensures IndexNAfter(s.reader.start, j, |x.slots|) != SlotOf(e, |x.slots|)
    {
      if IndexNAfter(s.reader.start, j, |x.slots|) == SlotOf(e, |x.slots|) {
        RowComesAfterStart(|s.hist|, s.reserved, s.reader.start, s.reader.count, |s.slots|, e, j);
      }
    }
  }

  lemma LoadsAsItStands(s: State, x: State, j: nat, k: nat, y: State)
    requires Choosing(s) && SameSession(s, x) && StepBy(x, Load(j, k), y)
    requires Untouched(s, x.slots) && OnlyAsItStands(s, x.reader.buf)
    ensures OnlyAsItStands(s, y.reader.buf)
  {
    forall j', k' | (j', k') in y.reader.buf
      ensures j' < s.reader.count && CellCopied(s, y.reader.buf, j', k')
    {
      assert (j', k') != (j, k) ==> CellCopied(s, x.reader.buf, j', k');
    }
  }

  lemma WriterKeepsContents(x: State, a: Action, y: State)
    requires StepBy(x, a, y) && ByWriter(a) && !a.Store?
    ensures |y.slots| == |x.slots| && forall i :: 0 <= i < |x.slots| ==> y.slots[i].content == x.slots[i].content
  {
  }

  lemma ReaderKeepsBuf(x: State, a: Action, y: State)
    requires StepBy(x, a, y) && !ByCreator(a) && !ByWriter(a) && KeepsWindow(a) && !a.Load?
    ensures y.reader.buf == x.reader.buf && (y.reader.pc == Session ==> x.reader.pc == Session)
    ensures y.reader.pc == CounterOk ==>
              if a.CheckCounter? then x.reader.pc == Session && y.reader.checkReserved == x.reserved
              else x.reader.pc == CounterOk && y.reader.checkReserved == x.reader.checkReserved
  {
  }

  /** Other actions keep every content; only a bump adds a reservation. */
  lemma OtherStep(x: State, a: Action, y: State)
    requires StepBy(x, a, y) && x.phase == Serving && y.phase == Serving
    requires KeepsWindow(a) && !a.Store? && !a.Load?
    ensures |y.slots| == |x.slots| && forall i :: 0 <= i < |x.slots| ==> y.slots[i].content == x.slots[i].content
    ensures x.reserved <= y.reserved && y.reader.buf == x.reader.buf
    ensures y.reader.pc == Session ==> x.reader.pc == Session
    ensures y.reader.pc == CounterOk ==>
              if a.CheckCounter? then x.reader.pc == Session && y.reader.checkReserved == x.reserved
              else x.reader.pc == CounterOk && y.reader.checkReserved == x.reader.checkReserved
  {
    hide Apply, Enabled;
    if ByCreator(a) {
      CreatorFrame(x, a, y);
    } else if ByWriter(a) {
      WriterFrame(x, a, y);
      WriterKeepsContents(x, a, y);
    } else {
      ReaderFrame(x, a, y);
      ReaderKeepsBuf(x, a, y);
    }
  }

  lemma FrozenStep(s: State, x: State, a: Action, y: State)
    requires Choosing(s) && SameSession(s, x) && StepBy(x, a, y) && y.phase == Serving && KeepsWindow(a)
    requires Frozen(s, x)
    ensures Frozen(s, y)
  {
    if a.Store? {
      if StartStands(s, x.reserved) && x.reader.pc == Session {
        StoreMissesWindow(s, x, a.p, a.k, a.v, y);
      }
    } else if a.Load? {
      if StartStands(s, x.reserved) {
        LoadsAsItStands(s, x, a.j, a.k, y);
      }
    } else {
      OtherStep(x, a, y);
    }
  }

  lemma FrozenAtFirst(s: State, s1: State)
    requires Choosing(s) && StepBy(s, Snapshot, s1)
    ensures Frozen(s, s1)
  {
  }

  lemma {:induction false} NobodyInRun(run: Run, q: nat, i: nat, x: nat)
    requires IsRun(run) && AcceptedRead(run, q, i) && q <= x <= i && run.states[i].reader.rev % 2 == 0
    requires run.states[q].phase == Serving && !SomeoneCanWrite(run.states[q])
    ensures !SomeoneCanWrite(run.states[x])
  {
    hide Apply, Enabled, Inv, CanWrite;
    if q < x {
      NobodyInRun(run, q, i, x - 1);
      if q < x - 1 {
        SessionServes(run, q, i, x - 1);
      }
      SessionServes(run, q, i, x);
      RunInv(run, x - 1);
      assert StepAt(run, x - 1);
      NobodyStaysNobody(run.states[x - 1], run.actions[x - 1], run.states[x]);
    }
  }

  lemma {:induction false} FrozenInRun(run: Run, q: nat, i: nat, x: nat)
    requires IsRun(run) && AcceptedRead(run, q, i) && q < x <= i && run.states[i].reader.rev % 2 == 0
    requires Choosing(run.states[q]) && !CanBeStoredInto(run.states[q])
    ensures Frozen(run.states[q], run.states[x])
  {
    hide Apply, Enabled, Inv, CanWrite, SlotOf, Frozen, SameSession;
    assert StepAt(run, x - 1);
    if x == q + 1 {
      FrozenAtFirst(run.states[q], run.states[x]);
    } else {
      FrozenInRun(run, q, i, x - 1);
      SessionStays(run, q, i, x - 1);
      SessionServes(run, q, i, x);
      FrozenStep(run.states[q], run.states[x - 1], run.actions[x - 1], run.states[x]);
    }
  }

  lemma SessionStays(run: Run, q: nat, i: nat, x: nat)
    requires IsRun(run) && AcceptedRead(run, q, i) && q < x <= i && run.states[i].reader.rev % 2 == 0
    requires Choosing(run.states[q]) && !CanBeStoredInto(run.states[q])
    ensures SameSession(run.states[q], run.states[x])
    ensures run.states[q].hist <= run.states[x].hist
  {
    forall y | q < y <= x
      ensures run.states[y].phase == Serving
    {
      SessionServes(run, q, i, y);
    }
    RunInv(run, q);
    RunInv(run, x);
    assert StepAt(run, q);
    SessionKept(run, q + 1, x);
    HistoryGrows(run, q, x);
    if !SomeoneCanWrite(run.states[q]) {
      NobodyInRun(run, q, i, x);
    }
  }

  // ------------------------------------------------------------------
  // The exact condition

  /** A window that shows a run of samples and cannot be stored into is read untorn. */
  lemma ShownRunIsRead(s: State, a: nat, s1: State, m: State, t: State)
    requires Reachable(s) && Choosing(s) && ShowsFrom(s, a) && !CanBeStoredInto(s)
    requires StepBy(s, Snapshot, s1) && AcceptedLater(s1, m, t)
    ensures Copied(t.reader, t.hist, a)
  {
    hide Enabled, Inv, Copied, Later;
    RevisionParity(s);
    var run, q, i := AcceptedReadRun(s, s1, m, t);
    WindowOfRead(run, q, i);
    FrozenInRun(run, q, i, i);
    SessionStays(run, q, i, i);
    StartNotReserved(run, q, i);
    AcceptedState(run, i);
    AsItStandsIsCopied(s, a, m.reader, m.hist);
    CopiedStays(m.reader, t.reader, m.hist, a);
  }

  lemma AsItStandsIsCopied(s: State, a: nat, r: Reader, hist: seq<Payload>)
    requires Choosing(s) && ShowsFrom(s, a) && OnlyAsItStands(s, r.buf) && s.hist <= hist && r.count == s.reader.count
    ensures Copied(r, hist, a)
  {
    forall j, k | (j, k) in r.buf
      ensures j < r.count && a + j < |hist| && k < |hist[a + j]| && r.buf[(j, k)] == hist[a + j][k]
    {
      assert CellCopied(s, r.buf, j, k) && Row(s, j) == s.hist[a + j];
    }
  }

  /** A copy of the whole window as it stands is a run of the history only if the window
      shows one. */
  lemma WholeCopyShows(s: State, r: Reader, a: nat)
    requires Choosing(s) && Shape(s) && s.width >= 1
    requires RowsCopied(s, r.buf, s.reader.count) && Copied(r, s.hist, a)
    ensures ShowsFrom(s, a)
  {
    forall j | 0 <= j < s.reader.count
      ensures a + j < |s.hist| && Row(s, j) == s.hist[a + j]
    {
      WholeRowShows(s, r, a, j);
    }
    WholeRowShows(s, r, a, s.reader.count - 1);
  }

  lemma WholeRowShows(s: State, r: Reader, a: nat, j: nat)
    requires Choosing(s) && Shape(s) && s.width >= 1 && j < s.reader.count
    requires RowsCopied(s, r.buf, s.reader.count) && Copied(r, s.hist, a)
    ensures a + j < |s.hist| && Row(s, j) == s.hist[a + j]
  {
    assert RowCopied(s, r.buf, j, s.width);
    assert CellCopied(s, r.buf, j, 0);
    forall k | 0 <= k < s.width
      ensures Row(s, j)[k] == s.hist[a + j][k]
    {
      assert CellCopied(s, r.buf, j, k);
    }
  }

  /** When the counter of its start slot is sampled, a window is read untorn in every
      continuation in which the read is accepted, exactly when it shows a run of samples
      as it stands and no producer can store into it without reserving its start. */
  lemma TornFreeExactly(s: State)
    requires Reachable(s) && Choosing(s) && s.width >= 1
    ensures TornFree(s) <==> ShowsRun(s) && !CanBeStoredInto(s)
  {
    if CanBeStoredInto(s) {
      var p: nat :| CanWrite(s, p);
      var m, t := WritableRowIsTorn(s, p, 0);
    } else if a: nat :| ShowsFrom(s, a) {
      forall m, t | AcceptedLater(Apply(s, Snapshot), m, t)
        ensures Contiguous(t.reader, t.hist)
      {
        ShownRunIsRead(s, a, Apply(s, Snapshot), m, t);
      }
    } else {
      OtherwiseTorn(s);
    }
  }

  lemma OtherwiseTorn(s: State)
    requires Reachable(s) && Choosing(s) && s.width >= 1 && !ShowsRun(s)
    ensures !TornFree(s)
  {
    ReachableInv(s);
    var m, t := WholeWindowIsAccepted(s);
    if a: nat :| Copied(t.reader, t.hist, a) {
      WholeCopyShows(s, t.reader, a);
    }
  }

  /** A committed window is one that meets this condition. */
  lemma ProtectedMeetsCondition(s: State)
    requires Reachable(s) && Choosing(s) && Protected(s)
    ensures ShowsRun(s) && !WritableRow(s) && TornFree(s)
  {
    ReachableInv(s);
    ProtectedByRow(s);
    ProtectedIsTornFree(s);
    var a: nat :| WindowCommitted(s, s.reader.start, s.reader.count, a);
    forall j | 0 <= j < s.reader.count
      ensures Row(s, j) == s.hist[a + j]
    {
      AfterSlot(a, j, |s.slots|);
    }
    assert ShowsFrom(s, a);
  }
}
