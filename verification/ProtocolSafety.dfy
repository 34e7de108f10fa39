/**
 What the protocol guarantees in every run, and where its guarantees end.
 */
module ProtocolSafety {
  import opened Errno
  import opened Index
  import opened Ring
  import opened Protocol
  import opened ProtocolInvariant

  /** Some run ends in s. */
  ghost predicate Reachable(s: State) {
    IsRing(s.slots) && exists run: Run :: IsRun(run) && run.states[|run.states| - 1] == s
  }

  lemma ReachableInv(s: State)
    requires Reachable(s)
    ensures Inv(s)
  {
    var run: Run :| IsRun(run) && run.states[|run.states| - 1] == s;
    RunInv(run, |run.states| - 1);
  }

  // ------------------------------------------------------------------
  // The ring and the history

  /** In every reachable state, the published index is that of the newest sample, each
      slot outside the one being written holds the newest sample of the history stored
      there with its lap as counter, the slot being written has the lap of the next
      sample as counter, every counter is the number of reservations of its slot minus
      one, and a slot is being written only while a write session is open. */
  lemma RingRefinesHistory(s: State, slot: nat)
    requires Reachable(s) && s.phase == Serving && slot < |s.slots|
    ensures s.writeIndex == LastIndex(|s.hist|, |s.slots|)
    ensures s.slots[slot].nbWrites == Hits(s.reserved, slot, |s.slots|) - 1
    ensures var e := NewestIn(|s.hist|, slot, |s.slots|);
            s.reserved == |s.hist| || slot != SlotOf(|s.hist|, |s.slots|) ==>
              && s.slots[slot].nbWrites == (if e >= 0 then LapOf(e, |s.slots|) else -1)
              && (e >= 0 ==> s.slots[slot].content == s.hist[e])
    ensures s.reserved > |s.hist| && slot == SlotOf(|s.hist|, |s.slots|) ==>
              s.slots[slot].nbWrites == LapOf(|s.hist|, |s.slots|)
    ensures |s.hist| <= s.reserved <= |s.hist| + (if s.nbOngoing > 0 then 1 else 0)
  {
    ReachableInv(s);
    if s.reserved == |s.hist| || slot != SlotOf(|s.hist|, |s.slots|) {
      SlotHoldsNewest(s.slots, s.hist, s.reserved, slot);
    } else {
      SlotInFlight(s.slots, s.hist);
    }
  }

  predicate Zeroed(x: Payload) {
    forall k :: 0 <= k < |x| ==> x[k] == 0
  }

  /** What creation zeroed stays zero until it is written. */
  ghost predicate ZeroInv(s: State) {
    && (s.phase.Invalidating? ==> forall i :: 0 <= i < |s.slots| ==> Zeroed(s.slots[i].content))
    && (s.phase == Serving ==>
          forall i :: 0 <= i < |s.slots| && s.slots[i].nbWrites == -1 ==> Zeroed(s.slots[i].content))
  }

  lemma CreatorKeepsZero(s: State, a: Action, s': State)
    requires Inv(s) && ZeroInv(s) && StepBy(s, a, s') && ByCreator(a)
    ensures ZeroInv(s')
  {
    hide ServingInv, ReaderInv;
  }

  lemma WriterKeepsZero(s: State, a: Action, s': State)
    requires Inv(s) && ZeroInv(s) && StepBy(s, a, s') && ByWriter(a)
    ensures ZeroInv(s')
  {
    hide ReaderInv, OwnInv;
    if a.Store? {
      WriterIsHolder(s, a.p);
      SlotInFlight(s.slots, s.hist);
    } else if a.Bump? {
      WriterIsHolder(s, a.p);
      CounterOf(s, s.writers[a.p].slot);
    }
  }

  lemma ZeroStep(s: State, a: Action, s': State)
    requires Inv(s) && ZeroInv(s) && StepBy(s, a, s')
    ensures ZeroInv(s')
  {
    hide Apply, Enabled, Inv;
    if ByCreator(a) {
      CreatorKeepsZero(s, a, s');
    } else if ByWriter(a) {
      WriterKeepsZero(s, a, s');
    } else {
      ReaderFrame(s, a, s');
    }
  }

  lemma {:induction false} RunZero(run: Run, i: nat)
    requires IsRun(run) && i < |run.states|
    ensures ZeroInv(run.states[i])
  {
    hide Apply, Enabled, Inv, ZeroInv;
    if i == 0 {
      InitZero(run.states[0]);
    } else {
      RunZero(run, i - 1);
      RunInv(run, i - 1);
      assert StepAt(run, i - 1);
      ZeroStep(run.states[i - 1], run.actions[i - 1], run.states[i]);
    }
  }

  lemma InitZero(s: State)
    requires Init(s)
    ensures ZeroInv(s)
  {
  }

  /** In every reachable state of a section at rest, a slot that no sample has reached in
      this revision holds zeros, whatever it held in an earlier one. */
  lemma UnwrittenSlotIsZero(s: State, slot: nat)
    requires Reachable(s) && s.phase == Serving && slot < |s.slots| && s.slots[slot].nbWrites == -1
    ensures forall k :: 0 <= k < |s.slots[slot].content| ==> s.slots[slot].content[k] == 0
  {
    var run: Run :| IsRun(run) && run.states[|run.states| - 1] == s;
    RunZero(run, |run.states| - 1);
  }

  /** The contents of the slots published by the actions i to j - 1 of a run, in order. */
  ghost function PublishedIn(run: Run, i: nat, j: nat): seq<Payload>
    requires IsRun(run) && i <= j <= |run.actions|
  {
    if i == j then []
    else
      assert StepAt(run, j - 1);
      PublishedIn(run, i, j - 1) +
      if run.actions[j - 1].Publish? then [OpenContent(run.states[j - 1], run.actions[j - 1].p)] else []
  }

  /** A re-created section has no memory: its history is the sequence of the samples
      published since, and its index is -1 until the first of them. */
  lemma {:induction false} CreationForgets(run: Run, i: nat, j: nat)
    requires IsRun(run) && i < j < |run.states|
    requires run.actions[i] == EndCreation
    requires forall q :: i < q < j ==> run.actions[q] != BeginCreation
    ensures run.states[j].phase == Serving
    ensures run.states[j].hist == PublishedIn(run, i + 1, j)
    ensures run.states[j].writeIndex == -1 <==> PublishedIn(run, i + 1, j) == []
  {
    hide ReaderInv, OwnInv, SessionInv, Counters, Contents;
    assert StepAt(run, j - 1);
    RunInv(run, j);
    if i + 1 < j {
      CreationForgets(run, i, j - 1);
      HistoryStep(run.states[j - 1], run.actions[j - 1], run.states[j]);
    }
  }

  lemma HistoryStep(s: State, a: Action, s': State)
    requires StepBy(s, a, s') && s.phase == Serving && a != BeginCreation
    ensures s'.phase == Serving
    ensures s'.hist == s.hist + if a.Publish? then [OpenContent(s, a.p)] else []
  {
    hide Apply, Enabled;
    if ByCreator(a) {
      CreatorFrame(s, a, s');
    } else if ByWriter(a) {
      WriterFrame(s, a, s');
      HistoryFrame(s, a, s');
    } else {
      ReaderFrame(s, a, s');
    }
  }

  // ------------------------------------------------------------------
  // Write sessions

  /** At most one context is inside a write session, and the shared counter of
      ongoing writes is zero exactly when none is. */
  lemma MutualExclusion(s: State, p: nat, q: nat)
    requires Reachable(s) && s.phase == Serving
    requires p < |s.writers| && q < |s.writers|
    ensures InRegion(s.writers[p]) && InRegion(s.writers[q]) ==> p == q
    ensures s.nbOngoing == 0 <==> forall w :: w in s.writers ==> !InRegion(w)
  {
    ReachableInv(s);
    if s.nbOngoing > 0 {
      assert s.writers[s.holder] in s.writers;
    }
  }

  /** Only the dead are gone: a live context survives every creation. */
  ghost predicate LiveInv(s: State) {
    forall p :: 0 <= p < |s.writers| && s.writers[p].alive ==> s.writers[p].pc != Gone
  }

  lemma CreatorKeepsLive(s: State, a: Action, s': State)
    requires LiveInv(s) && StepBy(s, a, s') && ByCreator(a)
    ensures LiveInv(s')
  {
  }

  lemma WriterKeepsLive(s: State, a: Action, s': State)
    requires LiveInv(s) && StepBy(s, a, s') && ByWriter(a)
    ensures LiveInv(s')
  {
  }

  lemma {:induction false} RunLive(run: Run, i: nat)
    requires IsRun(run) && i < |run.states|
    ensures LiveInv(run.states[i])
  {
    hide Apply, Enabled;
    if i > 0 {
      RunLive(run, i - 1);
      assert StepAt(run, i - 1);
      var s, a, s' := run.states[i - 1], run.actions[i - 1], run.states[i];
      if ByCreator(a) {
        CreatorKeepsLive(s, a, s');
      } else if ByWriter(a) {
        WriterKeepsLive(s, a, s');
      } else {
        ReaderFrame(s, a, s');
      }
    }
  }

  lemma ReachableLive(s: State)
    requires Reachable(s)
    ensures LiveInv(s)
  {
    var run: Run :| IsRun(run) && run.states[|run.states| - 1] == s;
    RunLive(run, |run.states| - 1);
  }

  /** A producer inside a call can always take its next step, and so can a consumer in
      a read session: every slot they are about to touch exists. */
  lemma NextStepExists(s: State, p: nat)
    requires Reachable(s) && s.phase == Serving && p < |s.writers| && s.writers[p].alive
    ensures match s.writers[p].pc
            case Entered => Enabled(s, Locate(p))
            case Located => Enabled(s, Bump(p))
            case Bumped => Enabled(s, Claim(p))
            case Rest => Enabled(s, Enter(p)) && (s.writers[p].index != -1 ==> Enabled(s, Publish(p)))
            case _ => Enabled(s, Release(p))
    ensures s.reader.pc == Selected ==> Enabled(s, Snapshot)
    ensures s.reader.pc == Session ==>
              && Enabled(s, CheckCounter)
              && forall j, k | 0 <= j < s.reader.count && 0 <= k < s.width :: Enabled(s, Load(j, k))
  {
    hide Counters, Contents, Hits, ReaderInv, OwnInv, SlotOf;
    ConsumerStepExists(s);
    ReachableLive(s);
    ReachableInv(s);
    assert InRegion(s.writers[p]) || s.writers[p].index == -1;
  }

  lemma ConsumerStepExists(s: State)
    requires Reachable(s)
    ensures IsRing(s.slots)
    ensures s.reader.pc == Selected ==> Enabled(s, Snapshot)
    ensures s.reader.pc == Session ==>
              && Enabled(s, CheckCounter)
              && forall j, k | 0 <= j < s.reader.count && 0 <= k < s.width :: Enabled(s, Load(j, k))
  {
    hide Counters, Contents, Hits, OwnInv, Holder, WindowInv, SlotOf;
    ReachableInv(s);
  }

  /** A context enters exactly when no session is open; a refused one is told whether
      it holds the open session itself (-EALREADY) or another context does (-EPERM). */
  lemma RefusalNamesHolder(s: State, p: nat, s': State)
    requires Reachable(s) && StepBy(s, Enter(p), s')
    ensures s'.writers[p].pc == Entered <==> forall w :: w in s.writers ==> !InRegion(w)
    ensures s'.writers[p].pc != Entered ==>
              && (s'.writers[p].ret == -EALREADY <==> InRegion(s.writers[p]))
              && (s'.writers[p].ret == -EPERM <==>
                   exists q :: 0 <= q < |s.writers| && q != p && InRegion(s.writers[q]))
  {
    ReachableInv(s);
    if s.nbOngoing > 0 {
      assert s.writers[s.holder] in s.writers;
    }
  }

  lemma ReservingContext(s: State, p: nat)
    requires Inv(s) && Writing(s, p, Bumped)
    ensures |s.author| == |s.hist| && OwnInv(s.writers[p], p, s.author, |s.slots|)
    ensures -1 <= s.writeIndex < |s.slots| && IndexNext(s.writeIndex, |s.slots|) == SlotOf(|s.hist|, |s.slots|)
  {
    NextSlot(|s.hist|, |s.slots|);
  }

  /** The result of a reservation tells whether other contexts committed samples since
      this one's last, except for a multiple of the ring size.  A context that survived a
      re-creation is judged by the slot it wrote last before it: there is no fault exactly
      when that is the slot just before the next one, or none at all. */
  lemma ForeignWritesDetected(s: State, p: nat, s': State)
    requires Reachable(s) && StepBy(s, Claim(p), s')
    ensures match s.writers[p].own
            case Fresh => s'.writers[p].ret == 0 && forall q :: 0 <= q < |s.author| ==> s.author[q] != p
            case Stale =>
              s'.writers[p].ret ==
              var last, n: Size := s.writers[p].prevIndex, |s.slots|;
              if last == -1 || IntervalBetween(last, SlotOf(|s.hist|, n), n) == 1 then 0 else -EFAULT
            case At(e) =>
              && e < |s.author| == |s.hist| && s.author[e] == p
              && (forall q :: e < q < |s.author| ==> s.author[q] != p)
              && s'.writers[p].ret == if SlotOf(|s.hist| - e - 1, |s.slots|) == 0 then 0 else -EFAULT
  {
    ReachableInv(s);
    ClaimIsExact(s, p, s');
  }

  lemma ClaimIsExact(s: State, p: nat, s': State)
    requires Inv(s) && StepBy(s, Claim(p), s')
    ensures match s.writers[p].own
            case Fresh => s'.writers[p].ret == 0 && forall q :: 0 <= q < |s.author| ==> s.author[q] != p
            case Stale =>
              s'.writers[p].ret ==
              var last, n: Size := s.writers[p].prevIndex, |s.slots|;
              if last == -1 || IntervalBetween(last, SlotOf(|s.hist|, n), n) == 1 then 0 else -EFAULT
            case At(e) =>
              && e < |s.author| == |s.hist| && s.author[e] == p
              && (forall q :: e < q < |s.author| ==> s.author[q] != p)
              && s'.writers[p].ret == if SlotOf(|s.hist| - e - 1, |s.slots|) == 0 then 0 else -EFAULT
  {
    hide Apply, Inv, SlotOf;
    ReservingContext(s, p);
    ClaimStep(s, p, s');
    if s.writers[p].own.At? {
      UnexpectedIsRemainder(s.writers[p].own.entry, |s.hist| - s.writers[p].own.entry - 1, |s.slots|);
    }
  }

  lemma ClaimStep(s: State, p: nat, s': State)
    requires StepBy(s, Claim(p), s')
    ensures s'.writers[p].ret == ClaimResult(s.writers[p].prevIndex, IndexNext(s.writeIndex, |s.slots|), |s.slots|)
    ensures s'.writers[p].pc == Rest && s'.writers[p].index == IndexNext(s.writeIndex, |s.slots|)
  {
  }

  /** Context p alone has written to the current revision. */
  ghost predicate Sole(s: State, p: nat) {
    && p < |s.writers| && s.writers[p].own != Stale
    && (forall e :: 0 <= e < |s.author| ==> s.author[e] == p)
    && forall q :: 0 <= q < |s.writers| && q != p ==> !InRegion(s.writers[q])
  }

  lemma SoleStep(s: State, a: Action, s': State, p: nat)
    requires StepBy(s, a, s') && s.phase == Serving && Sole(s, p)
    requires a != BeginCreation && (ByWriter(a) ==> a.p == p)
    ensures s'.phase == Serving && Sole(s', p)
  {
    hide Apply, Enabled;
    if ByCreator(a) {
      CreatorFrame(s, a, s');
    } else if ByWriter(a) {
      WriterFrame(s, a, s');
      OthersFrame(s, a, s');
      OwnFrame(s, a, s');
    } else {
      ReaderFrame(s, a, s');
    }
  }

  /** The context made by a creation stays the sole one while no other one acts. */
  lemma {:induction false} SoleSinceCreation(run: Run, i: nat, j: nat, p: nat)
    requires IsRun(run) && i < j < |run.states|
    requires run.actions[i] == EndCreation && p == |run.states[i].writers|
    requires forall q :: i < q < j ==>
               run.actions[q] != BeginCreation && (ByWriter(run.actions[q]) ==> run.actions[q].p == p)
    ensures run.states[j].phase == Serving && Sole(run.states[j], p)
  {
    assert StepAt(run, j - 1);
    if i + 1 == j {
      RunInv(run, i);
    } else {
      SoleSinceCreation(run, i, j - 1, p);
      SoleStep(run.states[j - 1], run.actions[j - 1], run.states[j], p);
    }
  }

  /** As long as the context made by a creation alone writes to the section, none of its
      calls fails: it always enters, reserves the next slot, and is never faulted. */
  lemma SoleProducerNeverFails(run: Run, i: nat, j: nat, p: nat)
    requires IsRun(run) && i < j < |run.actions|
    requires run.actions[i] == EndCreation && p == |run.states[i].writers|
    requires forall q :: i < q < j ==>
               run.actions[q] != BeginCreation && (ByWriter(run.actions[q]) ==> run.actions[q].p == p)
    requires ByWriter(run.actions[j]) ==> run.actions[j].p == p
    ensures IsRing(run.states[j].slots) && p < |run.states[j].writers| == |run.states[j + 1].writers|
    ensures match run.actions[j]
            case Enter(_) =>
              run.states[j].writers[p].index == -1 ==> run.states[j + 1].writers[p].pc == Entered
            case Bump(_) => run.states[j + 1].writers[p].pc == Bumped
            case Claim(_) =>
              var w := run.states[j + 1].writers[p];
              w.pc == Rest && w.index == SlotOf(|run.states[j].hist|, |run.states[j].slots|) && w.ret == 0
            case _ => true
  {
    assert StepAt(run, j);
    SoleSinceCreation(run, i, j, p);
    RunInv(run, j);
    if run.actions[j].Claim? {
      SoleClaimSucceeds(run.states[j], p, run.states[j + 1]);
    }
  }

  lemma SoleClaimSucceeds(s: State, p: nat, s': State)
    requires Inv(s) && StepBy(s, Claim(p), s') && Sole(s, p)
    ensures s'.writers[p].pc == Rest && s'.writers[p].index == SlotOf(|s.hist|, |s.slots|) && s'.writers[p].ret == 0
  {
    ClaimIsExact(s, p, s');
    ClaimStep(s, p, s');
    ReservingContext(s, p);
    LastOwn(s.writers[p], p, s.author, |s.slots|);
  }

  /** When every sample is a context's own, the last one is its last. */
  lemma LastOwn(w: Writer, p: nat, author: seq<nat>, n: Size)
    requires OwnInv(w, p, author, n) && w.own != Stale && w.pc != Protocol.Published
    requires forall e :: 0 <= e < |author| ==> author[e] == p
    ensures w.own == if author == [] then Fresh else At(|author| - 1)
  {
    if author != [] {
      assert author[|author| - 1] == p;
    }
  }

  // ------------------------------------------------------------------
  // Revisions

  /** The revision number is odd exactly while the section is being rewritten, and
      counts the completed creations twice; so no creation finds it incoherent. */
  lemma RevisionParity(s: State)
    requires Reachable(s) && s.phase != Absent
    ensures s.nbCreations % 2 == 1 <==> s.phase != Serving
    ensures s.nbCreations == 2 * s.epoch + if s.phase == Serving then 0 else 1
  {
    ReachableInv(s);
  }

  lemma {:induction false} RevisionGrows(run: Run, i: nat, j: nat)
    requires IsRun(run) && i <= j < |run.states| && run.states[i].phase != Absent
    ensures run.states[j].phase != Absent
    ensures run.states[i].nbCreations <= run.states[j].nbCreations
  {
    if i < j {
      RevisionGrows(run, i, j - 1);
      assert StepAt(run, j - 1);
      CreationStep(run.states[j - 1], run.actions[j - 1], run.states[j]);
    }
  }

  lemma CreationStep(s: State, a: Action, s': State)
    requires StepBy(s, a, s') && s.phase != Absent
    ensures s'.phase != Absent && s.nbCreations <= s'.nbCreations
  {
    hide Apply, Enabled;
    RevisionStep(s, a, s');
  }

  /** The consumer's window, and the revision it was opened with, last until they are
      chosen again. */
  lemma {:induction false} SessionKept(run: Run, q: nat, i: nat)
    requires IsRun(run) && q <= i < |run.states|
    requires HasRevision(run.states[q].reader)
    requires forall j :: q <= j < i ==> KeepsWindow(run.actions[j])
    ensures HasRevision(run.states[i].reader)
    ensures var r, r' := run.states[q].reader, run.states[i].reader;
            && r'.rev == r.rev && r'.start == r.start && r'.count == r.count
            && r'.snapCommits == r.snapCommits && r'.snapReserved == r.snapReserved
    ensures |run.states[i].slots| == |run.states[q].slots|
  {
    if q < i {
      SessionKept(run, q, i - 1);
      assert StepAt(run, i - 1);
      ReaderStep(run.states[i - 1], run.actions[i - 1], run.states[i]);
    }
  }

  lemma ReaderStep(s: State, a: Action, s': State)
    requires StepBy(s, a, s') && HasRevision(s.reader)
    requires !a.Close?
    ensures HasRevision(s'.reader) && s'.reader.rev == s.reader.rev && |s'.slots| == |s.slots|
    ensures !a.Select? && !a.Snapshot? ==>
              var r, r' := s.reader, s'.reader;
              && r'.start == r.start && r'.count == r.count
              && r'.snapCommits == r.snapCommits && r'.snapReserved == r.snapReserved
  {
    hide Apply, Enabled;
    if ByCreator(a) {
      CreatorFrame(s, a, s');
    } else if ByWriter(a) {
      WriterFrame(s, a, s');
    } else {
      ReaderFrame(s, a, s');
      ReaderMoves(s, a, s');
    }
  }

  lemma ReaderMoves(s: State, a: Action, s': State)
    requires StepBy(s, a, s') && !ByCreator(a) && !ByWriter(a) && HasRevision(s.reader)
    requires !a.Close?
    ensures HasRevision(s'.reader) && s'.reader.rev == s.reader.rev
    ensures !a.Select? && !a.Snapshot? ==>
              var r, r' := s.reader, s'.reader;
              && r'.start == r.start && r'.count == r.count
              && r'.snapCommits == r.snapCommits && r'.snapReserved == r.snapReserved
    ensures s.reader.pc == Session && KeepsWindow(a) && !a.CheckCounter? ==>
              s'.reader == s.reader.(buf := s'.reader.buf)
  {
  }

  lemma {:induction false} RevisionKept(run: Run, l: nat, i: nat)
    requires IsRun(run) && l < i < |run.states| && run.actions[l] == LoadRevision
    requires forall j :: l < j < i ==> !run.actions[j].Close?
    ensures HasRevision(run.states[i].reader)
    ensures run.states[i].reader.rev == run.states[l].nbCreations == run.states[l + 1].nbCreations
    ensures run.states[l].phase != Absent
  {
    hide Apply, Enabled, Inv;
    assert StepAt(run, i - 1);
    if l + 1 == i {
      RunInv(run, l);
      RevisionLoaded(run.states[l], run.states[i]);
    } else {
      RevisionKept(run, l, i - 1);
      ReaderStep(run.states[i - 1], run.actions[i - 1], run.states[i]);
    }
  }

  lemma RevisionLoaded(s: State, s': State)
    requires Inv(s) && StepBy(s, LoadRevision, s')
    ensures HasRevision(s'.reader) && s'.reader.rev == s.nbCreations == s'.nbCreations && s.phase != Absent
  {
  }

  lemma RevisionAccepted(s: State, s': State)
    requires StepBy(s, CheckRevision, s') && s'.reader.pc == Accepted
    ensures s.reader.pc == CounterOk && s.reader.rev == s.nbCreations
  {
  }

  /** The consumer's check of step i succeeds. */
  ghost predicate AcceptedAt(run: Run, i: nat)
    requires IsRun(run)
  {
    i < |run.actions| && run.actions[i] == CheckRevision && run.states[i + 1].reader.pc == Accepted
  }

  /** When the end-of-read check succeeds, no creation has begun since the consumer
      read its revision number, although creations reset every counter of the ring. */
  lemma NoCreationSinceOpen(run: Run, l: nat, i: nat, q: nat)
    requires IsRun(run) && l < q <= i && AcceptedAt(run, i)
    requires run.actions[l] == LoadRevision
    requires forall j :: l < j < i ==> !run.actions[j].Close?
    ensures run.states[q].nbCreations == run.states[i].nbCreations == run.states[l].nbCreations
    ensures run.states[q].phase == Serving <==> run.states[l].nbCreations % 2 == 0
  {
    hide Apply, Enabled, ServingInv, ReaderInv;
    assert StepAt(run, i);
    RevisionAccepted(run.states[i], run.states[i + 1]);
    RevisionKept(run, l, i);
    RevisionGrows(run, l, q);
    RevisionGrows(run, q, i);
    RunInv(run, q);
  }

  lemma {:induction false} RestKept(run: Run, l: nat, i: nat)
    requires IsRun(run) && l <= i < |run.states| && run.states[l].phase != Absent
    requires forall j :: l <= j < i ==> !run.actions[j].BeginCreation? && !run.actions[j].EndCreation?
    ensures run.states[i].nbCreations == run.states[l].nbCreations
  {
    if l < i {
      RestKept(run, l, i - 1);
      RevisionGrows(run, l, i - 1);
      assert StepAt(run, i - 1);
      RevisionStep(run.states[i - 1], run.actions[i - 1], run.states[i]);
    }
  }

  lemma RevisionStep(s: State, a: Action, s': State)
    requires StepBy(s, a, s') && s.phase != Absent
    ensures s'.phase != Absent
    ensures s'.nbCreations == s.nbCreations + if a.BeginCreation? || a.EndCreation? then 1 else 0
  {
    hide Apply, Enabled;
    if ByCreator(a) {
      CreatorFrame(s, a, s');
    } else if ByWriter(a) {
      WriterFrame(s, a, s');
    } else {
      ReaderFrame(s, a, s');
    }
  }

  lemma RevisionRaised(run: Run, l: nat, j: nat, i: nat)
    requires IsRun(run) && l <= j < i < |run.states| && run.states[l].phase != Absent
    requires run.actions[j].BeginCreation? || run.actions[j].EndCreation?
    ensures run.states[i].nbCreations > run.states[l].nbCreations
  {
    RevisionGrows(run, l, j);
    assert StepAt(run, j);
    RevisionStep(run.states[j], run.actions[j], run.states[j + 1]);
    RevisionGrows(run, j, j + 1);
    RevisionGrows(run, j + 1, i);
  }

  /** A section at rest is not finished again before a creation begins. */
  lemma {:induction false} NoEndWithoutBegin(run: Run, l: nat, i: nat)
    requires IsRun(run) && l <= i < |run.states| && run.states[l].phase == Serving
    requires forall j :: l <= j < i ==> !run.actions[j].BeginCreation?
    ensures run.states[i].phase == Serving
    ensures forall j :: l <= j < i ==> !run.actions[j].EndCreation?
  {
    if l < i {
      NoEndWithoutBegin(run, l, i - 1);
      assert StepAt(run, i - 1);
    }
  }

  /** The consumer finds the revision it read at open, which is even, exactly when no
      creation has begun since. */
  lemma RevisionCheckIsExact(run: Run, l: nat, i: nat)
    requires IsRun(run) && l < i < |run.states| && run.actions[l] == LoadRevision
    requires forall j :: l < j < i ==> !run.actions[j].Close?
    requires run.states[i].reader.rev % 2 == 0
    ensures run.states[i].reader.rev == run.states[i].nbCreations
       <==> forall j :: l <= j < i ==> !run.actions[j].BeginCreation?
  {
    RevisionKept(run, l, i);
    RunInv(run, l);
    if j :| l <= j < i && run.actions[j].BeginCreation? {
      RevisionRaised(run, l, j, i);
    } else {
      NoEndWithoutBegin(run, l, i);
      RestKept(run, l, i);
    }
  }

  // ------------------------------------------------------------------
  // Torn reads

  /** No action changes the consumer's choice of window. */
  predicate KeepsWindow(a: Action) {
    !a.Close? && !a.Select? && !a.Snapshot?
  }

  /** The run samples the start counter at step q and accepts the read at step i, for the
      window chosen before q. */
  ghost predicate AcceptedRead(run: Run, q: nat, i: nat)
    requires IsRun(run)
  {
    && q < i && AcceptedAt(run, i) && run.actions[q] == Snapshot
    && forall j :: q < j < i ==> KeepsWindow(run.actions[j])
  }

  lemma WindowOfRead(run: Run, q: nat, i: nat)
    requires IsRun(run) && AcceptedRead(run, q, i)
    ensures var r, r' := run.states[q].reader, run.states[i].reader;
            r'.rev == r.rev && r'.start == r.start && r'.count == r.count
  {
    assert StepAt(run, q);
    SessionKept(run, q + 1, i);
  }

  /** Between the two ends of an accepted session the revision does not move. */
  lemma SessionServes(run: Run, q: nat, i: nat, x: nat)
    requires IsRun(run) && AcceptedRead(run, q, i) && q < x <= i
    requires run.states[i].reader.rev % 2 == 0
    ensures run.states[x].phase == Serving && run.states[x].nbCreations == run.states[x].reader.rev
    ensures run.states[x].reader.rev == run.states[i].reader.rev
  {
    hide ServingInv, Shape, SlotOf;
    assert StepAt(run, q);
    assert StepAt(run, i);
    SessionKept(run, q + 1, x);
    SessionKept(run, q + 1, i);
    RunInv(run, x);
    RevisionGrows(run, x, i);
  }

  /** When the end-of-read check succeeds for an even revision, the start slot was not
      reserved between the two looks at its counter, whatever the window. */
  lemma StartNotReserved(run: Run, q: nat, i: nat)
    requires IsRun(run) && AcceptedRead(run, q, i)
    requires run.states[i].reader.rev % 2 == 0
    ensures var s := run.states[i];
            && IsRing(s.slots) && s.reader.start < |s.slots|
            && s.reader.snapReserved == run.states[q].reserved && s.reader.snapCommits == |run.states[q].hist|
            && NotReserved(run.states[q].reserved, s.reader.checkReserved, s.reader.start, |s.slots|)
  {
    assert StepAt(run, q);
    SessionKept(run, q + 1, i);
    AcceptedState(run, i);
  }

  lemma AcceptedState(run: Run, i: nat)
    requires IsRun(run) && AcceptedAt(run, i) && run.states[i].reader.rev % 2 == 0
    ensures var s := run.states[i];
            && IsRing(s.slots) && s.reader.pc == CounterOk
            && WindowInv(s.reader, s.hist, s.reserved, |s.slots|)
  {
    assert StepAt(run, i);
    RunInv(run, i);
  }

  lemma {:induction false} SnapKept(run: Run, q: nat, m: nat)
    requires IsRun(run) && q < m < |run.states| && run.actions[q] == Snapshot
    requires forall j :: q < j < m ==> KeepsWindow(run.actions[j]) && !run.actions[j].CheckCounter?
    ensures run.states[q].reader.start < |run.states[q].slots|
    ensures run.states[m].reader.snap == run.states[q].slots[run.states[q].reader.start].nbWrites
    ensures run.states[m].reader.pc == Session && run.states[m].reader.start == run.states[q].reader.start
    ensures run.states[m].reader.snapReserved == run.states[q].reserved
    ensures |run.states[m].slots| == |run.states[q].slots|
  {
    assert StepAt(run, m - 1);
    if q + 1 < m {
      SnapKept(run, q, m - 1);
      SnapStep(run.states[m - 1], run.actions[m - 1], run.states[m]);
    }
  }

  lemma SnapStep(s: State, a: Action, s': State)
    requires StepBy(s, a, s') && s.reader.pc == Session && KeepsWindow(a) && !a.CheckCounter?
    ensures s'.reader == s.reader.(buf := s'.reader.buf) && |s'.slots| == |s.slots|
  {
    hide Apply, Enabled;
    if ByCreator(a) {
      CreatorFrame(s, a, s');
    } else if ByWriter(a) {
      WriterFrame(s, a, s');
    } else {
      ReaderFrame(s, a, s');
      ReaderMoves(s, a, s');
    }
  }

  lemma CounterOf(s: State, slot: nat)
    requires Inv(s) && s.phase == Serving && slot < |s.slots|
    ensures s.slots[slot].nbWrites == Hits(s.reserved, slot, |s.slots|) - 1
  {
  }

  /** Both looks at the counter fall into the same revision. */
  lemma SessionAt(run: Run, q: nat, m: nat)
    requires IsRun(run) && q < m < |run.states| && run.actions[q] == Snapshot
    requires forall j :: q < j < m ==> KeepsWindow(run.actions[j])
    requires run.states[m].reader.pc == Session && SameRevision(run.states[m])
    ensures var s, s' := run.states[q], run.states[m];
            && Inv(s) && s.phase == Serving && Inv(s') && s'.phase == Serving && IsRing(s'.slots)
            && s'.reader.start < |s'.slots| == |s.slots| && s'.reader.start == s.reader.start
            && s.reserved <= s'.reserved
  {
    assert StepAt(run, q);
    SessionKept(run, q + 1, m);
    RunInv(run, q);
    RunInv(run, m);
    RevisionGrows(run, q, m);
    ReaderStep(run.states[q], Snapshot, run.states[q + 1]);
  }

  lemma CheckStep(s: State, s': State)
    requires StepBy(s, CheckCounter, s')
    ensures s.reader.start < |s.slots|
    ensures s'.reader.pc == CounterOk <==> s.slots[s.reader.start].nbWrites == s.reader.snap
  {
  }

  /** The counter of the start slot is found unchanged exactly when no producer has
      reserved the slot since it was sampled, as long as the revision is the same. */
  lemma CounterCheckIsExact(run: Run, q: nat, m: nat)
    requires IsRun(run) && q < m < |run.actions|
    requires run.actions[q] == Snapshot && run.actions[m] == CheckCounter
    requires forall j :: q < j < m ==> KeepsWindow(run.actions[j]) && !run.actions[j].CheckCounter?
    requires SameRevision(run.states[m])
    ensures IsRing(run.states[m].slots) && run.states[m].reader.start < |run.states[m].slots|
    ensures run.states[m + 1].reader.pc == CounterOk
       <==> var s := run.states[m];
            NotReserved(run.states[q].reserved, s.reserved, s.reader.start, |s.slots|)
  {
    hide Inv, Enabled, Apply, SlotOf, Hits;
    var s := run.states[m];
    SnapKept(run, q, m);
    SessionAt(run, q, m);
    CounterOf(run.states[q], s.reader.start);
    CounterOf(s, s.reader.start);
    HitsStill(run.states[q].reserved, s.reserved, s.reader.start, |s.slots|);
    assert StepAt(run, m);
    CheckStep(s, run.states[m + 1]);
  }

  /** The end-of-read check, for a section opened at step l at an even revision, a window
      whose counter is sampled at step q and checked at step m, and the revision loaded
      in state i: it succeeds exactly when no creation has begun since the section was
      opened, and the start slot was not reserved in the session. */
  lemma EndReadIsExact(run: Run, l: nat, q: nat, m: nat, i: nat)
    requires IsRun(run) && l < q < m < i < |run.states|
    requires run.actions[l] == LoadRevision && run.actions[q] == Snapshot && run.actions[m] == CheckCounter
    requires forall j :: l < j < i ==> !run.actions[j].Close?
    requires forall j :: q < j < m ==> KeepsWindow(run.actions[j]) && !run.actions[j].CheckCounter?
    requires run.states[i].reader.rev % 2 == 0
    ensures IsRing(run.states[m].slots) && run.states[m].reader.start < |run.states[m].slots|
    ensures run.states[m + 1].reader.pc == CounterOk && run.states[i].reader.rev == run.states[i].nbCreations
       <==> && (forall j :: l <= j < i ==> !run.actions[j].BeginCreation?)
            && var s := run.states[m];
               NotReserved(run.states[q].reserved, s.reserved, s.reader.start, |s.slots|)
  {
    RevisionKept(run, l, i);
    RevisionKept(run, l, m);
    RevisionCheckIsExact(run, l, i);
    RevisionGrows(run, l, m);
    RevisionGrows(run, m, i);
    RunInv(run, m);
    assert StepAt(run, m);
    if run.states[m].nbCreations == run.states[i].nbCreations {
      if SameRevision(run.states[m]) {
        CounterCheckIsExact(run, q, m);
      }
    }
  }

  /** When the start slot's counter is sampled in state s, the window of `count` slots
      from `start` holds the committed samples a, a + 1, ..., and the first of them is
      not being replaced. */
  ghost predicate WindowCommitted(s: State, start: nat, count: nat, a: nat)
    requires IsRing(s.slots)
  {
    SlotOf(a, |s.slots|) == start && a + count <= |s.hist| && s.reserved <= a + |s.slots|
  }

  lemma WindowCopies(r: Reader, hist: seq<Payload>, reserved: nat, a: nat, n: Size)
    requires r.pc == CounterOk && WindowInv(r, hist, reserved, n) && GoodStart(r, a, n)
    ensures Copied(r, hist, a)
  {
    assert SlotOf(a + n, n) == r.start;
  }

  /** If the window holds committed samples, none being replaced, when the consumer
      samples the counter of its first slot, and the check at the end succeeds for an
      even revision, then every cell copied in between is a cell of those samples, and
      the first slot was not reserved again up to the check of its counter. */
  lemma TornReadFreedom(run: Run, q: nat, i: nat, a: nat)
    requires IsRun(run) && AcceptedRead(run, q, i)
    requires var r := run.states[i].reader;
             IsRing(run.states[q].slots) && WindowCommitted(run.states[q], r.start, r.count, a)
    requires run.states[i].reader.rev % 2 == 0
    ensures var s := run.states[i];
            && IsRing(s.slots)
            && Copied(s.reader, s.hist, a)
            && NotReserved(run.states[q].reserved, s.reader.checkReserved, s.reader.start, |s.slots|)
  {
    assert StepAt(run, q);
    AcceptedState(run, i);
    StartNotReserved(run, q, i);
    WindowOfRead(run, q, i);
    SessionKept(run, q + 1, i);
    var s := run.states[i];
    WindowCopies(s.reader, s.hist, s.reserved, a, |s.slots|);
  }

  lemma {:induction false} HistoryGrows(run: Run, x: nat, y: nat)
    requires IsRun(run) && x <= y < |run.states|
    requires forall j :: x <= j <= y ==> run.states[j].phase == Serving
    ensures run.states[x].hist <= run.states[y].hist && run.states[x].reserved <= run.states[y].reserved
    ensures |run.states[y].slots| == |run.states[x].slots|
  {
    if x < y {
      HistoryGrows(run, x, y - 1);
      assert StepAt(run, y - 1);
      GrowingStep(run.states[y - 1], run.actions[y - 1], run.states[y]);
    }
  }

  lemma GrowingStep(s: State, a: Action, s': State)
    requires StepBy(s, a, s') && s.phase == Serving && s'.phase == Serving
    ensures s.hist <= s'.hist && s.reserved <= s'.reserved && |s'.slots| == |s.slots|
  {
    hide Apply, Enabled;
    if ByCreator(a) {
      CreatorFrame(s, a, s');
    } else if ByWriter(a) {
      WriterFrame(s, a, s');
    } else {
      ReaderFrame(s, a, s');
    }
  }

  /** Until the counter is checked, no slot of the window changes: in every state x of
      the session the window holds the same samples of the history. */
  lemma WindowUnchanged(run: Run, q: nat, m: nat, i: nat, x: nat, a: nat, j: nat)
    requires IsRun(run) && AcceptedRead(run, q, i) && q < x <= m < i
    requires run.actions[m] == CheckCounter && run.states[m + 1].reader.pc == CounterOk
    requires var r := run.states[m + 1].reader;
             IsRing(run.states[q].slots) && WindowCommitted(run.states[q], r.start, r.count, a) && j < r.count
    requires run.states[i].reader.rev % 2 == 0
    ensures var s := run.states[x];
            && IsRing(s.slots) && a + j < |s.hist|
            && s.slots[SlotOf(a + j, |s.slots|)].content == s.hist[a + j]
            && s.hist <= run.states[m + 1].hist
  {
    hide Counters, Hits, OwnInv, SessionInv, Copied;
    assert StepAt(run, q);
    forall y | q < y <= m + 1
      ensures run.states[y].phase == Serving
    {
      SessionServes(run, q, i, y);
    }
    HistoryGrows(run, q + 1, x);
    HistoryGrows(run, x, m + 1);
    SessionKept(run, q + 1, m + 1);
    SessionServes(run, q, i, m + 1);
    RunInv(run, x);
    CheckedHorizon(run, m, a);
  }

  /** A successful check of the counter: the start slot was not reserved again. */
  lemma CheckedHorizon(run: Run, m: nat, a: nat)
    requires IsRun(run) && m < |run.actions| && run.actions[m] == CheckCounter
    requires var s := run.states[m + 1];
             s.reader.pc == CounterOk && SameRevision(s) && IsRing(s.slots) && GoodStart(s.reader, a, |s.slots|)
    ensures run.states[m + 1].reserved <= a + |run.states[m + 1].slots|
  {
    assert StepAt(run, m);
    RunInv(run, m + 1);
    var s := run.states[m + 1];
    assert s.reader.checkReserved == s.reserved;
    assert SlotOf(a + |s.slots|, |s.slots|) == s.reader.start;
  }
}
