/**
 What single calls of the library rely on and leave behind, over whole runs: opening, the
 slot a producer remembers, the count of ongoing writes, and a refused end of read.
 */
module ProtocolCalls {
  import opened Errno
  import opened Index
  import opened Ring
  import opened Protocol
  import opened ProtocolInvariant
  import opened ProtocolSafety

  // ------------------------------------------------------------------
  // Opening

  /** The first look at the revision number lets a consumer in exactly when the section is
      at rest; while it is being rewritten, opening is refused. */
  lemma OpeningNeedsRest(run: Run, x: nat)
    requires IsRun(run) && x < |run.actions| && run.actions[x] == LoadParity
    ensures run.states[x + 1].reader.pc == ParityOk <==> run.states[x].phase == Serving
    ensures run.states[x].phase != Serving ==> run.states[x + 1].reader.pc == Closed
  {
    assert StepAt(run, x);
    RunInv(run, x);
    ParityLoaded(run.states[x], run.states[x + 1]);
  }

  lemma ParityLoaded(s: State, s': State)
    requires Inv(s) && StepBy(s, LoadParity, s')
    ensures s'.reader.pc == if s.phase == Serving then ParityOk else Closed
  {
    hide ServingInv;
  }

  lemma ParityStep(s: State, a: Action, s': State)
    requires StepBy(s, a, s') && s'.reader.pc == ParityOk && !a.LoadParity?
    ensures s.reader.pc == ParityOk
  {
    hide Apply, Enabled;
    if ByCreator(a) {
      CreatorFrame(s, a, s');
    } else if ByWriter(a) {
      WriterFrame(s, a, s');
    } else {
      ParityOnlyByLoad(s, a, s');
    }
  }

  /** Among the consumer's own steps only the first look lets it in. */
  lemma ParityOnlyByLoad(s: State, a: Action, s': State)
    requires StepBy(s, a, s') && !ByCreator(a) && !ByWriter(a)
    ensures s'.reader.pc == ParityOk ==> a.LoadParity?
  {
  }

  lemma {:induction false} PassedParity(run: Run, x: nat, l: nat)
    requires IsRun(run) && x < l < |run.states| && run.actions[x] == LoadParity
    requires forall j :: x < j < l ==> !run.actions[j].LoadParity?
    requires run.states[l].reader.pc == ParityOk
    ensures run.states[x + 1].reader.pc == ParityOk
  {
    if x + 1 < l {
      assert StepAt(run, l - 1);
      ParityStep(run.states[l - 1], run.actions[l - 1], run.states[l]);
      PassedParity(run, x, l - 1);
    }
  }

  /** The revision that an opened section was kept with, after the look at its parity in
      step x and the load in step l.  It is odd exactly when the section is being rewritten
      at the load, which takes a creation that began between the two; without one it is the
      even number of the first look. */
  lemma KeptRevision(run: Run, x: nat, l: nat)
    requires IsRun(run) && x < l < |run.actions|
    requires run.actions[x] == LoadParity && run.actions[l] == LoadRevision
    requires forall j :: x < j < l ==> !run.actions[j].LoadParity?
    ensures run.states[x].phase == Serving && run.states[x].nbCreations % 2 == 0
    ensures run.states[l + 1].reader.rev == run.states[l].nbCreations
    ensures run.states[l + 1].reader.rev % 2 == 1 <==> run.states[l].phase != Serving
    ensures run.states[l + 1].reader.rev % 2 == 1 ==> exists j :: x < j < l && run.actions[j].BeginCreation?
    ensures (forall j :: x < j < l ==> !run.actions[j].BeginCreation?) ==>
              run.states[l + 1].reader.rev == run.states[x].nbCreations
  {
    hide Apply, Enabled, ServingInv, ReaderInv;
    assert StepAt(run, l);
    LoadedAfterParity(run.states[l], run.states[l + 1]);
    PassedParity(run, x, l);
    OpeningNeedsRest(run, x);
    RunInv(run, x);
    RunInv(run, l);
    RevisionLoaded(run.states[l], run.states[l + 1]);
    if forall j :: x < j < l ==> !run.actions[j].BeginCreation? {
      NoEndWithoutBegin(run, x, l);
      RestKept(run, x, l);
    }
  }

  lemma LoadedAfterParity(s: State, s': State)
    requires StepBy(s, LoadRevision, s')
    ensures s.reader.pc == ParityOk
  {
  }

  /** Nothing can be selected in a section at rest before its first sample. */
  lemma SelectionNeedsSample(s: State, start: nat, count: nat)
    requires Reachable(s) && s.phase == Serving && Enabled(s, Select(start, count))
    ensures s.hist != []
  {
    ReachableInv(s);
  }

  lemma UnopenedStep(s: State, a: Action, s': State)
    requires StepBy(s, a, s') && !a.LoadRevision? && s.reader.pc in {Closed, Mapped, ParityOk}
    ensures s'.reader.pc in {Closed, Mapped, ParityOk}
  {
    hide Apply, Enabled;
    if ByCreator(a) {
      CreatorFrame(s, a, s');
    } else if ByWriter(a) {
      WriterFrame(s, a, s');
    } else {
      UnopenedReader(s, a, s');
    }
  }

  lemma UnopenedReader(s: State, a: Action, s': State)
    requires StepBy(s, a, s') && !ByCreator(a) && !ByWriter(a)
    requires a.Close? || (!a.LoadRevision? && s.reader.pc in {Closed, Mapped, ParityOk})
    ensures s'.reader.pc in {Closed, Mapped, ParityOk}
    ensures a.Close? ==> s'.reader.pc == Closed
  {
  }

  lemma {:induction false} UnopenedUntilLoad(run: Run, x: nat, i: nat)
    requires IsRun(run) && x < i < |run.states| && run.actions[x] == Close
    requires forall j :: x < j < i ==> !run.actions[j].LoadRevision?
    ensures run.states[i].reader.pc in {Closed, Mapped, ParityOk}
  {
    hide Apply, Enabled;
    assert StepAt(run, i - 1);
    if x + 1 == i {
      UnopenedReader(run.states[x], Close, run.states[i]);
    } else {
      UnopenedUntilLoad(run, x, i - 1);
      UnopenedStep(run.states[i - 1], run.actions[i - 1], run.states[i]);
    }
  }

  /** A section that was closed must be opened again, with a new revision, before anything
      is selected in it. */
  lemma ClosedMustReopen(run: Run, x: nat, i: nat)
    requires IsRun(run) && x < i < |run.actions| && run.actions[x] == Close && run.actions[i].Select?
    ensures exists j :: x < j < i && run.actions[j].LoadRevision?
  {
    hide Apply;
    assert StepAt(run, i);
    if forall j :: x < j < i ==> !run.actions[j].LoadRevision? {
      UnopenedUntilLoad(run, x, i);
    }
  }

  // ------------------------------------------------------------------
  // Producers

  lemma CreatorKeepsPrevIndex(s: State, a: Action, s': State)
    requires StepBy(s, a, s') && ByCreator(a)
    ensures |s.writers| <= |s'.writers|
    ensures forall p :: 0 <= p < |s.writers| ==> s'.writers[p].prevIndex == s.writers[p].prevIndex
    ensures a.EndCreation? ==> |s'.writers| == |s.writers| + 1 && s'.writers[|s.writers|].prevIndex == -1
  {
  }

  /** Only the end of its own session changes the slot a context remembers. */
  lemma PrevIndexStep(s: State, a: Action, s': State, p: nat)
    requires StepBy(s, a, s') && p < |s.writers| && a != Release(p)
    ensures p < |s'.writers| && s'.writers[p].prevIndex == s.writers[p].prevIndex
  {
    hide Apply, Enabled;
    if ByCreator(a) {
      CreatorKeepsPrevIndex(s, a, s');
    } else if ByWriter(a) {
      OthersFrame(s, a, s');
      OwnFrame(s, a, s');
    } else {
      ReaderFrame(s, a, s');
    }
  }

  lemma {:induction false} PrevIndexKept(run: Run, x: nat, i: nat, p: nat)
    requires IsRun(run) && x <= i < |run.states| && p < |run.states[x].writers|
    requires forall j :: x <= j < i ==> run.actions[j] != Release(p)
    ensures p < |run.states[i].writers|
    ensures run.states[i].writers[p].prevIndex == run.states[x].writers[p].prevIndex
  {
    if x < i {
      PrevIndexKept(run, x, i - 1, p);
      assert StepAt(run, i - 1);
      PrevIndexStep(run.states[i - 1], run.actions[i - 1], run.states[i], p);
    }
  }

  /** The slot that a context published when it ended its session. */
  lemma ReleasedSlot(s: State, p: nat, s': State)
    requires Inv(s) && StepBy(s, Release(p), s')
    ensures p < |s.writers| == |s'.writers| && s.hist != []
    ensures 0 <= s.writers[p].index == SlotOf(|s.hist| - 1, |s.slots|)
    ensures s'.writers[p].prevIndex == s.writers[p].index
  {
    assert InRegion(s.writers[p]);
  }

  /** In every run, whatever creations come in between, a reservation is judged by the slot
      that the context published last: it succeeds exactly when the next slot is the one
      just after it. */
  lemma LastSlotDecides(run: Run, x: nat, i: nat, p: nat)
    requires IsRun(run) && x < i < |run.actions|
    requires run.actions[x] == Release(p) && run.actions[i] == Claim(p)
    requires forall j :: x < j < i ==> run.actions[j] != Release(p)
    ensures IsRing(run.states[i].slots)
    ensures p < |run.states[x].writers| && p < |run.states[i + 1].writers|
    ensures var s0, s, n: Size := run.states[x].writers[p].index, run.states[i], |run.states[i].slots|;
            run.states[i + 1].writers[p].ret ==
            if IntervalBetween(s0, SlotOf(|s.hist|, n), n) == 1 then 0 else -EFAULT
  {
    hide Apply, Enabled, Inv, SlotOf;
    assert StepAt(run, x) && StepAt(run, i);
    RunInv(run, x);
    RunInv(run, i);
    ReleasedSlot(run.states[x], p, run.states[x + 1]);
    PrevIndexKept(run, x + 1, i, p);
    JudgedBySlot(run.states[i], p, run.states[i + 1]);
  }

  /** A context that has never published is never faulted. */
  lemma NewcomerIsNotFaulted(run: Run, x: nat, i: nat, p: nat)
    requires IsRun(run) && x < i < |run.actions|
    requires run.actions[x] == EndCreation && p == |run.states[x].writers| && run.actions[i] == Claim(p)
    requires forall j :: x < j < i ==> run.actions[j] != Release(p)
    ensures p < |run.states[i + 1].writers| && run.states[i + 1].writers[p].ret == 0
  {
    hide Apply, Enabled, Inv, SlotOf;
    assert StepAt(run, x) && StepAt(run, i);
    RunInv(run, i);
    CreatorKeepsPrevIndex(run.states[x], EndCreation, run.states[x + 1]);
    PrevIndexKept(run, x + 1, i, p);
    JudgedBySlot(run.states[i], p, run.states[i + 1]);
  }

  lemma JudgedBySlot(s: State, p: nat, s': State)
    requires Inv(s) && StepBy(s, Claim(p), s')
    ensures IsRing(s.slots) && p < |s.writers| == |s'.writers|
    ensures var last, n: Size := s.writers[p].prevIndex, |s.slots|;
            s'.writers[p].ret ==
            if last == -1 || IntervalBetween(last, SlotOf(|s.hist|, n), n) == 1 then 0 else -EFAULT
  {
    hide SlotOf;
    ReservingContext(s, p);
    ClaimStep(s, p, s');
  }

  /** A commit frees the section and the context, and reports success. */
  lemma CommitSucceeds(s: State, p: nat, s': State)
    requires Reachable(s) && StepBy(s, Release(p), s')
    ensures forall w :: w in s'.writers ==> !InRegion(w)
    ensures s'.nbOngoing == 0 && s'.writers[p].ret == 0
    ensures s.hist != [] && s'.writers[p].own == At(|s.hist| - 1)
  {
    ReachableInv(s);
    assert InRegion(s.writers[p]);
  }

  /** How often a session was asked for in steps x to i - 1. */
  function EntersIn(actions: seq<Action>, x: nat, i: nat): nat
    requires x <= i <= |actions|
  {
    if x == i then 0 else EntersIn(actions, x, i - 1) + if actions[i - 1].Enter? then 1 else 0
  }

  lemma OngoingStep(s: State, a: Action, s': State)
    requires StepBy(s, a, s') && !a.Release? && !a.ResetOngoing?
    ensures s'.nbOngoing == s.nbOngoing + if a.Enter? then 1 else 0
  {
  }

  /** nb_ongoing_writes counts every attempt, refused or not, until a producer or a creator
      stores 0 into it: nobody ever decrements it. */
  lemma {:induction false} AttemptsAreCounted(run: Run, x: nat, i: nat)
    requires IsRun(run) && x <= i < |run.states|
    requires forall j :: x <= j < i ==> !run.actions[j].Release? && !run.actions[j].ResetOngoing?
    ensures run.states[i].nbOngoing == run.states[x].nbOngoing + EntersIn(run.actions, x, i)
  {
    hide Apply, Enabled;
    if x < i {
      AttemptsAreCounted(run, x, i - 1);
      assert StepAt(run, i - 1);
      OngoingStep(run.states[i - 1], run.actions[i - 1], run.states[i]);
    }
  }

  lemma CreatorRaisesNobody(s: State, a: Action, s': State)
    requires StepBy(s, a, s') && ByCreator(a)
    ensures |s.writers| <= |s'.writers|
    ensures forall p :: 0 <= p < |s.writers| ==> s'.writers[p].alive == s.writers[p].alive
  {
  }

  lemma WriterRaisesNobody(s: State, a: Action, s': State)
    requires StepBy(s, a, s') && ByWriter(a)
    ensures a.p < |s.writers| == |s'.writers| && s.writers[a.p].alive
    ensures s'.writers[a.p].alive <==> !a.Die?
  {
  }

  lemma {:induction false} DeadStaysDead(run: Run, x: nat, i: nat, p: nat)
    requires IsRun(run) && x < i < |run.states| && run.actions[x] == Die(p)
    ensures p < |run.states[i].writers| && !run.states[i].writers[p].alive
  {
    hide Apply, Enabled;
    assert StepAt(run, i - 1);
    var s, a, s' := run.states[i - 1], run.actions[i - 1], run.states[i];
    if x + 1 < i {
      DeadStaysDead(run, x, i - 1, p);
    }
    if ByCreator(a) {
      CreatorRaisesNobody(s, a, s');
    } else if ByWriter(a) {
      OthersFrame(s, a, s');
      WriterRaisesNobody(s, a, s');
    } else {
      ReaderFrame(s, a, s');
    }
  }

  /** A context that died takes no further step, in whatever call it was. */
  lemma DeadNeverActs(run: Run, x: nat, i: nat, p: nat)
    requires IsRun(run) && x < i < |run.actions| && run.actions[x] == Die(p)
    ensures ByWriter(run.actions[i]) ==> run.actions[i].p != p
  {
    hide Apply, Enabled;
    DeadStaysDead(run, x, i, p);
    assert StepAt(run, i);
    if ByWriter(run.actions[i]) {
      WriterRaisesNobody(run.states[i], run.actions[i], run.states[i + 1]);
    }
  }

  // ------------------------------------------------------------------
  // A refused end of read

  lemma {:induction false} SnapForgotten(run: Run, m: nat, i: nat)
    requires IsRun(run) && m < i < |run.states|
    requires run.actions[m] == CheckCounter && run.states[m + 1].reader.pc == Session
    requires forall j :: m < j < i ==> KeepsWindow(run.actions[j]) && !run.actions[j].CheckCounter?
    ensures run.states[i].reader.pc == Session && run.states[i].reader.snap == -1
  {
    hide Enabled;
    assert StepAt(run, i - 1);
    if m + 1 < i {
      SnapForgotten(run, m, i - 1);
      SnapStep(run.states[i - 1], run.actions[i - 1], run.states[i]);
    }
  }

  /** After a refused check the window is kept, but its counter is forgotten: without a new
      selection the check is refused again, unless the start slot is invalid. */
  lemma RefusedAgain(run: Run, m: nat, i: nat)
    requires IsRun(run) && m < i < |run.actions|
    requires run.actions[m] == CheckCounter && run.states[m + 1].reader.pc == Session
    requires run.actions[i] == CheckCounter
    requires forall j :: m < j < i ==> KeepsWindow(run.actions[j]) && !run.actions[j].CheckCounter?
    ensures var s := run.states[i];
            && s.reader.start < |s.slots|
            && (run.states[i + 1].reader.pc == CounterOk <==> s.slots[s.reader.start].nbWrites == -1)
  {
    hide Apply, Enabled;
    SnapForgotten(run, m, i);
    assert StepAt(run, i);
    CheckStep(run.states[i], run.states[i + 1]);
  }

  /** When the revision has changed the session is over: nothing can be read or checked
      before a new selection. */
  lemma ChangedRevisionEndsSession(s: State, s': State)
    requires StepBy(s, CheckRevision, s') && s.reader.rev != s.nbCreations
    ensures IsRing(s'.slots) && !Enabled(s', CheckCounter) && !Enabled(s', CheckRevision) && !Enabled(s', Snapshot)
    ensures forall j: nat, k: nat :: !Enabled(s', Load(j, k))
  {
  }
}
