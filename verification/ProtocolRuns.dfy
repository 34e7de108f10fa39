/**
 Building runs of the protocol: what the creator, a producer and a consumer can do next.
 The states that the other files speak of are shown to occur.
 */
module ProtocolRuns {
  import opened Index
  import opened Ring
  import opened Protocol
  import opened ProtocolInvariant
  import opened ProtocolSafety

  /** The actions, taken one after the other from s, lead to t. */
  ghost predicate Leads(s: State, actions: seq<Action>, t: State)
    decreases |actions|
  {
    if actions == [] then t == s
    else IsRing(s.slots) && Enabled(s, actions[0]) && Leads(Apply(s, actions[0]), actions[1..], t)
  }

  lemma {:induction false} LeadsOn(s: State, actions: seq<Action>, m: State, a: Action, t: State)
    requires Leads(s, actions, m) && StepBy(m, a, t)
    ensures Leads(s, actions + [a], t)
    decreases |actions|
  {
    if actions == [] {
      assert Leads(t, [], t) && ([] + [a])[1..] == [];
    } else {
      LeadsOn(Apply(s, actions[0]), actions[1..], m, a, t);
      assert (actions + [a])[1..] == actions[1..] + [a];
    }
  }

  lemma {:induction false} LeadsJoin(s: State, actions: seq<Action>, m: State, rest: seq<Action>, t: State)
    requires Leads(s, actions, m) && Leads(m, rest, t)
    ensures Leads(s, actions + rest, t)
    decreases |actions|
  {
    hide Enabled;
    if actions == [] {
      assert actions + rest == rest;
    } else {
      LeadsJoin(Apply(s, actions[0]), actions[1..], m, rest, t);
      assert (actions + rest)[1..] == actions[1..] + rest;
    }
  }

  lemma LeadsThree(s: State, a: Action, s1: State, b: Action, s2: State, c: Action, t: State)
    requires StepBy(s, a, s1) && StepBy(s1, b, s2) && StepBy(s2, c, t)
    ensures Leads(s, [a, b, c], t)
  {
    hide Enabled;
    assert Leads(t, [], t);
    assert [c][1..] == [] && Leads(s2, [c], t);
    assert [b, c][1..] == [c] && Leads(s1, [b, c], t);
    assert [a, b, c][1..] == [b, c];
  }

  lemma LeadsFour(s: State, a: Action, s1: State, b: Action, s2: State, c: Action, s3: State, d: Action, t: State)
    requires StepBy(s, a, s1) && StepBy(s1, b, s2) && StepBy(s2, c, s3) && StepBy(s3, d, t)
    ensures Leads(s, [a, b, c, d], t)
  {
    LeadsThree(s1, b, s2, c, s3, d, t);
    assert [a, b, c, d][1..] == [b, c, d];
  }

  lemma LeadsThrice(s: State, a: seq<Action>, s1: State, b: seq<Action>, s2: State, c: seq<Action>, t: State)
    requires Leads(s, a, s1) && Leads(s1, b, s2) && Leads(s2, c, t)
    ensures Leads(s, a + b + c, t)
    ensures Reachable(s) ==> Reachable(t)
  {
    LeadsJoin(s, a, s1, b, s2);
    LeadsJoin(s, a + b, s2, c, t);
    if Reachable(s) {
      ReachableLeads(s, a + b + c, t);
    }
  }

  /** Some actions, none of which changes the consumer's window, lead from s to t. */
  ghost predicate Later(s: State, t: State) {
    exists actions :: Leads(s, actions, t) && forall i :: 0 <= i < |actions| ==> KeepsWindow(actions[i])
  }

  lemma LaterAtOnce(s: State)
    ensures Later(s, s)
  {
    assert Leads(s, [], s);
  }

  lemma LaterStep(s: State, m: State, a: Action, t: State)
    requires Later(s, m) && StepBy(m, a, t) && KeepsWindow(a)
    ensures Later(s, t)
  {
    var actions :| Leads(s, actions, m) && forall i :: 0 <= i < |actions| ==> KeepsWindow(actions[i]);
    LeadsOn(s, actions, m, a, t);
    assert Leads(s, actions + [a], t);
  }

  ghost predicate EndsIn(run: Run, t: State) {
    IsRun(run) && run.states[|run.actions|] == t
  }

  lemma AppendStep(run: Run, m: State, a: Action, t: State) returns (longer: Run)
    requires EndsIn(run, m) && StepBy(m, a, t)
    ensures longer == Run(run.states + [t], run.actions + [a]) && EndsIn(longer, t)
  {
    longer := Run(run.states + [t], run.actions + [a]);
    forall i | 0 <= i < |longer.actions|
      ensures StepAt(longer, i)
    {
      assert i < |run.actions| ==> StepAt(run, i);
    }
  }

  /** A run continues with any actions that lead on from its last state. */
  lemma {:induction false} ExtendRun(run: Run, s: State, actions: seq<Action>, t: State) returns (longer: Run)
    requires EndsIn(run, s) && Leads(s, actions, t)
    ensures EndsIn(longer, t) && longer.actions == run.actions + actions && run.states <= longer.states
    decreases |actions|
  {
    if actions == [] {
      longer := run;
    } else {
      var m := Apply(s, actions[0]);
      longer := AppendStep(run, s, actions[0], m);
      longer := ExtendRun(longer, m, actions[1..], t);
    }
  }

  lemma ReachableRun(s: State) returns (run: Run)
    requires Reachable(s)
    ensures EndsIn(run, s)
  {
    run :| IsRun(run) && run.states[|run.states| - 1] == s;
  }

  lemma RunReachable(run: Run, t: State)
    requires EndsIn(run, t)
    ensures Reachable(t)
  {
    RunInv(run, |run.actions|);
    assert run.states[|run.states| - 1] == t;
  }

  lemma ReachableLeads(s: State, actions: seq<Action>, t: State)
    requires Reachable(s) && Leads(s, actions, t)
    ensures Reachable(t)
  {
    var run := ReachableRun(s);
    run := ExtendRun(run, s, actions, t);
    RunReachable(run, t);
  }

  lemma ReachableStep(s: State, a: Action, t: State)
    requires Reachable(s) && StepBy(s, a, t)
    ensures Reachable(t)
  {
    var run := ReachableRun(s);
    run := AppendStep(run, s, a, t);
    RunReachable(run, t);
  }

  lemma ReachableLater(s: State, t: State)
    requires Reachable(s) && Later(s, t)
    ensures Reachable(t)
  {
    var actions :| Leads(s, actions, t) && forall i :: 0 <= i < |actions| ==> KeepsWindow(actions[i]);
    ReachableLeads(s, actions, t);
  }

  lemma ExtendLater(run: Run, s: State, t: State) returns (longer: Run)
    requires EndsIn(run, s) && Later(s, t)
    ensures EndsIn(longer, t) && run.states <= longer.states && run.actions <= longer.actions
    ensures forall j :: |run.actions| <= j < |longer.actions| ==> KeepsWindow(longer.actions[j])
  {
    hide Apply, Enabled, Leads;
    var actions :| Leads(s, actions, t) && forall i :: 0 <= i < |actions| ==> KeepsWindow(actions[i]);
    longer := ExtendRun(run, s, actions, t);
  }

  /** A read session that is accepted somewhere is accepted in a run. */
  lemma AcceptedReadRun(s: State, s1: State, m: State, t: State) returns (run: Run, q: nat, i: nat)
    requires Reachable(s) && StepBy(s, Snapshot, s1) && Later(s1, m)
    requires StepBy(m, CheckRevision, t) && t.reader.pc == Accepted
    ensures IsRun(run) && AcceptedRead(run, q, i)
    ensures run.states[q] == s && run.states[i] == m && run.states[i + 1] == t
  {
    hide Apply, Enabled, Leads, Later;
    var r0 := ReachableRun(s);
    q := |r0.actions|;
    var r1 := AppendStep(r0, s, Snapshot, s1);
    var r2 := ExtendLater(r1, s1, m);
    i := |r2.actions|;
    run := AppendStep(r2, m, CheckRevision, t);
    assert r0.states <= r1.states <= r2.states <= run.states;
    assert r1.actions <= r2.actions <= run.actions;
  }

  // ------------------------------------------------------------------
  // Producers

  /** A live context that no other one keeps from writing. */
  ghost predicate CanWrite(s: State, p: nat) {
    && s.phase == Serving && p < |s.writers| && s.writers[p].alive && s.writers[p].pc != Gone
    && forall q :: 0 <= q < |s.writers| && q != p ==> !InRegion(s.writers[q])
  }

  /** Nothing was stored or published between s and t, and the consumer stood still; only
      the next slot's counter may have been bumped. */
  ghost predicate StillSamples(s: State, t: State)
    requires IsRing(s.slots)
  {
    && t.reader == s.reader && t.hist == s.hist && t.nbCreations == s.nbCreations && t.phase == s.phase
    && t.width == s.width && t.magic == s.magic
    && |t.slots| == |s.slots| && |t.writers| == |s.writers| && s.reserved <= t.reserved
    && (forall i :: 0 <= i < |s.slots| ==>
         && t.slots[i].content == s.slots[i].content
         && (i != SlotOf(|s.hist|, |s.slots|) || s.reserved > |s.hist| ==> t.slots[i] == s.slots[i]))
  }

  /** Steps of a context up to the next open sample. */
  function StepsLeft(w: Writer): nat {
    match w.pc
    case Published => 5
    case Rest => if w.index == -1 then 4 else 0
    case Entered => 3
    case Located => 2
    case Bumped => 1
    case Gone => 0
  }

  /** The next step of a context towards an open sample. */
  function NextAction(w: Writer, p: nat): Action {
    match w.pc
    case Rest => Enter(p)
    case Entered => Locate(p)
    case Located => Bump(p)
    case Bumped => Claim(p)
    case _ => Release(p)
  }

  /** What a context can rely on while it is on its way to an open sample. */
  lemma BeforeStep(s: State, p: nat)
    requires Reachable(s) && CanWrite(s, p) && !OpenSample(s, p)
    ensures IsRing(s.slots) && Enabled(s, NextAction(s.writers[p], p))
    ensures s.writers[p].pc != WriterPc.Published ==> s.writers[p].index == -1
    ensures s.writers[p].pc == Rest ==> s.nbOngoing == 0
    ensures s.writers[p].pc == Located ==> s.reserved == |s.hist| && s.writers[p].slot == SlotOf(|s.hist|, |s.slots|)
  {
    hide Counters, Contents, Hits, ReaderInv, OwnInv;
    NextStepExists(s, p);
    ReachableInv(s);
  }

  lemma BumpStep(s: State, p: nat, t: State)
    requires StepBy(s, Bump(p), t) && CanWrite(s, p) && s.writers[p].index == -1
    requires s.reserved == |s.hist| && s.writers[p].slot == SlotOf(|s.hist|, |s.slots|)
    ensures CanWrite(t, p) && StillSamples(s, t) && StepsLeft(t.writers[p]) < StepsLeft(s.writers[p])
  {
  }

  lemma OtherWriterStep(s: State, p: nat, a: Action, t: State)
    requires StepBy(s, a, t) && CanWrite(s, p) && !OpenSample(s, p)
    requires a == NextAction(s.writers[p], p) && s.writers[p].pc != Located
    requires s.writers[p].pc == Rest ==> s.nbOngoing == 0 && s.writers[p].index == -1
    ensures CanWrite(t, p) && StillSamples(s, t) && StepsLeft(t.writers[p]) < StepsLeft(s.writers[p])
  {
  }

  lemma WriterStep(s: State, p: nat) returns (a: Action, t: State)
    requires Reachable(s) && CanWrite(s, p) && !OpenSample(s, p)
    ensures StepBy(s, a, t) && KeepsWindow(a)
    ensures CanWrite(t, p) && StillSamples(s, t)
    ensures StepsLeft(t.writers[p]) < StepsLeft(s.writers[p])
  {
    hide Apply, Enabled, StillSamples, StepsLeft, Reachable;
    BeforeStep(s, p);
    a := NextAction(s.writers[p], p);
    t := Apply(s, a);
    if s.writers[p].pc == Located {
      BumpStep(s, p, t);
    } else {
      OtherWriterStep(s, p, a, t);
    }
  }

  /** A producer that no other one keeps from writing gets a sample to write. */
  lemma {:induction false} WriterProceeds(s0: State, s: State, p: nat) returns (t: State)
    requires Reachable(s) && Later(s0, s) && CanWrite(s, p)
    ensures Reachable(t) && Later(s0, t) && CanWrite(t, p) && StillSamples(s, t)
    ensures OpenSample(t, p) && t.writers[p].index == SlotOf(|s.hist|, |s.slots|)
    decreases StepsLeft(s.writers[p])
  {
    if OpenSample(s, p) {
      ReachableInv(s);
      WriterIsHolder(s, p);
      t := s;
    } else {
      var a, m := WriterStep(s, p);
      ReachableStep(s, a, m);
      LaterStep(s0, s, a, m);
      t := WriterProceeds(s0, m, p);
    }
  }

  // ------------------------------------------------------------------
  // Creation

  /** The state while the section is cleared, with other slots. */
  function WithSlots(s: State, slots: seq<Slot<Payload>>): State {
    s.(slots := slots)
  }

  ghost predicate Clearing(s: State, slots: seq<Slot<Payload>>) {
    Reachable(WithSlots(s, slots)) && s.phase == Phase.Clearing && IsRing(slots) && |slots| == |s.slots|
  }

  /** The cells of slot i are zeroed one after the other. */
  lemma {:induction false} ZeroCells(s: State, slots: seq<Slot<Payload>>, i: nat, k: nat)
    returns (slots': seq<Slot<Payload>>)
    requires Clearing(s, slots) && i < |slots| && k <= |slots[i].content|
    ensures Clearing(s, slots') && slots' == slots[i := slots'[i]]
    ensures |slots'[i].content| == |slots[i].content| && forall k' :: 0 <= k' < k ==> slots'[i].content[k'] == 0
  {
    slots' := slots;
    if k > 0 {
      slots' := ZeroCells(s, slots, i, k - 1);
      slots' := ZeroOneCell(s, slots', i, k - 1);
    }
  }

  lemma ZeroOneCell(s: State, slots: seq<Slot<Payload>>, i: nat, k: nat) returns (slots': seq<Slot<Payload>>)
    requires Clearing(s, slots) && i < |slots| && k < |slots[i].content|
    ensures Clearing(s, slots') && slots' == slots[i := slots[i].(content := slots[i].content[k := 0])]
  {
    slots' := slots[i := slots[i].(content := slots[i].content[k := 0])];
    ReachableStep(WithSlots(s, slots), ZeroCell(i, k), WithSlots(s, slots'));
  }

  lemma ZeroOneCounter(s: State, slots: seq<Slot<Payload>>, i: nat) returns (slots': seq<Slot<Payload>>)
    requires Clearing(s, slots) && i < |slots|
    ensures Clearing(s, slots') && slots' == slots[i := slots[i].(nbWrites := 0)]
  {
    slots' := slots[i := slots[i].(nbWrites := 0)];
    ReachableStep(WithSlots(s, slots), ZeroCounter(i), WithSlots(s, slots'));
  }

  predicate SlotZero(slot: Slot<Payload>) {
    slot.nbWrites == 0 && Zeroed(slot.content)
  }

  lemma {:induction false} ZeroSlots(s: State, slots: seq<Slot<Payload>>, i: nat) returns (slots': seq<Slot<Payload>>)
    requires Clearing(s, slots) && i <= |slots|
    ensures Clearing(s, slots') && forall j :: 0 <= j < i ==> SlotZero(slots'[j])
  {
    slots' := slots;
    if i > 0 {
      slots' := ZeroSlots(s, slots, i - 1);
      var cells := ZeroCells(s, slots', i - 1, |slots'[i - 1].content|);
      slots' := ZeroOneCounter(s, cells, i - 1);
    }
  }

  lemma {:induction false} InvalidateRest(s: State) returns (t: State)
    requires Reachable(s) && s.phase.Invalidating? && s.phase.next <= |s.slots|
    ensures Reachable(t) && t == s.(phase := Invalidating(|s.slots|), slots := t.slots) && |t.slots| == |s.slots|
    decreases |s.slots| - s.phase.next
  {
    if s.phase.next == |s.slots| {
      t := s;
    } else {
      var m := Apply(s, Invalidate);
      ReachableStep(s, Invalidate, m);
      t := InvalidateRest(m);
    }
  }

  /** Every creation that has begun can be completed, from any prior contents; it leaves an
      empty history and one more producer context. */
  lemma CreationCompletes(s: State) returns (t: State)
    requires Reachable(s) && s.phase == Stamped
    ensures Reachable(t) && t.phase == Serving && t.hist == [] && t.writeIndex == -1 && t.nbOngoing == 0
    ensures |t.slots| == |s.slots| && t.nbCreations == s.nbCreations + 1 && t.reader == s.reader
    ensures |t.writers| == |s.writers| + 1 && t.writers[|s.writers|] == NEW_WRITER
  {
    var s4 := HeaderReset(s);
    var slots := ZeroSlots(s4, s4.slots, |s4.slots|);
    var s5 := WithSlots(s4, slots).(phase := Invalidating(0));
    AllSlotsZero(slots, WithSlots(s4, slots));
    ReachableStep(WithSlots(s4, slots), FinishZeroing, s5);
    var s6 := InvalidateRest(s5);
    t := s6.(nbCreations := s6.nbCreations + 1, phase := Serving, epoch := s6.epoch + 1, hist := [], author := [],
             reserved := 0, writers := s6.writers + [NEW_WRITER]);
    ReachableStep(s6, EndCreation, t);
  }

  lemma AllSlotsZero(slots: seq<Slot<Payload>>, s: State)
    requires s.slots == slots && forall j :: 0 <= j < |slots| ==> SlotZero(slots[j])
    ensures AllZero(s)
  {
  }

  lemma HeaderReset(s: State) returns (t: State)
    requires Reachable(s) && s.phase == Stamped
    ensures t == s.(writeIndex := -1, nbOngoing := 0, magic := true, phase := Phase.Clearing)
    ensures Clearing(t, t.slots)
  {
    ReachableInv(s);
    var s1 := s.(writeIndex := -1, phase := IndexReset);
    ReachableStep(s, ResetIndex, s1);
    var s2 := s1.(nbOngoing := 0, phase := OngoingReset);
    ReachableStep(s1, ResetOngoing, s2);
    t := s2.(magic := true, phase := Phase.Clearing);
    ReachableStep(s2, WriteMagic, t);
    assert WithSlots(t, t.slots) == t;
  }
}
