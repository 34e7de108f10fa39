/**
 The inductive invariant of the protocol: what every action keeps, in every
 interleaving of the creator, the producers and the consumer.
 */
module ProtocolInvariant {
  import opened Index
  import opened Ring
  import opened Protocol

  ghost predicate Shape(s: State) {
    && IsRing(s.slots)
    && (forall i :: 0 <= i < |s.slots| ==> |s.slots[i].content| == s.width)
    && (forall e :: 0 <= e < |s.hist| ==> |s.hist[e]| == s.width)
    && |s.author| == |s.hist|
  }

  /** While the section is being rewritten, no context is inside a write session. */
  predicate Suspended(s: State) {
    forall p :: 0 <= p < |s.writers| ==>
      !InRegion(s.writers[p]) && s.writers[p].own == Stale
  }

  /** The revision number is odd exactly during a creation, and counts creations twice. */
  ghost predicate CreationInv(s: State) {
    if s.phase == Absent then
      s.epoch == 0 && !s.magic && s.writers == []
    else if s.phase == Serving then
      s.epoch >= 1 && s.magic && s.nbCreations == 2 * s.epoch
    else
      && s.nbCreations == 2 * s.epoch + 1
      && (s.epoch >= 1 ==> s.magic)
      && Suspended(s) && s.holder == -1
      && (s.phase != Stamped ==> s.writeIndex == -1)
      && (s.phase != Stamped && s.phase != IndexReset ==> s.nbOngoing == 0)
      && (s.phase == Clearing || s.phase.Invalidating? ==> s.magic)
      && (s.phase.Invalidating? ==> Invalidated(s.slots, s.phase.next))
  }

  predicate Invalidated(slots: seq<Slot<Payload>>, k: nat) {
    k <= |slots| && forall i :: 0 <= i < k ==> slots[i].nbWrites == -1
  }

  /** `w` holds the write session of a section with c committed and r reserved samples. */
  ghost predicate Holder(w: Writer, c: nat, r: nat, n: Size) {
    match w.pc
    case Entered => w.index == -1 && r == c
    case Located => w.index == -1 && r == c && w.slot == SlotOf(c, n)
    case Bumped => w.index == -1 && r == c + 1
    case Rest => w.index == SlotOf(c, n) && r == c + 1
    case Published => c >= 1 && w.index == SlotOf(c - 1, n) && r == c
    case Gone => false
  }

  /** At most one context, `holder`, is inside a write session, and
      nb_ongoing_writes tells whether there is one. */
  ghost predicate SessionInv(s: State)
    requires IsRing(s.slots)
  {
    && s.nbOngoing >= 0
    && (s.nbOngoing == 0 <==> s.holder == -1)
    && -1 <= s.holder < |s.writers|
    && (forall p :: 0 <= p < |s.writers| ==> (InRegion(s.writers[p]) <==> p == s.holder))
    && (s.holder == -1 ==> s.reserved == |s.hist|)
    && (s.holder >= 0 ==> Holder(s.writers[s.holder], |s.hist|, s.reserved, |s.slots|))
    && (s.holder >= 0 && s.writers[s.holder].pc == Published ==>
         s.author != [] && s.author[|s.author| - 1] == s.holder)
  }

  /** The ring refines the history of committed samples. */
  ghost predicate RingInv(s: State)
    requires IsRing(s.slots)
  {
    && Holds(s.slots, s.hist, s.reserved)
    && s.writeIndex == LastIndex(|s.hist|, |s.slots|)
  }

  /** Commits that `w` knows about: a sample it has just published is not recorded yet. */
  function Known(w: Writer, c: nat): nat {
    if w.pc == Published && c > 0 then c - 1 else c
  }

  /** `own` is the last sample committed by context p, and prevIndex its slot. */
  ghost predicate OwnInv(w: Writer, p: nat, author: seq<nat>, n: Size) {
    match w.own
    case Fresh => w.prevIndex == -1 && forall i :: 0 <= i < Known(w, |author|) ==> author[i] != p
    case Stale => true
    case At(e) =>
      && e < |author| && author[e] == p && w.prevIndex == SlotOf(e, n)
      && forall i :: e < i < Known(w, |author|) ==> author[i] != p
  }

  ghost predicate ServingInv(s: State)
    requires IsRing(s.slots)
  {
    && SessionInv(s)
    && RingInv(s)
    && forall p :: 0 <= p < |s.writers| ==> OwnInv(s.writers[p], p, s.author, |s.slots|)
  }

  predicate HasRevision(r: Reader) {
    r.pc in {Ready, Selected, Session, CounterOk, Accepted}
  }

  predicate InSession(r: Reader) {
    r.pc in {Session, CounterOk, Accepted}
  }

  /** Nothing has been created since the consumer read an even revision number. */
  predicate SameRevision(s: State) {
    s.nbCreations == s.reader.rev && s.reader.rev % 2 == 0
  }

  /** Reservations made when the consumer last looked at the counter of its start slot. */
  function Horizon(r: Reader, reserved: nat): nat {
    if r.pc == Session then reserved else r.checkReserved
  }

  /** Position a of the history starts the consumer's window: when the counter was
      sampled, all of the window was committed and none of it reserved again. */
  predicate GoodStart(r: Reader, a: nat, n: Size) {
    SlotOf(a, n) == r.start && a + r.count <= r.snapCommits && r.snapReserved <= a + n
  }

  /** Every copied cell belongs to the history interval that starts at a. */
  ghost predicate Copied(r: Reader, hist: seq<Payload>, a: nat) {
    forall j, k | (j, k) in r.buf ::
      j < r.count && a + j < |hist| && k < |hist[a + j]| && r.buf[(j, k)] == hist[a + j][k]
  }

  ghost predicate WindowInv(r: Reader, hist: seq<Payload>, reserved: nat, n: Size) {
    && r.start < n && 1 <= r.count <= n
    && r.snapCommits <= |hist| && r.snapCommits <= r.snapReserved <= Horizon(r, reserved) <= reserved
    && (r.pc == Session ==> r.snap == -1 || r.snap == Hits(r.snapReserved, r.start, n) - 1)
    && (r.pc != Session ==> NotReserved(r.snapReserved, r.checkReserved, r.start, n))
    && (forall a: nat :: GoodStart(r, a, n) && Horizon(r, reserved) <= a + n ==> Copied(r, hist, a))
  }

  ghost predicate ReaderInv(s: State)
    requires IsRing(s.slots)
  {
    && (s.reader.pc != Closed ==> s.magic && s.phase != Absent)
    && (HasRevision(s.reader) ==> s.reader.rev <= s.nbCreations)
    && (s.reader.pc == Selected || InSession(s.reader) ==>
          s.reader.start < |s.slots| && 1 <= s.reader.count <= |s.slots|)
    && (InSession(s.reader) && SameRevision(s) ==> WindowInv(s.reader, s.hist, s.reserved, |s.slots|))
  }

  ghost predicate Inv(s: State) {
    Shape(s) && CreationInv(s) && (s.phase == Serving ==> ServingInv(s)) && ReaderInv(s)
  }

  lemma InitInv(s: State)
    requires Init(s)
    ensures Inv(s)
  {
  }

  // ------------------------------------------------------------------
  // Producers

  /** What a creator leaves alone, and how it moves the revision number. */
  lemma CreatorFrame(s: State, a: Action, s': State)
    requires StepBy(s, a, s') && ByCreator(a)
    ensures s'.reader == s.reader && |s'.slots| == |s.slots| && s'.phase != Absent && (s.magic ==> s'.magic)
    ensures s.phase == Serving ==> a.BeginCreation?
    ensures s'.phase == Serving <==> a.EndCreation?
    ensures s.phase != Absent ==>
              s'.nbCreations == s.nbCreations + if a.BeginCreation? || a.EndCreation? then 1 else 0
  {
  }

  /** A consumer stores nothing. */
  lemma ReaderFrame(s: State, a: Action, s': State)
    requires StepBy(s, a, s') && !ByCreator(a) && !ByWriter(a)
    ensures s' == s.(reader := s'.reader)
  {
  }

  /** A producer changes its own context only. */
  lemma OthersFrame(s: State, a: Action, s': State)
    requires StepBy(s, a, s') && ByWriter(a)
    ensures a.p < |s.writers| == |s'.writers| && |s'.slots| == |s.slots|
    ensures forall q :: 0 <= q < |s.writers| && q != a.p ==> s'.writers[q] == s.writers[q]
    ensures s'.author == s.author + if a.Publish? then [a.p] else []
    ensures a.Publish? ==> InRegion(s.writers[a.p])
  {
  }

  lemma WriterKeepsShape(s: State, a: Action, s': State)
    requires Inv(s) && StepBy(s, a, s') && ByWriter(a)
    ensures Shape(s')
  {
    hide CreationInv, ServingInv, ReaderInv, SlotOf, Apply, Enabled;
    WriterWidths(s, a, s');
    OthersFrame(s, a, s');
    HistoryFrame(s, a, s');
  }

  lemma WriterWidths(s: State, a: Action, s': State)
    requires StepBy(s, a, s') && ByWriter(a)
    ensures s'.width == s.width && |s'.slots| == |s.slots|
    ensures forall i :: 0 <= i < |s.slots| ==> |s'.slots[i].content| == |s.slots[i].content|
  {
  }

  /** The sample that context p is about to publish. */
  function OpenContent(s: State, p: nat): Payload
    requires OpenSample(s, p)
  {
    s.slots[s.writers[p].index].content
  }

  /** Publication alone adds to the history. */
  lemma HistoryFrame(s: State, a: Action, s': State)
    requires StepBy(s, a, s') && ByWriter(a)
    ensures a.Publish? ==> OpenSample(s, a.p) && s'.hist == s.hist + [OpenContent(s, a.p)]
    ensures !a.Publish? ==> s'.hist == s.hist
  {
  }

  lemma WriterKeepsCreation(s: State, a: Action, s': State)
    requires Inv(s) && StepBy(s, a, s') && ByWriter(a)
    ensures CreationInv(s')
  {
    hide Shape, ServingInv, ReaderInv, SlotOf;
  }

  lemma WriterIsHolder(s: State, p: nat)
    requires Inv(s) && s.phase == Serving && p < |s.writers| && InRegion(s.writers[p])
    ensures p == s.holder && s.nbOngoing > 0
    ensures Holder(s.writers[p], |s.hist|, s.reserved, |s.slots|)
  {
  }

  /** Only the context that fetched 1 enters; a refused one changes no session. */
  lemma EnterKeepsSession(s: State, p: nat, s': State)
    requires IsRing(s.slots) && SessionInv(s) && StepBy(s, Enter(p), s')
    ensures SessionInv(s')
  {
    if s.nbOngoing > 0 {
      assert forall q :: 0 <= q < |s.writers| ==> (InRegion(s'.writers[q]) <==> InRegion(s.writers[q]));
    }
  }

  lemma ReserveKeepsSession(s: State, a: Action, s': State)
    requires IsRing(s.slots) && SessionInv(s) && s.writeIndex == LastIndex(|s.hist|, |s.slots|)
    requires StepBy(s, a, s') && (a.Locate? || a.Bump? || a.Claim?)
    ensures SessionInv(s')
  {
    NextSlot(|s.hist|, |s.slots|);
    assert s'.holder == s.holder && InRegion(s'.writers[a.p]);
  }

  lemma StoreKeepsSession(s: State, a: Action, s': State)
    requires IsRing(s.slots) && SessionInv(s) && |s.author| == |s.hist|
    requires StepBy(s, a, s') && (a.Store? || a.Die?)
    ensures SessionInv(s')
  {
  }

  lemma CommitKeepsSession(s: State, a: Action, s': State)
    requires IsRing(s.slots) && SessionInv(s) && |s.author| == |s.hist|
    requires StepBy(s, a, s') && (a.Publish? || a.Release?)
    ensures SessionInv(s')
  {
    assert InRegion(s.writers[a.p]);
    assert a.p == s.holder;
  }

  lemma WriterKeepsSession(s: State, a: Action, s': State)
    requires Inv(s) && StepBy(s, a, s') && s.phase == Serving
    requires ByWriter(a)
    ensures SessionInv(s')
  {
    if a.Enter? {
      EnterKeepsSession(s, a.p, s');
    } else if a.Locate? || a.Bump? || a.Claim? {
      ReserveKeepsSession(s, a, s');
    } else if a.Store? || a.Die? {
      StoreKeepsSession(s, a, s');
    } else {
      CommitKeepsSession(s, a, s');
    }
  }

  lemma BumpKeepsRing(s: State, p: nat, s': State)
    requires Inv(s) && StepBy(s, Bump(p), s')
    ensures RingInv(s')
  {
    WriterIsHolder(s, p);
    ReserveKeeps(s.slots, s.hist, s'.slots);
  }

  lemma StoreKeepsRing(s: State, p: nat, k: nat, v: Cell, s': State)
    requires Inv(s) && StepBy(s, Store(p, k, v), s')
    ensures RingInv(s')
  {
    WriterIsHolder(s, p);
    StoreKeeps(s.slots, s.hist, s'.slots[s.writers[p].index].content);
  }

  lemma PublishKeepsRing(s: State, p: nat, s': State)
    requires Inv(s) && StepBy(s, Publish(p), s')
    ensures RingInv(s')
  {
    WriterIsHolder(s, p);
    CommitKeeps(s.slots, s.hist);
  }

  lemma WriterKeepsRing(s: State, a: Action, s': State)
    requires Inv(s) && StepBy(s, a, s') && s.phase == Serving
    requires ByWriter(a)
    ensures RingInv(s')
  {
    if a.Bump? {
      BumpKeepsRing(s, a.p, s');
    } else if a.Store? {
      StoreKeepsRing(s, a.p, a.k, a.v, s');
    } else if a.Publish? {
      PublishKeepsRing(s, a.p, s');
    } else {
      assert s'.slots == s.slots && s'.hist == s.hist && s'.reserved == s.reserved;
    }
  }

  /** A commit by context q leaves the record of another context's last sample right. */
  lemma OwnExtends(w: Writer, p: nat, author: seq<nat>, q: nat, n: Size)
    requires OwnInv(w, p, author, n) && w.pc != Published && q != p
    ensures OwnInv(w, p, author + [q], n)
  {
  }

  lemma OthersKeepOwn(s: State, a: Action, s': State, p: nat)
    requires Inv(s) && StepBy(s, a, s') && s.phase == Serving
    requires ByWriter(a) && p < |s'.writers| && p != a.p
    ensures OwnInv(s'.writers[p], p, s'.author, |s'.slots|)
  {
    hide Apply, Enabled, Holds, SlotOf;
    OthersFrame(s, a, s');
    if a.Publish? {
      WriterIsHolder(s, a.p);
      assert !InRegion(s.writers[p]);
      OwnExtends(s.writers[p], p, s.author, a.p, |s.slots|);
    } else {
      assert s'.author == s.author;
    }
  }

  /** A released session records the sample just committed as the context's own. */
  lemma ReleaseKeepsOwn(w: Writer, p: nat, author: seq<nat>, w': Writer, n: Size)
    requires author != [] && author[|author| - 1] == p
    requires w'.pc == Rest && w'.prevIndex == SlotOf(|author| - 1, n) && w'.own == At(|author| - 1)
    ensures OwnInv(w', p, author, n)
  {
  }

  /** Inside a session, and when publishing, the last own sample stays the same. */
  lemma SessionKeepsOwn(w: Writer, p: nat, author: seq<nat>, w': Writer, author': seq<nat>, n: Size)
    requires OwnInv(w, p, author, n)
    requires w'.own == w.own && w'.prevIndex == w.prevIndex
    requires author <= author' && Known(w', |author'|) == Known(w, |author|)
    ensures OwnInv(w', p, author', n)
  {
  }

  lemma OwnFrame(s: State, a: Action, s': State)
    requires StepBy(s, a, s') && ByWriter(a)
    ensures a.p < |s.writers| == |s'.writers| && |s'.slots| == |s.slots|
    ensures var w, w' := s.writers[a.p], s'.writers[a.p];
            if a.Release? then
              && s'.author == s.author && w'.pc == Rest && w'.prevIndex == w.index
              && w'.own == if |s.hist| == 0 then Fresh else At(|s.hist| - 1)
            else
              && w'.own == w.own && w'.prevIndex == w.prevIndex
              && s.author <= s'.author && Known(w', |s'.author|) == Known(w, |s.author|)
  {
  }

  lemma WriterKeepsOwn(s: State, a: Action, s': State)
    requires Inv(s) && StepBy(s, a, s') && s.phase == Serving
    requires ByWriter(a)
    ensures OwnInv(s'.writers[a.p], a.p, s'.author, |s'.slots|)
  {
    OwnFrame(s, a, s');
    var w, w' := s.writers[a.p], s'.writers[a.p];
    if a.Release? {
      WriterIsHolder(s, a.p);
      ReleaseKeepsOwn(w, a.p, s.author, w', |s.slots|);
    } else {
      SessionKeepsOwn(w, a.p, s.author, w', s'.author, |s.slots|);
    }
  }

  // ------------------------------------------------------------------
  // Creation of the section

  lemma CreatorKeepsShape(s: State, a: Action, s': State)
    requires Inv(s) && StepBy(s, a, s') && ByCreator(a)
    ensures Shape(s')
  {
    hide ServingInv, ReaderInv, CreationInv;
  }

  lemma CreatorKeepsCreation(s: State, a: Action, s': State)
    requires Inv(s) && StepBy(s, a, s') && ByCreator(a)
    ensures CreationInv(s')
  {
    hide RingInv, ReaderInv, OwnInv, Holder;
  }

  lemma CreatorKeepsReader(s: State, a: Action, s': State)
    requires Inv(s) && CreationInv(s') && StepBy(s, a, s') && ByCreator(a)
    ensures ReaderInv(s')
  {
    hide ServingInv, Shape, WindowInv, Apply;
    CreatorFrame(s, a, s');
  }

  lemma CreationEnds(s: State, s': State)
    requires Inv(s) && StepBy(s, EndCreation, s')
    ensures ServingInv(s')
    ensures s'.hist == [] && s'.writeIndex == -1 && s'.holder == -1 && s'.nbOngoing == 0
  {
    EmptyHolds(s.slots);
  }

  // ------------------------------------------------------------------
  // The consumer

  lemma WriterFrame(s: State, a: Action, s': State)
    requires StepBy(s, a, s') && ByWriter(a)
    ensures s'.reader == s.reader && s'.phase == s.phase && s'.magic == s.magic
    ensures s'.nbCreations == s.nbCreations && |s'.slots| == |s.slots|
    ensures s.hist <= s'.hist && s.reserved <= s'.reserved
  {
  }

  /** Commits and reservations leave what the consumer knows about its window true. */
  lemma WindowExtends(r: Reader, hist: seq<Payload>, reserved: nat, hist': seq<Payload>, reserved': nat, n: Size)
    requires InSession(r) && WindowInv(r, hist, reserved, n)
    requires hist <= hist' && reserved <= reserved'
    ensures WindowInv(r, hist', reserved', n)
  {
    forall a: nat | GoodStart(r, a, n) && Horizon(r, reserved') <= a + n
      ensures Copied(r, hist', a)
    {
      assert Copied(r, hist, a);
    }
  }

  lemma WriterKeepsReader(s: State, a: Action, s': State)
    requires Inv(s) && StepBy(s, a, s') && ByWriter(a)
    ensures ReaderInv(s')
  {
    WriterFrame(s, a, s');
    if InSession(s.reader) && SameRevision(s) {
      WindowExtends(s.reader, s.hist, s.reserved, s'.hist, s'.reserved, |s.slots|);
    }
  }

  lemma SnapshotKeepsReader(s: State, s': State)
    requires Inv(s) && StepBy(s, Snapshot, s')
    ensures ReaderInv(s')
  {
  }

  /** A cell copied before the start slot is reserved again is a cell of the history. */
  lemma LoadIsGood(r: Reader, slots: seq<Slot<Payload>>, hist: seq<Payload>, reserved: nat, j: nat, k: nat, a: nat)
    requires Holds(slots, hist, reserved)
    requires r.pc == Session && WindowInv(r, hist, reserved, |slots|) && j < r.count
    requires GoodStart(r, a, |slots|) && reserved <= a + |slots|
    ensures a + j < |hist| && slots[IndexNAfter(r.start, j, |slots|)].content == hist[a + j]
  {
    AfterSlot(a, j, |slots|);
  }

  lemma LoadKeepsWindow(r: Reader, slots: seq<Slot<Payload>>, hist: seq<Payload>, reserved: nat, j: nat, k: nat)
    requires Holds(slots, hist, reserved)
    requires r.pc == Session && WindowInv(r, hist, reserved, |slots|) && j < r.count
    requires k < |slots[IndexNAfter(r.start, j, |slots|)].content|
    ensures var v := slots[IndexNAfter(r.start, j, |slots|)].content[k];
            WindowInv(r.(buf := r.buf[(j, k) := v]), hist, reserved, |slots|)
  {
    var r' := r.(buf := r.buf[(j, k) := slots[IndexNAfter(r.start, j, |slots|)].content[k]]);
    forall a: nat | GoodStart(r', a, |slots|) && reserved <= a + |slots|
      ensures Copied(r', hist, a)
    {
      assert GoodStart(r, a, |slots|) && Copied(r, hist, a);
      LoadIsGood(r, slots, hist, reserved, j, k, a);
    }
  }

  lemma LoadKeepsReader(s: State, j: nat, k: nat, s': State)
    requires Inv(s) && StepBy(s, Load(j, k), s')
    ensures ReaderInv(s')
  {
    if SameRevision(s) {
      assert s.phase == Serving;
      LoadKeepsWindow(s.reader, s.slots, s.hist, s.reserved, j, k);
    }
  }

  /** An unchanged counter means that the start slot was not reserved in between. */
  lemma UnchangedCounter(r: Reader, slots: seq<Slot<Payload>>, hist: seq<Payload>, reserved: nat)
    requires Holds(slots, hist, reserved)
    requires r.pc == Session && WindowInv(r, hist, reserved, |slots|)
    requires slots[r.start].nbWrites == r.snap
    ensures NotReserved(r.snapReserved, reserved, r.start, |slots|)
  {
    HitsStill(r.snapReserved, reserved, r.start, |slots|);
  }

  /** Moving on in the end-of-read check keeps what is known about the copied cells. */
  lemma WindowKept(r: Reader, r': Reader, hist: seq<Payload>, reserved: nat, n: Size)
    requires WindowInv(r, hist, reserved, n) && InSession(r')
    requires r' == r.(pc := r'.pc, snap := r'.snap, checkReserved := r'.checkReserved)
    requires Horizon(r', reserved) == Horizon(r, reserved)
    requires r'.pc == Session ==> r'.snap == -1
    requires r'.pc != Session ==> NotReserved(r.snapReserved, r'.checkReserved, r.start, n)
    ensures WindowInv(r', hist, reserved, n)
  {
    forall a: nat | GoodStart(r', a, n) && Horizon(r', reserved) <= a + n
      ensures Copied(r', hist, a)
    {
      assert GoodStart(r, a, n);
    }
  }

  lemma CheckKeepsReader(s: State, a: Action, s': State)
    requires Inv(s) && StepBy(s, a, s') && (a.CheckCounter? || a.CheckRevision?)
    ensures ReaderInv(s')
  {
    if SameRevision(s) {
      assert s.phase == Serving;
      if a.CheckCounter? && s'.reader.pc == CounterOk {
        UnchangedCounter(s.reader, s.slots, s.hist, s.reserved);
      }
      if InSession(s'.reader) {
        WindowKept(s.reader, s'.reader, s.hist, s.reserved, |s.slots|);
      }
    }
  }

  lemma ReaderKeepsReader(s: State, a: Action, s': State)
    requires Inv(s) && StepBy(s, a, s') && !ByCreator(a) && !ByWriter(a)
    ensures ReaderInv(s')
  {
    if a.Snapshot? {
      SnapshotKeepsReader(s, s');
    } else if a.Load? {
      LoadKeepsReader(s, a.j, a.k, s');
    } else if a.CheckCounter? || a.CheckRevision? {
      CheckKeepsReader(s, a, s');
    }
  }

  lemma CreatorStepInv(s: State, a: Action, s': State)
    requires Inv(s) && StepBy(s, a, s') && ByCreator(a)
    ensures Inv(s')
  {
    hide Apply, Enabled, Shape, CreationInv, ServingInv, ReaderInv;
    CreatorKeepsShape(s, a, s');
    CreatorKeepsCreation(s, a, s');
    CreatorKeepsReader(s, a, s');
    CreatorFrame(s, a, s');
    if a.EndCreation? {
      CreationEnds(s, s');
    }
  }

  lemma WriterKeepsServing(s: State, a: Action, s': State)
    requires Inv(s) && StepBy(s, a, s') && ByWriter(a) && s.phase == Serving
    ensures IsRing(s'.slots) && ServingInv(s')
  {
    hide Apply, Enabled, SessionInv, RingInv, OwnInv, Shape, CreationInv, ReaderInv;
    WriterFrame(s, a, s');
    OthersFrame(s, a, s');
    WriterKeepsSession(s, a, s');
    WriterKeepsRing(s, a, s');
    WriterKeepsOwn(s, a, s');
    forall p | 0 <= p < |s'.writers| && p != a.p
      ensures OwnInv(s'.writers[p], p, s'.author, |s'.slots|)
    {
      OthersKeepOwn(s, a, s', p);
    }
  }

  lemma WriterStepInv(s: State, a: Action, s': State)
    requires Inv(s) && StepBy(s, a, s') && ByWriter(a)
    ensures Inv(s')
  {
    hide Apply, Enabled, Shape, CreationInv, ServingInv, ReaderInv;
    WriterFrame(s, a, s');
    WriterKeepsShape(s, a, s');
    WriterKeepsCreation(s, a, s');
    WriterKeepsReader(s, a, s');
    if s.phase == Serving {
      WriterKeepsServing(s, a, s');
    }
  }

  lemma ReaderStepInv(s: State, a: Action, s': State)
    requires Inv(s) && StepBy(s, a, s') && !ByCreator(a) && !ByWriter(a)
    ensures Inv(s')
  {
    hide Apply, Enabled, Counters, Contents, Holder, OwnInv, WindowInv, Hits, SlotOf;
    ReaderFrame(s, a, s');
    ReaderKeepsReader(s, a, s');
  }

  /** Every action keeps the invariant. */
  lemma StepInv(s: State, a: Action, s': State)
    requires Inv(s) && StepBy(s, a, s')
    ensures Inv(s')
  {
    hide Apply, Enabled, Inv;
    if ByCreator(a) {
      CreatorStepInv(s, a, s');
    } else if ByWriter(a) {
      WriterStepInv(s, a, s');
    } else {
      ReaderStepInv(s, a, s');
    }
  }

  /** The invariant holds throughout every run. */
  lemma {:induction false} RunInv(run: Run, i: nat)
    requires IsRun(run) && i < |run.states|
    ensures Inv(run.states[i])
  {
    if i == 0 {
      InitInv(run.states[0]);
    } else {
      RunInv(run, i - 1);
      assert StepAt(run, i - 1);
      StepInv(run.states[i - 1], run.actions[i - 1], run.states[i]);
    }
  }
}
