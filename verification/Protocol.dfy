/**
 The shared-memory protocol as a transition system: one action per load or store
 of shared memory, by the creator of the section, by any number of producer
 contexts, and by one consumer.  A consumer stores nothing, so a run with many
 consumers looks the same to each of them.

 `epoch`, `hist`, `author`, `reserved`, `holder` and the consumer's fields from
 `snapCommits` on record what happened; no action reads them to decide anything.
 */
module Protocol {
  import opened Errno
  import opened Index
  import opened Ring

  /** One separately stored unit of a sample's bytes (metadata or blob). */
  type Cell = int
  type Payload = seq<Cell>

  /** Where the creation of the section stands.  `Absent`: never created. */
  datatype Phase =
    | Absent
    | Serving
    | Stamped
    | IndexReset
    | OngoingReset
    | Clearing
    | Invalidating(next: nat)

  /** Where a producer context stands inside a call; `Rest` is between calls. */
  datatype WriterPc = Rest | Entered | Located | Bumped | Published | Gone

  /** The last sample of the current revision committed by a context. */
  datatype Own = Fresh | Stale | At(entry: nat)

  /** A producer context: `index` and `prevIndex` are the fields of the C context,
      `slot` a local variable, `ret` the last value returned. */
  datatype Writer = Writer(pc: WriterPc, alive: bool, index: int, prevIndex: int,
                           slot: int, ret: int, own: Own)

  const NEW_WRITER := Writer(Rest, true, -1, -1, -1, 0, Fresh)

  datatype ReaderPc = Closed | Mapped | ParityOk | Ready | Selected | Session | CounterOk | Accepted

  /** Cells copied in a read session, by row of the window and cell. */
  type Copies = map<(nat, nat), Cell>

  /** The consumer.  `buf` holds the cells copied in the session. */
  datatype Reader = Reader(pc: ReaderPc, rev: int, start: nat, count: nat, snap: int,
                           buf: Copies,
                           snapCommits: nat, snapReserved: nat, checkReserved: nat)

  datatype State = State(
    magic: bool, nbCreations: int, writeIndex: int, nbOngoing: int,
    slots: seq<Slot<Payload>>, width: nat,
    phase: Phase, writers: seq<Writer>, reader: Reader,
    epoch: nat, hist: seq<Payload>, author: seq<nat>, reserved: nat, holder: int)

  datatype Action =
    // shd_create
    | BeginCreation | ResetIndex | ResetOngoing | WriteMagic
    | ZeroCell(s: nat, k: nat) | ZeroCounter(s: nat) | FinishZeroing | Invalidate | EndCreation
    // shd_new_sample, shd_write_quantity, shd_commit_sample
    | Enter(p: nat) | Locate(p: nat) | Bump(p: nat) | Claim(p: nat)
    | Store(p: nat, k: nat, v: Cell) | Publish(p: nat) | Release(p: nat) | Die(p: nat)
    // shd_open, shd_select_samples, shd_read_quantity, shd_end_read
    | MapSection | LoadParity | LoadRevision | Select(start: nat, count: nat) | Snapshot
    | Load(j: nat, k: nat) | CheckCounter | CheckRevision | Close

  predicate ByCreator(a: Action) {
    || a.BeginCreation? || a.ResetIndex? || a.ResetOngoing? || a.WriteMagic?
    || a.ZeroCell? || a.ZeroCounter? || a.FinishZeroing? || a.Invalidate? || a.EndCreation?
  }

  predicate ByWriter(a: Action) {
    || a.Enter? || a.Locate? || a.Bump? || a.Claim?
    || a.Store? || a.Publish? || a.Release? || a.Die?
  }

  /** A sample is reserved but not yet published. */
  predicate HasReserved(w: Writer) {
    w.pc == Bumped || (w.pc == Rest && w.index != -1)
  }

  /** Between the fetch that returned 1 and the store of 0. */
  predicate InRegion(w: Writer) {
    w.pc == Entered || w.pc == Located || w.pc == Published || HasReserved(w)
  }

  /** No producer is inside a write session. */
  predicate Quiet(s: State) {
    forall w :: w in s.writers && w.alive ==> w.pc == Rest && w.index == -1
  }

  predicate Writing(s: State, p: nat, pc: WriterPc) {
    s.phase == Serving && p < |s.writers| && s.writers[p].alive && s.writers[p].pc == pc
  }

  predicate OpenSample(s: State, p: nat) {
    Writing(s, p, Rest) && 0 <= s.writers[p].index < |s.slots|
  }

  predicate AllZero(s: State) {
    forall i :: 0 <= i < |s.slots| ==>
      s.slots[i].nbWrites == 0 && forall k :: 0 <= k < |s.slots[i].content| ==> s.slots[i].content[k] == 0
  }

  ghost predicate Enabled(s: State, a: Action)
    requires IsRing(s.slots)
  {
    match a
    case BeginCreation => s.phase == Absent || (s.phase == Serving && Quiet(s))
    case ResetIndex => s.phase == Stamped
    case ResetOngoing => s.phase == IndexReset
    case WriteMagic => s.phase == OngoingReset
    case ZeroCell(i, k) => s.phase == Clearing && i < |s.slots| && k < |s.slots[i].content|
    case ZeroCounter(i) => s.phase == Clearing && i < |s.slots|
    case FinishZeroing => s.phase == Clearing && AllZero(s)
    case Invalidate => s.phase.Invalidating? && s.phase.next < |s.slots|
    case EndCreation => s.phase.Invalidating? && s.phase.next == |s.slots|
    case Enter(p) => Writing(s, p, Rest)
    case Locate(p) => Writing(s, p, Entered) && -1 <= s.writeIndex < |s.slots|
    case Bump(p) => Writing(s, p, Located) && 0 <= s.writers[p].slot < |s.slots|
    case Claim(p) => Writing(s, p, Bumped) && -1 <= s.writeIndex < |s.slots|
    case Store(p, k, v) => OpenSample(s, p) && k < |s.slots[s.writers[p].index].content|
    case Publish(p) => OpenSample(s, p)
    case Release(p) => Writing(s, p, Published)
    case Die(p) => p < |s.writers| && s.writers[p].alive
    case MapSection => s.reader.pc == Closed && s.magic
    case LoadParity => s.reader.pc == Mapped
    case LoadRevision => s.reader.pc == ParityOk
    case Select(start, count) =>
      && s.reader.pc in {Ready, Session, Accepted}
      && s.writeIndex != -1 && start < |s.slots| && 1 <= count <= |s.slots|
    case Snapshot => s.reader.pc == Selected && s.reader.start < |s.slots|
    case Load(j, k) =>
      && s.reader.pc == Session && j < s.reader.count <= |s.slots| && s.reader.start < |s.slots|
      && k < |s.slots[IndexNAfter(s.reader.start, j, |s.slots|)].content|
    case CheckCounter => s.reader.pc == Session && s.reader.start < |s.slots|
    case CheckRevision => s.reader.pc == CounterOk
    case Close => true
  }

  /** A context survives a re-creation only if it is between write sessions. */
  function Retire(w: Writer): Writer {
    w.(own := Stale, pc := if w.alive then w.pc else Gone)
  }

  function SetWriter(s: State, p: nat, w: Writer): State
    requires p < |s.writers|
  {
    s.(writers := s.writers[p := w])
  }

  function SetSlot(s: State, i: nat, slot: Slot<Payload>): State
    requires i < |s.slots|
  {
    s.(slots := s.slots[i := slot])
  }

  function Retired(ws: seq<Writer>): (r: seq<Writer>)
    ensures |r| == |ws| && forall p :: 0 <= p < |ws| ==> r[p] == Retire(ws[p])
  {
    seq(|ws|, i requires 0 <= i < |ws| => Retire(ws[i]))
  }

  ghost function ApplyCreator(s: State, a: Action): State
    requires IsRing(s.slots) && Enabled(s, a)
    requires ByCreator(a)
  {
    match a
    case BeginCreation =>
      s.(nbCreations := if s.phase == Absent then 1 else s.nbCreations + 1,
         phase := Stamped, writers := Retired(s.writers), holder := -1)
    case ResetIndex => s.(writeIndex := -1, phase := IndexReset)
    case ResetOngoing => s.(nbOngoing := 0, phase := OngoingReset)
    case WriteMagic => s.(magic := true, phase := Clearing)
    case ZeroCell(i, k) => SetSlot(s, i, s.slots[i].(content := s.slots[i].content[k := 0]))
    case ZeroCounter(i) => SetSlot(s, i, s.slots[i].(nbWrites := 0))
    case FinishZeroing => s.(phase := Invalidating(0))
    case Invalidate =>
      SetSlot(s, s.phase.next, s.slots[s.phase.next].(nbWrites := -1)).(phase := Invalidating(s.phase.next + 1))
    case EndCreation =>
      s.(nbCreations := s.nbCreations + 1, phase := Serving, epoch := s.epoch + 1,
         hist := [], author := [], reserved := 0, writers := s.writers + [NEW_WRITER])
  }

  ghost function ApplyWriter(s: State, a: Action): State
    requires IsRing(s.slots) && Enabled(s, a)
    requires ByWriter(a)
  {
    var n: Size := |s.slots|;
    var w := s.writers[a.p];
    match a
    case Enter(p) =>
      var s1 := s.(nbOngoing := s.nbOngoing + 1);
      if s1.nbOngoing == 1 then
        SetWriter(s1, p, w.(pc := Entered)).(holder := p)
      else
        SetWriter(s1, p, w.(ret := if w.index != -1 then -EALREADY else -EPERM))
    case Locate(p) => SetWriter(s, p, w.(pc := Located, slot := IndexNext(s.writeIndex, n)))
    case Bump(p) =>
      if w.index != -1 then
        SetWriter(s, p, w.(pc := Rest, ret := -EALREADY))
      else
        var slot := s.slots[w.slot];
        SetWriter(SetSlot(s, w.slot, slot.(nbWrites := slot.nbWrites + 1)), p, w.(pc := Bumped))
          .(reserved := s.reserved + 1)
    case Claim(p) =>
      var index := IndexNext(s.writeIndex, n);
      SetWriter(s, p, w.(pc := Rest, index := index, ret := ClaimResult(w.prevIndex, index, n)))
    case Store(p, k, v) =>
      var slot := s.slots[w.index];
      SetSlot(s, w.index, slot.(content := slot.content[k := v]))
    case Publish(p) =>
      SetWriter(s, p, w.(pc := Published))
        .(writeIndex := w.index, hist := s.hist + [s.slots[w.index].content], author := s.author + [p])
    case Release(p) =>
      SetWriter(s, p, w.(pc := Rest, prevIndex := w.index, index := -1, ret := 0,
                         own := if |s.hist| == 0 then Fresh else At(|s.hist| - 1)))
        .(nbOngoing := 0, holder := -1)
    case Die(p) => SetWriter(s, p, w.(alive := false))
  }

  ghost function ApplyReader(s: State, a: Action): Reader
    requires IsRing(s.slots) && Enabled(s, a)
    requires !ByCreator(a) && !ByWriter(a)
  {
    var r := s.reader;
    match a
    case MapSection => r.(pc := Mapped)
    case LoadParity => r.(pc := if s.nbCreations % 2 == 1 then Closed else ParityOk)
    case LoadRevision => r.(pc := Ready, rev := s.nbCreations)
    case Select(start, count) => r.(pc := Selected, start := start, count := count)
    case Snapshot =>
      r.(pc := Session, snap := s.slots[r.start].nbWrites, buf := map[],
         snapCommits := |s.hist|, snapReserved := s.reserved)
    case Load(j, k) =>
      r.(buf := r.buf[(j, k) := s.slots[IndexNAfter(r.start, j, |s.slots|)].content[k]])
    case CheckCounter =>
      if s.slots[r.start].nbWrites == r.snap then
        r.(pc := CounterOk, snap := -1, checkReserved := s.reserved)
      else
        r.(snap := -1)
    case CheckRevision => r.(pc := if r.rev == s.nbCreations then Accepted else Ready)
    case Close => r.(pc := Closed)
  }

  ghost function Apply(s: State, a: Action): State
    requires IsRing(s.slots) && Enabled(s, a)
  {
    if ByCreator(a) then ApplyCreator(s, a)
    else if ByWriter(a) then ApplyWriter(s, a)
    else s.(reader := ApplyReader(s, a))
  }

  /** A section that has never been created: nothing but its size is known. */
  ghost predicate Init(s: State) {
    && IsRing(s.slots)
    && (forall i :: 0 <= i < |s.slots| ==> |s.slots[i].content| == s.width)
    && s.phase == Absent && !s.magic && s.writers == [] && s.reader.pc == Closed
    && s.epoch == 0 && s.hist == [] && s.author == []
  }

  ghost predicate StepBy(s: State, a: Action, s': State) {
    IsRing(s.slots) && Enabled(s, a) && s' == Apply(s, a)
  }

  /** The states of a run and the actions between them. */
  datatype Run = Run(states: seq<State>, actions: seq<Action>)

  ghost predicate StepAt(r: Run, i: nat)
    requires i < |r.actions| && i + 1 < |r.states|
  {
    StepBy(r.states[i], r.actions[i], r.states[i + 1])
  }

  ghost predicate IsRun(r: Run) {
    && |r.states| == |r.actions| + 1
    && Init(r.states[0])
    && forall i :: 0 <= i < |r.actions| ==> StepAt(r, i)
  }
}
