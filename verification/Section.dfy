/**
 The mapped section and the contexts that work on it (src/shd_sync.c,
 src/shd_data.c, src/shd.c), one call at a time.  The ghost field `hist` is the
 history of committed samples; the contracts say what each call does to it.
 */
module Sections {
  import opened Errno
  import opened Index
  import opened Ring
  import opened Search
  import opened Windows

  // ------------------------------------------------------------------
  // Bytes of a blob

  /** The blob after `src` is copied to `offset`. */
  function Patch(blob: seq<Byte>, offset: nat, src: seq<Byte>): (r: seq<Byte>)
    requires offset + |src| <= |blob|
    ensures |r| == |blob|
    ensures r[offset..offset + |src|] == src
    ensures forall i :: 0 <= i < |blob| && !(offset <= i < offset + |src|) ==> r[i] == blob[i]
  {
    blob[..offset] + src + blob[offset + |src|..]
  }

  lemma PatchedByte(blob: seq<Byte>, offset: nat, src: seq<Byte>, i: nat)
    requires offset + |src| <= |blob| && i < |blob|
    ensures Patch(blob, offset, src)[i] == if offset <= i < offset + |src| then src[i - offset] else blob[i]
  {
  }

  datatype Quantity = Quantity(offset: nat, bytes: seq<Byte>)

  predicate Fits(w: Quantity, size: nat) {
    w.offset + |w.bytes| <= size
  }

  /** The blob after a sequence of quantity writes. */
  function PatchAll(blob: seq<Byte>, writes: seq<Quantity>): (r: seq<Byte>)
    requires forall w :: w in writes ==> Fits(w, |blob|)
    ensures |r| == |blob|
  {
    if writes == [] then blob
    else
      var last := writes[|writes| - 1];
      assert Fits(last, |blob|);
      Patch(PatchAll(blob, writes[..|writes| - 1]), last.offset, last.bytes)
  }

  /** Index of the last write that covers byte i; -1 if none does. */
  function LastWrite(writes: seq<Quantity>, i: nat): (j: int)
    ensures -1 <= j < |writes|
    ensures j >= 0 ==> writes[j].offset <= i < writes[j].offset + |writes[j].bytes|
    ensures forall k :: j < k < |writes| ==> !(writes[k].offset <= i < writes[k].offset + |writes[k].bytes|)
  {
    if writes == [] then -1
    else
      var last := writes[|writes| - 1];
      if last.offset <= i < last.offset + |last.bytes| then |writes| - 1
      else LastWrite(writes[..|writes| - 1], i)
  }

  /** Each byte of a sample is the one stored by the last write that covers it, and a
      byte no write covers is what the slot held before. */
  lemma {:induction false} LastWriteWins(blob: seq<Byte>, writes: seq<Quantity>, i: nat)
    requires i < |blob| && forall w :: w in writes ==> Fits(w, |blob|)
    ensures var j := LastWrite(writes, i);
            PatchAll(blob, writes)[i] == if j >= 0 then writes[j].bytes[i - writes[j].offset] else blob[i]
  {
    hide Patch;
    if writes != [] {
      var last := writes[|writes| - 1];
      var prior := PatchAll(blob, writes[..|writes| - 1]);
      LastWriteWins(blob, writes[..|writes| - 1], i);
      assert Fits(last, |blob|);
      PatchedByte(prior, last.offset, last.bytes, i);
    }
  }

  /** No write after the k-th touches the bytes it stored. */
  predicate LastOnRange(writes: seq<Quantity>, k: nat) {
    k < |writes| && forall l :: k < l < |writes| ==>
      writes[l].offset + |writes[l].bytes| <= writes[k].offset ||
      writes[k].offset + |writes[k].bytes| <= writes[l].offset
  }

  /** Such a quantity is read back as it was written. */
  lemma {:induction false} WrittenIsRead(blob: seq<Byte>, writes: seq<Quantity>, k: nat)
    requires LastOnRange(writes, k) && forall w :: w in writes ==> Fits(w, |blob|)
    ensures var q := writes[k];
            Fits(q, |blob|) && PatchAll(blob, writes)[q.offset..q.offset + |q.bytes|] == q.bytes
  {
    var last, init := writes[|writes| - 1], writes[..|writes| - 1];
    assert Fits(last, |blob|);
    if k < |writes| - 1 {
      var q := writes[k];
      assert init[k] == q;
      WrittenIsRead(blob, init, k);
      var before, now := PatchAll(blob, init), PatchAll(blob, writes);
      assert now == Patch(before, last.offset, last.bytes);
      assert now[q.offset..q.offset + |q.bytes|] == before[q.offset..q.offset + |q.bytes|];
    }
  }

  // ------------------------------------------------------------------
  // Synchronisation data

  /** struct shd_sync_hdr, in the shared section. */
  class SyncHdr {
    var nbCreations: int
    var writeIndex: int
    var nbOngoing: int

    constructor (nbCreations: int, writeIndex: int, nbOngoing: int)
      ensures this.nbCreations == nbCreations && this.writeIndex == writeIndex && this.nbOngoing == nbOngoing
    {
      this.nbCreations, this.writeIndex, this.nbOngoing := nbCreations, writeIndex, nbOngoing;
    }

    /** The atomic primitive of the section, applied to nb_ongoing_writes. */
    method AddAndFetchOngoing() returns (r: int)
      modifies `nbOngoing
      ensures r == nbOngoing == old(nbOngoing) + 1
    {
      nbOngoing := nbOngoing + 1;
      r := nbOngoing;
    }
  }

  /** struct shd_sync_ctx, private to a context.  `own` is the position of the last
      sample it committed, -1 before the first. */
  class SyncCtx {
    var index: int
    var prevIndex: int
    var nbWrites: int
    var revision: int
    ghost var own: int

    constructor ()
      ensures index == prevIndex == own == -1 && nbWrites == revision == 0
    {
      index, prevIndex, nbWrites, revision, own := -1, -1, 0, 0, -1;
    }

    method StartWriteSession(hdr: SyncHdr) returns (ret: int)
      modifies hdr`nbOngoing
      ensures hdr.nbOngoing == old(hdr.nbOngoing) + 1
      ensures ret == if old(hdr.nbOngoing) == 0 then 0 else if index != -1 then -EALREADY else -EPERM
    {
      var ongoing := hdr.AddAndFetchOngoing();
      if ongoing != 1 {
        return if index != -1 then -EALREADY else -EPERM;
      }
      return 0;
    }

    method StartSampleWrite(hdr: SyncHdr, slots: array<Slot<Sample>>, at: nat) returns (ret: int)
      requires 2 <= slots.Length <= MAX_SAMPLES && at < slots.Length && -1 <= hdr.writeIndex < slots.Length
      modifies this`index, slots
      ensures old(index) != -1 ==> ret == -EALREADY && index == old(index) && slots[..] == old(slots[..])
      ensures old(index) == -1 ==>
                && index == IndexNext(hdr.writeIndex, slots.Length)
                && slots[..] == old(slots[..][at := slots[at].(nbWrites := slots[at].nbWrites + 1)])
                && ret == ClaimResult(prevIndex, index, slots.Length)
    {
      if index != -1 {
        return -EALREADY;
      }
      slots[at] := slots[at].(nbWrites := slots[at].nbWrites + 1);
      index := IndexNext(hdr.writeIndex, slots.Length);
      if UnexpectedSamples(prevIndex, index, slots.Length) > 0 && prevIndex != -1 {
        return -EFAULT;
      }
      return 0;
    }

    method EndWriteSession(hdr: SyncHdr)
      modifies hdr`writeIndex, hdr`nbOngoing, this`index, this`prevIndex
      ensures hdr.writeIndex == prevIndex == old(index) && index == -1 && hdr.nbOngoing == 0
    {
      hdr.writeIndex := index;
      hdr.nbOngoing := 0;
      prevIndex := index;
      index := -1;
    }

    method StartReadSession(slot: Slot<Sample>)
      modifies this`nbWrites
      ensures nbWrites == slot.nbWrites
    {
      nbWrites := slot.nbWrites;
    }

    method EndReadSession(slot: Slot<Sample>) returns (ret: int)
      modifies this`nbWrites
      ensures ret == (if old(nbWrites) == slot.nbWrites then 0 else -EFAULT) && nbWrites == -1
    {
      ret := if nbWrites != slot.nbWrites then -EFAULT else 0;
      nbWrites := -1;
    }

    /** Loads the revision of a section at rest. */
    method UpdateLocalRevision(hdr: SyncHdr) returns (ret: int)
      modifies this`revision
      ensures ret == if hdr.nbCreations % 2 == 1 then -EAGAIN else hdr.nbCreations
      ensures revision == if hdr.nbCreations % 2 == 1 then old(revision) else hdr.nbCreations
    {
      if hdr.nbCreations % 2 == 1 {
        return -EAGAIN;
      }
      revision := hdr.nbCreations;
      return revision;
    }
  }

  /** The result of a reservation by a context whose last sample is at position own. */
  lemma OwnResult(c: nat, own: int, n: Size)
    requires -1 <= own < c && n >= 2
    ensures ClaimResult(if own < 0 then -1 else SlotOf(own, n), SlotOf(c, n), n)
         == if own < 0 || SlotOf(c - 1 - own, n) == 0 then 0 else -EFAULT
  {
    if own >= 0 {
      UnexpectedIsRemainder(own, c - 1 - own, n);
    }
  }

  // ------------------------------------------------------------------
  // The section

  class Section {
    const hdr: SyncHdr
    const slots: array<Slot<Sample>>
    const blobSize: nat
    ghost var hist: seq<Sample>
    ghost var holder: SyncCtx?

    /** A section just allocated: zeroed memory, never created. */
    constructor (nbSamples: nat, blobSize: nat)
      requires 2 <= nbSamples <= MAX_SAMPLES
      ensures fresh(hdr) && fresh(slots) && slots.Length == nbSamples && this.blobSize == blobSize
      ensures hdr.nbCreations == 0 && hist == [] && holder == null
    {
      hdr := new SyncHdr(0, 0, 0);
      slots := new Slot<Sample>[nbSamples](_ => Slot(0, Sample(Metadata(0, 0), seq(blobSize, _ => 0))));
      this.blobSize := blobSize;
      hist, holder := [], null;
    }

    ghost predicate Geometry()
      reads slots
    {
      && IsRing(slots[..])
      && forall i :: 0 <= i < slots.Length ==> |slots[i].content.blob| == blobSize
    }

    /** Samples reserved so far. */
    ghost function Reserved(): nat
      reads this
    {
      |hist| + if holder == null then 0 else 1
    }

    /** The section between two calls of its producers. */
    ghost predicate Valid()
      reads this, hdr, slots, holder
    {
      && Geometry()
      && hdr.nbOngoing >= 0
      && (hdr.nbOngoing == 0 <==> holder == null)
      && (holder != null ==> holder.index == SlotOf(|hist|, slots.Length))
      && hdr.writeIndex == LastIndex(|hist|, slots.Length)
      && Holds(slots[..], hist, Reserved())
    }

    /** A producer context of the current revision. */
    ghost predicate Tracks(ctx: SyncCtx)
      requires IsRing(slots[..])
      reads this, ctx, slots
    {
      && (ctx.index != -1 <==> ctx == holder)
      && -1 <= ctx.own < |hist|
      && ctx.prevIndex == if ctx.own < 0 then -1 else SlotOf(ctx.own, slots.Length)
    }

    /** shd_create from the moment the section is mapped and locked. */
    method Recreate(firstCreation: bool) returns (ret: int)
      requires 2 <= slots.Length <= MAX_SAMPLES
      modifies this, hdr, slots
      ensures Valid() && hist == [] && holder == null
      ensures hdr.nbCreations == if firstCreation then 2 else old(hdr.nbCreations) + 2
      ensures ret == if firstCreation || old(hdr.nbCreations) % 2 == 0 then hdr.nbCreations else -EFAULT
      ensures forall i :: 0 <= i < slots.Length ==> slots[i] == Slot(-1, Sample(Metadata(0, 0), seq(blobSize, _ => 0)))
    {
      hdr.nbCreations := if firstCreation then 1 else hdr.nbCreations + 1;
      hdr.writeIndex := -1;
      hdr.nbOngoing := 0;
      ClearSection();
      hist, holder := [], null;
      EmptyHolds(slots[..]);
      hdr.nbCreations := hdr.nbCreations + 1;
      ret := if hdr.nbCreations % 2 != 0 then -EFAULT else hdr.nbCreations;
    }

    method ClearSection()
      modifies slots
      ensures forall i :: 0 <= i < slots.Length ==> slots[i] == Slot(-1, Sample(Metadata(0, 0), seq(blobSize, _ => 0)))
    {
      var zero := Slot(0, Sample(Metadata(0, 0), seq(blobSize, _ => 0)));
      forall i | 0 <= i < slots.Length {
        slots[i] := zero;
      }
      for i := 0 to slots.Length
        invariant forall j :: 0 <= j < slots.Length ==> slots[j] == zero.(nbWrites := if j < i then -1 else 0)
      {
        slots[i] := slots[i].(nbWrites := -1);
      }
    }

    /** The next slot, with its counter bumped. */
    ghost function Bumped(before: seq<Slot<Sample>>): (after: seq<Slot<Sample>>)
      requires IsRing(before)
      reads this
    {
      var s := SlotOf(|hist|, |before|);
      before[s := before[s].(nbWrites := before[s].nbWrites + 1)]
    }

    /** Bumps the next slot and makes it the context's own, once the session is open. */
    method ClaimSlot(ctx: SyncCtx) returns (ret: int)
      requires Geometry() && Holds(slots[..], hist, |hist|) && hdr.writeIndex == LastIndex(|hist|, slots.Length)
      requires ctx.index == -1 && -1 <= ctx.own < |hist|
      requires ctx.prevIndex == if ctx.own < 0 then -1 else SlotOf(ctx.own, slots.Length)
      modifies slots, ctx`index
      ensures Geometry() && Holds(slots[..], hist, |hist| + 1) && slots[..] == Bumped(old(slots[..]))
      ensures ctx.index == SlotOf(|hist|, slots.Length)
      ensures ret == if ctx.own < 0 || SlotOf(|hist| - 1 - ctx.own, slots.Length) == 0 then 0 else -EFAULT
    {
      hide Counters, Contents, Hits, SlotOf;
      NextSlot(|hist|, slots.Length);
      OwnResult(|hist|, ctx.own, slots.Length);
      ghost var before := slots[..];
      ret := ctx.StartSampleWrite(hdr, slots, IndexNext(hdr.writeIndex, slots.Length));
      assert slots[..] == Bumped(before);
      ReserveKeeps(before, hist, slots[..]);
    }

    /** Reserves the next slot.  It is refused while a session is open, with the error
        that tells who holds it.  It is reported as a fault when other contexts have
        committed samples since this one's last, unless their number is a multiple of
        the ring size; the session is open even then. */
    method ReserveWrite(ctx: SyncCtx) returns (ret: int)
      requires Valid() && Tracks(ctx)
      modifies this`holder, hdr`nbOngoing, slots, ctx`index
      ensures Valid() && Tracks(ctx) && hdr.nbOngoing == old(hdr.nbOngoing) + 1
      ensures old(holder) != null ==>
                && ret == (if old(holder) == ctx then -EALREADY else -EPERM)
                && holder == old(holder) && slots[..] == old(slots[..])
      ensures old(holder) == null ==>
                && holder == ctx && slots[..] == Bumped(old(slots[..]))
                && ret == if ctx.own < 0 || SlotOf(|hist| - 1 - ctx.own, slots.Length) == 0 then 0 else -EFAULT
    {
      hide Counters, Contents, Hits, SlotOf;
      ret := ctx.StartWriteSession(hdr);
      if ret < 0 {
        return;
      }
      ret := ClaimSlot(ctx);
      holder := ctx;
    }

    /** Stores into the reserved slot. */
    method StoreContent(ctx: SyncCtx, content: Sample)
      requires Valid() && Tracks(ctx) && ctx.index != -1 && |content.blob| == blobSize
      modifies slots
      ensures Valid() && Tracks(ctx)
      ensures slots[..] == old(slots[..][ctx.index := slots[ctx.index].(content := content)])
    {
      StoreKeeps(slots[..], hist, content);
      slots[ctx.index] := slots[ctx.index].(content := content);
    }

    method WriteMetadata(ctx: SyncCtx, meta: Metadata) returns (ret: int)
      requires Valid() && Tracks(ctx)
      modifies slots
      ensures Valid() && Tracks(ctx)
      ensures ret == if ctx == holder then 0 else -EPERM
      ensures if ctx != holder then slots[..] == old(slots[..])
              else
                var content := old(slots[ctx.index].content).(meta := meta);
                slots[..] == old(slots[..][ctx.index := slots[ctx.index].(content := content)])
    {
      if ctx.index == -1 {
        return -EPERM;
      }
      StoreContent(ctx, slots[ctx.index].content.(meta := meta));
      return 0;
    }

    method WriteQuantity(ctx: SyncCtx, offset: nat, src: seq<Byte>) returns (ret: int)
      requires Valid() && Tracks(ctx) && offset + |src| <= blobSize
      modifies slots
      ensures Valid() && Tracks(ctx)
      ensures ret == if ctx == holder then 0 else -EPERM
      ensures if ctx != holder then slots[..] == old(slots[..])
              else
                var before := old(slots[ctx.index].content);
                var content := before.(blob := Patch(before.blob, offset, src));
                slots[..] == old(slots[..][ctx.index := slots[ctx.index].(content := content)])
    {
      if ctx.index == -1 {
        return -EPERM;
      }
      var content := slots[ctx.index].content;
      StoreContent(ctx, content.(blob := Patch(content.blob, offset, src)));
      return 0;
    }

    /** The calls of shd_write_quantity for one sample, in order: the reserved slot takes
        all of them, and nothing else changes. */
    method WriteQuantities(ctx: SyncCtx, writes: seq<Quantity>) returns (ret: int)
      requires Valid() && Tracks(ctx) && ctx == holder && forall w :: w in writes ==> Fits(w, blobSize)
      modifies slots
      ensures Valid() && Tracks(ctx) && ret == 0
      ensures var before := old(slots[ctx.index].content);
              var content := before.(blob := PatchAll(before.blob, writes));
              slots[..] == old(slots[..][ctx.index := slots[ctx.index].(content := content)])
    {
      ghost var before := slots[..];
      ghost var content := slots[ctx.index].content;
      var i := 0;
      ret := 0;
      while i < |writes|
        invariant 0 <= i <= |writes| && ret == 0
        invariant Valid() && Tracks(ctx)
        invariant var blob := PatchAll(content.blob, writes[..i]);
                  slots[..] == before[ctx.index := before[ctx.index].(content := content.(blob := blob))]
      {
        assert Fits(writes[i], blobSize) && writes[..i + 1][..i] == writes[..i];
        ret := WriteQuantity(ctx, writes[i].offset, writes[i].bytes);
        i := i + 1;
      }
      assert writes[..i] == writes;
    }

    /** Publishes the reserved slot: its content becomes the newest sample. */
    method EndWrite(ctx: SyncCtx) returns (ret: int)
      requires Valid() && Tracks(ctx)
      modifies this, hdr`writeIndex, hdr`nbOngoing, ctx`index, ctx`prevIndex, ctx`own
      ensures Valid() && Tracks(ctx)
      ensures ret == if old(holder) == ctx then 0 else -EPERM
      ensures if old(holder) != ctx then hist == old(hist) && holder == old(holder) && ctx.own == old(ctx.own)
              else
                && hist == old(hist) + [slots[SlotOf(old(|hist|), slots.Length)].content]
                && holder == null && ctx.own == old(|hist|)
    {
      if ctx.index == -1 {
        return -EPERM;
      }
      CommitKeeps(slots[..], hist);
      hist := hist + [slots[ctx.index].content];
      holder := null;
      ctx.EndWriteSession(hdr);
      ctx.own := |hist| - 1;
      return 0;
    }

    /** shd_new_sample, one shd_write_quantity for each of `writes`, shd_commit_sample:
        exactly one sample is appended, and its bytes are those of the writes in order. */
    method WriteSample(ctx: SyncCtx, meta: Metadata, writes: seq<Quantity>) returns (ret: int)
      requires Valid() && Tracks(ctx) && forall w :: w in writes ==> Fits(w, blobSize)
      modifies this, hdr`writeIndex, hdr`nbOngoing, slots, ctx`index, ctx`prevIndex, ctx`own
      ensures Valid() && Tracks(ctx)
      ensures ret == if old(holder) == ctx then -EALREADY
                     else if old(holder) != null then -EPERM
                     else if old(ctx.own) < 0 || SlotOf(old(|hist|) - 1 - old(ctx.own), slots.Length) == 0 then 0
                     else -EFAULT
      ensures ret != 0 ==> hist == old(hist) && holder == if ret == -EFAULT then ctx else old(holder)
      ensures ret == 0 ==>
                && holder == null && ctx.own == old(|hist|)
                && var blob := old(slots[SlotOf(|hist|, slots.Length)].content.blob);
                   hist == old(hist) + [Sample(meta, PatchAll(blob, writes))]
    {
      hide Counters, Contents, Hits, SlotOf;
      ret := ReserveWrite(ctx);
      if ret < 0 {
        return;
      }
      ret := WriteMetadata(ctx, meta);
      ret := WriteQuantities(ctx, writes);
      ret := EndWrite(ctx);
    }

    /** shd_write_new_blob.  It fails only if a session is open or foreign samples are
        noticed; a context that alone writes to the section therefore never fails, and
        each call appends its sample to the history. */
    method WriteNewBlob(ctx: SyncCtx, src: seq<Byte>, meta: Metadata) returns (ret: int)
      requires Valid() && Tracks(ctx) && |src| <= blobSize
      modifies this, hdr`writeIndex, hdr`nbOngoing, slots, ctx`index, ctx`prevIndex, ctx`own
      ensures Valid() && Tracks(ctx)
      ensures ret == if old(holder) == ctx then -EALREADY
                     else if old(holder) != null then -EPERM
                     else if old(ctx.own) < 0 || SlotOf(old(|hist|) - 1 - old(ctx.own), slots.Length) == 0 then 0
                     else -EFAULT
      ensures ret == 0 ==>
                && holder == null && ctx.own == old(|hist|)
                && var blob := old(slots[SlotOf(|hist|, slots.Length)].content.blob);
                   hist == old(hist) + [Sample(meta, Patch(blob, 0, src))]
      ensures ret != 0 ==> hist == old(hist) && holder == if ret == -EFAULT then ctx else old(holder)
    {
      hide Counters, Contents, Hits, SlotOf;
      ret := ReserveWrite(ctx);
      if ret < 0 {
        return;
      }
      ret := WriteMetadata(ctx, meta);
      if ret < 0 {
        return;
      }
      ret := WriteQuantity(ctx, 0, src);
      if ret < 0 {
        return;
      }
      ret := EndWrite(ctx);
    }
  }

  // ------------------------------------------------------------------
  // Consumers

  /** A request passes the guard of shd_data_find, whose sum is a uint32_t. */
  predicate GuardPasses(req: Request, n: Size) {
    U32(req.after + req.before + 1) <= n
  }

  /** The guard lets through the requests for at most n samples, and those for so many
      that the sum wraps around. */
  lemma GuardIsExact(req: Request, n: Size)
    requires req.before < TWO32 && req.after < TWO32
    ensures GuardPasses(req, n) <==>
              req.before + req.after + 1 <= n || TWO32 <= req.before + req.after + 1 <= TWO32 + n
  {
    U32IsRemainder(req.after + req.before + 1);
  }

  /** How the library reads a range of bytes, and the metadata, of a sample. */
  function BytesOf(offset: nat, size: nat): Sample -> seq<Byte> {
    (s: Sample) => if offset + size <= |s.blob| then s.blob[offset..offset + size] else []
  }

  lemma BytesOfSize(slots: seq<Slot<Sample>>, blobSize: nat, offset: nat, size: nat)
    requires offset + size <= blobSize
    requires forall i :: 0 <= i < |slots| ==> |slots[i].content.blob| == blobSize
    ensures FieldSize(slots, BytesOf(offset, size), size)
  {
  }

  /** Row j of a copy in chunks of the size of `bytes` is `bytes`. */
  predicate ReadsAt(copy: seq<Byte>, j: nat, bytes: seq<Byte>) {
    0 <= |bytes| * j <= |bytes| * j + |bytes| <= |copy| && copy[|bytes| * j..|bytes| * j + |bytes|] == bytes
  }

  /** Row j of a copied byte range is that range of the j-th sample. */
  lemma BytesRow(hist: seq<Sample>, lo: nat, count: nat, offset: nat, bytes: seq<Byte>, j: nat)
    requires lo + count <= |hist| && j < count
    requires forall e :: lo <= e < lo + count ==> offset + |bytes| <= |hist[e].blob|
    requires hist[lo + j].blob[offset..offset + |bytes|] == bytes
    ensures ReadsAt(Interval(hist, lo, count, BytesOf(offset, |bytes|)), j, bytes)
  {
    IntervalRow(hist, lo, count, BytesOf(offset, |bytes|), |bytes|, j);
  }

  lemma BlobSizes(slots: seq<Slot<Sample>>, hist: seq<Sample>, r: nat, start: nat, lo: nat, count: nat, size: nat)
    requires IsRing(slots) && Contents(slots, hist, r) && count <= |slots|
    requires lo + count <= |hist| && r <= lo + |slots| && start == SlotOf(lo, |slots|)
    requires forall i :: 0 <= i < |slots| ==> |slots[i].content.blob| == size
    ensures forall e :: lo <= e < lo + count ==> |hist[e].blob| == size
  {
    forall e | lo <= e < lo + count
      ensures |hist[e].blob| == size
    {
      RowIsSample(slots, hist, r, start, lo, e - lo);
    }
  }

  /** A quantity written for a sample, and by no later write of that sample, is what any
      window that holds the sample gives back for the same byte range, in the sample's
      row, however many samples were written since. */
  lemma WrittenIsReadBack(window: Window, slots: seq<Slot<Sample>>, hist: seq<Sample>, r: nat, p: nat, req: Request,
                          lo: nat, row: nat, blob: seq<Byte>, writes: seq<Quantity>, k: nat, q: Quantity)
    requires IsRing(slots) && Contents(slots, hist, r) && p < |hist| <= p + |slots|
    requires window.Around(SlotOf(|hist| - 1, |slots|), |hist|, |slots|, p, req)
    requires lo == WindowLo(|hist|, |slots|, p, req.before) && r <= lo + |slots| && row < window.nbMatches
    requires forall i :: 0 <= i < |slots| ==> |slots[i].content.blob| == |blob|
    requires LastOnRange(writes, k) && q == writes[k] && (forall w :: w in writes ==> Fits(w, |blob|))
    requires lo + row < |hist| && hist[lo + row].blob == PatchAll(blob, writes)
    ensures 0 <= window.startIdx < |slots| && 0 < window.nbMatches <= |slots|
    ensures ReadsAt(Rows(slots, window.startIdx, window.nbMatches, BytesOf(q.offset, |q.bytes|)), row, q.bytes)
  {
    hide Contents, Rows, Interval, SlotOf;
    window.CopyIsHistory(slots, hist, r, p, req, BytesOf(q.offset, |q.bytes|));
    WrittenIsRead(blob, writes, k);
    BlobSizes(slots, hist, r, window.startIdx, lo, window.nbMatches, |blob|);
    BytesRow(hist, lo, window.nbMatches, q.offset, q.bytes, row);
  }

  function MetaOf(): Sample -> seq<Metadata> {
    (s: Sample) => [s.meta]
  }

  lemma {:induction false} MetadataRows(slots: seq<Slot<Sample>>, start: nat, count: nat)
    requires start < |slots| <= MAX_SAMPLES && count <= |slots|
    ensures |Rows(slots, start, count, MetaOf())| == count
    ensures forall j :: 0 <= j < count ==>
              Rows(slots, start, count, MetaOf())[j] == slots[IndexNAfter(start, j, |slots|)].content.meta
  {
    if count > 0 {
      MetadataRows(slots, start, count - 1);
    }
  }

  /** The samples of a committed window are those of the history, in order. */
  lemma WindowMetadata(window: Window, slots: seq<Slot<Sample>>, hist: seq<Sample>, r: nat, p: nat, req: Request,
                       lo: nat)
    requires IsRing(slots) && Contents(slots, hist, r) && p < |hist| <= p + |slots|
    requires window.Around(SlotOf(|hist| - 1, |slots|), |hist|, |slots|, p, req)
    requires lo == WindowLo(|hist|, |slots|, p, req.before) && r <= lo + |slots|
    ensures 0 <= window.startIdx < |slots| && 0 < window.nbMatches <= |slots| && lo + window.nbMatches <= |hist|
    ensures forall j :: 0 <= j < window.nbMatches ==>
              slots[IndexNAfter(window.startIdx, j, |slots|)].content.meta == hist[lo + j].meta
  {
    window.CopyIsHistory(slots, hist, r, p, req, MetaOf());
    forall j | 0 <= j < window.nbMatches
      ensures slots[IndexNAfter(window.startIdx, j, |slots|)].content.meta == hist[lo + j].meta
    {
      RowIsSample(slots, hist, r, window.startIdx, lo, j);
    }
  }

  /** A consumer context of a section. */
  class Consumer {
    const section: Section
    const sync: SyncCtx
    const window: Window
    const hint: Hint

    constructor (section: Section, hint: Hint)
      ensures this.section == section && this.hint == hint
      ensures fresh(sync) && fresh(window) && window.Empty()
    {
      this.section, this.hint := section, hint;
      sync := new SyncCtx();
      window := new Window();
    }

    ghost predicate Valid()
      reads this, window, section, section.hdr, section.slots, section.holder
    {
      section.Valid() && window.Valid()
    }

    /** Opens a read session on the window: the counter kept is the number of times its
        start slot was reserved so far, less one. */
    method StartRead()
      requires Valid() && 0 <= window.startIdx < section.slots.Length
      modifies sync`nbWrites
      ensures Valid()
      ensures sync.nbWrites == Hits(section.Reserved(), window.startIdx, section.slots.Length) - 1
    {
      sync.StartReadSession(section.slots[window.startIdx]);
    }

    /** What a search returns when its reference sample is at position p. */
    ghost predicate Found(req: Request, p: int, ret: int)
      requires IsRing(section.slots[..]) && section.hist != []
      reads this, window, section, section.slots
    {
      var n: Size, c := section.slots.Length, |section.hist|;
      if req.how == Unknown then ret == -EINVAL && window.Empty()
      else if p == c then ret == -ENOENT && window.Empty()
      else
        && c - n <= p < c && window.Around(SlotOf(c - 1, n), c, n, p, req)
        && ret == window.nbMatches > 0 && 0 <= window.startIdx < n
    }

    /** Position of the reference sample of a request. */
    ghost function Position(req: Request): int
      requires IsRing(section.slots[..])
      reads section, section.slots
    {
      SeenPosition(section.slots[..], section.hist, section.Reserved(), req, hint)
    }

    /** The search of shd_data_find. */
    method Search(req: Request) returns (ret: int)
      requires Valid() && section.hist != []
      requires req.before + req.after + 1 <= section.slots.Length
      modifies window
      ensures Valid() && Found(req, Position(req), ret)
    {
      hide Counters, Contents, SlotOf, Hits, SeenPosition, WindowLo, WindowHi, IndexOf;
      var image := section.slots[..];
      ghost var r := section.Reserved();
      ghost var p := Position(req);
      SeenInRing(image, section.hist, r, req, hint);
      ret := window.SetOnStillRing(section.hdr.writeIndex, image, req, hint, section.hist, r);
      assert Position(req) == p;
    }

    /** shd_data_find: the window of the search, and a counter that is the number of times
        its start slot was reserved so far, less one. */
    method Find(req: Request) returns (ret: int)
      requires Valid()
      requires req.before + req.after + 1 < TWO32
      modifies window, sync`nbWrites
      ensures Valid()
      ensures if section.hist == [] then ret == -EAGAIN
              else if req.before + req.after + 1 > section.slots.Length then ret == -EINVAL
              else Found(req, Position(req), ret)
      ensures ret >= 0 ==> 0 <= window.startIdx < section.slots.Length
      ensures if ret < 0 then sync.nbWrites == old(sync.nbWrites)
              else sync.nbWrites == Hits(section.Reserved(), window.startIdx, section.slots.Length) - 1
      ensures section.hist == [] || req.before + req.after + 1 > section.slots.Length ==> unchanged(window)
    {
      hide Counters, Contents, SlotOf, SeenPosition, Hits, U32;
      GuardIsExact(req, section.slots.Length);
      if section.hdr.writeIndex == -1 {
        return -EAGAIN;
      }
      if U32(req.after + req.before + 1) > section.slots.Length {
        return -EINVAL;
      }
      ret := Search(req);
      if ret >= 0 {
        StartRead();
      }
    }

    /** shd_end_read: it reports a fault exactly when the start slot has been reserved
        since the r reservations after which its counter was sampled, and else a revision
        other than the one given.  The window is kept only after -EFAULT and -EPERM. */
    method EndRead(revision: int) returns (ret: int)
      requires Valid()
      requires window.startIdx < section.slots.Length
      requires window.startIdx >= 0 ==> window.nbMatches > 0
      modifies window, sync`nbWrites
      ensures Valid()
      ensures ret == if old(window.startIdx) < 0 then -EPERM
                     else if old(sync.nbWrites) != section.slots[old(window.startIdx)].nbWrites then -EFAULT
                     else if revision != section.hdr.nbCreations then -ENODEV
                     else 0
      ensures forall r: nat :: (old(window.startIdx) >= 0 && r <= section.Reserved()
                && old(sync.nbWrites) == Hits(r, old(window.startIdx), section.slots.Length) - 1) ==>
                (ret == -EFAULT <==> !NotReserved(r, section.Reserved(), old(window.startIdx), section.slots.Length))
      ensures old(window.startIdx) >= 0 ==> sync.nbWrites == -1
      ensures ret == 0 || ret == -ENODEV ==> window.Empty()
      ensures ret == -EFAULT || ret == -EPERM ==> unchanged(window)
      ensures ret == -EPERM ==> sync.nbWrites == old(sync.nbWrites)
    {
      if window.startIdx < 0 {
        return -EPERM;
      }
      forall r: nat | r <= section.Reserved()
        ensures section.slots[window.startIdx].nbWrites == Hits(r, window.startIdx, section.slots.Length) - 1
           <==> NotReserved(r, section.Reserved(), window.startIdx, section.slots.Length)
      {
        CounterTellsReservation(section.slots[..], section.hist, section.Reserved(), window.startIdx, r);
      }
      ret := sync.EndReadSession(section.slots[window.startIdx]);
      if ret < 0 {
        return;
      }
      ret := if revision == section.hdr.nbCreations then 0 else -ENODEV;
      var _ := window.Reset();
    }

    /** shd_data_read_quantity, and shd_data_read_blob for the whole blob. */
    method ReadQuantity(offset: nat, size: nat, dst: array<Byte>) returns (ret: int)
      requires section.Geometry() && offset + size <= section.blobSize
      requires window.nbMatches >= 0 ==>
                 0 <= window.startIdx < section.slots.Length && window.nbMatches <= section.slots.Length
      requires dst as object != section.slots as object
      modifies dst
      ensures ret == if window.nbMatches < 0 then -EPERM
                     else if dst.Length < size * window.nbMatches then -EINVAL
                     else window.nbMatches
      ensures ret < 0 ==> dst[..] == old(dst[..])
      ensures ret >= 0 ==>
                && 0 <= size * ret <= dst.Length
                && var rows := Rows(section.slots[..], window.startIdx, ret, BytesOf(offset, size));
                   dst[..] == rows + old(dst[size * ret..])
    {
      if window.nbMatches < 0 {
        return -EPERM;
      }
      if dst.Length < size * window.nbMatches {
        return -EINVAL;
      }
      BytesOfSize(section.slots[..], section.blobSize, offset, size);
      NextChunk(size, 0, window.nbMatches);
      ret := window.Read(section.slots[..], dst, size, BytesOf(offset, size));
    }

    /** shd_data_read_metadata: the metadata of the window, and the index among them of
        the reference sample, at position p. */
    method ReadMetadata(ghost t: nat, ghost c: nat, ghost p: int, ghost req: Request)
      returns (ret: int, metadata: array<Metadata>)
      requires section.Geometry() && t < section.slots.Length && c - section.slots.Length <= p < c
      requires window.Around(t, c, section.slots.Length, p, req)
      ensures fresh(metadata) && metadata.Length == window.nbMatches <= section.slots.Length
      ensures 0 <= window.startIdx < section.slots.Length
      ensures forall j :: 0 <= j < window.nbMatches ==>
                metadata[j] == section.slots[IndexNAfter(window.startIdx, j, section.slots.Length)].content.meta
      ensures 0 <= ret < window.nbMatches && ret == p - WindowLo(c, section.slots.Length, p, req.before)
    {
      hide SlotOf, Rows;
      WindowIsClipped(c, section.slots.Length, p, req.before, req.after);
      metadata := new Metadata[window.nbMatches](_ => Metadata(0, 0));
      var _ := window.Read(section.slots[..], metadata, 1, MetaOf());
      MetadataRows(section.slots[..], window.startIdx, window.nbMatches);
      assert metadata[..] == Rows(section.slots[..], window.startIdx, window.nbMatches, MetaOf());
      ret := IntervalBetween(window.startIdx, window.refIdx, section.slots.Length);
    }

    /** As many samples before and after the reference sample, at position p, as were asked
        for and are in the ring; the metadata of each and the index of the reference among
        them.  If all of them are committed and none is being replaced, they are those of
        the history. */
    ghost predicate Selected(p: int, req: Request, refIdx: int, metadata: array<Metadata>)
      reads section, section.slots, metadata
    {
      var n, c := section.slots.Length, |section.hist|;
      && 0 <= refIdx < metadata.Length
      && refIdx == Min(p - (c - n), req.before)
      && metadata.Length == refIdx + 1 + Min(c - 1 - p, req.after)
      && (0 <= p - refIdx && p - refIdx + metadata.Length <= c && section.Reserved() <= p - refIdx + n ==>
            forall j :: 0 <= j < metadata.Length ==> metadata[j] == section.hist[p - refIdx + j].meta)
    }

    /** Reads the metadata of a window set around position p. */
    method ReadSelected(ghost p: int, ghost req: Request) returns (refIdx: int, metadata: array<Metadata>)
      requires Valid() && section.hist != [] && |section.hist| - section.slots.Length <= p < |section.hist|
      requires var n: Size, c := section.slots.Length, |section.hist|;
               window.Around(SlotOf(c - 1, n), c, n, p, req)
      ensures fresh(metadata) && metadata.Length == window.nbMatches && Selected(p, req, refIdx, metadata)
    {
      hide Counters, Contents, Hits, SlotOf, WindowLo, WindowHi, IndexOf, IndexNAfter;
      ghost var image, r, c := section.slots[..], section.Reserved(), |section.hist|;
      window.WindowMeetsRequest(SlotOf(c - 1, |image|), c, |image|, p, req);
      refIdx, metadata := ReadMetadata(SlotOf(c - 1, |image|), c, p, req);
      if p - refIdx >= 0 && r <= p - refIdx + |image| {
        WindowMetadata(window, image, section.hist, r, p, req, p - refIdx);
      }
    }

    /** shd_select_samples. */
    method SelectSamples(req: Request) returns (ret: int, refIdx: int, metadata: array?<Metadata>)
      requires Valid() && req.before + req.after + 1 < TWO32
      modifies window, sync`nbWrites
      ensures Valid()
      ensures var n: Size, c := section.slots.Length, |section.hist|;
              ret == if c == 0 then -EAGAIN
                     else if req.before + req.after + 1 > n || req.how == Unknown then -EINVAL
                     else if Position(req) == c then -ENOENT else 0
      ensures ret == 0 ==>
                && metadata != null && metadata.Length == window.nbMatches
                && Selected(Position(req), req, refIdx, metadata)
                && Found(req, Position(req), window.nbMatches)
                && sync.nbWrites == Hits(section.Reserved(), window.startIdx, section.slots.Length) - 1
    {
      hide Counters, Contents, SlotOf, SeenPosition, WindowLo, WindowHi, IndexOf;
      metadata, refIdx := null, -1;
      ret := Find(req);
      if ret >= 0 {
        ret := 0;
        refIdx, metadata := ReadSelected(Position(req), req);
      }
    }
  }

  /** A consumer opens the section and selects the latest sample, with its metadata. */
  method OpenLatest(consumer: Consumer, ghost req: Request) returns (revision: int, meta: Metadata)
    requires consumer.Valid() && consumer.section.hdr.nbCreations % 2 == 0
    requires consumer.section.hist != [] && req == Request(Latest, 0, 0, 0)
    modifies consumer.window, consumer.sync`nbWrites, consumer.sync`revision
    ensures consumer.Valid() && revision == consumer.section.hdr.nbCreations
    ensures var n: Size, c := consumer.section.slots.Length, |consumer.section.hist|;
            consumer.window.Around(SlotOf(c - 1, n), c, n, c - 1, req)
    ensures meta == consumer.section.hist[|consumer.section.hist| - 1].meta
    ensures var start := consumer.window.startIdx;
            && 0 <= start < consumer.section.slots.Length
            && consumer.sync.nbWrites == consumer.section.slots[start].nbWrites
  {
    hide Contents, SlotOf, WindowLo, WindowHi, Seen, IndexOf;
    var section := consumer.section;
    revision := consumer.sync.UpdateLocalRevision(section.hdr);
    SeenIsHistory(section.slots[..], section.hist, section.Reserved(), req, consumer.hint);
    var selected, row, metadata := consumer.SelectSamples(Request(Latest, 0, 0, 0));
    meta := metadata[row];
    assert section.slots[..][consumer.window.startIdx].nbWrites == consumer.sync.nbWrites;
  }

  /** A consumer opens the section, selects the latest sample, reads a byte range of it and
      ends the read: every call succeeds, and gives the metadata and the bytes of the newest
      sample, also while a write session is open. */
  method ReadLatest(consumer: Consumer, offset: nat, size: nat, dst: array<Byte>)
    returns (read: int, ended: int, meta: Metadata)
    requires consumer.Valid() && consumer.section.hdr.nbCreations % 2 == 0
    requires consumer.section.hist != []
    requires offset + size <= consumer.section.blobSize && dst.Length == size
    requires dst as object != consumer.section.slots as object
    modifies consumer.window, consumer.sync`nbWrites, consumer.sync`revision, dst
    ensures consumer.Valid() && read == 1 && ended == 0
    ensures var hist := consumer.section.hist;
            meta == hist[|hist| - 1].meta
    ensures var hist := consumer.section.hist;
            offset + size <= |hist[|hist| - 1].blob| && dst[..] == hist[|hist| - 1].blob[offset..offset + size]
  {
    hide Counters, Contents, SlotOf, Hits, Rows, WindowLo, WindowHi, IndexOf;
    ghost var req := Request(Latest, 0, 0, 0);
    var revision;
    revision, meta := OpenLatest(consumer, req);
    var section := consumer.section;
    LatestRow(consumer.window, section.slots[..], section.hist, section.Reserved(), req, offset, size,
              section.blobSize);
    read := consumer.ReadQuantity(offset, size, dst);
    ended := consumer.EndRead(revision);
  }

  lemma LatestRow(window: Window, slots: seq<Slot<Sample>>, hist: seq<Sample>, r: nat, req: Request,
                  offset: nat, size: nat, blobSize: nat)
    requires hist != [] && Holds(slots, hist, r) && offset + size <= blobSize
    requires req.before == 0 && req.after == 0
    requires forall i :: 0 <= i < |slots| ==> |slots[i].content.blob| == blobSize
    requires window.Around(SlotOf(|hist| - 1, |slots|), |hist|, |slots|, |hist| - 1, req)
    ensures window.nbMatches == 1 && 0 <= window.startIdx < |slots|
    ensures offset + size <= |hist[|hist| - 1].blob|
    ensures Rows(slots, window.startIdx, 1, BytesOf(offset, size)) == hist[|hist| - 1].blob[offset..offset + size]
  {
    var c, n: Size := |hist|, |slots|;
    IndexOfPosition(c, c - 1, n);
    assert window.startIdx == SlotOf(c - 1, n);
    RowIsSample(slots, hist, r, window.startIdx, c - 1, 0);
    OneRow(slots, window.startIdx, BytesOf(offset, size));
  }

  /** A producer commits a sample in several quantities, and a consumer reads back the byte
      range of one that no later one overlaps: it gets the bytes and the metadata written. */
  method WriteThenRead(consumer: Consumer, ctx: SyncCtx, meta: Metadata, writes: seq<Quantity>, k: nat,
                       dst: array<Byte>)
    returns (read: int, ended: int, readMeta: Metadata)
    requires consumer.Valid() && consumer.section.Tracks(ctx) && consumer.section.hdr.nbCreations % 2 == 0
    requires consumer.section.holder == null
    requires ctx.own < 0 || SlotOf(|consumer.section.hist| - 1 - ctx.own, consumer.section.slots.Length) == 0
    requires forall w :: w in writes ==> Fits(w, consumer.section.blobSize)
    requires LastOnRange(writes, k) && dst.Length == |writes[k].bytes|
    requires dst as object != consumer.section.slots as object
    modifies consumer.section, consumer.section.hdr, consumer.section.slots, consumer.window, ctx, dst
    modifies consumer.sync`nbWrites, consumer.sync`revision
    ensures consumer.Valid() && consumer.section.Tracks(ctx)
    ensures read == 1 && ended == 0 && dst[..] == writes[k].bytes && readMeta == meta
  {
    hide Counters, Contents, SlotOf, Hits;
    var section := consumer.section;
    ghost var blob := section.slots[SlotOf(|section.hist|, section.slots.Length)].content.blob;
    WrittenIsRead(blob, writes, k);
    var written := section.WriteSample(ctx, meta, writes);
    assert written == 0;
    read, ended, readMeta := ReadLatest(consumer, writes[k].offset, |writes[k].bytes|, dst);
  }
}
