/**
 The ring of samples and what it stores: the relation between the buffer slots
 and the history of committed samples.  The sequential model of the API and the
 interleaving model of the protocol both keep this relation.
 */
module Ring {
  import opened Index

  /** A buffer slot: its write counter (-1 when never reserved) and its bytes. */
  datatype Slot<T> = Slot(nbWrites: int, content: T)

  predicate IsRing<T>(slots: seq<Slot<T>>) {
    2 <= |slots| <= MAX_SAMPLES
  }

  /** After r reservations, every counter is one less than the slot's share of them. */
  ghost predicate Counters<T>(slots: seq<Slot<T>>, r: nat)
    requires IsRing(slots)
  {
    forall s {:trigger slots[s]} :: 0 <= s < |slots| ==> slots[s].nbWrites == Hits(r, s, |slots|) - 1
  }

  /** Every committed sample whose slot was not reserved again is still in its slot. */
  ghost predicate Contents<T>(slots: seq<Slot<T>>, hist: seq<T>, r: nat)
    requires IsRing(slots)
  {
    forall e {:trigger hist[e]} :: 0 <= e < |hist| && r <= e + |slots| ==> slots[SlotOf(e, |slots|)].content == hist[e]
  }

  /** The slots after r reservations, all committed except perhaps the last one. */
  ghost predicate Holds<T>(slots: seq<Slot<T>>, hist: seq<T>, r: nat) {
    && IsRing(slots)
    && |hist| <= r <= |hist| + 1
    && Counters(slots, r)
    && Contents(slots, hist, r)
  }

  /** Cleared slots hold the empty history. */
  lemma EmptyHolds<T>(slots: seq<Slot<T>>)
    requires IsRing(slots)
    requires forall s :: 0 <= s < |slots| ==> slots[s].nbWrites == -1
    ensures Holds(slots, [], 0)
  {
  }

  /** Reserving the next slot bumps its counter. */
  lemma ReserveKeeps<T>(slots: seq<Slot<T>>, hist: seq<T>, slots': seq<Slot<T>>)
    requires Holds(slots, hist, |hist|)
    requires var s := SlotOf(|hist|, |slots|);
             slots' == slots[s := slots[s].(nbWrites := slots[s].nbWrites + 1)]
    ensures Holds(slots', hist, |hist| + 1)
  {
  }

  /** Storing into the reserved slot touches no committed sample that still counts. */
  lemma StoreKeeps<T>(slots: seq<Slot<T>>, hist: seq<T>, t: T)
    requires Holds(slots, hist, |hist| + 1)
    ensures var s := SlotOf(|hist|, |slots|);
            Holds(slots[s := slots[s].(content := t)], hist, |hist| + 1)
  {
    var n, c := |slots|, |hist|;
    forall e | 0 <= e < c && c + 1 <= e + n
      ensures SlotOf(e, n) != SlotOf(c, n)
    {
      SlotsDiffer(e, c, n);
    }
  }

  /** Publishing the reserved slot appends its content to the history. */
  lemma CommitKeeps<T>(slots: seq<Slot<T>>, hist: seq<T>)
    requires Holds(slots, hist, |hist| + 1)
    ensures var t := slots[SlotOf(|hist|, |slots|)].content;
            Holds(slots, hist + [t], |hist| + 1)
  {
  }

  /** The newest of the first c positions stored in slot s; -1 when there is none. */
  function NewestIn(c: nat, s: nat, n: Size): (e: int)
    ensures -1 <= e < c
    ensures e >= 0 ==> SlotOf(e, n) == s
    ensures forall f :: e < f < c ==> SlotOf(f, n) != s
  {
    if c == 0 then -1 else if SlotOf(c - 1, n) == s then c - 1 else NewestIn(c - 1, s, n)
  }

  /** The newest position of a slot is less than a ring away. */
  lemma NewestIsRecent(c: nat, s: nat, n: Size)
    requires s < n
    ensures NewestIn(c, s, n) == -1 <==> c <= s
    ensures NewestIn(c, s, n) >= 0 ==> c <= NewestIn(c, s, n) + n && SlotOf(NewestIn(c, s, n) + n, n) == s
  {
    var e := NewestIn(c, s, n);
    assert e >= 0 ==> SlotOf(e + n, n) == s;
    assert SlotOf(s, n) == s;
  }

  /** What r reservations have done to a slot outside the one being written. */
  lemma CountOfNewest(c: nat, r: nat, s: nat, n: Size)
    requires s < n && c <= r <= c + 1
    requires r == c + 1 ==> s != SlotOf(c, n)
    ensures var e := NewestIn(c, s, n);
            && Hits(r, s, n) - 1 == (if e >= 0 then LapOf(e, n) else -1)
            && (e >= 0 ==> r <= e + n)
  {
    hide SlotOf, LapOf;
    var e := NewestIn(c, s, n);
    NewestIsRecent(c, s, n);
    HitsStill(e + 1, c, s, n);
    HitsStill(c, r, s, n);
    if e >= 0 {
      HitsAt(e, n);
    }
  }

  /** Each slot that is not being written holds the newest sample of the history
      stored there, and its counter is that sample's lap; a slot no sample has
      reached is marked invalid. */
  lemma SlotHoldsNewest<T>(slots: seq<Slot<T>>, hist: seq<T>, r: nat, s: nat)
    requires Holds(slots, hist, r) && s < |slots|
    requires r == |hist| || s != SlotOf(|hist|, |slots|)
    ensures var e := NewestIn(|hist|, s, |slots|);
            && (e == -1 ==> slots[s].nbWrites == -1)
            && (e >= 0 ==> slots[s] == Slot(LapOf(e, |slots|), hist[e]))
  {
    CountOfNewest(|hist|, r, s, |slots|);
  }

  /** Two looks at the counter of a slot find it equal exactly when the slot was not
      reserved in between. */
  lemma CounterTellsReservation<T>(slots: seq<Slot<T>>, hist: seq<T>, r: nat, s: nat, r0: nat)
    requires Holds(slots, hist, r) && s < |slots| && r0 <= r
    ensures slots[s].nbWrites == Hits(r0, s, |slots|) - 1 <==> NotReserved(r0, r, s, |slots|)
  {
    HitsStill(r0, r, s, |slots|);
  }

  /** The slot being written has the counter of the sample about to be committed. */
  lemma SlotInFlight<T>(slots: seq<Slot<T>>, hist: seq<T>)
    requires Holds(slots, hist, |hist| + 1)
    ensures slots[SlotOf(|hist|, |slots|)].nbWrites == LapOf(|hist|, |slots|)
  {
    HitsAt(|hist|, |slots|);
  }
}
