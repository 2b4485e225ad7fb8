/** Runs of the time wheel: which operations keep rings and table in agreement,
    and that all do while descriptors are new and small. */
module WheelRuns {
  import opened WheelAgreement
  import opened WheelSpec
  import opened WheelTick

  datatype Op = Add(fd: nat, timeout: nat) | Update(fd: nat, timeout: nat) | Remove(fd: nat) | TickOp

  /** A tick happens when its loop ends; everything else always does. */
  ghost predicate Happens(w: Wheel, op: Op)
    requires Shape(w)
  {
    op.TickOp? ==> TickReturns(w)
  }

  ghost function Apply(w: Wheel, op: Op): (r: Wheel)
    requires Shape(w) && Happens(w, op)
    ensures Shape(r)
  {
    match op
    case Add(fd, timeout) => AddShape(w, fd, timeout); AddUser(w, fd, timeout)
    case Update(fd, timeout) => UpdateShape(w, fd, timeout); UpdateUser(w, fd, timeout)
    case Remove(fd) => RemoveUser(w, fd)
    case TickOp => Tick(w)
  }

  lemma {:induction false} UpdateShape(w: Wheel, fd: nat, timeout: nat)
    requires Shape(w)
    ensures Shape(UpdateUser(w, fd, timeout))
  {
    hide Shape;
    AddShape(RemoveUser(w, fd), fd, timeout);
  }

  ghost predicate Happening(w: Wheel, ops: seq<Op>)
    requires Shape(w)
    decreases |ops|
  {
    ops == [] || (Happens(w, ops[0]) && Happening(Apply(w, ops[0]), ops[1..]))
  }

  ghost function Replay(w: Wheel, ops: seq<Op>): (r: Wheel)
    requires Shape(w) && Happening(w, ops)
    ensures Shape(r)
    decreases |ops|
  {
    if ops == [] then w else Replay(Apply(w, ops[0]), ops[1..])
  }

  // ----- agreement over runs ----------------------------------------------------

  /** The first node in the bucket of `fd` names the ring `fd` waits in. */
  ghost predicate Found(w: Wheel, fd: nat)
    requires Shape(w)
  {
    Chain(w, fd) != [] && fd in w.slots[Chain(w, fd)[0].index]
  }

  ghost predicate Works(w: Wheel, op: Op)
    requires Shape(w)
  {
    match op
    case Add(fd, _) => !Live(w, fd)
    case Update(fd, _) => Live(w, fd) ==> Found(w, fd)
    case Remove(fd) => Live(w, fd) ==> Found(w, fd)
    case TickOp => true
  }

  /** Exactly the additions of descriptors that are still waiting, and the
      removals and refreshes that look in the wrong ring, break the agreement. */
  lemma {:induction false} OpKeepsExactly(w: Wheel, op: Op)
    requires Agree(w) && Shape(w) && Happens(w, op)
    ensures Agree(Apply(w, op)) <==> Works(w, op)
  {
    hide Agree, Shape, AddUser, UpdateUser, RemoveUser, Tick, Found;
    match op
    case Add(fd, timeout) => AddAgreesExactly(w, fd, timeout);
    case Update(fd, timeout) => UpdateExactly(w, fd, timeout);
    case Remove(fd) => UpdateExactly(w, fd, 0);
    case TickOp => TickKeepsAgree(w);
  }

  lemma {:induction false} UpdateExactly(w: Wheel, fd: nat, timeout: nat)
    requires Agree(w) && Shape(w)
    ensures Agree(UpdateUser(w, fd, timeout)) <==> (Live(w, fd) ==> Found(w, fd))
    ensures Agree(RemoveUser(w, fd)) <==> (Live(w, fd) ==> Found(w, fd))
  {
    hide Agree, AddUser;
    if Live(w, fd) {
      var i := LiveEntry(w, fd);
      RemoveWorksExactly(w, fd, i, timeout);
    } else {
      StrangerStays(w, fd);
      AddKeepsAgree(w, fd, timeout);
    }
  }

  /** Removing who does not wait changes nothing, whatever is in the bucket. */
  lemma {:induction false} StrangerStays(w: Wheel, fd: nat)
    requires Agree(w) && Shape(w) && !Live(w, fd)
    ensures RemoveUser(w, fd) == w
  {
    hide Agree;
    if Chain(w, fd) != [] {
      DetachAbsent(w, fd, Chain(w, fd)[0].index);
    }
  }

  ghost predicate WorkingRun(w: Wheel, ops: seq<Op>)
    requires Shape(w) && Happening(w, ops)
    decreases |ops|
  {
    ops == [] || (Works(w, ops[0]) && WorkingRun(Apply(w, ops[0]), ops[1..]))
  }

  ghost predicate AgreesThroughout(w: Wheel, ops: seq<Op>)
    requires Shape(w) && Happening(w, ops)
    decreases |ops|
  {
    Agree(w) && (ops == [] || AgreesThroughout(Apply(w, ops[0]), ops[1..]))
  }

  /** Rings and table agree in every state of a run exactly when every one of
      its operations works. */
  lemma {:induction false} RunsAgreeExactly(w: Wheel, ops: seq<Op>)
    requires Agree(w) && Shape(w) && Happening(w, ops)
    ensures AgreesThroughout(w, ops) <==> WorkingRun(w, ops)
    ensures WorkingRun(w, ops) ==> Agree(Replay(w, ops))
    decreases |ops|
  {
    hide Agree, Shape, Works, Happens, Apply;
    if ops != [] {
      OpKeepsExactly(w, ops[0]);
      if Works(w, ops[0]) {
        RunsAgreeExactly(Apply(w, ops[0]), ops[1..]);
      } else {
        AgreesFirst(Apply(w, ops[0]), ops[1..]);
      }
    }
  }

  lemma {:induction false} AgreesFirst(w: Wheel, ops: seq<Op>)
    requires Shape(w) && Happening(w, ops)
    ensures AgreesThroughout(w, ops) ==> Agree(w)
  {
    hide Agree, Shape;
  }

  lemma {:induction false} EmptyContents(slots: seq<seq<nat>>)
    requires |slots| == SLOTS && forall i | 0 <= i < SLOTS :: slots[i] == []
    ensures SameContents(slots, multiset{})
  {
  }

  lemma {:induction false} EmptyAgrees()
    ensures Agree(EmptyWheel())
  {
    hide SameContents, Entries, Bucket, Shape;
    var w := EmptyWheel();
    EmptyHasNoEntries(INITIAL_HASH_SIZE);
    EmptyContents(w.slots);
    AgreeParts(w, multiset{});
  }

  // ----- small descriptors --------------------------------------------------------

  /** The wheel agrees and every waiting descriptor is smaller than the table,
      so that no two of them share a bucket. */
  ghost predicate InRange(w: Wheel) {
    Agree(w) && forall e | e in Entries(w.table) :: e.fd < |w.table|
  }

  lemma {:induction false} SmallBucket(x: nat, n: nat)
    requires x < n
    ensures Bucket(x, n) == x
  {
  }

  /** In range, whatever sits in the bucket of `fd` is an entry of `fd`. */
  lemma {:induction false} BucketMember(w: Wheel, fd: nat, e: Entry)
    requires InRange(w) && fd < |w.table| && e in Chain(w, fd)
    ensures e.fd == fd && e in Entries(w.table)
  {
    hide Bucket;
    var b := Bucket(fd, |w.table|);
    var k :| 0 <= k < |w.table[b]| && w.table[b][k] == e;
    assert Bucket(w.table[b][k].fd, |w.table|) == b;
    InBucket(w.table, e);
    SmallBucket(fd, |w.table|);
    SmallBucket(e.fd, |w.table|);
  }

  /** So a waiting descriptor is at the head of its bucket, and the bucket of
      any other is empty. */
  lemma {:induction false} AloneInBucket(w: Wheel, fd: nat)
    requires InRange(w) && fd < |w.table|
    ensures forall i: nat | i < SLOTS && fd in w.slots[i] ::
              Chain(w, fd) != [] && Chain(w, fd)[0] == Entry(fd, i)
    ensures !Live(w, fd) ==> Chain(w, fd) == []
  {
    hide Bucket;
    var chain := Chain(w, fd);
    forall e | e in chain ensures e.fd == fd && e in Entries(w.table) {
      BucketMember(w, fd, e);
    }
    assert chain != [] ==> chain[0] in chain;
    if Live(w, fd) {
      var i := LiveEntry(w, fd);
    } else {
      DeadHasNoEntry(w, fd);
    }
  }

  lemma {:induction false} LiveInRange(w: Wheel, fd: nat)
    requires InRange(w) && Live(w, fd)
    ensures fd < |w.table|
  {
    var i := LiveEntry(w, fd);
  }

  /** Removal finds the right ring, and does nothing for strangers. */
  lemma {:induction false} RemoveIsDetach(w: Wheel, fd: nat)
    requires InRange(w)
    ensures InRange(RemoveUser(w, fd)) && !Live(RemoveUser(w, fd), fd)
    ensures |RemoveUser(w, fd).table| == |w.table|
    ensures !Live(w, fd) ==> RemoveUser(w, fd) == w
    ensures forall i: nat | i < SLOTS && fd in w.slots[i] :: RemoveUser(w, fd) == Detach(w, fd, i) && Chain(w, fd) != []
  {
    hide Bucket, Deleted, Placed, SameContents, OncePerFd, Unringed;
    if Live(w, fd) {
      LiveInRange(w, fd);
      AloneInBucket(w, fd);
      var i := LiveEntry(w, fd);
      DetachKeepsAgree(w, fd, i);
      DeleteRemoves(w.table, Entry(fd, i));
    } else if Chain(w, fd) != [] {
      DetachAbsent(w, fd, Chain(w, fd)[0].index);
    }
  }

  lemma {:induction false} AddInRange(w: Wheel, fd: nat, timeout: nat)
    requires InRange(w) && !Live(w, fd) && fd < |w.table|
    ensures InRange(AddUser(w, fd, timeout)) && |w.table| <= |AddUser(w, fd, timeout).table|
  {
    AddKeepsAgree(w, fd, timeout);
    hide Agree, Live, Place;
    var t := TableForInsert(w.table, w.count);
    AgreePlaced(w);
    ResizeKeepsMapping(w.table);
    PlaceAdds(t, Entry(fd, SlotFor(w.cur, timeout)));
  }

  lemma {:induction false} UpdateInRange(w: Wheel, fd: nat, timeout: nat)
    requires InRange(w) && fd < |w.table|
    ensures InRange(UpdateUser(w, fd, timeout)) && |w.table| <= |UpdateUser(w, fd, timeout).table|
    ensures Live(w, fd) ==>
              Shape(RemoveUser(w, fd)) && UpdateUser(w, fd, timeout) == AddUser(RemoveUser(w, fd), fd, timeout)
    ensures !Live(w, fd) ==> UpdateUser(w, fd, timeout) == w
  {
    AloneInBucket(w, fd);
    RemoveIsDetach(w, fd);
    if Live(w, fd) {
      var i := LiveEntry(w, fd);
      hide Agree, Detach, AddUser, Live;
      AddInRange(RemoveUser(w, fd), fd, timeout);
    }
  }

  lemma {:induction false} RangeShape(w: Wheel)
    requires InRange(w)
    ensures Agree(w) && Shape(w) && |w.slots| == SLOTS && w.cur < SLOTS && 0 < |w.table|
  {
    hide Agree;
    AgreePlaced(w);
  }

  /** In range every member of every ring heads its bucket, so that a tick
      closes everybody in order, with the last of two or more closed twice. */
  lemma {:induction false} TickReturnsInRange(w: Wheel)
    requires InRange(w)
    ensures Shape(w) && TickReturns(w) && Closed(w) == Visits(Ring(w))
  {
    RangeShape(w);
    hide Agree, InRange, Proper, TickReturns, Closed, Shape;
    forall k | 0 <= k < |Ring(w)| ensures Proper(w, k) {
      ProperInRange(w, k);
    }
    TickReturnsExactly(w);
    EndOfTick(w);
  }

  lemma {:induction false} ProperInRange(w: Wheel, k: nat)
    requires InRange(w) && Shape(w) && k < |Ring(w)|
    ensures Proper(w, k)
  {
    hide Agree, InRange;
    RangeShape(w);
    var fd, gone := Ring(w)[k], Ring(w)[..k];
    RingHasNoDouble(w, w.cur);
    assert fd !in gone;
    WaitsSoLive(w, fd, w.cur);
    LiveInRange(w, fd);
    AloneInBucket(w, fd);
  }

  lemma {:induction false} TickInRange(w: Wheel)
    requires InRange(w) && Shape(w) && TickReturns(w)
    ensures InRange(Tick(w)) && |Tick(w).table| == |w.table|
  {
    hide Agree, Tick, TickReturns, Cleared;
    RangeShape(w);
    TickKeepsAgree(w);
    ClearedInRange(w, |Ring(w)|);
  }

  /** Clearing adds no entries. */
  lemma {:induction false} ClearedInRange(w: Wheel, k: nat)
    requires InRange(w) && Shape(w) && k <= |Ring(w)|
    ensures forall e | e in Entries(Cleared(w, k).table) :: e.fd < |w.table|
  {
    hide InRange, Agree, Entries, Deleted;
    if k == 0 {
      InRangeEntries(w);
    } else {
      ClearedInRange(w, k - 1);
      DeletedWithin(Cleared(w, k - 1).table, Ring(w)[k - 1]);
    }
  }

  lemma {:induction false} InRangeEntries(w: Wheel)
    requires InRange(w)
    ensures forall e | e in Entries(w.table) :: e.fd < |w.table|
  {
  }

  lemma {:induction false} DeletedWithin(table: Chains, fd: nat)
    requires 0 < |table|
    ensures forall e | e in Entries(Deleted(table, fd)) :: e in Entries(table)
  {
    hide Bucket, Entries;
    var b := Bucket(fd, |table|);
    var chain := Unchained(table[b], fd);
    EntriesUpdate(table, b, chain);
    UnchainedWithin(table[b], fd);
    forall e | e in Entries(Deleted(table, fd)) ensures e in Entries(table) {
      if e in multiset(chain) {
        assert e in table[b];
        assert e in multiset(table[b]);
      }
    }
  }

  /** Additions are of descriptors nobody waits under, and descriptors stay below
      the table size. (Ticks end without the first: see module WheelReuse.) */
  ghost predicate Legal(w: Wheel, op: Op) {
    match op
    case Add(fd, _) => !Live(w, fd) && fd < |w.table|
    case Update(fd, _) => fd < |w.table|
    case Remove(_) => true
    case TickOp => true
  }

  lemma {:induction false} OpKeepsInRange(w: Wheel, op: Op)
    requires InRange(w) && Legal(w, op)
    ensures Shape(w) && Happens(w, op) && Works(w, op)
    ensures InRange(Apply(w, op)) && |w.table| <= |Apply(w, op).table|
  {
    hide InRange, Agree, Shape, AddUser, UpdateUser, RemoveUser, Tick, TickReturns, Works;
    RangeShape(w);
    match op {
      case Add(fd, timeout) => AddInRange(w, fd, timeout);
      case Update(fd, timeout) => UpdateInRange(w, fd, timeout);
      case Remove(fd) => RemoveIsDetach(w, fd);
      case TickOp =>
        TickReturnsInRange(w);
        TickInRange(w);
    }
    RangeShape(Apply(w, op));
    OpKeepsExactly(w, op);
  }

  ghost predicate LegalRun(w: Wheel, ops: seq<Op>)
    requires InRange(w)
    decreases |ops|
  {
    ops == [] || (Legal(w, ops[0]) && (OpKeepsInRange(w, ops[0]); LegalRun(Apply(w, ops[0]), ops[1..])))
  }

  /** In a run of new and small descriptors rings and table agree throughout. */
  lemma {:induction false} RunsStayInRange(w: Wheel, ops: seq<Op>)
    requires InRange(w) && LegalRun(w, ops)
    ensures Shape(w) && Happening(w, ops) && WorkingRun(w, ops) && InRange(Replay(w, ops))
    decreases |ops|
  {
    hide InRange, Shape, Works, Happens, Apply, Legal;
    RangeShape(w);
    if ops != [] {
      OpKeepsInRange(w, ops[0]);
      RunsStayInRange(Apply(w, ops[0]), ops[1..]);
    }
  }

  lemma {:induction false} EmptyInRange()
    ensures InRange(EmptyWheel())
  {
    EmptyAgrees();
    EmptyHasNoEntries(INITIAL_HASH_SIZE);
    hide Agree;
  }
}
