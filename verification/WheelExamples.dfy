/** Wheels that show what goes wrong with colliding and with reused descriptors. */
module WheelExamples {
  import opened WheelAgreement
  import opened WheelExpiry
  import opened WheelRuns
  import opened WheelSpec
  import opened WheelTick

  /** An addition that does not resize: who waits where, and what heads the
      bucket. */
  lemma {:induction false} AddedFirst(w: Wheel, fd: nat, timeout: nat)
    requires Shape(w) && w.cur == 0 && timeout < SLOTS && !Full(w.count, |w.table|)
    ensures var r, b := AddUser(w, fd, timeout), Bucket(fd, |w.table|);
            && r.slots == w.slots[timeout := w.slots[timeout] + [fd]] && r.count == w.count + 1
            && r.table == w.table[b := [Entry(fd, timeout)] + w.table[b]] && r.cur == 0
  {
  }

  /** One descriptor in a new wheel. */
  lemma {:induction false} OneWaits(fd: nat, timeout: nat) returns (u: Wheel)
    requires fd < INITIAL_HASH_SIZE && timeout < SLOTS
    ensures u == AddUser(EmptyWheel(), fd, timeout) && Agree(u) && Shape(u) && u.cur == 0 && u.count == 1
    ensures |u.slots| == SLOTS && u.slots == EmptyWheel().slots[timeout := [fd]]
    ensures |u.table| == INITIAL_HASH_SIZE && u.table == EmptyTable(INITIAL_HASH_SIZE)[fd := [Entry(fd, timeout)]]
  {
    hide Agree, AddUser;
    EmptyAgrees();
    u := AddUser(EmptyWheel(), fd, timeout);
    NobodyWaits(fd);
    AddKeepsAgree(EmptyWheel(), fd, timeout);
    AgreePlaced(u);
    AddedFirst(EmptyWheel(), fd, timeout);
    SmallBucket(fd, INITIAL_HASH_SIZE);
    assert EmptyWheel().slots[timeout] + [fd] == [fd];
    assert [Entry(fd, timeout)] + EmptyWheel().table[fd] == [Entry(fd, timeout)];
  }

  lemma {:induction false} EmptyAt(b: nat, n: nat)
    requires b < n
    ensures EmptyTable(n)[b] == []
  {
  }

  lemma {:induction false} NobodyWaits(fd: nat)
    ensures !Live(EmptyWheel(), fd)
  {
  }

  /** Another one, in a bucket of which `chain` was the content. */
  lemma {:induction false} OneMoreWaits(u: Wheel, fd: nat, timeout: nat, b: nat) returns (w: Wheel)
    requires Agree(u) && Shape(u) && u.cur == 0 && 0 <= u.count < 90 && |u.table| == INITIAL_HASH_SIZE
    requires timeout < SLOTS && !Live(u, fd) && Bucket(fd, INITIAL_HASH_SIZE) == b
    ensures w == AddUser(u, fd, timeout) && Agree(w) && Shape(w) && w.cur == 0 && w.count == u.count + 1
    ensures w.slots == u.slots[timeout := u.slots[timeout] + [fd]]
    ensures |w.table| == INITIAL_HASH_SIZE && w.table == u.table[b := [Entry(fd, timeout)] + u.table[b]]
  {
    hide Agree, AddUser, Live, Bucket;
    w := AddUser(u, fd, timeout);
    AddKeepsAgree(u, fd, timeout);
    AgreePlaced(w);
    AddedFirst(u, fd, timeout);
  }

  /** Two descriptors in one bucket: the older is looked for in the ring of the
      younger, and stays in its own without an entry in the table. */
  lemma {:induction false} CrowdedBucket() returns (u: Wheel, w: Wheel)
    ensures u == AddUser(EmptyWheel(), 0, 1) && Shape(u) && w == AddUser(u, 128, 2) && Shape(w)
    ensures Agree(w) && !Agree(RemoveUser(w, 0)) && Agree(RemoveUser(w, 128))
  {
    hide Agree, AddUser, EmptyTable, RemoveUser, Found;
    u := OneWaits(0, 1);
    assert Bucket(128, INITIAL_HASH_SIZE) == 0 == Bucket(0, INITIAL_HASH_SIZE);
    w := OneMoreWaits(u, 128, 2, 0);
    assert 0 in w.slots[1] && 128 in w.slots[2];
    RemoveWorksExactly(w, 0, 1, 0);
    RemoveWorksExactly(w, 128, 2, 0);
  }

  /** Descriptors 1 and 2 wait in the current slot and 130, in the bucket of 2,
      elsewhere. The tick takes 1 out of the ring, looks for 2 in the ring of
      130, and then goes round 2 for ever: it is neither the node the loop began
      with nor unlinked. */
  lemma {:induction false} TickCanHang() returns (t: Wheel, u: Wheel, w: Wheel)
    ensures t == AddUser(EmptyWheel(), 1, 0) && Shape(t) && u == AddUser(t, 2, 0) && Shape(u)
    ensures w == AddUser(u, 130, 5) && Shape(w) && Agree(w) && !TickReturns(w)
  {
    hide Agree, AddUser, EmptyTable, TickReturns;
    t := OneWaits(1, 0);
    assert Bucket(2, INITIAL_HASH_SIZE) == 2 == Bucket(130, INITIAL_HASH_SIZE) && Bucket(1, INITIAL_HASH_SIZE) == 1;
    u := OneMoreWaits(t, 2, 0, 2);
    w := OneMoreWaits(u, 130, 5, 2);
    EmptyAt(2, INITIAL_HASH_SIZE);
    assert Ring(w) == [1, 2];
    assert Chain(w, 1) == [Entry(1, 0)] && Chain(w, 2) == [Entry(130, 5), Entry(2, 0)];
    HangsOnSecond(w);
  }

  lemma {:induction false} HangsOnSecond(w: Wheel)
    requires Agree(w) && Shape(w) && w.cur == 0 && Ring(w) == [1, 2]
    requires Chain(w, 1) == [Entry(1, 0)] && Chain(w, 2) == [Entry(130, 5), Entry(2, 0)]
    ensures !TickReturns(w)
  {
    hide Agree, Chain;
    assert Ring(w)[..0] == [] && Ring(w)[..1] == [1];
    assert Proper(w, 0) && !Proper(w, 1);
    TickReturnsExactly(w);
  }

  /** The server gives every connection 45 ticks: in a new wheel that number of
      ticks does not close it, and one more does. */
  lemma {:induction false} FortyFiveTicks(fd: nat, ops: seq<Op>)
    requires Shape(AddUser(EmptyWheel(), fd, 45)) && Happening(AddUser(EmptyWheel(), fd, 45), ops)
    requires Untouched(ops, fd)
    ensures ClosedBy(AddUser(EmptyWheel(), fd, 45), ops, fd) <==> Ticks(ops) >= 46
  {
    hide AddUser, EmptyWheel, Happening, ClosedBy, Nearest, Live;
    NobodyWaits(fd);
    NowhereNear(EmptyWheel(), fd);
    ClosedAtSoonerTurn(EmptyWheel(), fd, 45, ops);
  }

  lemma {:induction false} NowhereNear(w: Wheel, fd: nat)
    requires Shape(w) && !Live(w, fd)
    ensures Nearest(w, fd) == 60
  {
    hide Nearest;
    assert Nearest(w, fd) == SLOTS;
  }

  /** Descriptor 5 is closed without leaving the wheel and used again one tick
      before its old turn: its new user, due after 45 ticks, is closed by the
      next but one tick, and is then in no ring. */
  lemma {:induction false} ReuseEvictsEarly() returns (t: Wheel, w: Wheel)
    ensures t == AddUser(EmptyWheel(), 5, 1) && Shape(t) && Agree(t)
    ensures w == AddUser(t, 5, 45) && Shape(w) && !Agree(w)
    ensures var ops := [TickOp, TickOp]; Happening(w, ops) && ClosedBy(w, ops, 5) && !ClosedBy(w, [TickOp], 5)
  {
    hide Agree, AddUser, EmptyTable, TickReturns, Nearest, Tick, Closed, Shape;
    t := OneWaits(5, 1);
    w := AddUser(t, 5, 45);
    AddShape(t, 5, 45);
    AddedSlots(t, 5, 45);
    AddAgreesExactly(t, 5, 45);
    WaitsSoLive(t, 5, 1);
    NearestOfFive(t);
    ReuseTicks(w);
    ClosedAtSoonerTurn(t, 5, 45, [TickOp, TickOp]);
    ClosedAtSoonerTurn(t, 5, 45, [TickOp]);
  }

  lemma {:induction false} NearestOfFive(t: Wheel)
    requires Shape(t) && t.cur == 0 && t.slots == EmptyWheel().slots[1 := [5]]
    ensures Nearest(t, 5) == 1
  {
    hide Shape, Nearest;
    assert SlotIn(0, 0) == 0 && SlotIn(0, 1) == 1;
    NearestIs(t, 5, 1);
  }

  lemma {:induction false} ReuseTicks(w: Wheel)
    requires Shape(w) && w.cur == 0 && w.slots[0] == [] && w.slots[1] == [5]
    ensures Happening(w, [TickOp]) && Happening(w, [TickOp, TickOp])
    ensures Ticks([TickOp]) == 1 && Ticks([TickOp, TickOp]) == 2
  {
    hide LoopAfter, TickReturns;
    EmptyRingEnds(w);
    EndIs(w, 0);
    assert Ring(Tick(w)) == [5];
    ShortRingEnds(Tick(w));
    assert [TickOp, TickOp][1..] == [TickOp] && [TickOp][1..] == [];
    assert Happening(Tick(w), [TickOp]);
  }
}
