/** Runs in which descriptors are used again while they still wait, as the server
    does: as long as descriptors are smaller than the table, every tick ends. */
module WheelReuse {
  import opened WheelAgreement
  import opened WheelEnds
  import opened WheelRuns
  import opened WheelSpec
  import opened WheelTick

  /** The table has an entry for every node of every ring, and perhaps more. */
  ghost predicate Covers(es: multiset<Entry>, slots: seq<seq<nat>>) {
    forall fd: nat, i: nat | i < |slots| :: multiset(slots[i])[fd] <= es[Entry(fd, i)]
  }

  ghost predicate Small(es: multiset<Entry>, n: nat) {
    forall e {:trigger es[e]} | e in es :: e.fd < n
  }

  /** Every node of every ring has an entry, and all descriptors are smaller than
      the table. Rings and table need not agree. */
  ghost predicate Covered(w: Wheel) {
    && Shape(w) && Placed(w.table)
    && Small(Entries(w.table), |w.table|) && Covers(Entries(w.table), w.slots)
  }

  lemma {:induction false} CoveredParts(w: Wheel)
    requires Covered(w)
    ensures Shape(w) && Placed(w.table) && |w.slots| == SLOTS && 0 < |w.table|
    ensures Small(Entries(w.table), |w.table|) && Covers(Entries(w.table), w.slots)
  {
  }

  /** In range rings and table agree, so that all is covered. */
  lemma {:induction false} InRangeIsCovered(w: Wheel)
    requires InRange(w)
    ensures Covered(w)
  {
    hide Entries, Placed;
  }

  // ----- additions and removals -------------------------------------------------------

  lemma {:induction false} AddSmall(es: multiset<Entry>, e: Entry, n: nat)
    requires Small(es, n) && e.fd < n
    ensures Small(es + multiset{e}, n)
  {
  }

  lemma {:induction false} AddCovers(es: multiset<Entry>, slots: seq<seq<nat>>, fd: nat, i: nat)
    requires Covers(es, slots) && i < |slots|
    ensures Covers(es + multiset{Entry(fd, i)}, slots[i := slots[i] + [fd]])
  {
    var es', slots' := es + multiset{Entry(fd, i)}, slots[i := slots[i] + [fd]];
    assert multiset(slots[i] + [fd]) == multiset(slots[i]) + multiset{fd};
    forall g: nat, j: nat | j < |slots'| ensures multiset(slots'[j])[g] <= es'[Entry(g, j)] {
      assert multiset(slots[j])[g] <= es[Entry(g, j)];
    }
  }

  lemma {:induction false} AddKeepsCovered(w: Wheel, fd: nat, timeout: nat)
    requires Covered(w) && fd < |w.table|
    ensures Covered(AddUser(w, fd, timeout)) && |w.table| <= |AddUser(w, fd, timeout).table|
  {
    hide Covered, Shape, Covers, Small, Placed, Entries, Bucket, Place, Resized;
    CoveredParts(w);
    var t := TableForInsert(w.table, w.count);
    ResizeKeepsMapping(w.table);
    var e := Entry(fd, SlotFor(w.cur, timeout));
    PlaceAdds(t, e);
    SmallerStill(Entries(w.table), |w.table|, |t|);
    AddSmall(Entries(w.table), e, |t|);
    AddCovers(Entries(w.table), w.slots, fd, e.index);
    AddShape(w, fd, timeout);
    CoveredFrom(AddUser(w, fd, timeout));
  }

  lemma {:induction false} CoveredFrom(w: Wheel)
    requires Shape(w) && Placed(w.table)
    requires Small(Entries(w.table), |w.table|) && Covers(Entries(w.table), w.slots)
    ensures Covered(w)
  {
  }

  lemma {:induction false} SmallerStill(es: multiset<Entry>, m: nat, n: nat)
    requires Small(es, m) && m <= n
    ensures Small(es, n)
  {
  }

  /** A bucket holds entries of one descriptor. */
  lemma {:induction false} OwnBucket(w: Wheel, fd: nat)
    requires Covered(w) && fd < |w.table|
    ensures forall e | e in Chain(w, fd) :: e.fd == fd && e in Entries(w.table)
  {
    hide Bucket, Entries, Covers;
    PlacedBucket(w.table, Bucket(fd, |w.table|));
    SmallBucket(fd, |w.table|);
    forall e | e in Chain(w, fd) ensures e.fd == fd && e in Entries(w.table) {
      InBucket(w.table, e);
      assert Entries(w.table)[e] > 0;
      SmallBucket(e.fd, |w.table|);
    }
  }

  lemma {:induction false} RemoveCovers(es: multiset<Entry>, slots: seq<seq<nat>>, e: Entry)
    requires Covers(es, slots) && e in es && e.index < |slots|
    ensures Covers(es - multiset{e}, slots[e.index := Unringed(slots[e.index], e.fd)])
  {
    var es', slots' := es - multiset{e}, slots[e.index := Unringed(slots[e.index], e.fd)];
    UnringedRemoves(slots[e.index], e.fd);
    forall g: nat, j: nat | j < |slots'| ensures multiset(slots'[j])[g] <= es'[Entry(g, j)] {
      assert multiset(slots[j])[g] <= es[Entry(g, j)];
    }
  }

  lemma {:induction false} FewerCovers(es: multiset<Entry>, slots: seq<seq<nat>>, i: nat, ring: seq<nat>)
    requires Covers(es, slots) && i < |slots| && multiset(ring) <= multiset(slots[i])
    ensures Covers(es, slots[i := ring])
  {
    var slots' := slots[i := ring];
    forall g: nat, j: nat | j < |slots'| ensures multiset(slots'[j])[g] <= es[Entry(g, j)] {
      assert multiset(slots[j])[g] <= es[Entry(g, j)];
    }
  }

  lemma {:induction false} FewerSmall(es: multiset<Entry>, fewer: multiset<Entry>, n: nat)
    requires Small(es, n) && fewer <= es
    ensures Small(fewer, n)
  {
    forall e | e in fewer ensures e.fd < n {
      assert es[e] > 0;
    }
  }

  lemma {:induction false} HeadRemoved(w: Wheel, fd: nat)
    requires Shape(w) && Chain(w, fd) != [] && Chain(w, fd)[0].fd == fd
    ensures var r, b, i := RemoveUser(w, fd), Bucket(fd, |w.table|), Chain(w, fd)[0].index;
            && i < |w.slots| && r.slots == w.slots[i := Unringed(w.slots[i], fd)]
            && r.table == w.table[b := w.table[b][1..]] == Deleted(w.table, fd)
  {
  }

  /** A removal that finds a bucket takes an entry, and the node it stands for, out. */
  lemma {:induction false} RemoveTakesEntry(w: Wheel, fd: nat)
    requires Covered(w) && fd < |w.table| && Chain(w, fd) != []
    ensures Covered(RemoveUser(w, fd)) && |Entries(RemoveUser(w, fd).table)| < |Entries(w.table)|
  {
    hide Covered, Covers, Small, Placed, Entries, Bucket, Shape, RemoveUser, Deleted, Unringed;
    CoveredParts(w);
    var r, e, b := RemoveUser(w, fd), Chain(w, fd)[0], Bucket(fd, |w.table|);
    OwnBucket(w, fd);
    assert e in Chain(w, fd);
    HeadRemoved(w, fd);
    OneEntryLess(w.table, b);
    PlacedDeleted(w.table, fd);
    RemoveCovers(Entries(w.table), w.slots, e);
    FewerSmall(Entries(w.table), Entries(r.table), |w.table|);
    CoveredFrom(r);
  }

  lemma {:induction false} OneEntryLess(table: Chains, b: nat)
    requires b < |table| && table[b] != []
    ensures var es, r := Entries(table), Entries(table[b := table[b][1..]]);
            r == es - multiset{table[b][0]} && r <= es && |r| < |es|
  {
    hide Entries;
    EntriesUpdate(table, b, table[b][1..]);
    assert table[b] == [table[b][0]] + table[b][1..];
  }

  /** Any descriptor may be removed: one too large to be known only takes a
      namesake out of a ring. */
  lemma {:induction false} RemoveKeepsCovered(w: Wheel, fd: nat)
    requires Covered(w)
    ensures Covered(RemoveUser(w, fd))
  {
    if Chain(w, fd) != [] {
      if fd < |w.table| {
        RemoveTakesEntry(w, fd);
      } else {
        LargeStays(w, fd);
      }
    }
  }

  lemma {:induction false} LargeStays(w: Wheel, fd: nat)
    requires Covered(w) && Chain(w, fd) != [] && fd >= |w.table|
    ensures RemoveUser(w, fd) == w
  {
    hide Covered, Shape, Bucket, RemoveUser;
    CoveredParts(w);
    var b := Bucket(fd, |w.table|);
    SmallBucket(b, |w.table|);
    OwnBucket(w, b);
    HeadIndex(w, fd);
    assert Chain(w, b) == Chain(w, fd);
    NotCovered(w, fd, Chain(w, fd)[0].index);
    RemovesNobody(w, fd);
  }

  lemma {:induction false} NotCovered(w: Wheel, fd: nat, i: nat)
    requires Covered(w) && i < |w.slots| && fd >= |w.table|
    ensures fd !in w.slots[i]
  {
    hide Entries, Placed;
    assert multiset(w.slots[i])[fd] <= Entries(w.table)[Entry(fd, i)];
    assert Entry(fd, i) !in Entries(w.table);
  }

  // ----- ticks ------------------------------------------------------------------------

  /** A node in a ring has an entry, so that its bucket is not empty. */
  lemma {:induction false} WaitingHasEntry(w: Wheel, fd: nat, i: nat)
    requires Covered(w) && i < |w.slots| && fd in w.slots[i]
    ensures fd < |w.table| && Chain(w, fd) != []
  {
    hide Entries, Placed, Bucket;
    assert multiset(w.slots[i])[fd] <= Entries(w.table)[Entry(fd, i)];
    InBucket(w.table, Entry(fd, i));
  }

  lemma {:induction false} PassKeepsCovered(w: Wheel, n: nat)
    requires Covered(w) && Shape(w)
    ensures Covered(LoopAfter(w, n).w)
  {
    hide Covered, Shape, RemoveUser, LeftAfter, NextOf, Ring;
    if n > 0 {
      PassKeepsCovered(w, n - 1);
      var s := LoopAfter(w, n - 1);
      if s.Going? {
        NextVisit(w, n - 1);
        RemoveKeepsCovered(s.w, Ring(w)[s.at]);
      }
    } else {
      LoopAtStart(w);
    }
  }

  /** Nothing goes round for ever: whoever is linked is removed when visited. */
  lemma {:induction false} NeverStuck(w: Wheel, n: nat)
    requires Covered(w) && Shape(w)
    ensures !Stuck(Ring(w), LoopAfter(w, n))
  {
    hide Covered, Shape, RemoveUser, LoopAfter, Ring, Chain;
    var s := LoopAfter(w, n);
    if Stuck(Ring(w), s) {
      PassKeepsCovered(w, n);
      LoopLinked(w, n);
      var j :| 0 <= j < |s.left| && s.left[j] == s.at;
      assert Ring(s.w)[j] == Ring(w)[s.at];
      LinkedIsRemoved(s.w, Ring(w)[s.at]);
    }
  }

  lemma {:induction false} LinkedIsRemoved(w: Wheel, fd: nat)
    requires Covered(w) && Shape(w) && fd in Ring(w)
    ensures RemoveUser(w, fd) != w
  {
    hide Covered, RemoveUser, Chain;
    WaitingHasEntry(w, fd, w.cur);
    RemoveTakesEntry(w, fd);
  }

  /** Every tick of a covered wheel ends. */
  lemma {:induction false} CoveredTickReturns(w: Wheel)
    requires Covered(w) && Shape(w)
    ensures TickReturns(w)
  {
    hide Covered, Shape, LoopAfter, Limit, TickReturns, Stuck;
    TickReturnsUnlessStuck(w);
    NeverStuck(w, Limit(w));
  }

  lemma {:induction false} TickKeepsCovered(w: Wheel)
    requires Covered(w) && Shape(w) && TickReturns(w)
    ensures Covered(Tick(w)) && |Tick(w).table| == |w.table|
  {
    var v := AtEnd(w).w;
    PassKeepsCovered(w, EndOfLoop(w));
    CoveredParts(v);
    hide Covered, Entries, Placed, LoopAfter, AtEnd, Covers, Small;
    FewerCovers(Entries(v.table), v.slots, v.cur, []);
    CoveredFrom(Tick(w));
  }

  // ----- runs -------------------------------------------------------------------------

  /** Descriptors are smaller than the table; whether they wait does not matter. */
  predicate Fits(w: Wheel, op: Op) {
    op.Add? || op.Update? ==> op.fd < |w.table|
  }

  lemma {:induction false} OpKeepsCovered(w: Wheel, op: Op)
    requires Covered(w) && Fits(w, op)
    ensures Shape(w) && Happens(w, op)
    ensures Covered(Apply(w, op)) && |w.table| <= |Apply(w, op).table|
  {
    hide Covered, Shape, AddUser, RemoveUser, Tick, TickReturns, Chain;
    CoveredParts(w);
    match op {
      case Add(fd, timeout) => AddKeepsCovered(w, fd, timeout);
      case Update(fd, timeout) =>
        RemoveKeepsCovered(w, fd);
        AddKeepsCovered(RemoveUser(w, fd), fd, timeout);
      case Remove(fd) => RemoveKeepsCovered(w, fd);
      case TickOp =>
        CoveredTickReturns(w);
        TickKeepsCovered(w);
    }
  }

  ghost predicate FittingRun(w: Wheel, ops: seq<Op>)
    requires Covered(w)
    decreases |ops|
  {
    ops == [] || (Fits(w, ops[0]) && (OpKeepsCovered(w, ops[0]); FittingRun(Apply(w, ops[0]), ops[1..])))
  }

  /** In every run of descriptors smaller than the table, used again or not,
      every tick ends. */
  lemma {:induction false} RunsStayCovered(w: Wheel, ops: seq<Op>)
    requires Covered(w) && FittingRun(w, ops)
    ensures Shape(w) && Happening(w, ops) && Covered(Replay(w, ops))
    decreases |ops|
  {
    hide Covered, Shape, Happens, Apply, Fits;
    CoveredParts(w);
    if ops != [] {
      OpKeepsCovered(w, ops[0]);
      RunsStayCovered(Apply(w, ops[0]), ops[1..]);
    }
  }

  /** The table never shrinks, so that descriptors below its first size fit. */
  lemma {:induction false} BelowFirstSize(w: Wheel, ops: seq<Op>, n: nat)
    requires Covered(w) && n <= |w.table|
    requires forall k | 0 <= k < |ops| :: ops[k].Add? || ops[k].Update? ==> ops[k].fd < n
    ensures FittingRun(w, ops)
    decreases |ops|
  {
    hide Covered, Shape, Happens, Apply;
    if ops != [] {
      assert forall k | 0 <= k < |ops[1..]| :: ops[1..][k] == ops[k + 1];
      OpKeepsCovered(w, ops[0]);
      BelowFirstSize(Apply(w, ops[0]), ops[1..], n);
    }
  }

  /** So a new wheel serves every sequence of operations on descriptors below
      128, and every longer one whose descriptors the table has grown to hold. */
  lemma {:induction false} EveryTickEnds(ops: seq<Op>)
    ensures Covered(EmptyWheel())
    ensures FittingRun(EmptyWheel(), ops) ==> Happening(EmptyWheel(), ops)
    ensures (forall k | 0 <= k < |ops| :: ops[k].Add? || ops[k].Update? ==> ops[k].fd < INITIAL_HASH_SIZE) ==>
              FittingRun(EmptyWheel(), ops)
  {
    hide InRange, Covered, FittingRun, Happening;
    EmptyInRange();
    InRangeIsCovered(EmptyWheel());
    if FittingRun(EmptyWheel(), ops) {
      RunsStayCovered(EmptyWheel(), ops);
    }
    if forall k | 0 <= k < |ops| :: ops[k].Add? || ops[k].Update? ==> ops[k].fd < INITIAL_HASH_SIZE {
      BelowFirstSize(EmptyWheel(), ops, INITIAL_HASH_SIZE);
    }
  }
}
