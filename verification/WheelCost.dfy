/** What all resizes of a run cost together, for any descriptors. */
module WheelCost {
  import opened WheelAgreement
  import opened WheelRuns
  import opened WheelSpec
  import opened WheelTick

  function Pow2(k: nat): nat {
    if k == 0 then 1 else 2 * Pow2(k - 1)
  }

  /** 128 doubled some number of times. */
  ghost predicate Doubling(n: nat) {
    n % 4 == 0 && exists k: nat :: n == INITIAL_HASH_SIZE * Pow2(k)
  }

  lemma {:induction false} DoublingAgain(n: nat)
    requires Doubling(n)
    ensures Doubling(2 * n)
  {
    var k: nat :| n == INITIAL_HASH_SIZE * Pow2(k);
    assert 2 * n == INITIAL_HASH_SIZE * Pow2(k + 1);
  }

  /** The count is the number of nodes in the table. */
  ghost predicate Counted(w: Wheel) {
    Shape(w) && w.count == |Entries(w.table)|
  }

  /** The size is 128 doubled some number of times and the table is at most
      three quarters full. */
  ghost predicate Sized(w: Wheel) {
    Counted(w) && Doubling(|w.table|) && 4 * w.count <= 3 * |w.table|
  }

  /** Nodes that an insertion into this table moves first. */
  ghost function MovedByInsert(table: Chains, count: int): nat {
    if Full(count, |table|) then |Entries(table)| else 0
  }

  ghost function Moved(w: Wheel, op: Op): nat
    requires Shape(w)
  {
    match op
    case Add(_, _) => MovedByInsert(w.table, w.count)
    case Update(fd, _) =>
      if Chain(w, fd) == [] then 0 else MovedByInsert(RemoveUser(w, fd).table, RemoveUser(w, fd).count)
    case _ => 0
  }

  function Inserted(w: Wheel, op: Op): nat
    requires Shape(w)
  {
    match op
    case Add(_, _) => 1
    case Update(fd, _) => if Chain(w, fd) == [] then 0 else 1
    case _ => 0
  }

  /** Four times the credit saved up for the next resize. */
  function Credit(w: Wheel): int {
    if 8 * w.count >= 3 * |w.table| then 8 * w.count - 3 * |w.table| else 0
  }

  // ----- counting ---------------------------------------------------------------

  lemma {:induction false} UnchainedCount(chain: seq<Entry>, fd: nat)
    ensures |Unchained(chain, fd)| == |chain| - if Holds(chain, fd) then 1 else 0
  {
    if chain != [] {
      assert chain[0] in chain;
      UnchainedCount(chain[1..], fd);
      if chain[0].fd != fd {
        HoldsTail(chain, fd);
      }
    }
  }

  lemma {:induction false} HoldsTail(chain: seq<Entry>, fd: nat)
    requires chain != [] && chain[0].fd != fd
    ensures Holds(chain, fd) <==> Holds(chain[1..], fd)
  {
    if Holds(chain, fd) {
      var e :| e in chain && e.fd == fd;
      assert chain == [chain[0]] + chain[1..];
      assert e in chain[1..];
    }
    if Holds(chain[1..], fd) {
      var e :| e in chain[1..] && e.fd == fd;
      assert e in chain;
    }
  }

  lemma {:induction false} DeletedCount(table: Chains, fd: nat)
    requires 0 < |table|
    ensures |Entries(Deleted(table, fd))| ==
            |Entries(table)| - if Holds(table[Bucket(fd, |table|)], fd) then 1 else 0
  {
    hide Bucket, Unchained, Entries, Holds;
    var b := Bucket(fd, |table|);
    EntriesUpdate(table, b, Unchained(table[b], fd));
    UnchainedCount(table[b], fd);
  }

  lemma {:induction false} RemoveCounted(w: Wheel, fd: nat)
    requires Counted(w)
    ensures var r := RemoveUser(w, fd); Counted(r) && r.count <= w.count && |r.table| == |w.table|
  {
    hide Entries, Holds, Unchained, Bucket, Deleted;
    if Chain(w, fd) != [] {
      DeletedCount(w.table, fd);
      DetachShape(w, fd, Chain(w, fd)[0].index);
    }
  }

  lemma {:induction false} LoopCounted(w: Wheel, n: nat)
    requires Counted(w)
    ensures var r := LoopAfter(w, n).w; Counted(r) && r.count <= w.count
  {
    hide Counted, RemoveUser, LeftAfter, NextOf, Chain;
    CountedShape(w);
    if n > 0 {
      LoopCounted(w, n - 1);
      var s := LoopAfter(w, n - 1);
      if s.Going? {
        NextVisit(w, n - 1);
        RemoveCounted(s.w, Ring(w)[s.at]);
      }
    }
  }

  lemma {:induction false} CountedShape(w: Wheel)
    requires Counted(w)
    ensures Shape(w)
  {
  }

  lemma {:induction false} TickCounted(w: Wheel)
    requires Counted(w) && Shape(w) && TickReturns(w)
    ensures Counted(Tick(w)) && Tick(w).count <= w.count && |Tick(w).table| == |w.table|
  {
    hide LoopAfter, Entries;
    var n: nat :| LoopAfter(w, n).Ended?;
    EndIs(w, n);
    LoopCounted(w, n);
  }

  /** An insertion doubles the table exactly when it is three quarters full. */
  lemma {:induction false} AddCounted(w: Wheel, fd: nat, timeout: nat)
    requires Counted(w)
    ensures var r := AddUser(w, fd, timeout);
            && Counted(r) && r.count == w.count + 1
            && |r.table| == if 4 * w.count >= 3 * |w.table| then 2 * |w.table| else |w.table|
  {
    hide Entries, Placed, Place, Bucket;
    AddShape(w, fd, timeout);
    EmptyHasNoEntries(2 * |w.table|);
    MoveFromKeeps(w.table, 0, EmptyTable(2 * |w.table|));
    assert w.table[0..] == w.table;
    PlaceAdds(TableForInsert(w.table, w.count), Entry(fd, SlotFor(w.cur, timeout)));
  }

  // ----- cost ---------------------------------------------------------------------

  lemma {:induction false} InsertCost(w: Wheel, fd: nat, timeout: nat)
    requires Sized(w)
    ensures Sized(AddUser(w, fd, timeout))
    ensures 4 * MovedByInsert(w.table, w.count) + Credit(AddUser(w, fd, timeout)) <= Credit(w) + 8
  {
    AddCounted(w, fd, timeout);
    DoublingAgain(|w.table|);
    hide Shape, Entries, AddUser;
    if !Full(w.count, |w.table|) {
      QuarterSteps(w.count, |w.table|);
    }
  }

  /** A table that is not yet full has room for one more. */
  lemma {:induction false} QuarterSteps(count: int, size: nat)
    requires size % 4 == 0 && 4 * count < 3 * size
    ensures 4 * (count + 1) <= 3 * size
  {
  }

  lemma {:induction false} FewerIsCheaper(w: Wheel, r: Wheel)
    requires Sized(w) && Counted(r) && |r.table| == |w.table| && r.count <= w.count
    ensures Sized(r) && Credit(r) <= Credit(w)
  {
    hide Counted;
  }

  lemma {:induction false} SizedCounted(w: Wheel)
    requires Sized(w)
    ensures Counted(w) && Shape(w)
  {
  }

  lemma {:induction false} OpCost(w: Wheel, op: Op)
    requires Sized(w) && Shape(w) && Happens(w, op)
    ensures Sized(Apply(w, op))
    ensures 4 * Moved(w, op) + Credit(Apply(w, op)) <= Credit(w) + 8 * Inserted(w, op)
  {
    hide Sized, Shape, Credit, MovedByInsert, AddUser, RemoveUser, Tick, TickReturns, Chain, Counted;
    SizedCounted(w);
    match op
    case Add(fd, timeout) =>
      InsertCost(w, fd, timeout);
    case Update(fd, timeout) =>
      RemoveCounted(w, fd);
      FewerIsCheaper(w, RemoveUser(w, fd));
      InsertCost(RemoveUser(w, fd), fd, timeout);
    case Remove(fd) =>
      RemoveCounted(w, fd);
      FewerIsCheaper(w, RemoveUser(w, fd));
    case TickOp =>
      TickCounted(w);
      FewerIsCheaper(w, Tick(w));
  }

  ghost function TotalMoved(w: Wheel, ops: seq<Op>): nat
    requires Shape(w) && Happening(w, ops)
    decreases |ops|
  {
    if ops == [] then 0 else Moved(w, ops[0]) + TotalMoved(Apply(w, ops[0]), ops[1..])
  }

  ghost function TotalInserted(w: Wheel, ops: seq<Op>): nat
    requires Shape(w) && Happening(w, ops)
    decreases |ops|
  {
    if ops == [] then 0 else Inserted(w, ops[0]) + TotalInserted(Apply(w, ops[0]), ops[1..])
  }

  lemma {:induction false} CreditPaysForMoves(w: Wheel, ops: seq<Op>)
    requires Sized(w) && Shape(w) && Happening(w, ops)
    ensures Sized(Replay(w, ops))
    ensures 4 * TotalMoved(w, ops) + Credit(Replay(w, ops)) <= Credit(w) + 8 * TotalInserted(w, ops)
    decreases |ops|
  {
    hide Sized, Shape, Credit, Moved, Inserted, Apply, Happens;
    if ops != [] {
      OpCost(w, ops[0]);
      CreditPaysForMoves(Apply(w, ops[0]), ops[1..]);
    }
  }

  /** From an empty wheel: the table is never more than three quarters full
      after an operation, and all resizes together move at most two nodes for
      each insertion of the run. */
  lemma {:induction false} ResizesAreAmortised(ops: seq<Op>)
    requires Happening(EmptyWheel(), ops)
    ensures Sized(Replay(EmptyWheel(), ops))
    ensures TotalMoved(EmptyWheel(), ops) <= 2 * TotalInserted(EmptyWheel(), ops)
  {
    hide EmptyWheel, Happening, Replay, TotalMoved, TotalInserted, Sized;
    EmptySized();
    CreditPaysForMoves(EmptyWheel(), ops);
  }

  lemma {:induction false} EmptySized()
    ensures Sized(EmptyWheel()) && Credit(EmptyWheel()) == 0
  {
    hide Entries;
    EmptyHasNoEntries(INITIAL_HASH_SIZE);
    assert |EmptyWheel().table| == INITIAL_HASH_SIZE * Pow2(0);
  }
}
