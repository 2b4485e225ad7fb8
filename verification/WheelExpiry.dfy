/** When a waiting descriptor is closed, in runs of any wheel: rings and table
    need not agree, descriptors may be used again while they still wait. */
module WheelExpiry {
  import opened Basics
  import opened WheelAgreement
  import opened WheelRuns
  import opened WheelSpec
  import opened WheelTick

  function Ticks(ops: seq<Op>): nat {
    if ops == [] then 0 else (if ops[0].TickOp? then 1 else 0) + Ticks(ops[1..])
  }

  predicate Untouched(ops: seq<Op>, fd: nat) {
    forall op | op in ops :: op.TickOp? || op.fd != fd
  }

  /** The slot that is current `d` ticks from now. */
  function SlotIn(cur: nat, d: nat): (i: nat)
    requires cur < SLOTS && d <= SLOTS
    ensures i < SLOTS
  {
    if cur + d < SLOTS then cur + d else cur + d - SLOTS
  }

  /** Ticks that pass, from the `d`th on, before one reaches a slot in which
      `fd` waits, or sixty. */
  function NearestFrom(w: Wheel, fd: nat, d: nat): (n: nat)
    requires Shape(w) && d <= SLOTS
    ensures d <= n <= SLOTS && (n < SLOTS ==> fd in w.slots[SlotIn(w.cur, n)])
    ensures forall j | d <= j < n :: fd !in w.slots[SlotIn(w.cur, j)]
    decreases SLOTS - d
  {
    if d == SLOTS || fd in w.slots[SlotIn(w.cur, d)] then d else NearestFrom(w, fd, d + 1)
  }

  function Nearest(w: Wheel, fd: nat): (n: nat)
    requires Shape(w)
    ensures n <= SLOTS && (n < SLOTS ==> fd in w.slots[SlotIn(w.cur, n)])
    ensures forall j | 0 <= j < n :: fd !in w.slots[SlotIn(w.cur, j)]
  {
    NearestFrom(w, fd, 0)
  }

  lemma {:induction false} NearestIs(w: Wheel, fd: nat, n: nat)
    requires Shape(w) && n <= SLOTS && (n < SLOTS ==> fd in w.slots[SlotIn(w.cur, n)])
    requires forall j | 0 <= j < n :: fd !in w.slots[SlotIn(w.cur, j)]
    ensures Nearest(w, fd) == n
  {
    hide NearestFrom, Nearest;
    var m := Nearest(w, fd);
    var there, here := w.slots[SlotIn(w.cur, m)], w.slots[SlotIn(w.cur, n)];
  }

  /** Some tick of the run closes `fd`. */
  ghost predicate ClosedBy(w: Wheel, ops: seq<Op>, fd: nat)
    requires Shape(w) && Happening(w, ops)
    decreases |ops|
  {
    ops != [] && ((ops[0].TickOp? && fd in Closed(w)) || ClosedBy(Apply(w, ops[0]), ops[1..], fd))
  }

  // ----- one operation --------------------------------------------------------

  /** Two wheels keep `fd` in the same rings. */
  ghost predicate SamePlaces(w: Wheel, r: Wheel, fd: nat) {
    && |w.slots| == |r.slots| == SLOTS && r.cur == w.cur
    && forall i: nat | i < SLOTS :: fd in w.slots[i] <==> fd in r.slots[i]
  }

  lemma {:induction false} OthersStayOnRemove(w: Wheel, g: nat, fd: nat)
    requires Shape(w) && g != fd
    ensures SamePlaces(w, RemoveUser(w, g), fd)
  {
    if Chain(w, g) != [] {
      var k := Chain(w, g)[0].index;
      StaysInRing(w.slots[k], g, fd);
    }
  }

  lemma {:induction false} StaysInRing(ring: seq<nat>, g: nat, fd: nat)
    requires g != fd
    ensures fd in Unringed(ring, g) <==> fd in ring
  {
    hide Unringed;
    UnringedRemoves(ring, g);
    assert fd in ring <==> fd in multiset(ring);
    assert fd in Unringed(ring, g) <==> fd in multiset(Unringed(ring, g));
  }

  lemma {:induction false} OthersStayOnAdd(w: Wheel, g: nat, timeout: nat, fd: nat)
    requires Shape(w) && g != fd
    ensures SamePlaces(w, AddUser(w, g, timeout), fd)
  {
  }

  /** An operation on somebody else leaves a descriptor where it is. */
  lemma {:induction false} OthersStay(w: Wheel, op: Op, fd: nat)
    requires Shape(w) && !op.TickOp? && op.fd != fd
    ensures SamePlaces(w, Apply(w, op), fd)
  {
    hide Shape, AddUser, RemoveUser;
    match op
    case Add(g, timeout) =>
      OthersStayOnAdd(w, g, timeout, fd);
    case Remove(g) =>
      OthersStayOnRemove(w, g, fd);
    case Update(g, timeout) =>
      OthersStayOnRemove(w, g, fd);
      OthersStayOnAdd(RemoveUser(w, g), g, timeout, fd);
      NothingDone(w, fd);
  }

  lemma {:induction false} NothingDone(w: Wheel, fd: nat)
    requires Shape(w)
    ensures SamePlaces(w, w, fd)
  {
  }

  /** The visits of a tick take nobody out of a ring who is not in theirs. */
  lemma {:induction false} VisitsSpare(w: Wheel, n: nat, fd: nat)
    requires Shape(w) && fd !in Ring(w)
    ensures SamePlaces(w, LoopAfter(w, n).w, fd)
  {
    hide Shape, RemoveUser, LeftAfter, NextOf, Chain;
    if n == 0 {
      NothingDone(w, fd);
    } else {
      VisitsSpare(w, n - 1, fd);
      var s := LoopAfter(w, n - 1);
      if s.Going? {
        NextVisit(w, n - 1);
        OthersStayOnRemove(s.w, Ring(w)[s.at], fd);
      }
    }
  }

  lemma {:induction false} TickSpares(w: Wheel, fd: nat)
    requires Shape(w) && TickReturns(w) && fd !in Ring(w)
    ensures fd !in Closed(w) && SamePlaces(w, Tick(w).(cur := w.cur), fd)
  {
    hide LoopAfter;
    var n: nat :| LoopAfter(w, n).Ended?;
    EndIs(w, n);
    VisitsSpare(w, n, fd);
    EverybodyIsVisited(w);
  }

  // ----- nearer by one slot a tick -------------------------------------------------

  lemma {:induction false} SamePlacesSameTurn(w: Wheel, r: Wheel, fd: nat)
    requires Shape(w) && Shape(r) && SamePlaces(w, r, fd)
    ensures Nearest(r, fd) == Nearest(w, fd)
  {
    hide Shape, Nearest;
    NearestIs(r, fd, Nearest(w, fd));
  }

  lemma {:induction false} NextSlot(cur: nat, d: nat)
    requires cur < SLOTS && d < SLOTS
    ensures SlotIn((cur + 1) % SLOTS, d) == SlotIn(cur, d + 1)
  {
  }

  lemma {:induction false} OneNearer(w: Wheel, r: Wheel, fd: nat)
    requires Shape(w) && Shape(r) && Nearest(w, fd) > 0
    requires SamePlaces(w, r.(cur := w.cur), fd) && r.cur == (w.cur + 1) % SLOTS
    ensures Nearest(r, fd) == if Nearest(w, fd) < SLOTS then Nearest(w, fd) - 1 else SLOTS
  {
    hide Shape, Nearest;
    InWheel(w);
    var n := if Nearest(w, fd) < SLOTS then Nearest(w, fd) - 1 else SLOTS;
    forall j: nat | j < n ensures fd !in r.slots[SlotIn(r.cur, j)] {
      NextSlot(w.cur, j);
      if j == SLOTS - 1 {
        assert SlotIn(w.cur, j + 1) == SlotIn(w.cur, 0);
      }
      assert fd !in w.slots[SlotIn(w.cur, if j == SLOTS - 1 then 0 else j + 1)];
    }
    if n < SLOTS {
      NextSlot(w.cur, n);
    }
    NearestIs(r, fd, n);
  }

  lemma {:induction false} InWheel(w: Wheel)
    requires Shape(w)
    ensures |w.slots| == SLOTS && w.cur < SLOTS
  {
  }

  lemma {:induction false} AtHead(w: Wheel, fd: nat)
    requires Shape(w)
    ensures fd in Ring(w) <==> Nearest(w, fd) == 0
  {
    assert SlotIn(w.cur, 0) == w.cur;
  }

  /** Left alone, a waiting descriptor is closed by the first tick that reaches
      a slot it waits in, and by no earlier one; a descriptor that waits nowhere
      is not closed. */
  lemma {:induction false} ClosedExactly(w: Wheel, ops: seq<Op>, fd: nat)
    requires Shape(w) && Happening(w, ops) && Untouched(ops, fd)
    ensures ClosedBy(w, ops, fd) <==> Nearest(w, fd) < 60 && Nearest(w, fd) < Ticks(ops)
    decreases |ops|
  {
    hide Shape, Apply, Nearest, TickReturns;
    if ops != [] {
      var next := Apply(w, ops[0]);
      AtHead(w, fd);
      if !ops[0].TickOp? {
        OthersStay(w, ops[0], fd);
        SamePlacesSameTurn(w, next, fd);
        ClosedExactly(next, ops[1..], fd);
      } else if Nearest(w, fd) == 0 {
        IsTick(w, ops[0]);
        EverybodyIsVisited(w);
      } else {
        IsTick(w, ops[0]);
        TickSpares(w, fd);
        OneNearer(w, next, fd);
        ClosedExactly(next, ops[1..], fd);
      }
    }
  }

  lemma {:induction false} IsTick(w: Wheel, op: Op)
    requires Shape(w) && Happens(w, op) && op.TickOp?
    ensures TickReturns(w) && Apply(w, op) == Tick(w) && Tick(w).cur == (w.cur + 1) % SLOTS
  {
  }

  // ----- after its turn --------------------------------------------------------

  lemma {:induction false} RemoveAddsNobody(w: Wheel, g: nat, fd: nat, i: nat)
    requires Shape(w) && i < SLOTS
    ensures fd in RemoveUser(w, g).slots[i] ==> fd in w.slots[i]
  {
    if g != fd {
      OthersStayOnRemove(w, g, fd);
    } else if Chain(w, g) != [] {
      UnringedWithin(w.slots[Chain(w, g)[0].index], g);
    }
  }

  lemma {:induction false} UnringedWithin(ring: seq<nat>, g: nat)
    ensures forall x | x in Unringed(ring, g) :: x in ring
  {
    if ring != [] && ring[0] != g {
      UnringedWithin(ring[1..], g);
    }
  }

  lemma {:induction false} VisitsAddNobody(w: Wheel, n: nat, fd: nat, i: nat)
    requires Shape(w) && i < SLOTS
    ensures fd in LoopAfter(w, n).w.slots[i] ==> fd in w.slots[i]
  {
    hide RemoveUser, LeftAfter, NextOf, Chain;
    if n > 0 {
      VisitsAddNobody(w, n - 1, fd, i);
      var s := LoopAfter(w, n - 1);
      if s.Going? {
        NextVisit(w, n - 1);
        RemoveAddsNobody(s.w, Ring(w)[s.at], fd, i);
      }
    }
  }

  /** A descriptor waits in no slot but one, if in any. */
  ghost predicate OnlyIn(w: Wheel, fd: nat, i: nat) {
    forall j: nat | j < |w.slots| && fd in w.slots[j] :: j == i
  }

  lemma {:induction false} TurnOver(w: Wheel, fd: nat)
    requires Shape(w) && TickReturns(w) && OnlyIn(w, fd, w.cur)
    ensures !Live(Tick(w), fd)
  {
    hide LoopAfter;
    var n: nat :| LoopAfter(w, n).Ended?;
    EndIs(w, n);
    forall i: nat | i < SLOTS ensures fd !in Tick(w).slots[i] {
      VisitsAddNobody(w, n, fd, i);
    }
  }

  lemma {:induction false} SameWaiting(w: Wheel, r: Wheel, fd: nat)
    requires SamePlaces(w, r, fd)
    ensures Live(r, fd) <==> Live(w, fd)
    ensures forall i :: OnlyIn(w, fd, i) <==> OnlyIn(r, fd, i)
  {
  }

  lemma {:induction false} GoneStaysGone(w: Wheel, ops: seq<Op>, fd: nat)
    requires Shape(w) && Happening(w, ops) && Untouched(ops, fd) && !Live(w, fd)
    ensures !Live(Replay(w, ops), fd)
    decreases |ops|
  {
    hide Shape, Apply, TickReturns;
    if ops != [] {
      var next := Apply(w, ops[0]);
      if ops[0].TickOp? {
        IsTick(w, ops[0]);
        NotInRing(w, fd);
        TickSpares(w, fd);
        SameWaiting(w, next.(cur := w.cur), fd);
      } else {
        OthersStay(w, ops[0], fd);
        SameWaiting(w, next, fd);
      }
      GoneStaysGone(next, ops[1..], fd);
    }
  }

  lemma {:induction false} NotInRing(w: Wheel, fd: nat)
    requires Shape(w) && !Live(w, fd)
    ensures fd !in Ring(w)
  {
  }

  /** A descriptor that waits in one slot alone is there until that slot's turn
      and nowhere afterwards. */
  lemma {:induction false} GoneAfterItsTurn(w: Wheel, ops: seq<Op>, fd: nat)
    requires Shape(w) && Happening(w, ops) && Untouched(ops, fd)
    requires Nearest(w, fd) < SLOTS && OnlyIn(w, fd, SlotIn(w.cur, Nearest(w, fd)))
    ensures Live(Replay(w, ops), fd) <==> Ticks(ops) <= Nearest(w, fd)
    decreases |ops|
  {
    hide Shape, Apply, TickReturns, Nearest, OnlyIn;
    if ops == [] {
      NearestLives(w, fd);
    } else {
      var next := Apply(w, ops[0]);
      AtHead(w, fd);
      if !ops[0].TickOp? {
        OthersStay(w, ops[0], fd);
        SamePlacesSameTurn(w, next, fd);
        SameWaiting(w, next, fd);
        GoneAfterItsTurn(next, ops[1..], fd);
      } else if Nearest(w, fd) == 0 {
        IsTick(w, ops[0]);
        HeadSlot(w);
        TurnOver(w, fd);
        GoneStaysGone(next, ops[1..], fd);
      } else {
        InWheel(w);
        IsTick(w, ops[0]);
        TickSpares(w, fd);
        OneNearer(w, next, fd);
        SameWaiting(w, next.(cur := w.cur), fd);
        NextSlot(w.cur, Nearest(next, fd));
        OnlyInTurned(next, fd, w.cur, SlotIn(w.cur, Nearest(w, fd)));
        GoneAfterItsTurn(next, ops[1..], fd);
      }
    }
  }

  lemma {:induction false} HeadSlot(w: Wheel)
    requires Shape(w)
    ensures SlotIn(w.cur, 0) == w.cur
  {
  }

  lemma {:induction false} OnlyInTurned(w: Wheel, fd: nat, cur: nat, i: nat)
    requires OnlyIn(w.(cur := cur), fd, i)
    ensures OnlyIn(w, fd, i)
  {
  }

  lemma {:induction false} NearestLives(w: Wheel, fd: nat)
    requires Shape(w) && Nearest(w, fd) < SLOTS
    ensures Live(w, fd)
  {
  }

  // ----- how long an addition or a refresh lasts -----------------------------------

  lemma {:induction false} AddedTurn(w: Wheel, fd: nat, timeout: nat)
    requires Shape(w)
    ensures Shape(AddUser(w, fd, timeout))
    ensures Nearest(AddUser(w, fd, timeout), fd) == Min(Nearest(w, fd), timeout % SLOTS)
  {
    AddShape(w, fd, timeout);
    var t, n := timeout % SLOTS, Nearest(w, fd);
    SlotOfTimeout(w.cur, timeout);
    AddedSlots(w, fd, timeout);
    var r := AddUser(w, fd, timeout);
    hide Shape, Nearest, AddUser;
    assert fd in r.slots[SlotIn(w.cur, t)];
    forall j | 0 <= j < Min(n, t) ensures fd !in r.slots[SlotIn(r.cur, j)] {
      assert fd !in w.slots[SlotIn(w.cur, j)];
      OtherSlot(w.cur, j, t);
    }
    NearestIs(r, fd, Min(n, t));
  }

  lemma {:induction false} SlotOfTimeout(cur: nat, timeout: nat)
    requires cur < SLOTS
    ensures SlotFor(cur, timeout) == SlotIn(cur, timeout % SLOTS)
  {
  }

  lemma {:induction false} OtherSlot(cur: nat, j: nat, t: nat)
    requires cur < SLOTS && j < t < SLOTS
    ensures SlotIn(cur, j) != SlotIn(cur, t)
  {
  }

  lemma {:induction false} AddedSlots(w: Wheel, fd: nat, timeout: nat)
    requires Shape(w)
    ensures var r, i := AddUser(w, fd, timeout), SlotFor(w.cur, timeout);
            && r.cur == w.cur && |r.slots| == SLOTS && r.slots[i] == w.slots[i] + [fd]
            && forall j | 0 <= j < SLOTS && j != i :: r.slots[j] == w.slots[j]
  {
  }

  /** Added with timeout t to any wheel, a descriptor is closed by tick number
      (t mod 60) + 1, or by an earlier one exactly when it is still waiting for
      that from before. */
  lemma {:induction false} ClosedAtSoonerTurn(w: Wheel, fd: nat, timeout: nat, ops: seq<Op>)
    requires Shape(w) && Shape(AddUser(w, fd, timeout))
    requires Happening(AddUser(w, fd, timeout), ops) && Untouched(ops, fd)
    ensures ClosedBy(AddUser(w, fd, timeout), ops, fd) <==> Min(Nearest(w, fd), timeout % 60) < Ticks(ops)
  {
    hide Shape, Nearest, AddUser;
    AddedTurn(w, fd, timeout);
    ClosedExactly(AddUser(w, fd, timeout), ops, fd);
  }

  /** The operation enters a waiting time for its descriptor: an addition, or a
      refresh that finds anything in the bucket. */
  ghost predicate Sets(w: Wheel, op: Op)
    requires Shape(w)
  {
    op.Add? || (op.Update? && Chain(w, op.fd) != [])
  }

  /** Added when new, or refreshed in an agreeing wheel (which enters it even when
      it did not wait, if another's node is in its bucket), and then left alone, a
      descriptor is closed by tick number (t mod 60) + 1 and by no earlier one,
      and is gone from that tick on, whatever happens to others. */
  lemma {:induction false} ExactExpiry(w: Wheel, setBy: Op, ops: seq<Op>)
    requires Agree(w) && Shape(w) && Sets(w, setBy) && Works(w, setBy)
    requires Happens(w, setBy) && Happening(Apply(w, setBy), ops) && Untouched(ops, setBy.fd)
    ensures var s, t := Apply(w, setBy), setBy.timeout % 60;
            && (ClosedBy(s, ops, setBy.fd) <==> t < Ticks(ops))
            && (Live(Replay(s, ops), setBy.fd) <==> Ticks(ops) <= t)
  {
    var fd, t, s := setBy.fd, setBy.timeout % SLOTS, Apply(w, setBy);
    hide Agree, Shape, Works, Apply, Nearest, OnlyIn, AddUser;
    SetTurn(w, setBy);
    ClosedExactly(s, ops, fd);
    GoneAfterItsTurn(s, ops, fd);
  }

  lemma {:induction false} SetTurn(w: Wheel, setBy: Op)
    requires Agree(w) && Shape(w) && Sets(w, setBy) && Works(w, setBy) && Happens(w, setBy)
    ensures var s, t := Apply(w, setBy), setBy.timeout % SLOTS;
            Nearest(s, setBy.fd) == t && OnlyIn(s, setBy.fd, SlotIn(s.cur, t))
  {
    hide Agree, Shape, Nearest, OnlyIn, AddUser, RemoveUser;
    var fd := setBy.fd;
    OpKeepsExactly(w, setBy);
    if setBy.Add? {
      FreshTurn(w, fd, setBy.timeout);
    } else {
      Refreshed(w, fd);
      FreshTurn(RemoveUser(w, fd), fd, setBy.timeout);
    }
  }

  /** Where a refresh looks in the right ring it takes the descriptor out; who
      does not wait is in no ring anyway. */
  lemma {:induction false} Refreshed(w: Wheel, fd: nat)
    requires Agree(w) && Shape(w) && (Live(w, fd) ==> Found(w, fd))
    ensures Agree(RemoveUser(w, fd)) && !Live(RemoveUser(w, fd), fd)
  {
    hide Agree;
    if Live(w, fd) {
      var i := LiveEntry(w, fd);
      DetachKeepsAgree(w, fd, i);
    } else {
      StrangerStays(w, fd);
    }
  }

  lemma {:induction false} FreshTurn(w: Wheel, fd: nat, timeout: nat)
    requires Shape(w) && !Live(w, fd)
    ensures var s, t := AddUser(w, fd, timeout), timeout % SLOTS;
            && Shape(s) && Nearest(s, fd) == t && OnlyIn(s, fd, SlotIn(s.cur, t))
  {
    hide Nearest;
    AddedTurn(w, fd, timeout);
    AddedSlots(w, fd, timeout);
    SlotOfTimeout(w.cur, timeout);
    hide AddUser;
    assert Nearest(w, fd) == SLOTS;
  }
}
