/** What one tick does, visit by visit, and when its loop ends. */
module WheelTick {
  import opened Basics
  import opened WheelAgreement
  import opened WheelSpec

  /** The first place of `x`, or the length when there is none. */
  function FirstOf(q: seq<nat>, x: nat): (k: nat)
    ensures k <= |q| && (k < |q| ==> q[k] == x) && forall j | 0 <= j < k :: q[j] != x
  {
    if q == [] || q[0] == x then 0 else 1 + FirstOf(q[1..], x)
  }

  function Dropped(q: seq<nat>, k: nat): (r: seq<nat>)
    ensures forall x | x in r :: x in q
  {
    if k < |q| then q[..k] + q[k + 1..] else q
  }

  function Places(n: nat): (q: seq<nat>)
    ensures |q| == n && forall j | 0 <= j < n :: q[j] == j
  {
    if n == 0 then [] else Places(n - 1) + [n - 1]
  }

  /** A tick under way. The nodes of the current ring are named by their places
      in it when the tick began: `left` are those still linked, in order, and
      `at` is the one to visit. */
  datatype Loop =
    | Going(w: Wheel, left: seq<nat>, at: nat, closed: seq<nat>)
    | Ended(w: Wheel, closed: seq<nat>)

  /** Where the next pointer of a node leads: round the ring, or nowhere once
      the node is unlinked. */
  function NextOf(left: seq<nat>, at: nat): (next: Option<nat>)
    ensures next.Some? <==> at in left
    ensures next.Some? ==> next.value in left
  {
    var k := FirstOf(left, at);
    if k == |left| then None else Some(left[if k + 1 < |left| then k + 1 else 0])
  }

  /** What removing `fd` leaves of the nodes in the current ring: it is looked
      for there when the first node of its bucket says so. */
  function LeftAfter(w: Wheel, left: seq<nat>, fd: nat): (r: seq<nat>)
    requires Shape(w)
    ensures forall p | p in r :: p in left
  {
    var c := Chain(w, fd);
    if c != [] && c[0].index == w.cur then Dropped(left, FirstOf(w.slots[w.cur], fd)) else left
  }

  /** One pass of the loop: the next pointer is read before the user is removed,
      and the loop ends at the node it began with, or at no node. */
  function Visit(ring: seq<nat>, s: Loop): Loop
    requires s.Going? && Shape(s.w) && s.at < |ring|
  {
    var fd := ring[s.at];
    var w, closed := RemoveUser(s.w, fd), s.closed + [fd];
    match NextOf(s.left, s.at)
    case None => Ended(w, closed)
    case Some(next) => if next == 0 then Ended(w, closed) else Going(w, LeftAfter(s.w, s.left, fd), next, closed)
  }

  function Ring(w: Wheel): seq<nat>
    requires Shape(w)
  {
    w.slots[w.cur]
  }

  /** The loop of a tick of `w` after `n` visits, or when it has ended before. */
  function LoopAfter(w: Wheel, n: nat): (s: Loop)
    requires Shape(w)
    ensures Shape(s.w) && s.w.cur == w.cur && |s.w.table| == |w.table|
    ensures s.Going? ==> s.at < |Ring(w)| && forall p | p in s.left :: p < |Ring(w)|
  {
    if n == 0 then
      if Ring(w) == [] then Ended(w, []) else Going(w, Places(|Ring(w)|), 0, [])
    else
      var s := LoopAfter(w, n - 1);
      if s.Going? then Visit(Ring(w), s) else s
  }

  ghost predicate TickReturns(w: Wheel)
    requires Shape(w)
  {
    exists n: nat :: LoopAfter(w, n).Ended?
  }

  ghost function EndOfLoop(w: Wheel): (n: nat)
    requires Shape(w) && TickReturns(w)
    ensures LoopAfter(w, n).Ended?
  {
    var n: nat :| LoopAfter(w, n).Ended?;
    n
  }

  ghost function AtEnd(w: Wheel): (s: Loop)
    requires Shape(w) && TickReturns(w)
    ensures s.Ended? && Shape(s.w) && s.w.cur == w.cur && |s.w.table| == |w.table|
  {
    LoopAfter(w, EndOfLoop(w))
  }

  /** The descriptors a tick closes, in order. */
  ghost function Closed(w: Wheel): seq<nat>
    requires Shape(w) && TickReturns(w)
  {
    AtEnd(w).closed
  }

  /** Behind the loop the current slot is forgotten and the next one current. */
  ghost function Tick(w: Wheel): (r: Wheel)
    requires Shape(w) && TickReturns(w)
    ensures Shape(r)
  {
    AtEnd(w).w.(slots := AtEnd(w).w.slots[w.cur := []], cur := (w.cur + 1) % SLOTS)
  }

  lemma {:induction false} StaysEnded(w: Wheel, m: nat, n: nat)
    requires Shape(w) && m <= n && LoopAfter(w, m).Ended?
    ensures LoopAfter(w, n) == LoopAfter(w, m)
    decreases n
  {
    if m < n {
      StaysEnded(w, m, n - 1);
    }
  }

  lemma {:induction false} EndIs(w: Wheel, n: nat)
    requires Shape(w) && LoopAfter(w, n).Ended?
    ensures TickReturns(w) && AtEnd(w) == LoopAfter(w, n)
  {
    var m := EndOfLoop(w);
    if m <= n {
      StaysEnded(w, m, n);
    } else {
      StaysEnded(w, n, m);
    }
  }

  /** A loop still under way has yet to come to its end. */
  lemma {:induction false} NotYet(w: Wheel, n: nat)
    requires Shape(w) && TickReturns(w) && LoopAfter(w, n).Going?
    ensures n < EndOfLoop(w)
  {
    if EndOfLoop(w) <= n {
      StaysEnded(w, EndOfLoop(w), n);
    }
  }

  lemma {:induction false} OneVisit(w: Wheel, n: nat)
    requires Shape(w) && LoopAfter(w, n).Going?
    ensures LoopAfter(w, n + 1) == Visit(Ring(w), LoopAfter(w, n))
    ensures LoopAfter(w, n + 1).closed == LoopAfter(w, n).closed + [Ring(w)[LoopAfter(w, n).at]]
  {
  }

  // ----- any wheel: the first round visits everybody ---------------------------

  /** The nodes still linked are the ring as it is now. */
  ghost predicate Linked(ring: seq<nat>, s: Loop)
    requires s.Going? && Shape(s.w)
  {
    && |Ring(s.w)| == |s.left|
    && forall j | 0 <= j < |s.left| :: s.left[j] < |ring| && Ring(s.w)[j] == ring[s.left[j]]
  }

  /** Some of the first `k` of `n` places, followed by all the others. */
  ghost predicate Ahead(left: seq<nat>, k: nat, n: nat)
    requires k <= n
  {
    var m := |left| - (n - k);
    && 0 <= m
    && (forall j | 0 <= j < m :: left[j] < k)
    && forall j | m <= j < |left| :: left[j] == k + j - m
  }

  lemma {:induction false} UnringedDrops(ring: seq<nat>, fd: nat)
    ensures Unringed(ring, fd) == Dropped(ring, FirstOf(ring, fd))
  {
    if ring != [] && ring[0] != fd {
      UnringedDrops(ring[1..], fd);
      var k := FirstOf(ring[1..], fd);
      assert k < |ring[1..]| ==> [ring[0]] + ring[1..][..k] == ring[..k + 1] && ring[1..][k + 1..] == ring[k + 2..];
    }
  }

  /** Removing a user keeps node names and ring in step. */
  lemma {:induction false} StaysLinked(ring: seq<nat>, w: Wheel, left: seq<nat>, fd: nat)
    requires Shape(w) && |Ring(w)| == |left|
    requires forall j | 0 <= j < |left| :: left[j] < |ring| && Ring(w)[j] == ring[left[j]]
    ensures var r, q := Ring(RemoveUser(w, fd)), LeftAfter(w, left, fd);
            |r| == |q| && forall j | 0 <= j < |q| :: q[j] < |ring| && r[j] == ring[q[j]]
  {
    UnringedDrops(Ring(w), fd);
  }

  /** Before the first round is over, visit number `k` is to node `k`. */
  lemma {:induction false} FirstRound(w: Wheel, k: nat)
    requires Shape(w) && k < |Ring(w)|
    ensures var s := LoopAfter(w, k);
            && s.Going? && s.at == k && s.closed == Ring(w)[..k]
            && Linked(Ring(w), s) && Ahead(s.left, k, |Ring(w)|)
  {
    hide Shape, RemoveUser, LeftAfter, NextOf;
    if k > 0 {
      FirstRound(w, k - 1);
      var s := LoopAfter(w, k - 1);
      RoundGoesOn(s.w, s.left, Ring(w), k - 1);
      StaysLinked(Ring(w), s.w, s.left, Ring(w)[k - 1]);
      hide Ahead;
      NextVisit(w, k - 1);
      Taken(Ring(w), k - 1);
    }
  }

  /** What one more visit does. */
  lemma {:induction false} NextVisit(w: Wheel, n: nat)
    requires Shape(w) && LoopAfter(w, n).Going?
    ensures var s, r := LoopAfter(w, n), LoopAfter(w, n + 1);
            var fd, next := Ring(w)[s.at], NextOf(s.left, s.at);
            && r.w == RemoveUser(s.w, fd) && r.closed == s.closed + [fd]
            && (r.Going? <==> next.Some? && next.value != 0)
            && (r.Going? ==> r.at == next.value && r.left == LeftAfter(s.w, s.left, fd))
  {
    hide Shape, RemoveUser, LeftAfter, NextOf, Ring;
  }

  /** Visiting node `k` takes out at most one node, and none behind it. */
  lemma {:induction false} RoundGoesOn(v: Wheel, left: seq<nat>, ring: seq<nat>, k: nat)
    requires Shape(v) && |Ring(v)| == |left| && k < |ring| && Ahead(left, k, |ring|)
    requires forall j | 0 <= j < |left| :: left[j] < |ring| && Ring(v)[j] == ring[left[j]]
    ensures Ahead(LeftAfter(v, left, ring[k]), k + 1, |ring|)
    ensures NextOf(left, k) == Some(if k + 1 < |ring| then k + 1 else left[0])
  {
    hide Shape;
    var m := |left| - (|ring| - k);
    var q := FirstOf(Ring(v), ring[k]);
    assert left[m] == k && Ring(v)[m] == ring[k];
    assert q <= m && FirstOf(left, k) == m;
  }

  /** So a tick that ends has closed the whole ring, in order, and beyond that
      only members of the ring again. */
  lemma {:induction false} EverybodyIsVisited(w: Wheel)
    requires Shape(w) && TickReturns(w)
    ensures Ring(w) <= Closed(w) && forall fd | fd in Closed(w) :: fd in Ring(w)
  {
    var n: nat :| LoopAfter(w, n).Ended?;
    EndIs(w, n);
    ClosedSoFar(w, n);
  }

  lemma {:induction false} ClosedSoFar(w: Wheel, n: nat)
    requires Shape(w)
    ensures var s := LoopAfter(w, n);
            && (forall fd | fd in s.closed :: fd in Ring(w))
            && (s.Ended? || n >= |Ring(w)| ==> Ring(w) <= s.closed)
  {
    hide Shape, RemoveUser, LeftAfter, NextOf, Visit, Ahead, Linked;
    if n > 0 {
      ClosedSoFar(w, n - 1);
      if n <= |Ring(w)| {
        FirstRound(w, n - 1);
        Taken(Ring(w), n - 1);
        assert n == |Ring(w)| ==> Ring(w)[..n] == Ring(w);
      }
      if LoopAfter(w, n - 1).Going? {
        NextVisit(w, n - 1);
      }
      if n < |Ring(w)| {
        FirstRound(w, n);
      }
    }
  }

  /** A tick of a ring of one, or of none, always ends. */
  lemma {:induction false} ShortRingEnds(w: Wheel)
    requires Shape(w) && |Ring(w)| <= 1
    ensures TickReturns(w)
  {
    hide Shape, Visit;
    if Ring(w) == [] {
      assert LoopAfter(w, 0).Ended?;
    } else {
      FirstRound(w, 0);
      RoundGoesOn(LoopAfter(w, 0).w, LoopAfter(w, 0).left, Ring(w), 0);
      NextVisit(w, 0);
      assert LoopAfter(w, 1).Ended?;
    }
  }

  // ----- agreeing wheels: when the loop ends -----------------------------------

  /** The entries whose descriptors are not among `gone`. */
  function Others(chain: seq<Entry>, gone: seq<nat>): seq<Entry> {
    if chain == [] then []
    else if chain[0].fd in gone then Others(chain[1..], gone)
    else [chain[0]] + Others(chain[1..], gone)
  }

  /** Once the members before `k` are out of the table, the first node in the
      bucket of member `k` names the current ring, so that it is found there. */
  predicate Proper(w: Wheel, k: nat)
    requires Shape(w) && k < |Ring(w)|
  {
    var c := Others(Chain(w, Ring(w)[k]), Ring(w)[..k]);
    c != [] && c[0].index == w.cur
  }

  /** The members before `k` that their visits leave in the ring. */
  function Stayers(w: Wheel, k: nat): (q: seq<nat>)
    requires Shape(w) && k <= |Ring(w)|
    ensures forall p: nat :: p in q <==> p < k && !Proper(w, p)
    ensures k > 0 && !Proper(w, 0) ==> q != [] && q[0] == 0
  {
    if k == 0 then [] else Stayers(w, k - 1) + if Proper(w, k - 1) then [] else [k - 1]
  }

  /** The wheel with the first `k` members taken out of ring and table. */
  function Cleared(w: Wheel, k: nat): (r: Wheel)
    requires Shape(w) && k <= |Ring(w)|
    ensures Shape(r) && r.cur == w.cur && |r.table| == |w.table|
  {
    if k == 0 then w
    else
      DetachShape(Cleared(w, k - 1), Ring(w)[k - 1], w.cur);
      Detach(Cleared(w, k - 1), Ring(w)[k - 1], w.cur)
  }

  /** Two wheels that differ in the current ring at most. */
  ghost predicate Beside(v: Wheel, d: Wheel) {
    && v.table == d.table && v.count == d.count && v.cur == d.cur < |d.slots| == |v.slots|
    && v.slots[v.cur := []] == d.slots[d.cur := []]
  }

  /** In an agreeing wheel, who waits in ring `i` waits there once. */
  lemma {:induction false} RingHasNoDouble(w: Wheel, i: nat)
    requires Agree(w) && i < SLOTS
    ensures Distinct(w.slots[i])
  {
    var ring := w.slots[i];
    forall fd | fd in ring ensures multiset(ring)[fd] == 1 {
      assert Entries(w.table)[Entry(fd, i)] == multiset(ring)[fd];
      StoredOnce(Entries(w.table), Entry(fd, i), Entry(fd, i));
    }
    OnceEach(ring);
  }

  lemma {:induction false} OnceEach(ring: seq<nat>)
    requires forall fd | fd in ring :: multiset(ring)[fd] == 1
    ensures Distinct(ring)
  {
    forall j, k | 0 <= j < k < |ring| ensures ring[j] != ring[k] {
      Repeated(ring, j, k);
    }
  }

  lemma {:induction false} Repeated<T>(q: seq<T>, j: nat, k: nat)
    requires j < k < |q|
    ensures q[j] == q[k] ==> multiset(q)[q[j]] >= 2
  {
    assert q == q[..k] + q[k..];
    assert q[j] in multiset(q[..k]) && q[k] in multiset(q[k..]) by {
      assert q[..k][j] == q[j] && q[k..][0] == q[k];
    }
  }

  /** The first `k` members are out, the rest agrees. */
  ghost predicate ClearedOf(w: Wheel, d: Wheel, k: nat)
    requires Shape(w) && k <= |Ring(w)|
  {
    Agree(d) && d.slots == w.slots[w.cur := Ring(w)[k..]]
  }

  lemma {:induction false} ClearedAgrees(w: Wheel, k: nat)
    requires Agree(w) && k <= |Ring(w)|
    ensures ClearedOf(w, Cleared(w, k), k)
    decreases k
  {
    hide Agree, Shape, Cleared, ClearedOf;
    AgreePlaced(w);
    if k == 0 {
      ClearNone(w);
    } else {
      ClearedAgrees(w, k - 1);
      ClearOne(w, k - 1);
    }
  }

  lemma {:induction false} ClearNone(w: Wheel)
    requires Agree(w)
    ensures ClearedOf(w, Cleared(w, 0), 0)
  {
    assert Ring(w)[0..] == Ring(w);
    assert w.slots[w.cur := Ring(w)] == w.slots;
  }

  lemma {:induction false} ClearOne(w: Wheel, k: nat)
    requires Shape(w) && k < |Ring(w)| && ClearedOf(w, Cleared(w, k), k)
    ensures ClearedOf(w, Cleared(w, k + 1), k + 1)
  {
    var d, fd := Cleared(w, k), Ring(w)[k];
    assert Ring(w)[k..][0] == fd;
    assert Ring(w)[k..][1..] == Ring(w)[k + 1..];
    assert Cleared(w, k + 1) == Detach(d, fd, w.cur);
    hide Agree, Cleared, Shape;
    DetachKeepsAgree(d, fd, w.cur);
  }

  lemma {:induction false} FirstLeft(w: Wheel, d: Wheel, k: nat)
    requires Shape(w) && Shape(d) && d.cur == w.cur && k < |Ring(w)| && ClearedOf(w, d, k)
    ensures Ring(w)[k] in Ring(d)
  {
    assert Ring(d) == Ring(w)[k..];
    assert Ring(w)[k..][0] == Ring(w)[k];
  }

  /** What is left in each bucket is what was there of the others. */
  lemma {:induction false} ClearedChains(w: Wheel, k: nat, fd: nat)
    requires Agree(w) && k <= |Ring(w)|
    ensures Chain(Cleared(w, k), fd) == Others(Chain(w, fd), Ring(w)[..k])
  {
    hide Agree, Bucket, Unchained, Others, Placed;
    AgreePlaced(w);
    if k == 0 {
      NobodyGone(Chain(w, fd));
      assert Ring(w)[..0] == [];
    } else {
      ClearedChains(w, k - 1, fd);
      var gone, g := Ring(w)[..k - 1], Ring(w)[k - 1];
      Taken(Ring(w), k - 1);
      if Bucket(g, |w.table|) == Bucket(fd, |w.table|) {
        ChainHasNoDouble(w, fd);
        OneMoreGone(Chain(w, fd), gone, g);
      } else {
        PlacedBucket(w.table, Bucket(fd, |w.table|));
        SameOthers(Chain(w, fd), gone, g);
      }
    }
  }

  lemma {:induction false} NobodyGone(chain: seq<Entry>)
    ensures Others(chain, []) == chain
  {
    if chain != [] {
      NobodyGone(chain[1..]);
    }
  }

  lemma {:induction false} OthersWithin(chain: seq<Entry>, gone: seq<nat>)
    ensures forall e | e in Others(chain, gone) :: e in chain && e.fd !in gone
  {
    if chain != [] {
      OthersWithin(chain[1..], gone);
    }
  }

  /** Unlinking one more descriptor, stored once at most. */
  lemma {:induction false} OneMoreGone(chain: seq<Entry>, gone: seq<nat>, fd: nat)
    requires forall j, k | 0 <= j < k < |chain| :: chain[j].fd != chain[k].fd
    ensures Unchained(Others(chain, gone), fd) == Others(chain, gone + [fd])
  {
    if chain != [] {
      OneMoreGone(chain[1..], gone, fd);
      if chain[0].fd == fd && fd !in gone {
        SameOthers(chain[1..], gone, fd);
      }
    }
  }

  lemma {:induction false} SameOthers(chain: seq<Entry>, gone: seq<nat>, fd: nat)
    requires forall e | e in chain :: e.fd != fd
    ensures Others(chain, gone) == Others(chain, gone + [fd])
  {
    if chain != [] {
      assert chain[0] in chain;
      SameOthers(chain[1..], gone, fd);
    }
  }

  lemma {:induction false} ChainHasNoDouble(w: Wheel, fd: nat)
    requires Agree(w)
    ensures var c := Chain(w, fd); forall j, k | 0 <= j < k < |c| :: c[j].fd != c[k].fd
  {
    var c, b := Chain(w, fd), Bucket(fd, |w.table|);
    EntriesUpdate(w.table, b, []);
    forall j, k | 0 <= j < k < |c| ensures c[j].fd != c[k].fd {
      assert c[j] in multiset(c) && c[k] in multiset(c);
      Repeated(c, j, k);
      if c[j].fd == c[k].fd {
        StoredOnce(Entries(w.table), c[j], c[k]);
      }
    }
  }

  // ----- the passes of an agreeing wheel ---------------------------------------

  /** Removing a member that heads the ring of an agreeing wheel `d`, from a
      wheel beside it: the table loses the same node, other rings keep theirs. */
  lemma {:induction false} RemoveBeside(v: Wheel, d: Wheel, fd: nat)
    requires Agree(d) && Shape(v) && Beside(v, d) && fd in Ring(d)
    ensures Beside(RemoveUser(v, fd), Detach(d, fd, d.cur)) && Chain(v, fd) == Chain(d, fd) != []
  {
    var i := LiveThere(d, fd);
    var j := Chain(d, fd)[0].index;
    UnringedRemoves(d.slots[j], fd);
    if j != d.cur {
      assert v.slots[j] == v.slots[v.cur := []][j] == d.slots[d.cur := []][j] == d.slots[j];
      assert v.slots[j := v.slots[j]] == v.slots;
    }
    BesideAgain(v, d, RemoveUser(v, fd).slots, Detach(d, fd, d.cur).slots, j);
  }

  lemma {:induction false} LiveThere(d: Wheel, fd: nat) returns (i: nat)
    requires Agree(d) && fd in Ring(d)
    ensures i == d.cur && Entry(fd, i) in Chain(d, fd) && Chain(d, fd) != [] && Holds(Chain(d, fd), fd)
    ensures forall j: nat | j < SLOTS && fd in d.slots[j] :: j == i
  {
    WaitsSoLive(d, fd, d.cur);
    i := LiveEntry(d, fd);
  }

  lemma {:induction false} BesideAgain(v: Wheel, d: Wheel, vs: seq<seq<nat>>, ds: seq<seq<nat>>, j: nat)
    requires Beside(v, d)
    requires vs == v.slots || (v.cur < |vs| && vs == v.slots[v.cur := vs[v.cur]])
    requires d.cur < |ds| && ds == d.slots[d.cur := ds[d.cur]]
    ensures v.cur < |vs| == |ds| && vs[v.cur := []] == ds[d.cur := []]
  {
    assert vs[v.cur := []] == v.slots[v.cur := []];
    assert ds[d.cur := []] == d.slots[d.cur := []];
  }

  /** Before visit number `k` everybody before has been taken out of the table,
      and the stayers among them are still linked. */
  lemma {:induction false} AgreeingRound(w: Wheel, k: nat)
    requires Agree(w) && k < |Ring(w)|
    ensures var s := LoopAfter(w, k);
            && s.Going? && Beside(s.w, Cleared(w, k))
            && s.left == Stayers(w, k) + Places(|Ring(w)|)[k..]
    decreases k, 0
  {
    hide Agree, Beside, Cleared, LoopAfter, Stayers;
    AgreePlaced(w);
    if k == 0 {
      StartsBeside(w);
    } else {
      AgreeingVisit(w, k - 1);
      FirstRound(w, k);
      FirstRound(w, k - 1);
      NextVisit(w, k - 1);
    }
  }

  lemma {:induction false} StartsBeside(w: Wheel)
    requires Agree(w) && Ring(w) != []
    ensures LoopAfter(w, 0).Going? && Beside(LoopAfter(w, 0).w, Cleared(w, 0))
    ensures LoopAfter(w, 0).left == Stayers(w, 0) + Places(|Ring(w)|)[0..]
  {
  }

  /** The visit to member `k` takes it out of the table, and out of the ring
      exactly when it is proper. */
  lemma {:induction false} AgreeingVisit(w: Wheel, k: nat)
    requires Agree(w) && k < |Ring(w)|
    ensures var s := LoopAfter(w, k);
            && s.Going? && Beside(RemoveUser(s.w, Ring(w)[k]), Cleared(w, k + 1))
            && LeftAfter(s.w, s.left, Ring(w)[k]) == Stayers(w, k + 1) + Places(|Ring(w)|)[k + 1..]
            && s.left != [] && NextOf(s.left, k) == Some(if k + 1 < |Ring(w)| then k + 1 else s.left[0])
    decreases k, 1
  {
    hide Agree, Beside, Cleared, LoopAfter, LeftAfter, NextOf, Shape, Proper;
    AgreePlaced(w);
    AgreeingRound(w, k);
    var s := LoopAfter(w, k);
    FirstRound(w, k);
    RoundGoesOn(s.w, s.left, Ring(w), k);
    TableVisit(w, s.w, k);
    RingVisit(w, s.w, s.left, k);
  }

  lemma {:induction false} TableVisit(w: Wheel, v: Wheel, k: nat)
    requires Agree(w) && k < |Ring(w)| && Shape(v) && Beside(v, Cleared(w, k))
    ensures Beside(RemoveUser(v, Ring(w)[k]), Cleared(w, k + 1))
    ensures Chain(v, Ring(w)[k]) == Others(Chain(w, Ring(w)[k]), Ring(w)[..k]) != []
  {
    hide Agree, Beside, Shape, Detach;
    AgreePlaced(w);
    var d := Cleared(w, k);
    ClearedAgrees(w, k);
    ClearedIs(w, d, k);
    FirstLeft(w, d, k);
    RemoveBeside(v, d, Ring(w)[k]);
    ClearedChains(w, k, Ring(w)[k]);
  }

  lemma {:induction false} ClearedIs(w: Wheel, d: Wheel, k: nat)
    requires Shape(w) && k <= |Ring(w)| && ClearedOf(w, d, k)
    ensures Agree(d) && Shape(d) && d.slots == w.slots[w.cur := Ring(w)[k..]]
  {
  }

  lemma {:induction false} RingVisit(w: Wheel, v: Wheel, left: seq<nat>, k: nat)
    requires Agree(w) && k < |Ring(w)| && Shape(v) && v.cur == w.cur
    ensures && |Ring(v)| == |left|
            && (forall j | 0 <= j < |left| :: left[j] < |Ring(w)| && Ring(v)[j] == Ring(w)[left[j]])
            && left == Stayers(w, k) + Places(|Ring(w)|)[k..]
            && Chain(v, Ring(w)[k]) == Others(Chain(w, Ring(w)[k]), Ring(w)[..k]) != []
            ==> LeftAfter(v, left, Ring(w)[k]) == Stayers(w, k + 1) + Places(|Ring(w)|)[k + 1..]
  {
    hide Agree, Others;
    AgreePlaced(w);
    hide Shape, Chain;
    if && |Ring(v)| == |left|
       && (forall j | 0 <= j < |left| :: left[j] < |Ring(w)| && Ring(v)[j] == Ring(w)[left[j]])
       && left == Stayers(w, k) + Places(|Ring(w)|)[k..]
    {
      RingHasNoDouble(w, w.cur);
      FoundAt(Ring(w), Ring(v), left, Stayers(w, k), k);
    }
  }

  /** Member `k` is found at its own place in the ring. */
  lemma {:induction false} FoundAt(ring: seq<nat>, now: seq<nat>, left: seq<nat>, stay: seq<nat>, k: nat)
    requires Distinct(ring) && k < |ring| && |now| == |left| && left == stay + Places(|ring|)[k..]
    requires forall p | p in stay :: p < k
    requires forall j | 0 <= j < |left| :: left[j] < |ring| && now[j] == ring[left[j]]
    ensures FirstOf(now, ring[k]) == |stay|
    ensures left == stay + [k] + Places(|ring|)[k + 1..]
    ensures Dropped(left, |stay|) == stay + Places(|ring|)[k + 1..]
  {
    var m := |stay|;
    assert Places(|ring|)[k..] == [k] + Places(|ring|)[k + 1..];
    assert left[m] == k && now[m] == ring[k];
    forall j | 0 <= j < m ensures now[j] != ring[k] {
      assert left[j] in stay;
    }
  }

  /** Once everybody has been visited, removing a member again does nothing. */
  lemma {:induction false} NothingMore(w: Wheel, v: Wheel, left: seq<nat>, fd: nat)
    requires Agree(w) && Shape(v) && Beside(v, Cleared(w, |Ring(w)|)) && fd in Ring(w)
    ensures RemoveUser(v, fd) == v && LeftAfter(v, left, fd) == left
  {
    hide Agree, Beside, Cleared;
    AgreePlaced(w);
    var d := Cleared(w, |Ring(w)|);
    ClearedAgrees(w, |Ring(w)|);
    ClearedIs(w, d, |Ring(w)|);
    assert Ring(w)[|Ring(w)|..] == [];
    Gone(w, d, fd);
    NobodyFound(v, d, fd);
  }

  /** With its ring empty, a former member has no entry and nobody else is
      entered for that ring. */
  lemma {:induction false} Gone(w: Wheel, d: Wheel, fd: nat)
    requires Agree(w) && Agree(d) && d.cur == w.cur && d.slots == w.slots[w.cur := []] && fd in Ring(w)
    ensures !Live(d, fd) && !Holds(Chain(d, fd), fd)
    ensures forall e | e in Chain(d, fd) :: e.index != d.cur
  {
    WaitsSoLive(w, fd, w.cur);
    var i := LiveEntry(w, fd);
    assert !Live(d, fd);
    DeadHasNoEntry(d, fd);
    forall e | e in Chain(d, fd) ensures e.index != d.cur {
      BucketEntry(d, fd, e);
      assert Entries(d.table)[Entry(e.fd, d.cur)] == multiset(d.slots[d.cur])[e.fd];
    }
  }

  lemma {:induction false} BucketEntry(d: Wheel, fd: nat, e: Entry)
    requires Agree(d) && e in Chain(d, fd)
    ensures e in Entries(d.table)
  {
    hide Agree;
    AgreePlaced(d);
    EntriesUpdate(d.table, Bucket(fd, |d.table|), []);
    assert e in multiset(Chain(d, fd));
  }

  lemma {:induction false} NobodyFound(v: Wheel, d: Wheel, fd: nat)
    requires Agree(d) && Shape(v) && Beside(v, d) && !Live(d, fd) && !Holds(Chain(d, fd), fd)
    requires forall e | e in Chain(d, fd) :: e.index != d.cur
    ensures RemoveUser(v, fd) == v && forall left: seq<nat> :: LeftAfter(v, left, fd) == left
  {
    hide Agree;
    AgreePlaced(d);
    assert Chain(v, fd) == Chain(d, fd);
    hide Shape, Chain, RemoveUser, Holds;
    if Chain(v, fd) != [] {
      var j := Chain(v, fd)[0].index;
      assert Chain(v, fd)[0] in Chain(d, fd);
      HeadIndex(v, fd);
      BesideAt(v, d, j);
      NotThere(d, fd, j);
      RemovesNobody(v, fd);
    }
  }

  lemma {:induction false} HeadIndex(v: Wheel, fd: nat)
    requires Shape(v)
    ensures |v.slots| == SLOTS && (Chain(v, fd) != [] ==> Chain(v, fd)[0].index < SLOTS)
    ensures Chain(v, fd) == [] ==> RemoveUser(v, fd) == v
  {
  }

  lemma {:induction false} BesideAt(v: Wheel, d: Wheel, j: nat)
    requires Beside(v, d) && j < |v.slots| && j != v.cur
    ensures |d.slots| == |v.slots| && v.slots[j] == d.slots[j]
  {
    assert v.slots[j] == v.slots[v.cur := []][j];
    assert d.slots[j] == d.slots[d.cur := []][j];
  }

  lemma {:induction false} NotThere(d: Wheel, fd: nat, j: nat)
    requires !Live(d, fd) && j < |d.slots|
    ensures fd !in d.slots[j]
  {
  }

  /** Nobody is removed who is in neither place looked at. */
  lemma {:induction false} RemovesNobody(v: Wheel, fd: nat)
    requires Shape(v) && Chain(v, fd) != [] && !Holds(Chain(v, fd), fd)
    requires fd !in v.slots[Chain(v, fd)[0].index]
    ensures RemoveUser(v, fd) == v
  {
    var j := Chain(v, fd)[0].index;
    UnringedRemoves(v.slots[j], fd);
    DeleteAbsent(v.table, fd);
    assert v.slots[j := v.slots[j]] == v.slots;
  }

  /** The last visit of the first round. */
  lemma {:induction false} RoundEnds(w: Wheel)
    requires Agree(w) && Ring(w) != []
    ensures var s := LoopAfter(w, |Ring(w)|);
            && s.closed == Ring(w) && Beside(s.w, Cleared(w, |Ring(w)|))
            && (s.Going? <==> Proper(w, 0) && |Ring(w)| >= 2)
            && (s.Going? ==> s.left == Stayers(w, |Ring(w)|)
                             && s.at == if s.left == [] then |Ring(w)| - 1 else s.left[0])
  {
    hide Agree, Beside, Cleared, LoopAfter, LeftAfter, NextOf, Shape, Proper, RemoveUser, Ahead, Linked;
    AgreePlaced(w);
    var n := |Ring(w)|;
    AgreeingRound(w, n - 1);
    AgreeingVisit(w, n - 1);
    FirstRound(w, n - 1);
    NextVisit(w, n - 1);
    Taken(Ring(w), n - 1);
    assert Ring(w)[..n] == Ring(w);
    assert Places(n)[n - 1..] == [n - 1] && Places(n)[n..] == [];
    StayersFirst(w);
  }

  lemma {:induction false} StayersFirst(w: Wheel)
    requires Shape(w) && Ring(w) != []
    ensures var n := |Ring(w)|; var s := Stayers(w, n - 1) + [n - 1];
            && (s[0] == 0 <==> n == 1 || !Proper(w, 0))
            && (Stayers(w, n) != [] ==> Stayers(w, n)[0] == s[0])
            && (Stayers(w, n) == [] ==> s[0] == n - 1)
  {
    var n := |Ring(w)|;
    if Stayers(w, n - 1) != [] {
      assert Stayers(w, n - 1)[0] in Stayers(w, n - 1);
    }
  }

  /** With somebody left in the ring but not its head, the loop goes round them
      for ever. */
  lemma {:induction false} GoesRound(w: Wheel, n: nat)
    requires Agree(w) && Ring(w) != [] && Proper(w, 0) && Stayers(w, |Ring(w)|) != [] && n >= |Ring(w)| >= 2
    ensures var s := LoopAfter(w, n);
            s.Going? && s.left == Stayers(w, |Ring(w)|) && s.at in s.left && Beside(s.w, Cleared(w, |Ring(w)|))
    decreases n
  {
    hide Agree, Beside, Cleared, LoopAfter, LeftAfter, NextOf, Shape, Proper, RemoveUser;
    AgreePlaced(w);
    if n == |Ring(w)| {
      RoundEnds(w);
    } else {
      GoesRound(w, n - 1);
      var s := LoopAfter(w, n - 1);
      NextVisit(w, n - 1);
      NothingMore(w, s.w, s.left, Ring(w)[s.at]);
      assert 0 !in s.left;
    }
  }

  /** With nobody left the loop ends, in a ring of two or more after a second
      visit to the last node, which is no longer linked. */
  lemma {:induction false} EndsEmpty(w: Wheel)
    requires Agree(w) && |Ring(w)| >= 2 && Proper(w, 0) && Stayers(w, |Ring(w)|) == []
    ensures var s := LoopAfter(w, |Ring(w)| + 1);
            && s.Ended? && s.closed == Ring(w) + [Ring(w)[|Ring(w)| - 1]]
            && Beside(s.w, Cleared(w, |Ring(w)|))
  {
    hide Agree, Beside, Cleared, LoopAfter, LeftAfter, Shape, Proper, RemoveUser;
    AgreePlaced(w);
    RoundEnds(w);
    var s := LoopAfter(w, |Ring(w)|);
    NextVisit(w, |Ring(w)|);
    NothingMore(w, s.w, s.left, Ring(w)[s.at]);
  }

  lemma {:induction false} NoStayers(w: Wheel)
    requires Shape(w)
    ensures Stayers(w, |Ring(w)|) == [] <==> forall k | 0 <= k < |Ring(w)| :: Proper(w, k)
  {
    var q := Stayers(w, |Ring(w)|);
    if q == [] {
      forall k | 0 <= k < |Ring(w)| ensures Proper(w, k) {
        assert k !in q;
      }
    } else {
      assert q[0] in q;
    }
  }

  /** The loop of a tick ends exactly when its ring is empty, or its first node
      stays in the ring, or no node does. */
  lemma {:induction false} TickReturnsExactly(w: Wheel)
    requires Agree(w)
    ensures TickReturns(w) <==>
            Ring(w) == [] || !Proper(w, 0) || forall k | 0 <= k < |Ring(w)| :: Proper(w, k)
  {
    hide Agree, Beside, Cleared, Shape, Proper, LoopAfter;
    AgreePlaced(w);
    NoStayers(w);
    if Ring(w) == [] {
      EmptyRingEnds(w);
    } else {
      RoundEnds(w);
      if Proper(w, 0) && |Ring(w)| >= 2 {
        if Stayers(w, |Ring(w)|) == [] {
          EndsEmpty(w);
        } else {
          NeverEnds(w);
        }
      } else if |Ring(w)| == 1 && Proper(w, 0) {
        assert forall k | 0 <= k < |Ring(w)| :: Proper(w, k);
      }
    }
  }

  lemma {:induction false} EmptyRingEnds(w: Wheel)
    requires Shape(w) && Ring(w) == []
    ensures LoopAfter(w, 0) == Ended(w, []) && TickReturns(w)
  {
  }

  lemma {:induction false} NeverEnds(w: Wheel)
    requires Agree(w) && |Ring(w)| >= 2 && Proper(w, 0) && Stayers(w, |Ring(w)|) != []
    ensures Shape(w) && !TickReturns(w)
  {
    hide Agree, Beside, Cleared, Shape, Proper, LoopAfter;
    AgreePlaced(w);
    forall n: nat ensures LoopAfter(w, n).Going? {
      if n < |Ring(w)| {
        FirstRound(w, n);
      } else {
        GoesRound(w, n);
      }
    }
  }

  // ----- what a tick of an agreeing wheel does ----------------------------------

  /** Everyone in the ring and, with two or more of them, the last one again. */
  function Visits(ring: seq<nat>): seq<nat> {
    if |ring| >= 2 then ring + [ring[|ring| - 1]] else ring
  }

  /** A tick closes the members in order; the last of two or more is closed
      twice when they all leave the ring. The extra visit removes nobody. */
  lemma {:induction false} EndOfTick(w: Wheel)
    requires Agree(w) && Shape(w) && TickReturns(w)
    ensures Closed(w) == if Ring(w) != [] && Proper(w, 0) then Visits(Ring(w)) else Ring(w)
    ensures Beside(AtEnd(w).w, Cleared(w, |Ring(w)|))
    ensures Ring(w) != [] ==> AtEnd(w).w == LoopAfter(w, |Ring(w)|).w
  {
    hide Agree, Beside, Cleared, Shape, Proper, LoopAfter, AtEnd;
    TickReturnsExactly(w);
    NoStayers(w);
    var n := |Ring(w)|;
    if n == 0 {
      EmptyRingEnds(w);
      EndIs(w, 0);
      StartsCleared(w);
    } else {
      RoundEnds(w);
      if n >= 2 && Proper(w, 0) {
        EndsEmpty(w);
        EndIs(w, n + 1);
        SameAgain(w);
      } else {
        EndIs(w, n);
      }
    }
  }

  lemma {:induction false} StartsCleared(w: Wheel)
    requires Agree(w)
    ensures Shape(w) && Beside(w, Cleared(w, 0))
  {
  }

  /** The visit to the unlinked last node. */
  lemma {:induction false} SameAgain(w: Wheel)
    requires Agree(w) && |Ring(w)| >= 2 && Proper(w, 0) && Stayers(w, |Ring(w)|) == []
    ensures LoopAfter(w, |Ring(w)| + 1).w == LoopAfter(w, |Ring(w)|).w
  {
    hide Agree, Beside, Cleared, LoopAfter, LeftAfter, Shape, Proper, RemoveUser, NextOf;
    AgreePlaced(w);
    RoundEnds(w);
    var s := LoopAfter(w, |Ring(w)|);
    NextVisit(w, |Ring(w)|);
    NothingMore(w, s.w, s.left, Ring(w)[s.at]);
  }

  /** A tick that ends takes exactly the current ring out of both structures
      and moves on one slot: rings and table agree again, even when some
      members stayed in the ring until it was forgotten. */
  lemma {:induction false} TickKeepsAgree(w: Wheel)
    requires Agree(w) && Shape(w) && TickReturns(w)
    ensures Agree(Tick(w)) && Tick(w).slots == w.slots[w.cur := []]
    ensures |Tick(w).table| == |w.table| && Tick(w).cur == (w.cur + 1) % SLOTS
    ensures Tick(w).table == Cleared(w, |Ring(w)|).table
  {
    hide Agree, Cleared, LoopAfter, AtEnd, Closed;
    var n := |Ring(w)|;
    EndOfTick(w);
    ClearedAgrees(w, n);
    ClearedIs(w, Cleared(w, n), n);
    assert Ring(w)[n..] == [];
    assert w.slots[w.cur := []][w.cur := []] == w.slots[w.cur := []];
    TurnedOn(Cleared(w, n));
  }

  lemma {:induction false} TurnedOn(d: Wheel)
    requires Agree(d)
    ensures Agree(d.(cur := (d.cur + 1) % SLOTS))
  {
  }

  /** So whoever waited there is evicted, and nobody else. */
  lemma {:induction false} TickEvicts(w: Wheel)
    requires Agree(w) && Shape(w) && TickReturns(w)
    ensures forall fd: nat :: Live(Tick(w), fd) <==> Live(w, fd) && fd !in Ring(w)
  {
    hide Tick, TickReturns;
    TickKeepsAgree(w);
    EmptiedIsDead(w, Tick(w), w.cur);
  }

  /** With its ring emptied a member waits nowhere. */
  lemma {:induction false} EmptiedIsDead(w: Wheel, r: Wheel, i: nat)
    requires Agree(w) && i < SLOTS && r.slots == w.slots[i := []]
    ensures forall fd: nat :: Live(r, fd) <==> Live(w, fd) && fd !in w.slots[i]
  {
    hide Agree;
    AgreePlaced(w);
    forall fd: nat ensures Live(r, fd) <==> Live(w, fd) && fd !in w.slots[i] {
      if Live(r, fd) {
        var j: nat :| j < SLOTS && fd in r.slots[j];
        assert fd in w.slots[j];
        var k := LiveEntry(w, fd);
      }
      if Live(w, fd) && fd !in w.slots[i] {
        var j: nat :| j < SLOTS && fd in w.slots[j];
        assert fd in r.slots[j];
      }
    }
  }
}
