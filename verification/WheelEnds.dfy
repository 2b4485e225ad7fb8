/** When the loop of a tick ends, on any wheel: exactly when it does not come to
    go round nodes it cannot remove. */
module WheelEnds {
  import opened Basics
  import opened WheelAgreement
  import opened WheelSpec
  import opened WheelTick

  // ----- how much there is to remove ------------------------------------------------

  function Nodes(slots: seq<seq<nat>>): nat {
    if slots == [] then 0 else |slots[0]| + Nodes(slots[1..])
  }

  ghost function Load(w: Wheel): nat {
    |Entries(w.table)| + Nodes(w.slots)
  }

  lemma {:induction false} NodesUpdate(slots: seq<seq<nat>>, i: nat, ring: seq<nat>)
    requires i < |slots|
    ensures Nodes(slots[i := ring]) == Nodes(slots) - |slots[i]| + |ring|
  {
    if i == 0 {
      assert slots[0 := ring][1..] == slots[1..];
    } else {
      NodesUpdate(slots[1..], i - 1, ring);
      assert slots[i := ring][1..] == slots[1..][i - 1 := ring];
    }
  }

  lemma {:induction false} UnringedLength(ring: seq<nat>, fd: nat)
    ensures Unringed(ring, fd) == ring || |Unringed(ring, fd)| < |ring|
  {
    if ring != [] {
      UnringedLength(ring[1..], fd);
    }
  }

  lemma {:induction false} UnchainedLength(chain: seq<Entry>, fd: nat)
    ensures Unchained(chain, fd) == chain || |Unchained(chain, fd)| < |chain|
  {
    if chain != [] {
      UnchainedLength(chain[1..], fd);
    }
  }

  lemma {:induction false} SizeAfter(table: Chains, b: nat, chain: seq<Entry>)
    requires b < |table|
    ensures |Entries(table[b := chain])| == |Entries(table)| - |table[b]| + |chain|
  {
    hide Entries;
    EntriesUpdate(table, b, chain);
    assert |Entries(table) - multiset(table[b])| == |Entries(table)| - |table[b]|;
  }

  /** A removal that changes anything takes something away. */
  lemma {:induction false} RemovalLightens(w: Wheel, fd: nat)
    requires Shape(w)
    ensures RemoveUser(w, fd) == w || Load(RemoveUser(w, fd)) < Load(w)
  {
    if Chain(w, fd) != [] {
      var i, b := Chain(w, fd)[0].index, Bucket(fd, |w.table|);
      hide Entries, Nodes, Bucket, Unringed, Unchained;
      NodesUpdate(w.slots, i, Unringed(w.slots[i], fd));
      SizeAfter(w.table, b, Unchained(w.table[b], fd));
      hide Shape, Chain;
      UnringedLength(w.slots[i], fd);
      UnchainedLength(w.table[b], fd);
      if Unringed(w.slots[i], fd) == w.slots[i] && Unchained(w.table[b], fd) == w.table[b] {
        NothingTaken(w, fd);
      }
    }
  }

  lemma {:induction false} NothingTaken(w: Wheel, fd: nat)
    requires Shape(w) && Chain(w, fd) != []
    requires Unringed(w.slots[Chain(w, fd)[0].index], fd) == w.slots[Chain(w, fd)[0].index]
    requires Unchained(Chain(w, fd), fd) == Chain(w, fd)
    ensures RemoveUser(w, fd) == w
  {
    if Holds(Chain(w, fd), fd) {
      ShorterWhenHeld(Chain(w, fd), fd);
    }
  }

  lemma {:induction false} ShorterWhenHeld(chain: seq<Entry>, fd: nat)
    requires Holds(chain, fd)
    ensures |Unchained(chain, fd)| < |chain|
  {
    if chain[0].fd != fd {
      var e :| e in chain && e.fd == fd;
      assert e in chain[1..];
      ShorterWhenHeld(chain[1..], fd);
    }
  }

  // ----- what every pass keeps --------------------------------------------------------

  ghost predicate Rising(left: seq<nat>) {
    forall i, j | 0 <= i < j < |left| :: left[i] < left[j]
  }

  /** Node names and ring stay in step, and in order. */
  lemma {:induction false} LoopLinked(w: Wheel, n: nat)
    requires Shape(w) && LoopAfter(w, n).Going?
    ensures var s := LoopAfter(w, n); Linked(Ring(w), s) && Rising(s.left) && |s.left| <= |Ring(w)|
  {
    hide Shape, RemoveUser, LeftAfter, NextOf;
    if n > 0 {
      LoopLinked(w, n - 1);
      var s := LoopAfter(w, n - 1);
      NextVisit(w, n - 1);
      StaysLinked(Ring(w), s.w, s.left, Ring(w)[s.at]);
      StaysRising(s.w, s.left, Ring(w)[s.at]);
    }
  }

  lemma {:induction false} StaysRising(w: Wheel, left: seq<nat>, fd: nat)
    requires Shape(w) && Rising(left)
    ensures Rising(LeftAfter(w, left, fd)) && |LeftAfter(w, left, fd)| <= |left|
  {
    hide Chain, FirstOf;
  }

  // ----- going round ------------------------------------------------------------------

  ghost predicate Idle(w: Wheel, fd: nat)
    requires Shape(w)
  {
    RemoveUser(w, fd) == w
  }

  /** The node the loop began with is unlinked, and no visit to those still
      linked changes anything. */
  ghost predicate Stuck(ring: seq<nat>, s: Loop) {
    && s.Going? && Shape(s.w)
    && s.at in s.left && 0 !in s.left
    && forall p | p in s.left :: p < |ring| && Idle(s.w, ring[p])
  }

  /** An idle visit leaves the ring alone as well. */
  lemma {:induction false} IdleLeft(w: Wheel, ring: seq<nat>, left: seq<nat>, fd: nat)
    requires Shape(w) && Idle(w, fd) && |Ring(w)| == |left|
    requires forall j | 0 <= j < |left| :: left[j] < |ring| && Ring(w)[j] == ring[left[j]]
    ensures LeftAfter(w, left, fd) == left
  {
    hide Chain, RemoveUser, FirstOf, Shape;
    StaysLinked(ring, w, left, fd);
    SameLength(w, left, fd);
  }

  lemma {:induction false} SameLength(w: Wheel, left: seq<nat>, fd: nat)
    requires Shape(w)
    ensures |LeftAfter(w, left, fd)| == |left| ==> LeftAfter(w, left, fd) == left
  {
    hide Chain, FirstOf;
  }

  /** Where nothing changes the loop only moves on. */
  lemma {:induction false} MovesOn(w: Wheel, n: nat)
    requires Shape(w) && LoopAfter(w, n).Going?
    ensures var s, r := LoopAfter(w, n), LoopAfter(w, n + 1);
            && (Idle(s.w, Ring(w)[s.at]) && r.Going? ==> r.w == s.w && r.left == s.left && r.at != 0
                                                         && NextOf(s.left, s.at) == Some(r.at))
            && (!Idle(s.w, Ring(w)[s.at]) ==> Load(r.w) < Load(s.w))
            && Load(r.w) <= Load(s.w)
            && (s.at !in s.left ==> r.Ended?)
  {
    hide Shape, RemoveUser, LeftAfter, NextOf, Ring, Load;
    var s := LoopAfter(w, n);
    NextVisit(w, n);
    LoopLinked(w, n);
    RemovalLightens(s.w, Ring(w)[s.at]);
    if Idle(s.w, Ring(w)[s.at]) {
      IdleLeft(s.w, Ring(w), s.left, Ring(w)[s.at]);
    }
  }

  lemma {:induction false} NextInRound(left: seq<nat>, k: nat)
    requires Rising(left) && k < |left|
    ensures NextOf(left, left[k]) == Some(left[if k + 1 < |left| then k + 1 else 0])
  {
    var q := FirstOf(left, left[k]);
    assert left[q] == left[k] && q <= k;
  }

  /** A stuck loop goes on for ever. */
  lemma {:induction false} StuckStays(w: Wheel, m: nat, n: nat)
    requires Shape(w) && m <= n && Stuck(Ring(w), LoopAfter(w, m))
    ensures Stuck(Ring(w), LoopAfter(w, n))
    decreases n
  {
    hide Shape, RemoveUser, LeftAfter, NextOf, Ring, Idle;
    if m < n {
      StuckStays(w, m, n - 1);
      var s := LoopAfter(w, n - 1);
      NextVisit(w, n - 1);
      MovesOn(w, n - 1);
    }
  }

  /** From visit `n` on, visit `m` is the first after a change, or the loop has
      come to its end, or it goes round for ever. */
  ghost predicate Settled(w: Wheel, n: nat, m: nat)
    requires Shape(w)
  {
    var s, r := LoopAfter(w, n), LoopAfter(w, m);
    n <= m && (r.Ended? || Stuck(Ring(w), r) || Load(r.w) < Load(s.w))
  }

  /** On to the first node of the ring. */
  lemma {:induction false} ToFirst(w: Wheel, n: nat, k: nat) returns (m: nat)
    requires Shape(w) && LoopAfter(w, n).Going?
    requires var s := LoopAfter(w, n); k < |s.left| && s.at == s.left[k]
    ensures var s, r := LoopAfter(w, n), LoopAfter(w, m);
            && n <= m <= n + |s.left| - k
            && (r.Ended? || Load(r.w) < Load(s.w) || (r.w == s.w && r.left == s.left && r.at == s.left[0]))
    decreases |LoopAfter(w, n).left| - k
  {
    hide Shape, RemoveUser, LeftAfter, NextOf, Ring, Idle, Load, LoopAfter;
    var s, r := LoopAfter(w, n), LoopAfter(w, n + 1);
    LoopLinked(w, n);
    MovesOn(w, n);
    NextInRound(s.left, k);
    m := n + 1;
    if k + 1 < |s.left| && r.Going? && Load(r.w) >= Load(s.w) {
      m := ToFirst(w, n + 1, k + 1);
    }
  }

  /** One round from there: `k` nodes have been visited without effect. */
  lemma {:induction false} OneRound(w: Wheel, n: nat, k: nat) returns (m: nat)
    requires Shape(w) && LoopAfter(w, n).Going?
    requires var s := LoopAfter(w, n);
             && k < |s.left| && s.at == s.left[k] && (k > 0 ==> s.at != 0)
             && (forall j | 0 <= j < k :: s.left[j] < |Ring(w)| && Idle(s.w, Ring(w)[s.left[j]]))
             && (forall j | 0 < j < k :: s.left[j] != 0)
    ensures Settled(w, n, m) && m <= n + |LoopAfter(w, n).left| - k
    decreases |LoopAfter(w, n).left| - k
  {
    hide Shape, RemoveUser, LeftAfter, NextOf, Ring, Idle, Load, LoopAfter;
    var s, r := LoopAfter(w, n), LoopAfter(w, n + 1);
    LoopLinked(w, n);
    MovesOn(w, n);
    NextInRound(s.left, k);
    m := n + 1;
    if r.Going? && Load(r.w) >= Load(s.w) {
      if k + 1 < |s.left| {
        m := OneRound(w, n + 1, k + 1);
      } else {
        forall p | p in r.left ensures p != 0 && p < |Ring(w)| && Idle(r.w, Ring(w)[p]) {
          var j :| 0 <= j < |r.left| && r.left[j] == p;
        }
      }
    }
  }

  lemma {:induction false} Settles(w: Wheel, n: nat) returns (m: nat)
    requires Shape(w) && LoopAfter(w, n).Going?
    ensures Settled(w, n, m) && m <= n + 2 * |Ring(w)| + 1
  {
    hide Shape, RemoveUser, LeftAfter, NextOf, Ring, Idle, Load, LoopAfter;
    var s := LoopAfter(w, n);
    MovesOn(w, n);
    LoopLinked(w, n);
    m := n + 1;
    if s.at in s.left {
      var k: nat :| k < |s.left| && s.left[k] == s.at;
      m := ToFirst(w, n, k);
      var r := LoopAfter(w, m);
      if r.Going? && Load(r.w) >= Load(s.w) {
        m := OneRound(w, m, 0);
      }
    }
  }

  // ----- the criterion ----------------------------------------------------------------

  /** By then a loop has ended if it ever does. */
  ghost function Limit(w: Wheel): nat
    requires Shape(w)
  {
    (Load(w) + 1) * (2 * |Ring(w)| + 1)
  }

  lemma {:induction false} OneLess(a: nat, b: nat, k: nat)
    requires a < b
    ensures (a + 1) * k + k <= (b + 1) * k
  {
    assert (b - a) * k >= k by {
      if b - a > 1 {
        assert (b - a - 1) * k >= 0;
      }
    }
  }

  lemma {:induction false} EndsOrSticks(w: Wheel, n: nat) returns (m: nat)
    requires Shape(w)
    ensures LoopAfter(w, m).Ended? || Stuck(Ring(w), LoopAfter(w, m))
    ensures m <= n + (Load(LoopAfter(w, n).w) + 1) * (2 * |Ring(w)| + 1)
    decreases Load(LoopAfter(w, n).w)
  {
    hide Shape, Ring, Load, LoopAfter, Stuck;
    var s := LoopAfter(w, n);
    m := n;
    if s.Going? {
      var t := Settles(w, n);
      var r := LoopAfter(w, t);
      m := t;
      if r.Going? && !Stuck(Ring(w), r) {
        m := EndsOrSticks(w, t);
        OneLess(Load(r.w), Load(s.w), 2 * |Ring(w)| + 1);
      } else {
        OneLess(0, Load(s.w) + 1, 2 * |Ring(w)| + 1);
      }
    }
  }

  /** On any wheel at all the loop of a tick ends exactly when it does not come
      to go round nodes without effect, and whether it does shows within a
      bounded number of visits. */
  lemma {:induction false} TickReturnsUnlessStuck(w: Wheel)
    requires Shape(w)
    ensures TickReturns(w) <==> !Stuck(Ring(w), LoopAfter(w, Limit(w)))
    ensures TickReturns(w) <==> LoopAfter(w, Limit(w)).Ended?
    ensures TickReturns(w) <==> forall n: nat :: !Stuck(Ring(w), LoopAfter(w, n))
  {
    hide Shape, Ring, Load, LoopAfter;
    LoopAtStart(w);
    var m := EndsOrSticks(w, 0);
    var l := Limit(w);
    if LoopAfter(w, m).Ended? {
      StaysEnded(w, m, l);
      forall n: nat ensures !Stuck(Ring(w), LoopAfter(w, n)) {
        if Stuck(Ring(w), LoopAfter(w, n)) {
          EndedNotStuck(w, m, n);
        }
      }
    } else {
      StuckStays(w, m, l);
      forall n: nat ensures LoopAfter(w, n).Going? {
        EndedNotStuck(w, n, m);
      }
    }
  }

  lemma {:induction false} LoopAtStart(w: Wheel)
    requires Shape(w)
    ensures LoopAfter(w, 0).w == w
  {
  }

  lemma {:induction false} EndedNotStuck(w: Wheel, m: nat, n: nat)
    requires Shape(w) && Stuck(Ring(w), LoopAfter(w, n))
    ensures LoopAfter(w, m).Going?
  {
    hide Shape, Ring, Load, LoopAfter;
    if m >= n {
      StuckStays(w, n, m);
    } else if LoopAfter(w, m).Ended? {
      StaysEnded(w, m, n);
    }
  }
}
