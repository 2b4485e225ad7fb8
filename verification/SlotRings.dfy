/** The nodes of the slots: circular doubly linked lists, changed in place. */
module SlotRings {
  import opened Basics
  import opened WheelSpec
  import opened WheelTick

  class ListNode {
    const peerfd: nat
    var prev: ListNode?
    var next: ListNode?
    /** The number of the ring the node was made for. */
    ghost const home: nat

    constructor (peerfd: nat, ghost home: nat)
      ensures this.peerfd == peerfd && this.home == home && prev == this && next == this
    {
      this.peerfd, this.home := peerfd, home;
      new;
      prev, next := this, this;
    }
  }

  ghost function After(r: seq<ListNode>, k: nat): ListNode
    requires k < |r|
  {
    if k + 1 < |r| then r[k + 1] else r[0]
  }

  ghost predicate AllDifferent(r: seq<ListNode>) {
    forall j, k | 0 <= j < k < |r| :: r[j] != r[k]
  }

  /** `r` lists one round of the closed cycle through `head`. */
  ghost predicate Ringed(r: seq<ListNode>, head: ListNode?, home: nat)
    reads r
  {
    && head == (if r == [] then null else r[0])
    && (forall k | 0 <= k < |r| :: r[k].home == home)
    && (forall k | 0 <= k < |r| :: r[k].next == After(r, k) && After(r, k).prev == r[k])
    && AllDifferent(r)
  }

  ghost predicate Rings(rings: seq<seq<ListNode>>, heads: seq<ListNode?>, nodes: set<ListNode>)
    reads nodes
  {
    && |rings| == |heads|
    && forall i | 0 <= i < |rings| :: Within(rings[i], nodes) && Ringed(rings[i], heads[i], i)
  }

  /** The descriptors of a ring, node by node. */
  ghost function FdsOf(r: seq<ListNode>): (fds: seq<nat>)
    ensures |fds| == |r| && forall k | 0 <= k < |r| :: fds[k] == r[k].peerfd
  {
    if r == [] then [] else [r[0].peerfd] + FdsOf(r[1..])
  }

  lemma {:induction false} FdsOfLast(r: seq<ListNode>, node: ListNode)
    ensures FdsOf(r + [node]) == FdsOf(r) + [node.peerfd]
  {
    assert forall k | 0 <= k < |r| :: (r + [node])[k] == r[k];
  }

  /** The slots that a list of rings amounts to. */
  ghost predicate Amounts(slots: seq<seq<nat>>, rings: seq<seq<ListNode>>) {
    |slots| == |rings| && forall i | 0 <= i < |rings| :: slots[i] == FdsOf(rings[i])
  }

  lemma {:induction false} AmountsOneMore(slots: seq<seq<nat>>, rings: seq<seq<ListNode>>, i: nat, node: ListNode)
    requires Amounts(slots, rings) && i < |rings|
    ensures |slots| == |rings|
    ensures Amounts(slots[i := slots[i] + [node.peerfd]], rings[i := rings[i] + [node]])
  {
    hide FdsOf;
    FdsOfLast(rings[i], node);
  }

  /** A node knows its ring: rings of different numbers share no node. */
  lemma {:induction false} RingsApart(rings: seq<seq<ListNode>>, heads: seq<ListNode?>, nodes: set<ListNode>)
    requires Rings(rings, heads, nodes)
    ensures forall i | 0 <= i < |rings| :: forall n | n in rings[i] :: n.home == i
  {
    forall i | 0 <= i < |rings| ensures forall n | n in rings[i] :: n.home == i {
      assert Ringed(rings[i], heads[i], i);
    }
  }

  /** The neighbours of a node are in its ring. */
  lemma {:induction false} Neighbours(r: seq<ListNode>, head: ListNode?, home: nat, k: nat)
    requires Ringed(r, head, home) && k < |r|
    ensures head == r[0] && r[k] in r
    ensures r[k].prev != null && r[k].next != null && r[k].prev in r && r[k].next in r
  {
    var b := if k > 0 then k - 1 else |r| - 1;
    assert r[b].next == After(r, b) && r[k].next == After(r, k);
  }

  lemma {:induction false} HeadOf(r: seq<ListNode>, head: ListNode?, home: nat)
    requires Ringed(r, head, home)
    ensures head == null <==> r == []
  {
  }

  lemma {:induction false} OnlyThat(r: seq<ListNode>, k: nat)
    requires k < |r|
    ensures forall n | n in r && n !in r[..k] + r[k + 1..] :: n == r[k]
  {
    var s := r[..k] + r[k + 1..];
    forall i | 0 <= i < |r| && i != k ensures r[i] in s {
      assert s[if i < k then i else i - 1] == r[i];
    }
  }

  // ----- appending ------------------------------------------------------------

  /** Links a fresh node in before the head, that is, at the end of the round. */
  method Append(node: ListNode, head: ListNode?, ghost r: seq<ListNode>, ghost home: nat)
    returns (first: ListNode)
    requires Ringed(r, head, home) && node !in r && node.home == home && node.next == node && node.prev == node
    modifies node, if head == null then {} else {head, head.prev}
    ensures Ringed(r + [node], first, home)
  {
    if head == null {
      first := node;
    } else {
      first := head;
      ghost var last := r[|r| - 1];
      assert last.next == After(r, |r| - 1) && head.prev == last;
      node.next := head;
      node.prev := head.prev;
      head.prev.next := node;
      head.prev := node;
      ghost var s := r + [node];
      forall k | 0 <= k < |s| ensures s[k].next == After(s, k) && After(s, k).prev == s[k] {
        if k + 1 < |r| {
          assert old(r[k].next) == After(r, k) && r[k] != last && r[k + 1] != r[0];
        }
      }
    }
  }

  // ----- removing -------------------------------------------------------------

  /** The ring without the first node that carries the descriptor. */
  ghost function Without(r: seq<ListNode>, fd: nat): seq<ListNode> {
    if r == [] then []
    else if r[0].peerfd == fd then r[1..]
    else [r[0]] + Without(r[1..], fd)
  }

  lemma {:induction false} WithoutView(r: seq<ListNode>, fd: nat)
    ensures FdsOf(Without(r, fd)) == Unringed(FdsOf(r), fd)
    ensures forall n | n in Without(r, fd) :: n in r
  {
    if r != [] {
      WithoutView(r[1..], fd);
      assert FdsOf(r)[1..] == FdsOf(r[1..]);
    }
  }

  lemma {:induction false} WithoutAt(r: seq<ListNode>, fd: nat, k: nat)
    requires k <= |r| && (forall j | 0 <= j < k :: r[j].peerfd != fd) && (k < |r| ==> r[k].peerfd == fd)
    ensures Without(r, fd) == if k < |r| then r[..k] + r[k + 1..] else r
  {
    if k > 0 {
      WithoutAt(r[1..], fd, k - 1);
      assert k < |r| ==> r[1..][..k - 1] == r[1..k] && r[1..][k..] == r[k + 1..] && r[..k] == [r[0]] + r[1..k];
    }
  }

  // ----- naming nodes by place -------------------------------------------------

  /** The nodes are those at the places `left` of `ring`. */
  ghost predicate Following(nodes: seq<ListNode>, ring: seq<ListNode>, left: seq<nat>) {
    |nodes| == |left| && forall j | 0 <= j < |left| :: left[j] < |ring| && nodes[j] == ring[left[j]]
  }

  lemma {:induction false} FollowingAt(nodes: seq<ListNode>, ring: seq<ListNode>, left: seq<nat>, at: nat)
    requires Following(nodes, ring, left) && AllDifferent(ring) && at < |ring|
    ensures at in left <==> ring[at] in nodes
    ensures var k := FirstOf(left, at); k < |left| ==> nodes[k] == ring[at]
  {
    if ring[at] in nodes {
      var j :| 0 <= j < |nodes| && nodes[j] == ring[at];
      assert left[j] == at;
    }
    if at in left {
      var j :| 0 <= j < |left| && left[j] == at;
      assert nodes[j] in nodes;
    }
  }

  /** Taking out the first node with the descriptor, on either side. */
  lemma {:induction false} FollowingDropped(nodes: seq<ListNode>, ring: seq<ListNode>, left: seq<nat>, fd: nat)
    requires Following(nodes, ring, left)
    ensures Following(Without(nodes, fd), ring, Dropped(left, FirstOf(FdsOf(nodes), fd)))
  {
    hide FdsOf, Without;
    var k := FirstOf(FdsOf(nodes), fd);
    assert forall j | 0 <= j < k :: nodes[j].peerfd == FdsOf(nodes)[j];
    WithoutAt(nodes, fd, k);
    if k < |nodes| {
      FollowingBut(nodes, ring, left, k);
    }
  }

  lemma {:induction false} FollowingBut(nodes: seq<ListNode>, ring: seq<ListNode>, left: seq<nat>, k: nat)
    requires Following(nodes, ring, left) && k < |nodes|
    ensures Following(nodes[..k] + nodes[k + 1..], ring, left[..k] + left[k + 1..])
  {
  }

  /** Goes round the ring to the first node with the descriptor. */
  method FindInRing(list: ListNode, peerfd: nat, ghost r: seq<ListNode>, ghost home: nat)
    returns (found: ListNode?, ghost k: nat)
    requires Ringed(r, list, home)
    ensures k <= |r| && (forall j | 0 <= j < k :: r[j].peerfd != peerfd)
    ensures found == if k < |r| then r[k] else null
    ensures found != null ==> found.peerfd == peerfd
  {
    var current := list;
    k := 0;
    while true
      invariant k < |r| && current == r[k] && forall j | 0 <= j < k :: r[j].peerfd != peerfd
      decreases |r| - k
    {
      if current.peerfd == peerfd {
        return current, k;
      }
      assert current.next == After(r, k);
      current := current.next;
      k := k + 1;
      if current == list {
        return null, k;
      }
    }
  }

  lemma {:induction false} WithoutNode(r: seq<ListNode>, k: nat)
    requires k < |r| && AllDifferent(r)
    ensures var s := r[..k] + r[k + 1..];
            |s| == |r| - 1 && AllDifferent(s) && forall j | 0 <= j < |s| :: s[j] == r[if j < k then j else j + 1]
  {
  }

  /** Takes the node at place `k` out of its ring. */
  method Unlink(current: ListNode, head: ListNode, ghost r: seq<ListNode>, ghost k: nat, ghost home: nat)
    returns (first: ListNode?)
    requires Ringed(r, head, home) && k < |r| && r[k] == current
    modifies current, current.prev, current.next
    ensures Ringed(r[..k] + r[k + 1..], first, home)
    ensures current.next == null
  {
    WithoutNode(r, k);
    ghost var s := r[..k] + r[k + 1..];
    ghost var b := if k > 0 then k - 1 else |r| - 1;
    assert r[b].next == After(r, b) && current.prev == r[b];
    assert current.next == After(r, k);
    if current.next == current {
      first := null;
    } else {
      current.prev.next := current.next;
      current.next.prev := current.prev;
      first := if head == current then current.next else head;
    }
    current.prev, current.next := null, null;
    forall j | 0 <= j < |s| ensures s[j].next == After(s, j) && After(s, j).prev == s[j] {
      var i := if j < k then j else j + 1;
      if i != b {
        assert old(r[i].next) == After(r, i) && r[i] != r[b] && After(r, i) != After(r, k);
      }
    }
    assert first == if s == [] then null else s[0];
  }
}
