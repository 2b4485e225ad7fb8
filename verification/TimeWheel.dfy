/** The time wheel as the server keeps it: slots with circular doubly linked
    lists, and a resizable hash table with singly linked chains. Every method
    does to the lists what the function of the same name does to the value. */
module TimeWheels {
  import opened Basics
  import opened HashChains
  import opened WheelAgreement
  import opened WheelTick
  import opened WheelSpec
  import SlotRings
  import WheelCost
  import WheelRuns

  class TimeWheel {
    const slots: array<SlotRings.ListNode?>
    var hashTable: array<HashNode?>
    var hashSize: nat
    var elementCount: int
    var currentIndex: nat

    /** The nodes of each ring, from the head round. */
    ghost var rings: seq<seq<SlotRings.ListNode>>
    ghost var listNodes: set<SlotRings.ListNode>
    /** The nodes of each hash chain. */
    ghost var chains: seq<seq<HashNode>>
    ghost var base: int
    /** What rings and chains amount to. */
    ghost var fds: seq<seq<nat>>
    ghost var entries: Chains
    ghost var hashNodes: set<HashNode>
    /** How many nodes all resizes so far have moved. */
    ghost var moves: nat

    ghost predicate TableOk()
      reads this`hashTable, this`hashSize, this`chains, this`entries, this`base, this`hashNodes, hashTable, hashNodes
    {
      && 0 < hashSize == hashTable.Length && Amounts(entries, chains)
      && Buckets(chains, hashTable[..], 0, base, hashNodes)
    }

    ghost predicate RingsOk()
      reads this`rings, this`fds, this`listNodes, slots, listNodes
    {
      slots.Length == SLOTS && SlotRings.Amounts(fds, rings) && SlotRings.Rings(rings, slots[..], listNodes)
    }

    ghost function View(): Wheel
      reads this`fds, this`entries, this`elementCount, this`currentIndex
    {
      Wheel(fds, entries, elementCount, currentIndex)
    }

    /** Every ring is a closed cycle through its head, every chain ends, no two
        of them share a node. */
    ghost predicate Valid()
      reads this, slots, listNodes, hashTable, hashNodes
    {
      TableOk() && RingsOk() && Shape(View())
    }

    constructor ()
      ensures Valid() && View() == EmptyWheel() && moves == 0
      ensures fresh(slots) && fresh(hashTable) && fresh(listNodes) && fresh(hashNodes)
    {
      slots := new SlotRings.ListNode?[SLOTS](_ => null);
      hashTable := new HashNode?[INITIAL_HASH_SIZE](_ => null);
      hashSize, elementCount, currentIndex := INITIAL_HASH_SIZE, 0, 0;
      rings, listNodes := seq(SLOTS, _ => []), {};
      chains, base, hashNodes := EmptyChains(INITIAL_HASH_SIZE), 0, {};
      fds, entries := EmptyWheel().slots, EmptyTable(INITIAL_HASH_SIZE);
      moves := 0;
      new;
      EmptyBuckets(hashTable[..], 0, {});
    }

    // ----- the hash table -------------------------------------------------------

    method ResizeHashTable()
      requires TableOk()
      modifies this`hashTable, this`hashSize, this`chains, this`entries, this`base, this`moves, hashNodes
      ensures TableOk() && fresh(hashTable)
      ensures 0 < |old(entries)| && entries == Resized(old(entries))
      ensures moves == old(moves) + |Entries(old(entries))|
    {
      hide Buckets, TableOf, Amounts, EntriesOf, Resized, EmptyTable, Entries;
      TableIs();
      var oldHashSize, oldHashTable := hashSize, hashTable;
      var newHashSize := oldHashSize * 2;
      var newHashTable := new HashNode?[newHashSize](_ => null);
      ghost var into, moved := MoveAll(oldHashTable, newHashTable, base + hashSize, chains, base, hashNodes);
      hashTable, hashSize, chains, base := newHashTable, newHashSize, into, base + hashSize;
      entries, moves := Resized(entries), moves + moved;
    }

    lemma {:induction false} TableIs()
      requires TableOk()
      ensures |chains| == |entries| == hashSize && entries == TableOf(chains)
      ensures Resized(entries) == MoveFrom(TableOf(chains), 0, EmptyTable(2 * hashSize))
    {
      AmountsIs(entries, chains);
    }

    method InsertToHashTable(peerfd: nat, index: nat)
      requires TableOk()
      modifies this`hashTable, this`hashSize, this`elementCount, this`chains, this`entries, this`base, this`hashNodes
      modifies this`moves, hashTable, hashNodes
      ensures TableOk() && fresh(hashNodes - old(hashNodes)) && (hashTable == old(hashTable) || fresh(hashTable))
      ensures elementCount == old(elementCount) + 1 && 0 < |old(entries)|
      ensures entries == Place(TableForInsert(old(entries), old(elementCount)), Entry(peerfd, index))
      ensures moves == old(moves) + WheelCost.MovedByInsert(old(entries), old(elementCount))
    {
      if Full(elementCount, hashSize) {
        ResizeHashTable();
      }
      PrependNode(peerfd, index);
      elementCount := elementCount + 1;
    }

    method PrependNode(peerfd: nat, index: nat)
      requires TableOk()
      modifies this`chains, this`entries, this`hashNodes, hashTable
      ensures TableOk() && fresh(hashNodes - old(hashNodes))
      ensures 0 < |old(entries)| && entries == Place(old(entries), Entry(peerfd, index))
    {
      hide Chained, Bucket, EntriesOf;
      var hashIndex := Bucket(peerfd, hashSize);
      var node := new HashNode(peerfd, index, hashTable[hashIndex], base + hashIndex);
      EntriesOfTail([node] + chains[hashIndex]);
      assert ([node] + chains[hashIndex])[1..] == chains[hashIndex];
      PrependChained(node, chains[hashIndex], hashTable[hashIndex], base + hashIndex);
      hashTable[hashIndex] := node;
      chains := chains[hashIndex := [node] + chains[hashIndex]];
      entries := Place(entries, Entry(peerfd, index));
      hashNodes := hashNodes + {node};
    }

    lemma {:induction false} ChainAt(b: nat)
      requires TableOk() && b < hashSize
      ensures |chains| == |entries| == hashSize && entries[b] == EntriesOf(chains[b])
      ensures Chained(chains[b], hashTable[b], base + b)
    {
    }

    method DeleteFromHashTable(peerfd: nat)
      requires TableOk()
      modifies this`elementCount, this`chains, this`entries, hashTable, hashNodes
      ensures TableOk() && 0 < |old(entries)| && entries == Deleted(old(entries), peerfd)
      ensures elementCount ==
              old(elementCount) - if Holds(old(entries)[Bucket(peerfd, |old(entries)|)], peerfd) then 1 else 0
    {
      hide Buckets, EntriesOf, Unchained, Holds, Bucket, Amounts, Chained;
      var hashIndex := Bucket(peerfd, hashSize);
      ChainAt(hashIndex);
      var prev, current, k := Walk(hashTable[hashIndex], peerfd, chains[hashIndex], base + hashIndex);
      if current == null {
        assert entries[hashIndex := entries[hashIndex]] == entries;
      } else {
        TakeOut(hashIndex, prev, current, k);
        elementCount := elementCount - 1;
      }
    }

    method TakeOut(hashIndex: nat, prev: HashNode?, current: HashNode, ghost k: nat)
      requires TableOk() && hashIndex < |chains| && k < |chains[hashIndex]| && current == chains[hashIndex][k]
      requires prev == if k > 0 then chains[hashIndex][k - 1] else null
      modifies this`chains, this`entries, hashTable, hashNodes
      ensures TableOk()
      ensures var c := old(chains)[hashIndex];
              && chains == old(chains)[hashIndex := c[..k] + c[k + 1..]]
              && hashIndex < |old(entries)| && entries == old(entries)[hashIndex := EntriesOf(c[..k] + c[k + 1..])]
    {
      hide Chained, After, EntriesOf;
      Elsewhere(chains, hashTable[..], 0, base, hashNodes, base + hashIndex);
      SameHome(chains[hashIndex], hashTable[hashIndex], base + hashIndex);
      ghost var left;
      hashTable[hashIndex], left := Unlink(prev, current, hashTable[hashIndex], chains[hashIndex], k, base + hashIndex);
      assert Within(left, hashNodes);
      chains := chains[hashIndex := left];
      entries := entries[hashIndex := EntriesOf(left)];
    }

    // ----- the rings ------------------------------------------------------------

    /** A ring, its head, and that no other ring has its nodes. */
    lemma {:induction false} RingAt(i: nat)
      requires RingsOk() && i < SLOTS
      ensures |rings| == |fds| == SLOTS && SlotRings.Ringed(rings[i], slots[i], i)
      ensures forall j | 0 <= j < SLOTS :: forall n | n in rings[j] :: n.home == j
      ensures slots[i] == null <==> rings[i] == []
      ensures slots[i] != null ==> slots[i] in rings[i] && slots[i].prev != null && slots[i].prev in rings[i]
    {
      SlotRings.RingsApart(rings, slots[..], listNodes);
      SlotRings.HeadOf(rings[i], slots[i], i);
      if slots[i] != null {
        SlotRings.Neighbours(rings[i], slots[i], i, 0);
      }
    }

    method AppendToRing(peerfd: nat, index: nat)
      requires RingsOk() && index < SLOTS
      modifies this`rings, this`fds, this`listNodes, slots, listNodes
      ensures RingsOk() && fresh(listNodes - old(listNodes))
      ensures |old(fds)| == SLOTS && fds == old(fds)[index := old(fds)[index] + [peerfd]]
    {
      hide SlotRings.Ringed, SlotRings.Amounts, SlotRings.FdsOf, SlotRings.After, SlotRings.AllDifferent;
      RingAt(index);
      var node := new SlotRings.ListNode(peerfd, index);
      slots[index] := SlotRings.Append(node, slots[index], rings[index], index);
      SlotRings.AmountsOneMore(fds, rings, index, node);
      rings := rings[index := rings[index] + [node]];
      fds := fds[index := fds[index] + [peerfd]];
      listNodes := listNodes + {node};
    }

    method RemoveUserFromList(peerfd: nat, index: nat)
      requires RingsOk() && index < SLOTS
      modifies this`rings, this`fds, slots, listNodes
      ensures RingsOk() && |old(rings)| == SLOTS
      ensures rings == old(rings)[index := SlotRings.Without(old(rings)[index], peerfd)]
      ensures |old(fds)| == SLOTS && fds == old(fds)[index := SlotRings.FdsOf(rings[index])]
      ensures forall n | n in old(rings)[index] && n !in rings[index] :: n.next == null
    {
      hide SlotRings.Ringed, SlotRings.Without;
      ghost var r := rings[index];
      assert SlotRings.Ringed(r, slots[index], index);
      var list := slots[index];
      SlotRings.HeadOf(r, list, index);
      if list == null {
        SlotRings.WithoutAt(r, peerfd, 0);
        assert rings[index := r] == rings && fds[index := fds[index]] == fds;
        return;
      }
      var current, k := SlotRings.FindInRing(list, peerfd, r, index);
      SlotRings.WithoutAt(r, peerfd, k);
      if current == null {
        assert rings[index := r] == rings && fds[index := fds[index]] == fds;
      } else {
        UnlinkFromRing(index, list, current, k);
      }
    }

    method UnlinkFromRing(index: nat, list: SlotRings.ListNode, current: SlotRings.ListNode, ghost k: nat)
      requires RingsOk() && index < SLOTS && k < |rings[index]| && rings[index][k] == current && slots[index] == list
      modifies this`rings, this`fds, slots, listNodes
      ensures RingsOk() && |old(rings)| == SLOTS
      ensures var r := old(rings)[index];
              && rings == old(rings)[index := r[..k] + r[k + 1..]] && |old(fds)| == SLOTS
              && fds == old(fds)[index := SlotRings.FdsOf(rings[index])]
              && forall n | n in r && n !in rings[index] :: n.next == null
    {
      hide SlotRings.Ringed, SlotRings.FdsOf, SlotRings.After, SlotRings.AllDifferent;
      ghost var r := rings[index];
      SlotRings.RingsApart(rings, slots[..], listNodes);
      SlotRings.Neighbours(r, list, index, k);
      SlotRings.OnlyThat(r, k);
      slots[index] := SlotRings.Unlink(current, list, r, k, index);
      assert Within(r[..k] + r[k + 1..], listNodes);
      rings := rings[index := r[..k] + r[k + 1..]];
      fds := fds[index := SlotRings.FdsOf(rings[index])];
    }

    // ----- operations -----------------------------------------------------------

    method AddUser(peerfd: nat, timeout: nat)
      requires Valid()
      modifies this, slots, listNodes, hashTable, hashNodes
      ensures Valid() && fresh(listNodes - old(listNodes)) && fresh(hashNodes - old(hashNodes))
      ensures hashTable == old(hashTable) || fresh(hashTable)
      ensures old(Shape(View())) && View() == WheelSpec.AddUser(old(View()), peerfd, timeout)
      ensures moves == old(moves) + WheelCost.Moved(old(View()), WheelRuns.Add(peerfd, timeout))
    {
      AddShape(View(), peerfd, timeout);
      hide Buckets, Amounts, SlotRings.Amounts, SlotRings.Rings;
      Enter(peerfd, SlotFor(currentIndex, timeout));
    }

    /** Into the ring first, then into the table. */
    method Enter(peerfd: nat, index: nat)
      requires TableOk() && RingsOk() && index < SLOTS
      modifies this`rings, this`fds, this`listNodes, slots, listNodes
      modifies this`hashTable, this`hashSize, this`elementCount, this`chains, this`entries, this`base, this`hashNodes
      modifies this`moves, hashTable, hashNodes
      ensures TableOk() && RingsOk() && fresh(listNodes - old(listNodes)) && fresh(hashNodes - old(hashNodes))
      ensures hashTable == old(hashTable) || fresh(hashTable)
      ensures |old(fds)| == SLOTS && fds == old(fds)[index := old(fds)[index] + [peerfd]]
      ensures elementCount == old(elementCount) + 1 && 0 < |old(entries)|
      ensures entries == Place(TableForInsert(old(entries), old(elementCount)), Entry(peerfd, index))
      ensures moves == old(moves) + WheelCost.MovedByInsert(old(entries), old(elementCount))
    {
      hide Buckets, Amounts, SlotRings.Amounts, SlotRings.Rings, Place, TableForInsert;
      AppendToRing(peerfd, index);
      InsertToHashTable(peerfd, index);
    }

    /** What taking `peerfd` out of ring `index` makes of the rings. */
    ghost predicate TakenFrom(was: seq<seq<SlotRings.ListNode>>, index: nat, peerfd: nat)
      reads this`rings, set r, n: SlotRings.ListNode | r in was && n in r :: n
    {
      && |was| == |rings| && index < |was|
      && rings == was[index := SlotRings.Without(was[index], peerfd)]
      && forall n | n in was[index] && n !in rings[index] :: n.next == null
    }

    method TakeFrom(peerfd: nat, index: nat)
      requires Valid() && index < SLOTS
      modifies this`rings, this`fds, this`chains, this`entries, this`elementCount
      modifies slots, listNodes, hashTable, hashNodes
      ensures Valid() && TakenFrom(old(rings), index, peerfd)
      ensures old(Shape(View())) && View() == Detach(old(View()), peerfd, index)
    {
      hide Buckets, SlotRings.Rings, SlotRings.Without, SlotRings.FdsOf, Deleted, Holds, Unringed;
      DetachShape(View(), peerfd, index);
      SlotRings.WithoutView(rings[index], peerfd);
      RemoveUserFromList(peerfd, index);
      DeleteFromHashTable(peerfd);
    }

    lemma {:induction false} HeadOfChain(b: nat)
      requires Valid() && b < |chains|
      ensures b < |entries| == hashSize && (hashTable[b] == null <==> entries[b] == [])
      ensures hashTable[b] != null ==> entries[b][0].index == hashTable[b].index < SLOTS
    {
      assert Chained(chains[b], hashTable[b], base + b) && entries[b] == EntriesOf(chains[b]);
      assert chains[b] != [] ==> View().table[b][0].index < SLOTS;
    }

    method RemoveUser(peerfd: nat)
      requires Valid()
      modifies this`rings, this`fds, this`chains, this`entries, this`elementCount
      modifies slots, listNodes, hashTable, hashNodes
      ensures Valid() && old(Shape(View())) && View() == WheelSpec.RemoveUser(old(View()), peerfd)
      ensures var c := Chain(old(View()), peerfd);
              if c == [] then rings == old(rings) else TakenFrom(old(rings), c[0].index, peerfd)
    {
      var hashNode := hashTable[Bucket(peerfd, hashSize)];
      HeadOfChain(Bucket(peerfd, hashSize));
      if hashNode == null {
        return;
      }
      TakeFrom(peerfd, hashNode.index);
    }

    /** Out of ring `index`, and in again for the new timeout. */
    method Renew(peerfd: nat, index: nat, timeout: nat)
      requires Valid() && index < SLOTS
      modifies this, slots, listNodes, hashTable, hashNodes
      ensures Valid() && fresh(listNodes - old(listNodes)) && fresh(hashNodes - old(hashNodes))
      ensures hashTable == old(hashTable) || fresh(hashTable)
      ensures old(Shape(View())) && Shape(Detach(old(View()), peerfd, index))
      ensures View() == WheelSpec.AddUser(Detach(old(View()), peerfd, index), peerfd, timeout)
      ensures var d := Detach(old(View()), peerfd, index);
              moves == old(moves) + WheelCost.MovedByInsert(d.table, d.count)
    {
      hide Buckets, Amounts, SlotRings.Rings, SlotRings.Amounts, Place, Deleted, Unringed, TableForInsert;
      hide WheelCost.MovedByInsert, TakenFrom, Holds;
      DetachShape(View(), peerfd, index);
      TakeFrom(peerfd, index);
      AddUser(peerfd, timeout);
    }

    method UpdateUserTimeout(peerfd: nat, timeout: nat)
      requires Valid()
      modifies this, slots, listNodes, hashTable, hashNodes
      ensures Valid() && fresh(listNodes - old(listNodes)) && fresh(hashNodes - old(hashNodes))
      ensures hashTable == old(hashTable) || fresh(hashTable)
      ensures old(Shape(View())) && View() == UpdateUser(old(View()), peerfd, timeout)
      ensures moves == old(moves) + WheelCost.Moved(old(View()), WheelRuns.Update(peerfd, timeout))
    {
      hide SlotRings.Rings, SlotRings.Amounts;
      var hashNode := hashTable[Bucket(peerfd, hashSize)];
      HeadOfChain(Bucket(peerfd, hashSize));
      if hashNode == null {
        return;
      }
      hide Valid, WheelSpec.AddUser, WheelCost.MovedByInsert, Detach;
      Renew(peerfd, hashNode.index, timeout);
    }

    /** The loop of a tick from `w` stands at `s`, about to visit `current`; the
        nodes `ring` were those of the current ring when the tick began. */
    ghost predicate Visiting(w: Wheel, ring: seq<SlotRings.ListNode>, s: Loop, current: SlotRings.ListNode)
      reads this, slots, listNodes, hashTable, hashNodes, current
    {
      && Valid() && Shape(w) && w.cur == currentIndex < |rings| && SlotRings.FdsOf(ring) == Ring(w)
      && s.Going? && s.w == View() && s.at < |ring| && current == ring[s.at]
      && SlotRings.AllDifferent(ring) && SlotRings.Following(rings[currentIndex], ring, s.left)
      && (current in rings[currentIndex] || current.next == null)
    }

    /** Where the next pointer of `current` leads. */
    lemma {:induction false} NextInRing(w: Wheel, ring: seq<SlotRings.ListNode>, s: Loop, current: SlotRings.ListNode)
      requires Visiting(w, ring, s, current)
      ensures match NextOf(s.left, s.at)
              case None => current.next == null
              case Some(p) => p < |ring| && current.next == ring[p] && ring[p] in rings[currentIndex]
    {
      ghost var nodes := rings[currentIndex];
      assert SlotRings.Ringed(nodes, slots[currentIndex], currentIndex);
      SlotRings.FollowingAt(nodes, ring, s.left, s.at);
      var k := FirstOf(s.left, s.at);
      if k < |s.left| {
        assert nodes[k].next == SlotRings.After(nodes, k);
      }
    }

    /** The user to close, and the ring it is looked for in. */
    lemma {:induction false} Facing(w: Wheel, ring: seq<SlotRings.ListNode>, s: Loop, current: SlotRings.ListNode)
      requires Visiting(w, ring, s, current)
      ensures s.Going? && Shape(s.w) && s.w.cur == currentIndex == w.cur < |rings|
      ensures s.at < |Ring(w)| && Ring(w)[s.at] == current.peerfd
      ensures Ring(s.w) == SlotRings.FdsOf(rings[currentIndex])
      ensures SlotRings.Following(rings[currentIndex], ring, s.left)
      ensures SlotRings.AllDifferent(ring) && SlotRings.FdsOf(ring) == Ring(w)
    {
    }

    /** Removing the user of the node visited keeps nodes and places in step. */
    lemma {:induction false} StaysInStep(s: Loop, fd: nat, ring: seq<SlotRings.ListNode>,
                                         was: seq<seq<SlotRings.ListNode>>)
      requires Shape(s.w) && s.Going? && s.w.cur < |was| == |rings|
      requires SlotRings.Following(was[s.w.cur], ring, s.left)
      requires Ring(s.w) == SlotRings.FdsOf(was[s.w.cur])
      requires var c := Chain(s.w, fd); if c == [] then rings == was else TakenFrom(was, c[0].index, fd)
      ensures SlotRings.Following(rings[s.w.cur], ring, LeftAfter(s.w, s.left, fd))
      ensures forall n | n in was[s.w.cur] :: n in rings[s.w.cur] || n.next == null
    {
      SlotRings.FollowingDropped(was[s.w.cur], ring, s.left, fd);
    }

    /** One pass of the loop. */
    method VisitNode(current: SlotRings.ListNode, ghost w: Wheel, ghost ring: seq<SlotRings.ListNode>, ghost s: Loop)
      returns (next: SlotRings.ListNode?)
      requires Visiting(w, ring, s, current)
      modifies this`rings, this`fds, this`chains, this`entries, this`elementCount
      modifies slots, listNodes, hashTable, hashNodes
      ensures Shape(w) && s.Going? && Shape(s.w) && s.at < |Ring(w)|
      ensures var r := Visit(Ring(w), s);
              if r.Going? then next != null && next != ring[0] && Visiting(w, ring, r, next)
              else Valid() && View() == r.w && currentIndex == w.cur
                   && (next == null || (ring != [] && next == ring[0]))
    {
      hide SlotRings.FdsOf, SlotRings.Without, SlotRings.Following, TakenFrom;
      hide WheelSpec.RemoveUser, Chain, NextOf, LeftAfter;
      Facing(w, ring, s, current);
      NextInRing(w, ring, s, current);
      ghost var was := rings;
      next := current.next;
      RemoveUser(current.peerfd);
      StaysInStep(s, current.peerfd, ring, was);
    }

    /** The loop of a tick: from the head on until it meets the head again or a
        null link. */
    method VisitAll(list: SlotRings.ListNode, ghost w: Wheel, ghost ring: seq<SlotRings.ListNode>)
      returns (closed: seq<nat>)
      requires Shape(w) && TickReturns(w) && ring != [] && list == ring[0]
      requires Visiting(w, ring, LoopAfter(w, 0), list)
      modifies this`rings, this`fds, this`chains, this`entries, this`elementCount
      modifies slots, listNodes, hashTable, hashNodes
      ensures Valid() && currentIndex == w.cur && View() == AtEnd(w).w && closed == Closed(w)
    {
      hide Visiting, Valid, Shape, Visit;
      closed := [];
      var current: SlotRings.ListNode? := list;
      ghost var n := 0;
      while true
        invariant current != null && Visiting(w, ring, LoopAfter(w, n), current)
        invariant closed == LoopAfter(w, n).closed && n <= EndOfLoop(w)
        decreases EndOfLoop(w) - n
      {
        var peerfd := current.peerfd;
        Facing(w, ring, LoopAfter(w, n), current);
        NotYet(w, n);
        OneVisit(w, n);
        current := VisitNode(current, w, ring, LoopAfter(w, n));
        closed := closed + [peerfd];
        n := n + 1;
        if current == list || current == null {
          EndIs(w, n);
          break;
        }
      }
    }

    /** Forgets the current ring, whoever is in it. */
    method ForgetRing()
      requires RingsOk() && currentIndex < SLOTS
      modifies this`rings, this`fds, slots
      ensures RingsOk() && |old(fds)| == SLOTS && fds == old(fds)[currentIndex := []]
    {
      hide SlotRings.FdsOf;
      slots[currentIndex] := null;
      rings := rings[currentIndex := []];
      fds := fds[currentIndex := []];
    }

    method StepOn()
      requires Valid() && currentIndex < |fds|
      modifies this`rings, this`fds, this`currentIndex, slots
      ensures Valid() && currentIndex < SLOTS
      ensures View() == old(View()).(slots := old(fds)[old(currentIndex) := []], cur := (old(currentIndex) + 1) % SLOTS)
    {
      hide Buckets, Amounts, Bucket, SlotRings.Rings, SlotRings.Amounts;
      ForgetRing();
      currentIndex := (currentIndex + 1) % SLOTS;
    }

    /** A tick begins at the head of the current ring, with nobody visited. */
    lemma {:induction false} StartVisit()
      requires Valid()
      ensures currentIndex < |rings| == |fds| && currentIndex < slots.Length && View().cur == currentIndex
      ensures Ring(View()) == SlotRings.FdsOf(rings[currentIndex])
      ensures var ring, list := rings[currentIndex], slots[currentIndex];
              if ring == [] then list == null
              else list == ring[0] && Visiting(View(), ring, LoopAfter(View(), 0), list)
    {
      ghost var ring := rings[currentIndex];
      assert SlotRings.Ringed(ring, slots[currentIndex], currentIndex);
    }

    method VisitRing(ghost w: Wheel) returns (closed: seq<nat>)
      requires Valid() && Shape(w) && w == View() && TickReturns(w)
      modifies this`rings, this`fds, this`chains, this`entries, this`elementCount
      modifies slots, listNodes, hashTable, hashNodes
      ensures Valid() && currentIndex == w.cur && View() == AtEnd(w).w && closed == Closed(w)
    {
      StartVisit();
      hide Valid, Visiting, LoopAfter;
      closed := [];
      var list := slots[currentIndex];
      if list == null {
        EmptyRingEnds(w);
        EndIs(w, 0);
      } else {
        closed := VisitAll(list, w, rings[currentIndex]);
      }
    }

    method Tick() returns (closed: seq<nat>)
      requires Valid() && TickReturns(View())
      modifies this, slots, listNodes, hashTable, hashNodes
      ensures Valid() && old(Shape(View())) && View() == WheelTick.Tick(old(View()))
      ensures closed == Closed(old(View())) && moves == old(moves)
    {
      ghost var w := View();
      hide TableOk, RingsOk, AtEnd, Closed;
      closed := VisitRing(w);
      StepOn();
    }
  }
}
