/** When the rings and the hash table agree, and which operations keep it so. */
module WheelAgreement {
  import opened WheelSpec

  /** Everything stored in a table, with multiplicities. */
  ghost function Entries(table: Chains): multiset<Entry> {
    if table == [] then multiset{} else multiset(table[0]) + Entries(table[1..])
  }

  /** Every node sits in the bucket its descriptor hashes to. */
  ghost predicate Placed(table: Chains) {
    forall b, k | 0 <= b < |table| && 0 <= k < |table[b]| ::
      Bucket(table[b][k].fd, |table|) == b && table[b][k].index < SLOTS
  }

  ghost predicate Stored(es: multiset<Entry>, e: Entry) {
    e in es
  }

  /** No descriptor is stored twice. */
  ghost predicate OncePerFd(es: multiset<Entry>) {
    && (forall e {:trigger Stored(es, e)} | Stored(es, e) :: es[e] == 1)
    && (forall e, f {:trigger Stored(es, e), Stored(es, f)} | Stored(es, e) && Stored(es, f) && e.fd == f.fd :: e == f)
  }

  lemma {:induction false} StoredOnce(es: multiset<Entry>, e: Entry, f: Entry)
    requires OncePerFd(es) && e in es && f in es && e.fd == f.fd
    ensures e == f && es[e] == 1
  {
    assert Stored(es, e) && Stored(es, f);
  }

  /** The table sends fd to i exactly when fd waits, once, in ring i. */
  ghost predicate SameContents(slots: seq<seq<nat>>, es: multiset<Entry>) {
    && |slots| == SLOTS
    && (forall e {:trigger es[e]} | e in es :: e.index < SLOTS)
    && (forall fd: nat, i: nat | i < SLOTS :: es[Entry(fd, i)] == multiset(slots[i])[fd])
  }

  ghost predicate Agree(w: Wheel) {
    && Shape(w) && Placed(w.table)
    && OncePerFd(Entries(w.table)) && SameContents(w.slots, Entries(w.table))
    && w.count == |Entries(w.table)|
  }

  lemma {:induction false} AgreePlaced(w: Wheel)
    requires Agree(w)
    ensures Shape(w) && Placed(w.table) && w.count == |Entries(w.table)|
  {
  }

  ghost predicate Live(w: Wheel, fd: nat) {
    exists i: nat {:trigger fd in w.slots[i]} :: i < |w.slots| && fd in w.slots[i]
  }

  lemma {:induction false} WaitsSoLive(w: Wheel, fd: nat, i: nat)
    requires i < |w.slots| && fd in w.slots[i]
    ensures Live(w, fd)
  {
  }

  // ----- contents of tables -------------------------------------------------

  lemma {:induction false} Exchanged(front: multiset<Entry>, es: multiset<Entry>, out: multiset<Entry>,
                                     into: multiset<Entry>)
    requires out <= es
    ensures out <= front + es && front + (es - out + into) == front + es - out + into
  {
  }

  lemma {:induction false} EntriesUpdate(table: Chains, b: nat, chain: seq<Entry>)
    requires b < |table|
    ensures multiset(table[b]) <= Entries(table)
    ensures Entries(table[b := chain]) == Entries(table) - multiset(table[b]) + multiset(chain)
  {
    if b == 0 {
      assert table[0 := chain][1..] == table[1..];
    } else {
      EntriesUpdate(table[1..], b - 1, chain);
      assert table[b := chain][1..] == table[1..][b - 1 := chain];
      Exchanged(multiset(table[0]), Entries(table[1..]), multiset(table[b]), multiset(chain));
    }
  }

  lemma {:induction false} EntryWhere(table: Chains, e: Entry) returns (b: nat)
    requires e in Entries(table)
    ensures b < |table| && e in table[b]
  {
    if e in multiset(table[0]) {
      b := 0;
    } else {
      b := EntryWhere(table[1..], e);
      b := b + 1;
    }
  }

  lemma {:induction false} PlaceAdds(table: Chains, e: Entry)
    requires 0 < |table|
    ensures Entries(Place(table, e)) == Entries(table) + multiset{e}
    ensures Placed(table) && e.index < SLOTS ==> Placed(Place(table, e))
  {
    hide Bucket, Entries, Placed;
    var b := Bucket(e.fd, |table|);
    EntriesUpdate(table, b, [e] + table[b]);
    assert multiset([e] + table[b]) == multiset{e} + multiset(table[b]);
    if Placed(table) && e.index < SLOTS {
      assert forall x | x in table[b] :: Bucket(x.fd, |table|) == b && x.index < SLOTS by {
        PlacedBucket(table, b);
      }
      PlacedUpdate(table, b, [e] + table[b]);
    }
  }

  lemma {:induction false} PlacedBucket(table: Chains, b: nat)
    requires Placed(table) && b < |table|
    ensures forall x | x in table[b] :: Bucket(x.fd, |table|) == b && x.index < SLOTS
  {
    hide Bucket;
  }

  lemma {:induction false} PlacedUpdate(table: Chains, b: nat, chain: seq<Entry>)
    requires Placed(table) && b < |table|
    requires forall e | e in chain :: Bucket(e.fd, |table|) == b && e.index < SLOTS
    ensures Placed(table[b := chain])
  {
    hide Bucket;
  }

  lemma {:induction false} MoveChainKeeps(chain: seq<Entry>, into: Chains)
    requires 0 < |into|
    ensures Entries(MoveChain(chain, into)) == Entries(into) + multiset(chain)
    ensures Placed(into) && (forall e | e in chain :: e.index < SLOTS) ==> Placed(MoveChain(chain, into))
    decreases |chain|
  {
    if chain != [] {
      var next := Place(into, chain[0]);
      PlaceAdds(into, chain[0]);
      MoveChainKeeps(chain[1..], next);
      assert chain == [chain[0]] + chain[1..];
    }
  }

  lemma {:induction false} MoveFromKeeps(table: Chains, k: nat, into: Chains)
    requires k <= |table| && 0 < |into|
    ensures Entries(MoveFrom(table, k, into)) == Entries(into) + Entries(table[k..])
    ensures Placed(table) && Placed(into) ==> Placed(MoveFrom(table, k, into))
    decreases |table| - k
  {
    if k < |table| {
      var next := MoveChain(table[k], into);
      MoveChainKeeps(table[k], into);
      MoveFromKeeps(table, k + 1, next);
      assert table[k..][0] == table[k] && table[k..][1..] == table[k + 1..];
    }
  }

  lemma {:induction false} EmptyHasNoEntries(n: nat)
    ensures Entries(EmptyTable(n)) == multiset{}
    decreases n
  {
    if n > 0 {
      EmptyHasNoEntries(n - 1);
      assert EmptyTable(n)[1..] == EmptyTable(n - 1);
    }
  }

  /** Doubling the table keeps every node, once each, in its right bucket,
      whatever collides with what. */
  lemma {:induction false} ResizeKeepsMapping(table: Chains)
    requires 0 < |table| && Placed(table)
    ensures Entries(Resized(table)) == Entries(table)
    ensures Placed(Resized(table))
    ensures forall e: Entry :: e in Resized(table)[Bucket(e.fd, 2 * |table|)] <==> e in table[Bucket(e.fd, |table|)]
  {
    hide Bucket;
    var empty, bigger := EmptyTable(2 * |table|), Resized(table);
    EmptyHasNoEntries(2 * |table|);
    MoveFromKeeps(table, 0, empty);
    assert table[0..] == table;
    forall e: Entry ensures e in bigger[Bucket(e.fd, |bigger|)] <==> e in table[Bucket(e.fd, |table|)] {
      InBucket(table, e);
      InBucket(bigger, e);
    }
  }

  /** The entries of a chain that hash to `b` in a table of this size. */
  function Picked(chain: seq<Entry>, size: nat, b: nat): seq<Entry>
    requires 0 < size
  {
    if chain == [] then []
    else (if Bucket(chain[0].fd, size) == b then [chain[0]] else []) + Picked(chain[1..], size, b)
  }

  function Backwards(chain: seq<Entry>): seq<Entry> {
    if chain == [] then [] else Backwards(chain[1..]) + [chain[0]]
  }

  lemma {:induction false} MoveChainTurns(chain: seq<Entry>, into: Chains, b: nat)
    requires b < |into|
    ensures MoveChain(chain, into)[b] == Backwards(Picked(chain, |into|, b)) + into[b]
    decreases |chain|
  {
    hide Bucket;
    if chain != [] {
      MoveChainTurns(chain[1..], Place(into, chain[0]), b);
      var rest := Picked(chain[1..], |into|, b);
      assert [] + rest == rest;
      if Bucket(chain[0].fd, |into|) == b {
        assert ([chain[0]] + rest)[1..] == rest;
        assert Backwards(rest) + ([chain[0]] + into[b]) == (Backwards(rest) + [chain[0]]) + into[b];
      }
    }
  }

  lemma {:induction false} BucketOfBucket(fd: nat, size: nat)
    requires 0 < size
    ensures Bucket(Bucket(fd, 2 * size), size) == Bucket(fd, size)
  {
    if fd >= 2 * size {
      BucketOfBucket(fd - 2 * size, size);
    }
  }

  lemma {:induction false} NonePicked(chain: seq<Entry>, size: nat, b: nat)
    requires 0 < size && forall e | e in chain :: Bucket(e.fd, size) != Bucket(b, size)
    requires b < 2 * size
    ensures Picked(chain, 2 * size, b) == []
  {
    hide Bucket;
    if chain != [] {
      assert chain[0] in chain && forall e | e in chain[1..] :: e in chain;
      BucketOfBucket(chain[0].fd, size);
      NonePicked(chain[1..], size, b);
    }
  }

  lemma {:induction false} MoveFromTurns(table: Chains, k: nat, into: Chains, b: nat)
    requires Placed(table) && k <= |table| && |into| == 2 * |table| && b < |into|
    ensures var home := Bucket(b, |table|);
            MoveFrom(table, k, into)[b]
            == (if k <= home then Backwards(Picked(table[home], |into|, b)) else []) + into[b]
    decreases |table| - k
  {
    hide Bucket, Placed, Picked, Backwards, MoveChain;
    if k < |table| {
      MoveChainTurns(table[k], into, b);
      MoveFromTurns(table, k + 1, MoveChain(table[k], into), b);
      if k != Bucket(b, |table|) {
        PlacedBucket(table, k);
        NonePicked(table[k], |table|, b);
        NothingBackwards();
      }
    }
  }

  lemma {:induction false} NothingBackwards()
    ensures Backwards([]) == []
  {
  }

  /** A resize leaves in each bucket the nodes of one old bucket that belong
      there, in the opposite order. */
  lemma {:induction false} ResizeTurnsChains(table: Chains, b: nat)
    requires Placed(table) && b < 2 * |table|
    ensures Resized(table)[b] == Backwards(Picked(table[Bucket(b, |table|)], 2 * |table|, b))
  {
    hide Bucket, Placed, Picked, Backwards;
    MoveFromTurns(table, 0, EmptyTable(2 * |table|), b);
  }

  /** Deletion takes the first node of the descriptor out of the chain. */
  lemma {:induction false} UnchainedDropsFirst(chain: seq<Entry>, k: nat)
    requires k < |chain| && forall j | 0 <= j < k :: chain[j].fd != chain[k].fd
    ensures Unchained(chain, chain[k].fd) == chain[..k] + chain[k + 1..]
  {
    if k > 0 {
      UnchainedDropsFirst(chain[1..], k - 1);
      assert chain[..k] == [chain[0]] + chain[1..][..k - 1];
    }
  }

  /** In a table with every node in place, searching one bucket is searching
      the table. */
  lemma {:induction false} InBucket(table: Chains, e: Entry)
    requires 0 < |table| && Placed(table)
    ensures e in table[Bucket(e.fd, |table|)] <==> e in Entries(table)
  {
    var b := Bucket(e.fd, |table|);
    EntriesUpdate(table, b, []);
    if e in Entries(table) {
      var c := EntryWhere(table, e);
      var k :| 0 <= k < |table[c]| && table[c][k] == e;
    }
  }

  lemma {:induction false} UnchainedTakes(chain: seq<Entry>, e: Entry)
    requires e in chain && forall x | x in chain && x.fd == e.fd :: x == e
    ensures multiset(Unchained(chain, e.fd)) == multiset(chain) - multiset{e}
  {
    var head, rest := chain[0], chain[1..];
    assert chain == [head] + rest;
    if head.fd != e.fd {
      UnchainedTakes(rest, e);
      assert e in multiset(rest);
    } else {
      assert head in chain;
    }
  }

  lemma {:induction false} UnchainedAbsent(chain: seq<Entry>, fd: nat)
    requires !Holds(chain, fd)
    ensures Unchained(chain, fd) == chain
  {
    if chain != [] {
      assert chain[0] in chain;
      assert forall e | e in chain[1..] :: e in chain;
      UnchainedAbsent(chain[1..], fd);
    }
  }

  lemma {:induction false} UnringedRemoves(ring: seq<nat>, fd: nat)
    ensures fd !in ring ==> Unringed(ring, fd) == ring
    ensures multiset(Unringed(ring, fd)) == multiset(ring) - multiset{fd}
  {
    if ring != [] {
      assert ring == [ring[0]] + ring[1..];
      UnringedRemoves(ring[1..], fd);
    }
  }

  lemma {:induction false} DeleteRemoves(table: Chains, e: Entry)
    requires 0 < |table| && Placed(table) && OncePerFd(Entries(table)) && e in Entries(table)
    ensures Holds(table[Bucket(e.fd, |table|)], e.fd)
    ensures Entries(Deleted(table, e.fd)) == Entries(table) - multiset{e}
    ensures Placed(Deleted(table, e.fd))
  {
    hide Bucket, Unchained, Placed, OncePerFd, Entries;
    var b := Bucket(e.fd, |table|);
    var chain := table[b];
    InBucket(table, e);
    EntriesUpdate(table, b, Unchained(chain, e.fd));
    forall x | x in chain && x.fd == e.fd ensures x == e {
      assert x in multiset(chain);
      StoredOnce(Entries(table), x, e);
    }
    UnchainedTakes(chain, e);
    PlacedDeleted(table, e.fd);
  }

  lemma {:induction false} PlacedDeleted(table: Chains, fd: nat)
    requires 0 < |table| && Placed(table)
    ensures Placed(Deleted(table, fd))
  {
    hide Bucket;
    var b := Bucket(fd, |table|);
    UnchainedWithin(table[b], fd);
    PlacedBucket(table, b);
    PlacedUpdate(table, b, Unchained(table[b], fd));
  }

  lemma {:induction false} DeleteAbsent(table: Chains, fd: nat)
    requires 0 < |table| && !Holds(table[Bucket(fd, |table|)], fd)
    ensures Deleted(table, fd) == table
  {
    UnchainedAbsent(table[Bucket(fd, |table|)], fd);
  }

  // ----- looking a descriptor up ----------------------------------------------

  /** Where a descriptor of an agreeing wheel waits. */
  lemma {:induction false} LiveEntry(w: Wheel, fd: nat) returns (i: nat)
    requires Agree(w) && Live(w, fd)
    ensures i < SLOTS && fd in w.slots[i] && Entry(fd, i) in Entries(w.table)
    ensures Entry(fd, i) in Chain(w, fd)
    ensures forall j: nat | j < SLOTS && fd in w.slots[j] :: j == i
  {
    i :| i < SLOTS && fd in w.slots[i];
    assert Entries(w.table)[Entry(fd, i)] == multiset(w.slots[i])[fd];
    InBucket(w.table, Entry(fd, i));
    forall j: nat | j < SLOTS && fd in w.slots[j] ensures j == i {
      assert Entries(w.table)[Entry(fd, j)] == multiset(w.slots[j])[fd];
      StoredOnce(Entries(w.table), Entry(fd, i), Entry(fd, j));
    }
  }

  lemma {:induction false} DeadHasNoEntry(w: Wheel, fd: nat)
    requires Agree(w) && !Live(w, fd)
    ensures !Holds(Chain(w, fd), fd)
    ensures forall e | e in Entries(w.table) :: e.fd != fd
  {
    forall e | e in Entries(w.table) ensures e.fd != fd {
      assert Entries(w.table)[Entry(e.fd, e.index)] == multiset(w.slots[e.index])[e.fd];
      assert e == Entry(e.fd, e.index);
      assert e.fd in w.slots[e.index];
    }
    forall e | e in Chain(w, fd) ensures e.fd != fd {
      if e.fd == fd {
        InBucket(w.table, e);
      }
    }
  }

  // ----- operations keep the agreement -----------------------------------------

  /** Adding a fresh descriptor keeps the agreement, with any collisions and
      with or without a resize on the way. */
  lemma {:induction false} AddKeepsAgree(w: Wheel, fd: nat, timeout: nat)
    requires Agree(w) && !Live(w, fd)
    ensures Agree(AddUser(w, fd, timeout))
  {
    hide Agree, Placed, OncePerFd, SameContents, Entries, Live, Bucket, Place, Resized;
    AgreePlaced(w);
    AgreeContents(w);
    var i := SlotFor(w.cur, timeout);
    var e, t := Entry(fd, i), TableForInsert(w.table, w.count);
    ResizeKeepsMapping(w.table);
    PlaceAdds(t, e);
    DeadHasNoEntry(w, fd);
    AddedContents(w.slots, Entries(w.table), fd, i);
    PlacedShape(Place(t, e));
    AgreeParts(AddUser(w, fd, timeout), Entries(w.table) + multiset{e});
  }

  /** And only a fresh one: a second entry for a waiting descriptor breaks it. */
  lemma {:induction false} AddAgreesExactly(w: Wheel, fd: nat, timeout: nat)
    requires Agree(w)
    ensures Agree(AddUser(w, fd, timeout)) <==> !Live(w, fd)
  {
    hide Agree, AddUser;
    AgreePlaced(w);
    if Live(w, fd) {
      var i := LiveEntry(w, fd);
      AddedTwice(w, fd, i, timeout);
    } else {
      AddKeepsAgree(w, fd, timeout);
    }
  }

  lemma {:induction false} AddedTwice(w: Wheel, fd: nat, i: nat, timeout: nat)
    requires Shape(w) && Placed(w.table) && Entry(fd, i) in Entries(w.table)
    ensures !Agree(AddUser(w, fd, timeout))
  {
    hide Bucket, Entries, Placed;
    var e, r := Entry(fd, SlotFor(w.cur, timeout)), AddUser(w, fd, timeout);
    ResizeKeepsMapping(w.table);
    PlaceAdds(TableForInsert(w.table, w.count), e);
    assert Entries(r.table) == Entries(w.table) + multiset{e};
    if OncePerFd(Entries(r.table)) {
      StoredOnce(Entries(r.table), Entry(fd, i), e);
    }
  }

  lemma {:induction false} AgreeContents(w: Wheel)
    requires Agree(w)
    ensures OncePerFd(Entries(w.table)) && SameContents(w.slots, Entries(w.table)) && |w.slots| == SLOTS
  {
  }

  lemma {:induction false} AgreeParts(w: Wheel, es: multiset<Entry>)
    requires Entries(w.table) == es && 0 < |w.table| && w.cur < SLOTS
    requires Placed(w.table) && OncePerFd(es) && SameContents(w.slots, es) && w.count == |es|
    ensures Agree(w)
  {
    PlacedShape(w.table);
  }

  lemma {:induction false} PlacedShape(table: Chains)
    requires Placed(table)
    ensures forall b, k | 0 <= b < |table| && 0 <= k < |table[b]| :: table[b][k].index < SLOTS
  {
  }

  lemma {:induction false} AddedContents(slots: seq<seq<nat>>, es: multiset<Entry>, fd: nat, i: nat)
    requires SameContents(slots, es) && i < SLOTS && OncePerFd(es)
    requires forall e | e in es :: e.fd != fd
    ensures SameContents(slots[i := slots[i] + [fd]], es + multiset{Entry(fd, i)})
    ensures OncePerFd(es + multiset{Entry(fd, i)})
  {
    MoreContents(slots, es, fd, i);
    OneMore(es, Entry(fd, i));
  }

  lemma {:induction false} MoreContents(slots: seq<seq<nat>>, es: multiset<Entry>, fd: nat, i: nat)
    requires SameContents(slots, es) && i < SLOTS
    ensures SameContents(slots[i := slots[i] + [fd]], es + multiset{Entry(fd, i)})
  {
    var slots', es' := slots[i := slots[i] + [fd]], es + multiset{Entry(fd, i)};
    assert multiset(slots[i] + [fd]) == multiset(slots[i]) + multiset{fd};
    forall g: nat, j: nat | j < SLOTS ensures es'[Entry(g, j)] == multiset(slots'[j])[g] {
      assert es[Entry(g, j)] == multiset(slots[j])[g];
    }
  }

  lemma {:induction false} OneMore(es: multiset<Entry>, x: Entry)
    requires OncePerFd(es) && forall e | e in es :: e.fd != x.fd
    ensures OncePerFd(es + multiset{x})
  {
    forall e, f | e in es + multiset{x} && f in es + multiset{x} && e.fd == f.fd
      ensures e == f && (es + multiset{x})[e] == 1
    {
      if e in es {
        StoredOnce(es, e, f);
      }
    }
  }

  lemma {:induction false} RemovedContents(slots: seq<seq<nat>>, es: multiset<Entry>, fd: nat, i: nat)
    requires SameContents(slots, es) && i < SLOTS && OncePerFd(es) && Entry(fd, i) in es
    ensures SameContents(slots[i := Unringed(slots[i], fd)], es - multiset{Entry(fd, i)})
    ensures OncePerFd(es - multiset{Entry(fd, i)})
    ensures forall e | e in es - multiset{Entry(fd, i)} :: e.fd != fd
  {
    UnringedRemoves(slots[i], fd);
    FewerContents(slots, es, fd, i, Unringed(slots[i], fd));
    OneLess(es, Entry(fd, i));
  }

  lemma {:induction false} OneEntry(slots: seq<seq<nat>>, es: multiset<Entry>, fd: nat, i: nat)
    requires SameContents(slots, es) && i < SLOTS
    ensures |slots| == SLOTS && es[Entry(fd, i)] == multiset(slots[i])[fd]
  {
  }

  lemma {:induction false} ContentsFrom(slots: seq<seq<nat>>, es: multiset<Entry>)
    requires |slots| == SLOTS && forall e {:trigger es[e]} | e in es :: e.index < SLOTS
    requires forall fd: nat, i: nat | i < SLOTS :: es[Entry(fd, i)] == multiset(slots[i])[fd]
    ensures SameContents(slots, es)
  {
  }

  lemma {:induction false} FewerContents(slots: seq<seq<nat>>, es: multiset<Entry>, fd: nat, i: nat, ring: seq<nat>)
    requires SameContents(slots, es) && i < SLOTS && Entry(fd, i) in es
    requires multiset(ring) == multiset(slots[i]) - multiset{fd}
    ensures SameContents(slots[i := ring], es - multiset{Entry(fd, i)})
  {
    var es' := es - multiset{Entry(fd, i)};
    forall g: nat, j: nat | j < SLOTS ensures es'[Entry(g, j)] == multiset(slots[i := ring][j])[g] {
      OneEntry(slots, es, g, j);
      OneEntry(slots, es, fd, i);
    }
    hide SameContents;
    ContentsFrom(slots[i := ring], es');
  }

  lemma {:induction false} OneLess(es: multiset<Entry>, x: Entry)
    requires OncePerFd(es) && x in es
    ensures OncePerFd(es - multiset{x})
    ensures forall e | e in es - multiset{x} :: e.fd != x.fd
  {
    StoredOnce(es, x, x);
    forall e, f | e in es - multiset{x} && f in es - multiset{x} && e.fd == f.fd
      ensures e == f && (es - multiset{x})[e] == 1
    {
      StoredOnce(es, e, f);
    }
    forall e | e in es - multiset{x} ensures e.fd != x.fd {
      if e.fd == x.fd {
        StoredOnce(es, e, x);
      }
    }
  }

  /** Taking a live descriptor out of the ring it is in keeps the agreement. */
  lemma {:induction false} DetachKeepsAgree(w: Wheel, fd: nat, i: nat)
    requires Agree(w) && i < SLOTS && fd in w.slots[i]
    ensures Agree(Detach(w, fd, i)) && !Live(Detach(w, fd, i), fd)
  {
    var r, e := Detach(w, fd, i), Entry(fd, i);
    assert Entries(w.table)[e] == multiset(w.slots[i])[fd];
    DeleteRemoves(w.table, e);
    DetachShape(w, fd, i);
    RemovedContents(w.slots, Entries(w.table), fd, i);
    NotLive(r, fd);
  }

  lemma {:induction false} NotLive(w: Wheel, fd: nat)
    requires SameContents(w.slots, Entries(w.table))
    requires forall e | e in Entries(w.table) :: e.fd != fd
    ensures !Live(w, fd)
  {
    forall j: nat | j < SLOTS ensures fd !in w.slots[j] {
      assert Entries(w.table)[Entry(fd, j)] == multiset(w.slots[j])[fd];
    }
  }

  lemma {:induction false} DetachAbsent(w: Wheel, fd: nat, i: nat)
    requires Agree(w) && i < SLOTS && !Live(w, fd)
    ensures Detach(w, fd, i) == w
  {
    DeadHasNoEntry(w, fd);
    DeleteAbsent(w.table, fd);
    UnringedRemoves(w.slots[i], fd);
    assert w.slots[i := w.slots[i]] == w.slots;
  }

  /** Taking it out of the wrong ring leaves it in its own ring without an
      entry in the table. */
  lemma {:induction false} DetachWrongRing(w: Wheel, fd: nat, i: nat, j: nat)
    requires Agree(w) && i < SLOTS && fd in w.slots[i] && j < SLOTS && j != i
    ensures !Agree(Detach(w, fd, j))
  {
    var r, e := Detach(w, fd, j), Entry(fd, i);
    assert Entries(w.table)[e] == multiset(w.slots[i])[fd];
    DeleteRemoves(w.table, e);
    StoredOnce(Entries(w.table), e, e);
    assert Entries(r.table)[e] == 0;
    assert r.slots[i] == w.slots[i];
    assert Entries(r.table)[Entry(fd, i)] != multiset(r.slots[i])[fd];
  }

  /** Removing or refreshing a live descriptor works exactly when the first
      node of its bucket names the ring it is in. */
  lemma {:induction false} RemoveWorksExactly(w: Wheel, fd: nat, i: nat, timeout: nat)
    requires Agree(w) && i < SLOTS && fd in w.slots[i]
    ensures Chain(w, fd) != []
    ensures Agree(RemoveUser(w, fd)) <==> Chain(w, fd)[0].index == i
    ensures Agree(UpdateUser(w, fd, timeout)) <==> Chain(w, fd)[0].index == i
  {
    var k := LiveEntry(w, fd);
    var j := Chain(w, fd)[0].index;
    var d := Detach(w, fd, j);
    if j == i {
      DetachKeepsAgree(w, fd, i);
      AddKeepsAgree(d, fd, timeout);
    } else {
      DetachWrongRing(w, fd, i, j);
      UpdateWrongRing(w, fd, i, j, timeout);
    }
  }

  lemma {:induction false} UpdateWrongRing(w: Wheel, fd: nat, i: nat, j: nat, timeout: nat)
    requires Agree(w) && i < SLOTS && fd in w.slots[i] && j < SLOTS && j != i
    ensures Shape(Detach(w, fd, j))
    ensures !Agree(AddUser(Detach(w, fd, j), fd, timeout))
  {
    DetachShape(w, fd, j);
    var d, e := Detach(w, fd, j), Entry(fd, i);
    assert Entries(w.table)[e] == multiset(w.slots[i])[fd];
    StoredOnce(Entries(w.table), e, e);
    DeleteRemoves(w.table, e);
    assert d.slots[i] == w.slots[i];
    AddedDiffers(d, e, timeout);
  }

  /** Adding to a wheel whose ring holds `e.fd` without an entry leaves the
      ring ahead of the table. */
  lemma {:induction false} AddedDiffers(d: Wheel, e: Entry, timeout: nat)
    requires Shape(d) && Placed(d.table) && e.index < SLOTS
    requires Entries(d.table)[e] != multiset(d.slots[e.index])[e.fd]
    ensures !Agree(AddUser(d, e.fd, timeout))
  {
    hide Placed, Bucket, Resized, Place, Entries, OncePerFd;
    var s, r := SlotFor(d.cur, timeout), AddUser(d, e.fd, timeout);
    ResizeKeepsMapping(d.table);
    PlaceAdds(TableForInsert(d.table, d.count), Entry(e.fd, s));
    assert Entries(r.table) == Entries(d.table) + multiset{Entry(e.fd, s)};
    assert multiset(d.slots[s] + [e.fd]) == multiset(d.slots[s]) + multiset{e.fd};
    assert Entries(r.table)[Entry(e.fd, e.index)] != multiset(r.slots[e.index])[e.fd];
  }

  // ----- shape ------------------------------------------------------------------

  ghost predicate InSlots(es: multiset<Entry>) {
    forall e {:trigger es[e]} | e in es :: e.index < SLOTS
  }

  lemma {:induction false} ShapeIsInSlots(w: Wheel)
    requires |w.slots| == SLOTS && 0 < |w.table| && w.cur < SLOTS
    ensures Shape(w) <==> InSlots(Entries(w.table))
  {
    if Shape(w) {
      forall e | e in Entries(w.table) ensures e.index < SLOTS {
        var b := EntryWhere(w.table, e);
        var k :| 0 <= k < |w.table[b]| && w.table[b][k] == e;
      }
    }
    if InSlots(Entries(w.table)) {
      forall b, k | 0 <= b < |w.table| && 0 <= k < |w.table[b]| ensures w.table[b][k].index < SLOTS {
        EntriesUpdate(w.table, b, []);
        assert w.table[b][k] in multiset(w.table[b]);
      }
    }
  }

  lemma {:induction false} AddShape(w: Wheel, fd: nat, timeout: nat)
    requires Shape(w)
    ensures Shape(AddUser(w, fd, timeout))
  {
    var i := SlotFor(w.cur, timeout);
    var t := TableForInsert(w.table, w.count);
    EmptyHasNoEntries(2 * |w.table|);
    MoveFromKeeps(w.table, 0, EmptyTable(2 * |w.table|));
    assert w.table[0..] == w.table;
    PlaceAdds(t, Entry(fd, i));
    ShapeIsInSlots(w);
    ShapeIsInSlots(AddUser(w, fd, timeout));
  }
}
