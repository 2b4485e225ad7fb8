/** The nodes of the descriptor table: singly linked chains, changed in place. */
module HashChains {
  import opened Basics
  import opened WheelAgreement
  import opened WheelSpec

  class HashNode {
    const peerfd: nat
    const index: nat
    var next: HashNode?
    /** Tells the chains apart: two nodes of one chain have the same home. */
    ghost var home: int

    constructor (peerfd: nat, index: nat, next: HashNode?, ghost home: int)
      ensures this.peerfd == peerfd && this.index == index && this.next == next && this.home == home
    {
      this.peerfd, this.index, this.next, this.home := peerfd, index, next, home;
    }
  }

  // ----- hash chains ----------------------------------------------------------

  ghost function After(c: seq<HashNode>, k: nat): HashNode? {
    if k + 1 < |c| then c[k + 1] else null
  }

  /** `c` lists the nodes reached from `head`. */
  ghost predicate Chained(c: seq<HashNode>, head: HashNode?, home: int)
    reads c
  {
    && head == (if c == [] then null else c[0])
    && (forall k | 0 <= k < |c| :: c[k].home == home)
    && (forall k | 0 <= k < |c| :: c[k].next == After(c, k))
    && Distinct(c)
  }

  /** The buckets from number `from` on hold their chains. */
  ghost predicate Buckets(chains: seq<seq<HashNode>>, heads: seq<HashNode?>, from: nat, base: int, nodes: set<HashNode>)
    reads nodes
  {
    && |chains| == |heads|
    && forall b | from <= b < |chains| :: Within(chains[b], nodes) && Chained(chains[b], heads[b], base + b)
  }

  /** The entries of a chain, node by node. */
  ghost function EntriesOf(c: seq<HashNode>): (r: seq<Entry>)
    ensures |r| == |c| && forall k | 0 <= k < |c| :: r[k] == Entry(c[k].peerfd, c[k].index)
  {
    if c == [] then [] else [Entry(c[0].peerfd, c[0].index)] + EntriesOf(c[1..])
  }

  ghost function TableOf(chains: seq<seq<HashNode>>): (r: Chains)
    ensures |r| == |chains| && forall b | 0 <= b < |chains| :: r[b] == EntriesOf(chains[b])
  {
    if chains == [] then [] else [EntriesOf(chains[0])] + TableOf(chains[1..])
  }

  /** The table that a list of chains amounts to. */
  ghost predicate Amounts(table: Chains, chains: seq<seq<HashNode>>) {
    |table| == |chains| && forall b | 0 <= b < |chains| :: table[b] == EntriesOf(chains[b])
  }

  lemma {:induction false} AmountsIs(table: Chains, chains: seq<seq<HashNode>>)
    ensures Amounts(table, chains) <==> table == TableOf(chains)
  {
    if Amounts(table, chains) {
      assert forall b | 0 <= b < |chains| :: table[b] == TableOf(chains)[b];
    }
  }

  lemma {:induction false} EntriesOfTail(c: seq<HashNode>)
    requires c != []
    ensures EntriesOf(c) == [Entry(c[0].peerfd, c[0].index)] + EntriesOf(c[1..])
  {
  }

  lemma {:induction false} TableOfPlace(chains: seq<seq<HashNode>>, n: HashNode)
    requires 0 < |chains|
    ensures var b := Bucket(n.peerfd, |chains|);
            TableOf(chains[b := [n] + chains[b]]) == Place(TableOf(chains), Entry(n.peerfd, n.index))
  {
    var b := Bucket(n.peerfd, |chains|);
    EntriesOfTail([n] + chains[b]);
    assert ([n] + chains[b])[1..] == chains[b];
  }

  lemma {:induction false} MoveOne(rest: seq<HashNode>, into: seq<seq<HashNode>>)
    requires rest != [] && 0 < |into|
    ensures var b := Bucket(rest[0].peerfd, |into|);
            MoveChain(EntriesOf(rest), TableOf(into))
            == MoveChain(EntriesOf(rest[1..]), TableOf(into[b := [rest[0]] + into[b]]))
  {
    EntriesOfTail(rest);
    TableOfPlace(into, rest[0]);
    assert EntriesOf(rest)[1..] == EntriesOf(rest[1..]);
  }

  lemma {:induction false} PrependChained(n: HashNode, c: seq<HashNode>, head: HashNode?, home: int)
    requires Chained(c, head, home) && n !in c && n.home == home && n.next == head
    ensures Chained([n] + c, n, home)
  {
    var d := [n] + c;
    assert forall k | 0 < k < |d| :: d[k] == c[k - 1] && c[k - 1] in c && After(d, k) == After(c, k - 1);
  }

  lemma {:induction false} PopChained(c: seq<HashNode>, n: HashNode, home: int)
    requires Chained(c, n, home)
    ensures c != [] && c[0] == n && n.home == home && n !in c[1..] && Chained(c[1..], n.next, home)
  {
    var d := c[1..];
    assert forall k | 0 <= k < |d| :: d[k] == c[k + 1] && After(d, k) == After(c, k + 1);
  }

  lemma {:induction false} SameHome(c: seq<HashNode>, head: HashNode?, home: int)
    requires Chained(c, head, home)
    ensures forall m | m in c :: m.home == home
  {
  }

  /** A node of another home is in none of these chains. */
  lemma {:induction false} Elsewhere(
    chains: seq<seq<HashNode>>, heads: seq<HashNode?>, from: nat, base: int, nodes: set<HashNode>, home: int)
    requires Buckets(chains, heads, from, base, nodes)
    ensures forall b | from <= b < |chains| && home != base + b :: forall m | m in chains[b] :: m.home != home
  {
    hide Chained;
    forall b | from <= b < |chains| && home != base + b ensures forall m | m in chains[b] :: m.home != home {
      SameHome(chains[b], heads[b], base + b);
    }
  }

  // ----- moving one node ------------------------------------------------------

  /** Prepends `current` to its chain of the new table; `rest` is the chain it
      came from, `from` the chains still to move. */
  method Rehang(current: HashNode, newHashTable: array<HashNode?>, newIndex: nat,
                ghost rest: seq<HashNode>, ghost into: seq<seq<HashNode>>, ghost newBase: int,
                ghost from: seq<seq<HashNode>>, ghost heads: seq<HashNode?>, ghost i: nat, ghost base: int,
                ghost nodes: set<HashNode>)
    returns (next: HashNode?)
    requires newIndex < newHashTable.Length && i < |from| && base + |from| <= newBase
    requires Within(rest, nodes) && Chained(rest, current, base + i)
    requires Buckets(into, newHashTable[..], 0, newBase, nodes) && Buckets(from, heads, i + 1, base, nodes)
    modifies current, newHashTable
    ensures Within(rest[1..], nodes) && Chained(rest[1..], next, base + i)
    ensures Buckets(into[newIndex := [current] + into[newIndex]], newHashTable[..], 0, newBase, nodes)
    ensures Buckets(from, heads, i + 1, base, nodes)
  {
    hide Chained, After;
    PopChained(rest, current, base + i);
    Elsewhere(into, newHashTable[..], 0, newBase, nodes, base + i);
    Elsewhere(from, heads, i + 1, base, nodes, base + i);
    next := current.next;
    current.next := newHashTable[newIndex];
    newHashTable[newIndex] := current;
    current.home := newBase + newIndex;
    PrependChained(current, into[newIndex], current.next, newBase + newIndex);
  }

  /** Moves one whole chain, node by node, and counts the nodes. */
  method MoveBucket(head: HashNode?, newHashTable: array<HashNode?>,
                    ghost start: seq<seq<HashNode>>, ghost newBase: int,
                    ghost from: seq<seq<HashNode>>, ghost heads: seq<HashNode?>, ghost i: nat, ghost base: int,
                    ghost nodes: set<HashNode>)
    returns (ghost into: seq<seq<HashNode>>, ghost moved: nat)
    requires 0 < newHashTable.Length && i < |from| == |heads| && base + |from| <= newBase && heads[i] == head
    requires Buckets(start, newHashTable[..], 0, newBase, nodes) && Buckets(from, heads, i, base, nodes)
    modifies newHashTable, nodes
    ensures Buckets(into, newHashTable[..], 0, newBase, nodes) && Buckets(from, heads, i + 1, base, nodes)
    ensures |into| == |start| && TableOf(into) == MoveChain(EntriesOf(from[i]), TableOf(start))
    ensures moved == |from[i]|
  {
    var current := head;
    into, moved := start, 0;
    ghost var rest := from[i];
    while current != null
      invariant |into| == |start| == newHashTable.Length
      invariant Within(rest, nodes) && Chained(rest, current, base + i)
      invariant Buckets(into, newHashTable[..], 0, newBase, nodes) && Buckets(from, heads, i + 1, base, nodes)
      invariant MoveChain(EntriesOf(from[i]), TableOf(start)) == MoveChain(EntriesOf(rest), TableOf(into))
      invariant moved + |rest| == |from[i]|
      decreases |rest|
    {
      hide Buckets, MoveChain, Place, Bucket;
      var newIndex := Bucket(current.peerfd, newHashTable.Length);
      var next := Rehang(current, newHashTable, newIndex, rest, into, newBase, from, heads, i, base, nodes);
      MoveOne(rest, into);
      into := into[newIndex := [current] + into[newIndex]];
      rest, moved := rest[1..], moved + 1;
      current := next;
    }
  }

  ghost function EmptyChains(n: nat): (r: seq<seq<HashNode>>)
    ensures |r| == n && forall b | 0 <= b < n :: r[b] == []
  {
    if n == 0 then [] else [[]] + EmptyChains(n - 1)
  }

  lemma {:induction false} EmptyBuckets(heads: seq<HashNode?>, base: int, nodes: set<HashNode>)
    requires forall b | 0 <= b < |heads| :: heads[b] == null
    ensures Buckets(EmptyChains(|heads|), heads, 0, base, nodes)
    ensures TableOf(EmptyChains(|heads|)) == EmptyTable(|heads|)
  {
    assert forall b | 0 <= b < |heads| :: EntriesOf(EmptyChains(|heads|)[b]) == [];
    assert TableOf(EmptyChains(|heads|)) == EmptyTable(|heads|);
  }

  lemma {:induction false} FirstEntries(table: Chains, i: nat)
    requires i < |table|
    ensures |Entries(table[i..])| == |table[i]| + |Entries(table[i + 1..])|
  {
    assert table[i..][1..] == table[i + 1..];
  }

  lemma {:induction false} NoEntries(table: Chains)
    ensures |Entries(table[|table|..])| == 0
  {
  }

  /** Moves every chain of the old table, bucket by bucket, into the empty new one. */
  method MoveAll(oldHashTable: array<HashNode?>, newHashTable: array<HashNode?>, ghost newBase: int,
                 ghost from: seq<seq<HashNode>>, ghost base: int, ghost nodes: set<HashNode>)
    returns (ghost into: seq<seq<HashNode>>, ghost moved: nat)
    requires oldHashTable != newHashTable && 0 < newHashTable.Length && base + |from| <= newBase
    requires Buckets(from, oldHashTable[..], 0, base, nodes)
    requires forall b | 0 <= b < newHashTable.Length :: newHashTable[b] == null
    modifies newHashTable, nodes
    ensures Buckets(into, newHashTable[..], 0, newBase, nodes)
    ensures Amounts(MoveFrom(TableOf(from), 0, EmptyTable(newHashTable.Length)), into)
    ensures moved == |Entries(TableOf(from))|
  {
    into, moved := EmptyChains(newHashTable.Length), 0;
    EmptyBuckets(newHashTable[..], newBase, nodes);
    ghost var was, goal := TableOf(from), MoveFrom(TableOf(from), 0, TableOf(into));
    hide Buckets, MoveChain, EmptyChains, EntriesOf, Entries;
    assert was[0..] == was;
    var i := 0;
    while i < oldHashTable.Length
      invariant 0 <= i <= oldHashTable.Length == |from| && |into| == newHashTable.Length
      invariant Buckets(into, newHashTable[..], 0, newBase, nodes) && Buckets(from, oldHashTable[..], i, base, nodes)
      invariant goal == MoveFrom(was, i, TableOf(into))
      invariant moved + |Entries(was[i..])| == |Entries(was)|
    {
      ghost var more;
      into, more := MoveBucket(oldHashTable[i], newHashTable, into, newBase, from, oldHashTable[..], i, base, nodes);
      FirstEntries(was, i);
      moved, i := moved + more, i + 1;
    }
    NoEntries(was);
    AmountsIs(goal, into);
  }

  // ----- unlinking ------------------------------------------------------------

  lemma {:induction false} UnchainedAt(chain: seq<Entry>, fd: nat, k: nat)
    requires k < |chain| && chain[k].fd == fd && forall j | 0 <= j < k :: chain[j].fd != fd
    ensures Unchained(chain, fd) == chain[..k] + chain[k + 1..]
  {
    if k > 0 {
      UnchainedAt(chain[1..], fd, k - 1);
      assert chain[1..][..k - 1] == chain[1..k] && chain[1..][k..] == chain[k + 1..];
      assert chain[..k] == [chain[0]] + chain[1..k];
    }
  }

  /** Without its first node for the descriptor a chain is what deletion makes
      of it. */
  lemma {:induction false} FoundToDelete(c: seq<HashNode>, fd: nat, k: nat)
    requires k < |c| && c[k].peerfd == fd && forall j | 0 <= j < k :: c[j].peerfd != fd
    ensures Holds(EntriesOf(c), fd) && EntriesOf(c[..k] + c[k + 1..]) == Unchained(EntriesOf(c), fd)
  {
    UnchainedAt(EntriesOf(c), fd, k);
    assert EntriesOf(c)[k] in EntriesOf(c);
    EntriesOfSplice(c, k);
  }

  lemma {:induction false} EntriesOfSplice(c: seq<HashNode>, k: nat)
    requires k < |c|
    ensures EntriesOf(c[..k] + c[k + 1..]) == EntriesOf(c)[..k] + EntriesOf(c)[k + 1..]
  {
    hide EntriesOf;
    var left := c[..k] + c[k + 1..];
    assert forall j | 0 <= j < |left| :: left[j] == if j < k then c[j] else c[j + 1];
  }

  lemma {:induction false} NoneToDelete(c: seq<HashNode>, fd: nat)
    requires forall j | 0 <= j < |c| :: c[j].peerfd != fd
    ensures !Holds(EntriesOf(c), fd) && Unchained(EntriesOf(c), fd) == EntriesOf(c)
  {
    UnchainedAbsent(EntriesOf(c), fd);
  }

  /** Walks a chain to its first node with the descriptor. */
  method Walk(head: HashNode?, peerfd: nat, ghost c: seq<HashNode>, ghost home: int)
    returns (prev: HashNode?, current: HashNode?, ghost k: nat)
    requires Chained(c, head, home)
    ensures k <= |c| && current == (if k < |c| then c[k] else null) && prev == if k > 0 then c[k - 1] else null
    ensures Holds(EntriesOf(c), peerfd) <==> current != null
    ensures Unchained(EntriesOf(c), peerfd) == if current == null then EntriesOf(c) else EntriesOf(c[..k] + c[k + 1..])
  {
    prev, current, k := null, head, 0;
    while current != null && current.peerfd != peerfd
      invariant k <= |c| && forall j | 0 <= j < k :: c[j].peerfd != peerfd
      invariant current == (if k < |c| then c[k] else null) && prev == if k > 0 then c[k - 1] else null
      decreases |c| - k
    {
      assert current.next == After(c, k);
      prev, current := current, current.next;
      k := k + 1;
    }
    if current == null {
      NoneToDelete(c, peerfd);
    } else {
      FoundToDelete(c, peerfd, k);
    }
  }

  /** Takes the node after `prev`, or the first one, out of a chain. */
  method Unlink(prev: HashNode?, current: HashNode, head: HashNode?,
                ghost c: seq<HashNode>, ghost k: nat, ghost home: int)
    returns (first: HashNode?, ghost left: seq<HashNode>)
    requires Chained(c, head, home) && k < |c| && c[k] == current
    requires prev == if k > 0 then c[k - 1] else null
    modifies if prev == null then {} else {prev}
    ensures left == c[..k] + c[k + 1..] && Chained(left, first, home)
    ensures prev != null ==> prev.home == old(prev.home)
  {
    first, left := head, c[..k] + c[k + 1..];
    Spliced(c, k);
    if prev != null {
      prev.next := current.next;
    } else {
      first := current.next;
    }
    forall j | 0 <= j < |left| ensures left[j].next == After(left, j) {
      if j + 1 < k {
        assert c[j] != prev && c[j].next == After(c, j);
      } else if j >= k {
        assert c[j + 1] != prev && c[j + 1].next == After(c, j + 1);
      }
    }
  }
}
