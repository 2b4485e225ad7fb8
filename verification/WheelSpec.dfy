/** The time wheel as a value: sixty rings of descriptors, and a chained hash
    table that says in which ring each descriptor waits. */
module WheelSpec {
  const SLOTS := 60
  const INITIAL_HASH_SIZE := 128

  datatype Entry = Entry(fd: nat, index: nat)

  type Chains = seq<seq<Entry>>

  /** Rings are read from their head on, chains from their bucket on. */
  datatype Wheel = Wheel(slots: seq<seq<nat>>, table: Chains, count: int, cur: nat)

  // ----- the hash table ---------------------------------------------------

  /** The remainder of `fd` by `size`, by repeated subtraction. */
  function Bucket(fd: nat, size: nat): (b: nat)
    requires 0 < size
    ensures b < size
  {
    if fd < size then fd else Bucket(fd - size, size)
  }

  /** The bucket is the remainder the source computes with its modulus operator. */
  lemma {:induction false} BucketIsRemainder(fd: nat, size: nat)
    requires 0 < size
    ensures Bucket(fd, size) == fd % size
  {
    var q := Laps(fd, size);
    SameRemainder(size, q, fd / size, Bucket(fd, size), fd % size);
  }

  lemma {:induction false} Laps(fd: nat, size: nat) returns (q: nat)
    requires 0 < size
    ensures fd == q * size + Bucket(fd, size)
  {
    q := 0;
    if fd >= size {
      q := Laps(fd - size, size);
      q := q + 1;
    }
  }

  lemma {:induction false} SameRemainder(size: nat, q: int, p: int, r: nat, s: nat)
    requires r < size && s < size && q * size + r == p * size + s
    ensures r == s
  {
    assert (q - p) * size == s - r;
    if q - p >= 1 {
      AtLeast(q - p, size);
    } else if p - q >= 1 {
      assert (p - q) * size == r - s;
      AtLeast(p - q, size);
    }
  }

  lemma {:induction false} AtLeast(k: int, size: nat)
    requires k >= 1
    ensures k * size >= size
  {
  }

  /** Prepends to the chain the descriptor hashes to. */
  function Place(table: Chains, e: Entry): (r: Chains)
    requires 0 < |table|
    ensures |r| == |table|
  {
    var b := Bucket(e.fd, |table|);
    table[b := [e] + table[b]]
  }

  function MoveChain(chain: seq<Entry>, into: Chains): (r: Chains)
    requires 0 < |into|
    ensures |r| == |into|
  {
    if chain == [] then into else MoveChain(chain[1..], Place(into, chain[0]))
  }

  /** Moves the chains from bucket `k` on, in bucket order. */
  function MoveFrom(table: Chains, k: nat, into: Chains): (r: Chains)
    requires k <= |table| && 0 < |into|
    ensures |r| == |into|
    decreases |table| - k
  {
    if k == |table| then into else MoveFrom(table, k + 1, MoveChain(table[k], into))
  }

  function EmptyTable(size: nat): (r: Chains)
    ensures |r| == size
  {
    seq(size, _ => [])
  }

  function Resized(table: Chains): (r: Chains)
    requires 0 < |table|
    ensures |r| == 2 * |table|
  {
    MoveFrom(table, 0, EmptyTable(2 * |table|))
  }

  /** The count has reached three quarters of the size. */
  predicate Full(count: int, size: nat) {
    4 * count >= 3 * size
  }

  function TableForInsert(table: Chains, count: int): (r: Chains)
    requires 0 < |table|
    ensures 0 < |r|
  {
    if Full(count, |table|) then Resized(table) else table
  }

  predicate Holds(chain: seq<Entry>, fd: nat) {
    exists e {:trigger e in chain} :: e in chain && e.fd == fd
  }

  /** Unlinks the first node with the descriptor. */
  function Unchained(chain: seq<Entry>, fd: nat): seq<Entry> {
    if chain == [] then []
    else if chain[0].fd == fd then chain[1..]
    else [chain[0]] + Unchained(chain[1..], fd)
  }

  function Deleted(table: Chains, fd: nat): (r: Chains)
    requires 0 < |table|
    ensures |r| == |table|
  {
    var b := Bucket(fd, |table|);
    table[b := Unchained(table[b], fd)]
  }

  // ----- the rings ----------------------------------------------------------

  /** Unlinks the first node with the descriptor, looking from the head. */
  function Unringed(ring: seq<nat>, fd: nat): seq<nat> {
    if ring == [] then []
    else if ring[0] == fd then ring[1..]
    else [ring[0]] + Unringed(ring[1..], fd)
  }

  // ----- operations -----------------------------------------------------------

  predicate Shape(w: Wheel) {
    && |w.slots| == SLOTS && 0 < |w.table| && w.cur < SLOTS
    && forall b, k | 0 <= b < |w.table| && 0 <= k < |w.table[b]| :: w.table[b][k].index < SLOTS
  }

  function SlotFor(cur: nat, timeout: nat): (i: nat)
    ensures i < SLOTS
  {
    (cur + timeout) % SLOTS
  }

  function AddUser(w: Wheel, fd: nat, timeout: nat): Wheel
    requires Shape(w)
  {
    var i := SlotFor(w.cur, timeout);
    Wheel(w.slots[i := w.slots[i] + [fd]],
          Place(TableForInsert(w.table, w.count), Entry(fd, i)), w.count + 1, w.cur)
  }

  function Chain(w: Wheel, fd: nat): seq<Entry>
    requires Shape(w)
  {
    w.table[Bucket(fd, |w.table|)]
  }

  /** Takes `fd` out of ring `index` and out of the table. */
  function Detach(w: Wheel, fd: nat, index: nat): Wheel
    requires Shape(w) && index < SLOTS
  {
    Wheel(w.slots[index := Unringed(w.slots[index], fd)], Deleted(w.table, fd),
          if Holds(Chain(w, fd), fd) then w.count - 1 else w.count, w.cur)
  }

  lemma {:induction false} DetachShape(w: Wheel, fd: nat, index: nat)
    requires Shape(w) && index < SLOTS
    ensures Shape(Detach(w, fd, index))
  {
    var b := Bucket(fd, |w.table|);
    UnchainedWithin(w.table[b], fd);
    var t: Chains := Deleted(w.table, fd);
    forall c: nat, k: nat | c < |t| && k < |t[c]| ensures t[c][k].index < SLOTS {
      if c == b {
        assert t[c][k] in w.table[b];
      }
    }
  }

  lemma {:induction false} UnchainedWithin(chain: seq<Entry>, fd: nat)
    ensures forall e | e in Unchained(chain, fd) :: e in chain
  {
    if chain != [] {
      UnchainedWithin(chain[1..], fd);
    }
  }

  /** The ring searched is the one named by the first node of the bucket. */
  function RemoveUser(w: Wheel, fd: nat): (r: Wheel)
    requires Shape(w)
    ensures Shape(r) && r.cur == w.cur && |r.table| == |w.table|
  {
    if Chain(w, fd) == [] then w
    else
      DetachShape(w, fd, Chain(w, fd)[0].index);
      Detach(w, fd, Chain(w, fd)[0].index)
  }

  function UpdateUser(w: Wheel, fd: nat, timeout: nat): Wheel
    requires Shape(w)
  {
    if Chain(w, fd) == [] then w else AddUser(RemoveUser(w, fd), fd, timeout)
  }

  function EmptyWheel(): (w: Wheel)
    ensures Shape(w)
  {
    Wheel(seq(SLOTS, _ => []), EmptyTable(INITIAL_HASH_SIZE), 0, 0)
  }
}
