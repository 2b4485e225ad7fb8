/** The three tables as values, and the row-level effect of every statement
    the server sends them. */
module Tables {
  import opened Basics

  datatype Kind = Directory | File

  /** A row of `virtualFile`, without its key. */
  datatype VRow = VRow(parentId: int, fileName: string, userId: int, hashId: Option<int>,
                       fileSize: int, kind: Kind, path: string)

  /** A row of `globalFile`, without its key. */
  datatype GRow = GRow(hash: string, linkCount: int, lastLinkTime: Option<int>)

  type VTable = map<int, VRow>
  type GTable = map<int, GRow>

  /** `u` gives each user's current directory; the two counters are the next
      keys the database will hand out. */
  datatype Tables = Tables(v: VTable, g: GTable, u: map<int, int>, nextFile: nat, nextHash: nat)

  const NAME_LIMIT := 32

  // ----- selections ------------------------------------------------------

  predicate Matches(row: VRow, kind: Kind, uid: int, path: string) {
    row.kind == kind && row.userId == uid && row.path == path
  }

  /** The row with this type, owner and path. */
  ghost function Lookup(v: VTable, kind: Kind, uid: int, path: string): (r: Option<int>)
    ensures r.Some? ==> r.value in v && Matches(v[r.value], kind, uid, path)
    ensures r.None? ==> forall x | x in v :: !Matches(v[x], kind, uid, path)
  {
    if x :| x in v && Matches(v[x], kind, uid, path) then Some(x) else None
  }

  function Children(v: VTable, d: int): set<int> {
    set x | x in v && v[x].parentId == d
  }

  /** The File rows that reference content `h`. */
  function Refs(v: VTable, h: int): set<int> {
    set x | x in v && v[x].kind == File && v[x].hashId == Some(h)
  }

  function WithHash(g: GTable, hash: string): set<int> {
    set h | h in g && g[h].hash == hash
  }

  /** Rows come back in key order and the last one is kept: the largest key
      below `n` with this hash. */
  function LastWithHash(g: GTable, hash: string, n: nat): (r: Option<int>)
    ensures r.Some? ==> 0 <= r.value < n && r.value in WithHash(g, hash)
    ensures r.Some? ==> forall h | r.value < h < n :: h !in WithHash(g, hash)
    ensures r.None? ==> forall h | 0 <= h < n :: h !in WithHash(g, hash)
  {
    if n == 0 then None
    else if n - 1 in g && g[n - 1].hash == hash then Some(n - 1)
    else LastWithHash(g, hash, n - 1)
  }

  // ----- insertion -------------------------------------------------------

  /** What the schema demands of a new `virtualFile` row. */
  predicate Insertable(t: Tables, row: VRow) {
    && (forall x | x in t.v :: t.v[x].path != row.path)
    && |row.path| <= NAME_LIMIT && |row.fileName| <= NAME_LIMIT
    && (row.hashId.Some? ==> row.hashId.value in t.g)
    && row.userId in t.u
  }

  /** A rejected insert leaves the table as it was. */
  function InsertV(t: Tables, row: VRow): Tables {
    if Insertable(t, row) then t.(v := t.v[t.nextFile := row], nextFile := t.nextFile + 1) else t
  }

  function InsertG(t: Tables, hash: string): Tables {
    t.(g := t.g[t.nextHash := GRow(hash, 1, None)], nextHash := t.nextHash + 1)
  }

  /** Every row with the hash gains a link and loses its deletion time. */
  function BumpLinks(t: Tables, hash: string): Tables {
    t.(g := map h | h in t.g ::
         if t.g[h].hash == hash then t.g[h].(linkCount := t.g[h].linkCount + 1, lastLinkTime := None)
         else t.g[h])
  }

  // ----- removal ---------------------------------------------------------

  function Unlinked(row: GRow, n: nat, now: int): GRow {
    if n == 0 then row
    else row.(linkCount := row.linkCount - n,
              lastLinkTime := if row.linkCount - n == 0 then Some(now) else row.lastLinkTime)
  }

  /** The tables without the virtual rows `s`, each content's link count less
      the number of those rows that referenced it. */
  function Drop(t: Tables, s: set<int>, now: int): Tables {
    t.(v := t.v - s, g := UnlinkAll(t.v, t.g, s, now))
  }

  function UnlinkAll(v: VTable, g: GTable, s: set<int>, now: int): (r: GTable)
    ensures r.Keys == g.Keys
  {
    map h | h in g :: Unlinked(g[h], |Refs(v, h) * s|, now)
  }

  // ----- what every reachable state satisfies -----------------------------

  ghost predicate UniquePaths(v: VTable) {
    forall x, y | x in v && y in v && v[x].path == v[y].path :: x == y
  }

  /** Keys are positive, a parent's key is smaller, and only directories are parents. */
  ghost predicate ParentsFirst(v: VTable) {
    forall x | x in v ::
      0 < x && 0 <= v[x].parentId < x
      && (v[x].parentId in v ==> v[v[x].parentId].kind == Directory)
  }

  ghost predicate FilesLinked(t: Tables) {
    && (forall x | x in t.v && t.v[x].kind == File :: t.v[x].hashId.Some? && t.v[x].hashId.value in t.g)
    && (forall h | h in t.g :: 0 < h)
  }

  /** No content has more references than its link count records, and the
      deletion time is set exactly when that count is zero. */
  ghost predicate CountsCover(t: Tables) {
    forall h | h in t.g ::
      |Refs(t.v, h)| <= t.g[h].linkCount && (t.g[h].lastLinkTime.Some? <==> t.g[h].linkCount == 0)
  }

  ghost predicate Sound(t: Tables) {
    UniquePaths(t.v) && ParentsFirst(t.v) && FilesLinked(t) && CountsCover(t)
  }

  /** A new link leaves room for one more reference to every content with the
      hash, whose deletion time is gone, and for no other. */
  lemma {:induction false} BumpMakesRoom(t: Tables, hash: string)
    requires CountsCover(t)
    ensures var t' := BumpLinks(t, hash);
            && CountsCover(t') && t'.g.Keys == t.g.Keys
            && (forall h | h in WithHash(t.g, hash) ::
                  |Refs(t'.v, h)| < t'.g[h].linkCount && t'.g[h].lastLinkTime.None? && t'.g[h].hash == hash)
            && (forall h | h in t.g && h !in WithHash(t.g, hash) :: t'.g[h] == t.g[h])
  {
    hide Refs;
  }

  lemma {:induction false} LookupUnique(v: VTable, kind: Kind, uid: int, path: string, x: int)
    requires UniquePaths(v) && x in v && Matches(v[x], kind, uid, path)
    ensures Lookup(v, kind, uid, path) == Some(x)
  {
    assert Lookup(v, kind, uid, path).Some?;
  }

  lemma {:induction false} RefsSplit(v: VTable, h: int, s: set<int>)
    ensures Refs(v - s, h) == Refs(v, h) - s
    ensures |Refs(v - s, h)| == |Refs(v, h)| - |Refs(v, h) * s|
  {
    assert Refs(v - s, h) == Refs(v, h) - s;
    assert Refs(v, h) == (Refs(v, h) - s) + (Refs(v, h) * s);
  }

  /** Removing any rows keeps the tables sound. */
  lemma {:induction false} DropSound(t: Tables, s: set<int>, now: int)
    requires Sound(t)
    ensures Sound(Drop(t, s, now))
  {
    var t' := Drop(t, s, now);
    forall h | h in t'.g
      ensures |Refs(t'.v, h)| <= t'.g[h].linkCount
              && (t'.g[h].lastLinkTime.Some? <==> t'.g[h].linkCount == 0)
    {
      RefsSplit(t.v, h, s);
    }
  }

  /** What removing rows changes: they go, each content loses as many links as
      they held on it, and one that comes to zero is stamped with the time. */
  lemma {:induction false} DropExactly(t: Tables, s: set<int>, now: int)
    requires CountsCover(t)
    ensures var t' := Drop(t, s, now);
            && t'.u == t.u && t'.nextFile == t.nextFile && t'.nextHash == t.nextHash
            && t'.v.Keys == t.v.Keys - s && (forall x | x in t'.v :: t'.v[x] == t.v[x])
            && t'.g.Keys == t.g.Keys
            && forall h | h in t.g ::
                 var n := t.g[h].linkCount - |Refs(t.v, h) * s|;
                 && t'.g[h].hash == t.g[h].hash && t'.g[h].linkCount == n >= 0
                 && t'.g[h].lastLinkTime == if n == 0 < t.g[h].linkCount then Some(now) else t.g[h].lastLinkTime
  {
    hide Refs;
    forall h | h in t.g ensures |Refs(t.v, h) * s| <= |Refs(t.v, h)| {
      RefsSplit(t.v, h, s);
    }
  }

  /** Two removals of disjoint rows are one. */
  lemma {:induction false} DropTwice(t: Tables, a: set<int>, b: set<int>, now: int)
    requires Sound(t) && a !! b
    ensures Drop(Drop(t, a, now), b, now) == Drop(t, a + b, now)
  {
    hide UnlinkAll, Refs, CountsCover, UniquePaths, ParentsFirst, FilesLinked;
    UnlinkAllTwice(t, a, b, now);
    assert (t.v - a) - b == t.v - (a + b);
  }

  lemma {:induction false} UnlinkAllTwice(t: Tables, a: set<int>, b: set<int>, now: int)
    requires CountsCover(t) && a !! b
    ensures UnlinkAll(t.v - a, UnlinkAll(t.v, t.g, a, now), b, now) == UnlinkAll(t.v, t.g, a + b, now)
  {
    hide Refs, Unlinked, CountsCover, UnlinkAll;
    var g1, g2 := UnlinkAll(t.v, t.g, a, now), UnlinkAll(t.v, t.g, a + b, now);
    var both := UnlinkAll(t.v - a, g1, b, now);
    forall h | h in t.g ensures both[h] == g2[h] {
      CoverAt(t, h);
      UnlinkAllAt(t.v, t.g, a, now, h);
      UnlinkAllAt(t.v - a, g1, b, now, h);
      UnlinkAllAt(t.v, t.g, a + b, now, h);
      DropRowTwice(t.v, h, t.g[h], a, b, now);
    }
  }

  lemma {:induction false} UnlinkAllAt(v: VTable, g: GTable, s: set<int>, now: int, h: int)
    requires h in g
    ensures UnlinkAll(v, g, s, now)[h] == Unlinked(g[h], |Refs(v, h) * s|, now)
  {
  }

  lemma {:induction false} CoverAt(t: Tables, h: int)
    requires CountsCover(t) && h in t.g
    ensures |Refs(t.v, h)| <= t.g[h].linkCount
  {
  }

  lemma {:induction false} DropRowTwice(v: VTable, h: int, row: GRow, a: set<int>, b: set<int>, now: int)
    requires a !! b && |Refs(v, h)| <= row.linkCount
    ensures Unlinked(Unlinked(row, |Refs(v, h) * a|, now), |Refs(v - a, h) * b|, now)
            == Unlinked(row, |Refs(v, h) * (a + b)|, now)
  {
    RefsTwice(v, h, a, b);
    UnlinkedTwice(row, |Refs(v, h) * a|, |Refs(v - a, h) * b|, now);
  }

  lemma {:induction false} UnlinkedTwice(row: GRow, a: nat, b: nat, now: int)
    requires a + b <= row.linkCount
    ensures Unlinked(Unlinked(row, a, now), b, now) == Unlinked(row, a + b, now)
  {
  }

  lemma {:induction false} RefsTwice(v: VTable, h: int, a: set<int>, b: set<int>)
    requires a !! b
    ensures |Refs(v, h) * (a + b)| == |Refs(v, h) * a| + |Refs(v - a, h) * b| <= |Refs(v, h)|
  {
    var r := Refs(v, h);
    assert Refs(v - a, h) * b == r * b;
    assert r * (a + b) == r * a + r * b;
    assert r == r * (a + b) + (r - (a + b));
  }

  /** Rows that are no files carry no links. */
  lemma {:induction false} DropDirectories(t: Tables, s: set<int>, now: int)
    requires forall x | x in s && x in t.v :: t.v[x].kind == Directory
    ensures Drop(t, s, now) == t.(v := t.v - s)
  {
    forall h | h in t.g ensures Refs(t.v, h) * s == {} {
      assert forall x | x in Refs(t.v, h) :: x !in s;
    }
    assert Drop(t, s, now).g == t.g;
  }

  /** Removing one file touches one content row. */
  lemma {:induction false} DropFile(t: Tables, x: int, now: int)
    requires Sound(t) && x in t.v && t.v[x].kind == File
    ensures t.v[x].hashId.Some? && t.v[x].hashId.value in t.g
    ensures var h := t.v[x].hashId.value;
            && 1 <= t.g[h].linkCount
            && Drop(t, {x}, now) == t.(v := t.v - {x}, g := t.g[h := Unlinked(t.g[h], 1, now)])
  {
    var h := t.v[x].hashId.value;
    assert x in Refs(t.v, h);
    assert |Refs(t.v, h) - {x}| == |Refs(t.v, h)| - 1;
    forall k | k in t.g
      ensures Refs(t.v, k) * {x} == if k == h then {x} else {}
    {
    }
    assert Drop(t, {x}, now).g == t.g[h := Unlinked(t.g[h], 1, now)];
  }
}
