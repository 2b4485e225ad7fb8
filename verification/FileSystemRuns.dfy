/** Runs of commands over the tables, from any safe start and with any
    arguments: link counts cover the references in every reachable state, and
    when they are exact. */
module FileSystemRuns {
  import opened Basics
  import opened PathStrings
  import opened Tables
  import opened Subtree
  import opened Commands

  /** The next keys are larger than every key in use. */
  ghost predicate FreshKeys(t: Tables) {
    0 < t.nextFile && 0 < t.nextHash
    && (forall x | x in t.v :: x < t.nextFile) && (forall h | h in t.g :: h < t.nextHash)
  }

  /** No user stands in a file, or where a row is yet to come. */
  ghost predicate Standing(t: Tables) {
    forall uid | uid in t.u ::
      t.u[uid] < t.nextFile && (t.u[uid] in t.v ==> t.v[t.u[uid]].kind == Directory)
  }

  /** All but the link counts. */
  ghost predicate Framed(t: Tables) {
    UniquePaths(t.v) && ParentsFirst(t.v) && FilesLinked(t) && FreshKeys(t) && Standing(t)
  }

  ghost predicate Safe(t: Tables) {
    Framed(t) && CountsCover(t)
  }

  lemma {:induction false} SafeIsSound(t: Tables)
    requires Safe(t)
    ensures Sound(t) && Framed(t) && FreshKeys(t) && FilesLinked(t)
  {
  }

  // ----- new rows -----------------------------------------------------------------

  lemma {:induction false} InsertRefs(t: Tables, row: VRow, h: int)
    requires FreshKeys(t)
    ensures var n := t.nextFile;
            && Refs(InsertV(t, row).v, h)
               == Refs(t.v, h) + (if Insertable(t, row) && row.kind == File && row.hashId == Some(h) then {n} else {})
            && n !in Refs(t.v, h)
  {
  }

  lemma {:induction false} InsertFramed(t: Tables, row: VRow)
    requires Framed(t) && row.parentId in t.v && t.v[row.parentId].kind == Directory
    requires row.kind == File ==> row.hashId.Some?
    ensures Framed(InsertV(t, row))
  {
    if Insertable(t, row) {
      var w := InsertV(t, row).v;
      assert w == t.v[t.nextFile := row];
      InsertedUnique(t, row);
    }
  }

  lemma {:induction false} InsertedUnique(t: Tables, row: VRow)
    requires UniquePaths(t.v) && Insertable(t, row) && t.nextFile !in t.v
    ensures UniquePaths(InsertV(t, row).v)
  {
  }

  /** A user who is present stands in a directory. */
  lemma {:induction false} PresentStands(t: Tables, uid: int)
    requires Framed(t) && Present(t, uid)
    ensures t.v[t.u[uid]].kind == Directory
  {
  }

  lemma {:induction false} DirectoryCounts(t: Tables, row: VRow)
    requires FreshKeys(t) && row.kind == Directory
    ensures CountsCover(t) ==> CountsCover(InsertV(t, row))
    ensures Exact(t) ==> Exact(InsertV(t, row))
  {
    hide Refs, Insertable;
    forall h | h in t.g ensures Refs(InsertV(t, row).v, h) == Refs(t.v, h) {
      InsertRefs(t, row, h);
    }
  }

  /** A new content row has a key of its own, one link and no deletion time; no
      file references it, a search for its hash finds it and not an older row,
      and every other row is as it was. */
  lemma {:induction false} NewContentUnreferenced(t: Tables, hash: string)
    requires Safe(t)
    ensures Safe(InsertG(t, hash))
    ensures var t', h := InsertG(t, hash), t.nextHash;
            && h !in t.g && h in t'.g && t'.g[h].linkCount == 1 && t'.g[h].lastLinkTime.None?
            && Refs(t'.v, h) == {} && LastWithHash(t'.g, hash, t'.nextHash) == Some(h)
            && forall k | k in t.g :: k in t'.g && t'.g[k] == t.g[k]
  {
    assert forall x | x in t.v && t.v[x].kind == File :: t.v[x].hashId.value in t.g;
    assert Refs(t.v, t.nextHash) == {};
  }

  // ----- uploads --------------------------------------------------------------------

  lemma {:induction false} UploadFramed(t: Tables, uid: int, name: string, hash: string, size: int)
    requires Framed(t) && uid in t.u
    ensures Framed(AddVirtual(t, uid, name, hash, size))
    ensures Present(t, uid) ==>
              var row := UploadRow(t, uid, name, hash, size);
              && row.kind == File && row.hashId.Some?
              && (Insertable(t, row) ==> row.hashId.value in WithHash(t.g, hash))
  {
    if Present(t, uid) {
      PresentStands(t, uid);
      InsertFramed(t, UploadRow(t, uid, name, hash, size));
      assert 0 !in t.g;
    }
  }

  /** The row of an upload is accepted, and content `h` was found for it. */
  predicate Accepted(t: Tables, uid: int, name: string, hash: string, size: int, h: int)
    requires uid in t.u
  {
    Present(t, uid)
    && var row := UploadRow(t, uid, name, hash, size); Insertable(t, row) && row.hashId == Some(h)
  }

  /** An upload whose row is refused adds no reference, another one adds one to
      the content found for its hash. */
  lemma {:induction false} UploadRefs(t: Tables, uid: int, name: string, hash: string, size: int, h: int)
    requires Framed(t) && uid in t.u && h in t.g
    ensures |Refs(AddVirtual(t, uid, name, hash, size).v, h)|
            == |Refs(t.v, h)| + (if Accepted(t, uid, name, hash, size, h) then 1 else 0)
    ensures Accepted(t, uid, name, hash, size, h) ==> t.g[h].hash == hash
  {
    hide Insertable;
    if Present(t, uid) {
      var row := UploadRow(t, uid, name, hash, size);
      UploadFramed(t, uid, name, hash, size);
      InsertRefs(t, row, h);
    }
  }

  lemma {:induction false} InstantSafe(t: Tables, uid: int, name: string, hash: string, size: int)
    requires Safe(t) && uid in t.u
    ensures Safe(Exec(t, PutsInstant(uid, name, hash, size)))
  {
    hide Framed, UploadRow, Refs, Accepted;
    var t1 := AddVirtual(t, uid, name, hash, size);
    UploadFramed(t, uid, name, hash, size);
    BumpFramed(t1, hash);
    var t' := BumpLinks(t1, hash);
    forall h | h in t'.g
      ensures |Refs(t'.v, h)| <= t'.g[h].linkCount && (t'.g[h].lastLinkTime.Some? <==> t'.g[h].linkCount == 0)
    {
      UploadRefs(t, uid, name, hash, size, h);
    }
  }

  lemma {:induction false} BumpFramed(t: Tables, hash: string)
    requires Framed(t)
    ensures Framed(BumpLinks(t, hash))
  {
  }

  lemma {:induction false} SentSafe(t: Tables, uid: int, name: string, hash: string, size: int)
    requires Safe(t) && uid in t.u
    ensures Safe(Exec(t, PutsSent(uid, name, hash, size)))
  {
    hide Framed, UploadRow, Refs, Insertable;
    var t1 := InsertG(t, hash);
    NewContentUnreferenced(t, hash);
    UploadFramed(t1, uid, name, hash, size);
    var t' := AddVirtual(t1, uid, name, hash, size);
    forall h | h in t'.g
      ensures |Refs(t'.v, h)| <= t'.g[h].linkCount && (t'.g[h].lastLinkTime.Some? <==> t'.g[h].linkCount == 0)
    {
      UploadRefs(t1, uid, name, hash, size, h);
      RoomFor(t, hash, uid, name, size, h);
    }
  }

  /** Only the new content row gains a reference. */
  lemma {:induction false} RoomFor(t: Tables, hash: string, uid: int, name: string, size: int, h: int)
    requires Safe(t) && uid in t.u && h in InsertG(t, hash).g
    ensures var t1 := InsertG(t, hash);
            && (Present(t, uid) ==> UploadRow(t1, uid, name, hash, size).hashId == Some(t.nextHash))
            && |Refs(t1.v, h)| + (if h == t.nextHash then 1 else 0) <= t1.g[h].linkCount
  {
    hide Framed, Refs;
    NewContentUnreferenced(t, hash);
  }

  // ----- removals -------------------------------------------------------------------

  lemma {:induction false} DropSafe(t: Tables, s: set<int>, now: int)
    requires Safe(t)
    ensures Safe(Drop(t, s, now))
  {
    DropSound(t, s, now);
    hide UnlinkAll;
    DropFresh(t, s, now);
  }

  lemma {:induction false} DropFresh(t: Tables, s: set<int>, now: int)
    requires FreshKeys(t) && Standing(t)
    ensures FreshKeys(Drop(t, s, now)) && Standing(Drop(t, s, now))
  {
  }

  // ----- every run --------------------------------------------------------------------

  /** Every command, accepted or rejected, whatever its argument and wherever its
      user stands, keeps the tables safe. */
  lemma {:induction false} StepKeepsSafe(t: Tables, c: Command)
    requires Safe(t) && c.uid in t.u
    ensures Safe(Exec(t, c))
  {
    hide Safe, Framed, Removed, Drop, InsertV, Tally;
    SafeIsSound(t);
    match c
    case Mkdir(uid, arg) =>
      var row := NewDirectory(t, uid, arg);
      if row.Some? {
        DirectorySafe(t, uid, row.value);
      }
    case PutsInstant(uid, name, hash, size) =>
      InstantSafe(t, uid, name, hash, size);
    case PutsSent(uid, name, hash, size) =>
      SentSafe(t, uid, name, hash, size);
    case Rm(uid, arg, now) =>
      var target := Target(t, File, uid, arg);
      if target.Some? {
        DropSafe(t, {target.value}, now);
      }
    case Rmdir(uid, arg, now) =>
      var target := Target(t, Directory, uid, arg);
      if target.Some? {
        DropSafe(t, Removed(t.v, uid, target.value), now);
      }
    case Cd(uid, arg) =>
      CdSafe(t, uid, arg);
  }

  lemma {:induction false} DirectorySafe(t: Tables, uid: int, row: VRow)
    requires Safe(t) && Present(t, uid) && row.kind == Directory && row.parentId == t.u[uid]
    ensures Safe(InsertV(t, row))
  {
    hide Framed, Refs, Insertable;
    SafeIsSound(t);
    PresentStands(t, uid);
    InsertFramed(t, row);
    DirectoryCounts(t, row);
  }

  lemma {:induction false} CdSafe(t: Tables, uid: int, arg: string)
    requires Safe(t) && uid in t.u
    ensures Safe(Exec(t, Cd(uid, arg)))
  {
    hide Refs, WholePath;
  }

  /** Every command comes from somebody who has logged in. */
  predicate Served(t: Tables, run: seq<Command>) {
    forall c | c in run :: c.uid in t.u
  }

  ghost function After(t: Tables, run: seq<Command>): Tables
    requires Served(t, run)
    decreases |run|
  {
    if run == [] then t else After(Exec(t, run[0]), run[1..])
  }

  /** Every run of every length, with any arguments. */
  lemma {:induction false} RunsStaySafe(t: Tables, run: seq<Command>)
    requires Safe(t) && Served(t, run)
    ensures Safe(After(t, run))
    decreases |run|
  {
    hide Safe, Exec;
    if run != [] {
      StepKeepsSafe(t, run[0]);
      RunsStaySafe(Exec(t, run[0]), run[1..]);
    }
  }

  /** What is offered for physical deletion has no virtual file left. */
  lemma {:induction false} OfferedContentIsUnreferenced(t: Tables, run: seq<Command>, h: int)
    requires Safe(t) && Served(t, run)
    ensures var s := After(t, run);
            h in s.g && s.g[h].lastLinkTime.Some?
            ==> forall x | x in s.v && s.v[x].kind == File :: s.v[x].hashId != Some(h)
  {
    hide Framed, After, Served;
    var s := After(t, run);
    RunsStaySafe(t, run);
    if h in s.g && s.g[h].lastLinkTime.Some? {
      assert |Refs(s.v, h)| == 0;
      forall x | x in s.v && s.v[x].kind == File ensures s.v[x].hashId != Some(h) {
        assert x !in Refs(s.v, h);
      }
    }
  }

  // ----- exact link counts -----------------------------------------------------

  ghost predicate Exact(t: Tables) {
    forall h | h in t.g :: t.g[h].linkCount == |Refs(t.v, h)|
  }

  ghost predicate OneRowPerHash(g: GTable) {
    forall h, k | h in g && k in g && g[h].hash == g[k].hash :: h == k
  }

  /** There is no file row for the upload, or the database refuses it. */
  predicate Unplaced(t: Tables, uid: int, name: string, hash: string, size: int)
    requires uid in t.u
  {
    !Present(t, uid) || !Insertable(t, UploadRow(t, uid, name, hash, size))
  }

  ghost predicate Rejected(t: Tables, c: Command)
    requires c.uid in t.u
  {
    match c
    case PutsInstant(uid, name, hash, size) => Unplaced(t, uid, name, hash, size)
    case PutsSent(uid, name, hash, size) => Unplaced(InsertG(t, hash), uid, name, hash, size)
    case _ => false
  }

  lemma {:induction false} DropExact(t: Tables, s: set<int>, now: int)
    requires Exact(t)
    ensures Exact(Drop(t, s, now))
  {
    forall h | h in t.g ensures Drop(t, s, now).g[h].linkCount == |Refs(t.v - s, h)| {
      RefsSplit(t.v, h, s);
    }
  }

  /** When an upload keeps the counts exact, told from the tables before it:
      an instant one when its row is accepted and its hash has one row, or none;
      any other when its row is accepted. */
  ghost predicate CountsRight(t: Tables, c: Command)
    requires c.uid in t.u
  {
    match c
    case PutsInstant(uid, name, hash, size) =>
      forall h | h in WithHash(t.g, hash) :: Accepted(t, uid, name, hash, size, h)
    case PutsSent(_, _, _, _) => !Rejected(t, c)
    case _ => true
  }

  lemma {:induction false} InstantExactly(t: Tables, uid: int, name: string, hash: string, size: int)
    requires Safe(t) && uid in t.u && Exact(t)
    ensures Exact(Exec(t, PutsInstant(uid, name, hash, size))) <==> CountsRight(t, PutsInstant(uid, name, hash, size))
  {
    hide Framed, Safe, Accepted, Refs, AddVirtual;
    SafeIsSound(t);
    var t' := Exec(t, PutsInstant(uid, name, hash, size));
    SameContents(t, uid, name, hash, size);
    forall h | h in t.g
      ensures t'.g[h].linkCount == |Refs(t'.v, h)|
              <==> (t.g[h].hash == hash ==> Accepted(t, uid, name, hash, size, h))
    {
      UploadRefs(t, uid, name, hash, size, h);
    }
    if Exact(t') {
      forall h | h in WithHash(t.g, hash) ensures Accepted(t, uid, name, hash, size, h) {
        assert t'.g[h].linkCount == |Refs(t'.v, h)|;
      }
    }
    if CountsRight(t, PutsInstant(uid, name, hash, size)) {
      forall h | h in t'.g ensures t'.g[h].linkCount == |Refs(t'.v, h)| {
        assert t.g[h].hash == hash ==> h in WithHash(t.g, hash);
      }
    }
  }

  lemma {:induction false} SameContents(t: Tables, uid: int, name: string, hash: string, size: int)
    requires uid in t.u
    ensures var t' := AddVirtual(t, uid, name, hash, size); t'.g == t.g && t'.u == t.u && t'.nextHash == t.nextHash
  {
  }

  lemma {:induction false} SentExactly(t: Tables, uid: int, name: string, hash: string, size: int)
    requires Safe(t) && uid in t.u && Exact(t)
    ensures Exact(Exec(t, PutsSent(uid, name, hash, size))) <==> CountsRight(t, PutsSent(uid, name, hash, size))
  {
    hide Framed, Safe, Insertable, UploadRow, Refs, AddVirtual;
    var t1 := InsertG(t, hash);
    var t' := AddVirtual(t1, uid, name, hash, size);
    NewContentUnreferenced(t, hash);
    SafeIsSound(t1);
    SameContents(t1, uid, name, hash, size);
    forall h | h in t1.g
      ensures t'.g[h].linkCount == |Refs(t'.v, h)| <==> h != t.nextHash || !Unplaced(t1, uid, name, hash, size)
    {
      RoomFor(t, hash, uid, name, size, h);
      UploadRefs(t1, uid, name, hash, size, h);
    }
    assert t.nextHash in t1.g;
  }

  /** Removals and directories keep the counts exact whatever happens. */
  lemma {:induction false} OthersExact(t: Tables, c: Command)
    requires FreshKeys(t) && c.uid in t.u && Exact(t) && !c.PutsInstant? && !c.PutsSent?
    ensures Exact(Exec(t, c))
  {
    hide Drop, Removed, Tally, InsertV, WholePath;
    match c
    case Mkdir(uid, arg) =>
      var row := NewDirectory(t, uid, arg);
      if row.Some? {
        DirectoryCounts(t, row.value);
      }
    case Rm(uid, arg, now) =>
      var target := Target(t, File, uid, arg);
      if target.Some? {
        DropExact(t, {target.value}, now);
      }
    case Rmdir(uid, arg, now) =>
      var target := Target(t, Directory, uid, arg);
      if target.Some? {
        DropExact(t, Removed(t.v, uid, target.value), now);
      }
    case Cd(uid, arg) =>
  }

  /** Exact counts stay exact exactly under that condition. */
  lemma {:induction false} StepExactly(t: Tables, c: Command)
    requires Safe(t) && c.uid in t.u && Exact(t)
    ensures Exact(Exec(t, c)) <==> CountsRight(t, c)
  {
    hide Safe, Exec, Exact;
    SafeIsSound(t);
    if c.PutsInstant? {
      InstantExactly(t, c.uid, c.name, c.hash, c.size);
    } else if c.PutsSent? {
      SentExactly(t, c.uid, c.name, c.hash, c.size);
    } else {
      OthersExact(t, c);
    }
  }

  /** In particular when no row is refused and no hash has two rows. */
  lemma {:induction false} CleanIsRight(t: Tables, c: Command)
    requires c.uid in t.u && FreshKeys(t) && FilesLinked(t) && !Rejected(t, c) && OneRowPerHash(t.g)
    ensures CountsRight(t, c)
  {
    if c.PutsInstant? {
      var h := LastWithHash(t.g, c.hash, t.nextHash);
      assert forall k | k in WithHash(t.g, c.hash) :: 0 < k < t.nextHash;
    }
  }

  ghost predicate CleanRun(t: Tables, run: seq<Command>)
    requires Served(t, run)
    decreases |run|
  {
    run == [] || (CountsRight(t, run[0]) && CleanRun(Exec(t, run[0]), run[1..]))
  }

  ghost predicate ExactThroughout(t: Tables, run: seq<Command>)
    requires Served(t, run)
    decreases |run|
  {
    Exact(t) && (run == [] || ExactThroughout(Exec(t, run[0]), run[1..]))
  }

  /** The counts equal the references in every state of a run when each of its
      commands meets that condition, and only then. */
  lemma {:induction false} CleanRunsStayExact(t: Tables, run: seq<Command>)
    requires Safe(t) && Exact(t) && Served(t, run) && CleanRun(t, run)
    ensures ExactThroughout(t, run)
    decreases |run|
  {
    hide Safe, Exact, Exec, CountsRight;
    if run != [] {
      StepKeepsSafe(t, run[0]);
      StepExactly(t, run[0]);
      CleanRunsStayExact(Exec(t, run[0]), run[1..]);
    }
  }

  lemma {:induction false} ExactRunsAreClean(t: Tables, run: seq<Command>)
    requires Safe(t) && Served(t, run) && ExactThroughout(t, run)
    ensures CleanRun(t, run)
    decreases |run|
  {
    hide Safe, Exact, Exec, CountsRight;
    if run != [] {
      StepKeepsSafe(t, run[0]);
      ExactFirst(Exec(t, run[0]), run[1..]);
      StepExactly(t, run[0]);
      ExactRunsAreClean(Exec(t, run[0]), run[1..]);
    }
  }

  lemma {:induction false} ExactFirst(t: Tables, run: seq<Command>)
    requires Served(t, run)
    ensures ExactThroughout(t, run) ==> Exact(t)
  {
  }

  // ----- upload and download ---------------------------------------------------

  /** What an accepted upload stored under a name is what a download of that
      name is served from. */
  lemma {:induction false} UploadThenDownload(t: Tables, uid: int, name: string, hash: string, size: int)
    requires Safe(t) && uid in t.u
    ensures !Rejected(t, PutsSent(uid, name, hash, size)) ==>
              var t' := Exec(t, PutsSent(uid, name, hash, size));
              Present(t', uid) && DownloadHash(t', uid, name) == Some(hash)
    ensures !Rejected(t, PutsInstant(uid, name, hash, size)) ==>
              var t' := Exec(t, PutsInstant(uid, name, hash, size));
              Present(t', uid) && DownloadHash(t', uid, name) == Some(hash)
  {
    hide Safe, Framed, Insertable, DownloadHash, UploadRow;
    SafeIsSound(t);
    if !Rejected(t, PutsSent(uid, name, hash, size)) {
      NewContentUnreferenced(t, hash);
      var t1 := InsertG(t, hash);
      SafeIsSound(t1);
      StoredUnderName(t1, AddVirtual(t1, uid, name, hash, size), uid, name, hash, size);
    }
    if !Rejected(t, PutsInstant(uid, name, hash, size)) {
      StoredUnderName(t, Exec(t, PutsInstant(uid, name, hash, size)), uid, name, hash, size);
    }
  }

  lemma {:induction false} StoredUnderName(t: Tables, t': Tables, uid: int, name: string, hash: string, size: int)
    requires Framed(t) && Present(t, uid)
    requires Insertable(t, UploadRow(t, uid, name, hash, size))
    requires t'.v == AddVirtual(t, uid, name, hash, size).v && t'.u == t.u && t'.g.Keys == t.g.Keys
    requires forall h | h in t.g :: t'.g[h].hash == t.g[h].hash
    ensures Present(t', uid) && DownloadHash(t', uid, name) == Some(hash)
  {
    var row := UploadRow(t, uid, name, hash, size);
    UploadFramed(t, uid, name, hash, size);
    assert t'.v[t.nextFile] == row;
    assert forall x | x in t'.v && t'.v[x].path == row.path :: x == t.nextFile;
  }
}
