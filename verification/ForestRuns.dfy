/** Runs of commands over the forest of rows: in which the paths stay the
    joined names, so that text and tree agree, and every user keeps a directory
    to stand in. */
module ForestRuns {
  import opened PathStrings
  import opened Tables
  import opened Subtree
  import opened Commands
  import opened Navigation
  import opened FileSystemRuns

  /** Each user stands in a directory of their own. */
  ghost predicate Homes(t: Tables) {
    forall uid | uid in t.u ::
      t.u[uid] in t.v && t.v[t.u[uid]].kind == Directory && t.v[t.u[uid]].userId == uid
  }

  ghost predicate Consistent(t: Tables) {
    Tree(t.v) && FilesLinked(t) && CountsCover(t) && Homes(t) && FreshKeys(t)
  }

  lemma {:induction false} AtHome(t: Tables, uid: int)
    requires Consistent(t) && uid in t.u
    ensures Present(t, uid) && PathOf(t.v, t.u[uid]) == t.v[t.u[uid]].path
  {
  }

  lemma {:induction false} ConsistentParts(t: Tables)
    ensures Consistent(t) <==> Safe(t) && Tree(t.v) && Homes(t)
  {
  }

  /** The argument of mkdir is one new name, or names the directory the user
      stands in by way of its parent and adds one new name to it. */
  predicate MkdirFits(v: VTable, cwd: int, arg: string)
    requires cwd in v
  {
    && Component(FinalDir(arg))
    && if StartsUp(arg) then arg == "../" + v[cwd].fileName + "/" + FinalDir(arg) else '/' !in arg
  }

  ghost predicate Vacated(t: Tables, uid: int, d: int) {
    && (forall x | x in Below(t.v, d) :: t.v[x].userId == uid)
    && (forall w | w in t.u :: t.u[w] !in Below(t.v, d))
  }

  /** What a command may do to a consistent state. Directories and uploads: the
      row is refused or fits. Removal of a directory: nothing below it is
      somebody else's and nobody stands there. */
  ghost predicate Allowed(t: Tables, c: Command)
    requires c.uid in t.u
  {
    match c
    case Mkdir(uid, arg) =>
      var row := NewDirectory(t, uid, arg);
      row.None? || !Insertable(t, row.value) || MkdirFits(t.v, t.u[uid], arg)
    case PutsInstant(_, name, _, _) => Rejected(t, c) || Component(name)
    case PutsSent(_, name, _, _) => Rejected(t, c) || Component(name)
    case Rm(_, _, _) => true
    case Rmdir(uid, arg, _) =>
      var target := Target(t, Directory, uid, arg);
      target.Some? ==> Vacated(t, uid, target.value)
    case Cd(_, _) => true
  }

  // ----- growing the tree ---------------------------------------------------

  /** The row fits the forest: its parent is a directory and its path is the
      parent's path, a slash and its name. */
  ghost predicate Fits(v: VTable, row: VRow) {
    && row.parentId in v && v[row.parentId].kind == Directory
    && row.path == v[row.parentId].path + "/" + row.fileName
    && Component(row.fileName)
  }

  lemma {:induction false} RowStaysOk(v: VTable, w: VTable, x: int)
    requires x in v && x in w && v[x] == w[x] && RowOk(v, x)
    requires v[x].parentId in v ==> v[x].parentId in w && w[v[x].parentId].path == v[v[x].parentId].path
    requires v[x].parentId !in v ==> v[x].parentId !in w
    ensures RowOk(w, x)
  {
  }

  /** An accepted insert keeps the forest exactly when the row fits it. */
  lemma {:induction false} InsertTree(t: Tables, row: VRow)
    requires Tree(t.v) && FreshKeys(t) && Insertable(t, row)
    requires row.parentId in t.v && t.v[row.parentId].kind == Directory
    ensures Tree(InsertV(t, row).v) <==> Fits(t.v, row)
  {
    var v, w, n := t.v, InsertV(t, row).v, t.nextFile;
    assert w == v[n := row];
    assert UniquePaths(w);
    assert ParentsFirst(w);
    forall x | x in v ensures RowOk(w, x) {
      assert RowOk(v, x);
      assert x < n && v[x].parentId != n;
      RowStaysOk(v, w, x);
    }
    assert RowOk(w, n) <==> Fits(v, row);
    if Tree(w) {
      assert RowOk(w, n);
    }
  }

  lemma {:induction false} InsertHomes(t: Tables, row: VRow)
    requires FreshKeys(t) && Homes(t)
    ensures Homes(InsertV(t, row))
  {
  }

  /** Mkdir keeps the forest exactly when its argument fits, or when the
      database refuses the row. */
  lemma {:induction false} MkdirKeepsTree(t: Tables, uid: int, arg: string)
    requires Consistent(t) && Present(t, uid)
    ensures var row := MkdirRow(t.v, t.u[uid], uid, arg);
            Tree(Exec(t, Mkdir(uid, arg)).v)
            <==> (row.None? || !Insertable(t, row.value) || MkdirFits(t.v, t.u[uid], arg))
  {
    var cwd := t.u[uid];
    var row := MkdirRow(t.v, cwd, uid, arg);
    if row.Some? && Insertable(t, row.value) {
      InsertTree(t, row.value);
      MkdirPath(t.v, cwd, uid, arg);
    }
  }

  lemma {:induction false} MkdirPath(v: VTable, cwd: int, uid: int, arg: string)
    requires Tree(v) && cwd in v && v[cwd].kind == Directory
    ensures var row := MkdirRow(v, cwd, uid, arg); row.Some? ==> (Fits(v, row.value) <==> MkdirFits(v, cwd, arg))
  {
    MkdirRowText(v, cwd, uid, arg);
    hide Tree, MkdirRow, FinalDir;
    if MkdirRow(v, cwd, uid, arg).Some? {
      if StartsUp(arg) {
        var p := v[cwd].parentId;
        UpwardPath(v[p].path, v[cwd].fileName, arg);
      } else {
        SamePrefix(v[cwd].path, arg, FinalDir(arg));
      }
    }
  }

  lemma {:induction false} MkdirRowText(v: VTable, cwd: int, uid: int, arg: string)
    requires Tree(v) && cwd in v
    ensures MkdirRow(v, cwd, uid, arg).Some? ==>
            var row := MkdirRow(v, cwd, uid, arg).value;
            && row.parentId == cwd && row.fileName == FinalDir(arg)
            && (!StartsUp(arg) ==> row.path == v[cwd].path + "/" + arg)
            && (StartsUp(arg) ==>
                  var p := v[cwd].parentId;
                  && p in v && row.path == v[p].path + "/" + arg[3..]
                  && v[cwd].path == v[p].path + ("/" + v[cwd].fileName))
    ensures !StartsUp(arg) ==> (arg == FinalDir(arg) <==> '/' !in arg)
  {
    hide Tree, AfterLastSlash, Concatenate;
    NoTrailingSlash(v, cwd);
    RowFacts(v, cwd);
    WholeIsFinal(arg);
    if StartsUp(arg) {
      if v[cwd].parentId in v {
        NoTrailingSlash(v, v[cwd].parentId);
        PastedBehind(v[v[cwd].parentId].path, arg[3..]);
      }
    } else {
      PastedBehind(v[cwd].path, arg);
    }
  }

  lemma {:induction false} WholeIsFinal(arg: string)
    ensures !StartsUp(arg) ==> (arg == FinalDir(arg) <==> '/' !in arg)
  {
  }

  lemma {:induction false} PastedBehind(base: string, sub: string)
    requires base != "" && base[|base| - 1] != '/'
    ensures Concatenate(base, sub) == base + "/" + sub
  {
  }

  lemma {:induction false} UpwardPath(up: string, name: string, arg: string)
    requires StartsUp(arg)
    ensures up + "/" + arg[3..] == (up + ("/" + name)) + "/" + FinalDir(arg)
            <==> arg == "../" + name + "/" + FinalDir(arg)
  {
    hide FinalDir;
    var sub, last := arg[3..], FinalDir(arg);
    SamePrefix(up, sub, name + "/" + last);
    assert (up + ("/" + name)) + "/" + last == up + "/" + (name + "/" + last);
    SamePrefix("..", sub, name + "/" + last);
    assert arg == ".." + "/" + sub;
    assert "../" + name + "/" + last == ".." + "/" + (name + "/" + last);
  }

  lemma {:induction false} SamePrefix(p: string, a: string, b: string)
    ensures p + "/" + a == p + "/" + b <==> a == b
  {
    assert (p + "/" + a)[|p| + 1..] == a;
    assert (p + "/" + b)[|p| + 1..] == b;
  }

  lemma {:induction false} MkdirExactly(t: Tables, uid: int, arg: string)
    requires Consistent(t) && Present(t, uid)
    ensures Consistent(Exec(t, Mkdir(uid, arg))) <==> Allowed(t, Mkdir(uid, arg))
  {
    hide Consistent, Tree, Homes, FreshKeys, MkdirRow, Insertable;
    ConsistentParts(t);
    SafeIsSound(t);
    var row := MkdirRow(t.v, t.u[uid], uid, arg);
    MkdirKeepsTree(t, uid, arg);
    StepKeepsSafe(t, Mkdir(uid, arg));
    ConsistentParts(Exec(t, Mkdir(uid, arg)));
    if row.Some? {
      InsertHomes(t, row.value);
    }
  }

  // ----- the uploads ---------------------------------------------------------

  /** An upload keeps the forest exactly when its row is refused or its name is
      a single component. */
  lemma {:induction false} UploadKeepsTree(t: Tables, uid: int, name: string, hash: string, size: int)
    requires Tree(t.v) && Framed(t) && Homes(t) && Present(t, uid)
    ensures var t' := AddVirtual(t, uid, name, hash, size);
            && (Tree(t'.v) <==> !Insertable(t, UploadRow(t, uid, name, hash, size)) || Component(name))
            && Homes(t')
  {
    hide Tree, Insertable, InsertV;
    var row := UploadRow(t, uid, name, hash, size);
    InsertHomes(t, row);
    if Insertable(t, row) {
      InsertTree(t, row);
    } else {
      Refused(t, row);
    }
  }

  lemma {:induction false} Refused(t: Tables, row: VRow)
    requires !Insertable(t, row)
    ensures InsertV(t, row) == t
  {
  }

  lemma {:induction false} UploadExactly(t: Tables, c: Command)
    requires Consistent(t) && c.uid in t.u && (c.PutsInstant? || c.PutsSent?)
    ensures Consistent(Exec(t, c)) <==> Allowed(t, c)
  {
    hide Consistent, Tree, Homes, Framed, Insertable, UploadRow, InsertV;
    AtHome(t, c.uid);
    ConsistentParts(t);
    SafeIsSound(t);
    StepKeepsSafe(t, c);
    ConsistentParts(Exec(t, c));
    if c.PutsInstant? {
      UploadKeepsTree(t, c.uid, c.name, c.hash, c.size);
      SameForest(AddVirtual(t, c.uid, c.name, c.hash, c.size), Exec(t, c));
    } else {
      var t1 := InsertG(t, c.hash);
      NewContentUnreferenced(t, c.hash);
      SafeIsSound(t1);
      SameForest(t, t1);
      UploadKeepsTree(t1, c.uid, c.name, c.hash, c.size);
    }
  }

  lemma {:induction false} SameForest(t: Tables, s: Tables)
    requires s.v == t.v && s.u == t.u
    ensures Tree(t.v) <==> Tree(s.v)
    ensures Homes(t) <==> Homes(s)
  {
  }

  // ----- the removals ----------------------------------------------------------

  lemma {:induction false} DropTree(v: VTable, s: set<int>)
    requires Tree(v) && forall x | x in v && v[x].parentId in s :: x in s
    ensures Tree(v - s)
  {
    var w := v - s;
    forall x | x in w ensures RowOk(w, x) {
      assert RowOk(v, x);
      RowStaysOk(v, w, x);
    }
  }

  lemma {:induction false} BelowClosed(v: VTable, d: int)
    requires ParentsFirst(v) && d in v
    ensures forall x | x in v && v[x].parentId in Below(v, d) :: x in Below(v, d)
  {
    forall x | x in v && v[x].parentId in Below(v, d) ensures Under(v, d, x) {
      assert Under(v, d, v[x].parentId);
      assert v[x].parentId in v;
    }
  }

  lemma {:induction false} RmKeeps(t: Tables, uid: int, path: string, now: int)
    requires Consistent(t)
    ensures var t' := RmResult(t, uid, path, now).0; Tree(t'.v) && Homes(t')
  {
    var r := Lookup(t.v, File, uid, path);
    if r.Some? {
      forall x | x in t.v ensures t.v[x].parentId != r.value {
        assert t.v[x].parentId in t.v ==> t.v[t.v[x].parentId].kind == Directory;
      }
      DropTree(t.v, {r.value});
    }
  }

  /** Removing a directory keeps the forest exactly when everything below it
      belongs to the caller; anything else is left behind without a parent. */
  lemma {:induction false} RmdirKeepsTree(v: VTable, uid: int, d: int)
    requires Tree(v) && d in v && v[d].kind == Directory && v[d].userId == uid
    ensures Tree(v - Removed(v, uid, d)) <==> forall x | x in Below(v, d) :: v[x].userId == uid
  {
    if forall x | x in Below(v, d) :: v[x].userId == uid {
      WholeSubtreeOwned(v, uid, d);
      BelowClosed(v, d);
      DropTree(v, Below(v, d));
    }
    if Tree(v - Removed(v, uid, d)) {
      forall x | x in Below(v, d) ensures v[x].userId == uid {
        NoOrphanNoStranger(v, uid, d, x);
      }
    }
  }

  lemma {:induction false} NoOrphanNoStranger(v: VTable, uid: int, d: int, x: int)
    requires Tree(v) && d in v && v[d].userId == uid
    requires Tree(v - Removed(v, uid, d)) && Under(v, d, x)
    ensures OwnedUnder(v, uid, d, x)
    decreases x
  {
    if x != d {
      var p := v[x].parentId;
      NoOrphanNoStranger(v, uid, d, p);
      assert p in Removed(v, uid, d);
      var w := v - Removed(v, uid, d);
      assert x in w ==> RowOk(w, x);
    }
  }

  /** It keeps the state consistent exactly when besides nobody stands there. */
  lemma {:induction false} RmdirExactly(t: Tables, uid: int, path: string, now: int)
    requires Consistent(t)
    ensures var r := Lookup(t.v, Directory, uid, path);
            var t' := RmdirResult(t, uid, path, now).0;
            Tree(t'.v) && Homes(t') <==> (r.Some? ==> Vacated(t, uid, r.value))
  {
    hide Tree, Drop, UnlinkAll, Tally;
    var r := Lookup(t.v, Directory, uid, path);
    if r.Some? {
      var gone := Removed(t.v, uid, r.value);
      DropIs(t, gone, now);
      RmdirKeepsTree(t.v, uid, r.value);
      if forall x | x in Below(t.v, r.value) :: t.v[x].userId == uid {
        OwnedSubtree(t.v, uid, r.value);
        HomesWithout(t, Drop(t, gone, now), gone);
      }
    }
  }

  lemma {:induction false} DropIs(t: Tables, s: set<int>, now: int)
    ensures Drop(t, s, now).v == t.v - s && Drop(t, s, now).u == t.u
  {
  }

  lemma {:induction false} OwnedSubtree(v: VTable, uid: int, d: int)
    requires Tree(v) && d in v && v[d].kind == Directory
    requires forall x | x in Below(v, d) :: v[x].userId == uid
    ensures Removed(v, uid, d) == Below(v, d)
  {
    WholeSubtreeOwned(v, uid, d);
  }

  lemma {:induction false} HomesWithout(t: Tables, t': Tables, s: set<int>)
    requires Homes(t) && t'.v == t.v - s && t'.u == t.u
    ensures Homes(t') <==> forall w | w in t.u :: t.u[w] !in s
  {
  }

  // ----- every run -------------------------------------------------------------

  /** A command keeps a consistent state consistent if and only if it is allowed. */
  lemma {:induction false} StepConsistentExactly(t: Tables, c: Command)
    requires Consistent(t) && c.uid in t.u
    ensures Consistent(Exec(t, c)) <==> Allowed(t, c)
  {
    hide Consistent, Tree, Homes, Safe, RmdirResult, RmResult, Vacated;
    AtHome(t, c.uid);
    match c
    case Mkdir(uid, arg) => MkdirExactly(t, uid, arg);
    case PutsInstant(_, _, _, _) => UploadExactly(t, c);
    case PutsSent(_, _, _, _) => UploadExactly(t, c);
    case Rm(uid, arg, now) =>
      ConsistentParts(t);
      StepKeepsSafe(t, c);
      ConsistentParts(Exec(t, c));
      var whole := WholePath(arg, PathOf(t.v, t.u[uid]));
      if whole.Some? {
        RmKeeps(t, uid, whole.value, now);
      }
    case Rmdir(uid, arg, now) =>
      ConsistentParts(t);
      StepKeepsSafe(t, c);
      ConsistentParts(Exec(t, c));
      var whole := WholePath(arg, PathOf(t.v, t.u[uid]));
      if whole.Some? {
        RmdirExactly(t, uid, whole.value, now);
      }
    case Cd(uid, arg) =>
      CdKeeps(t, uid, arg);
  }

  lemma {:induction false} CdKeeps(t: Tables, uid: int, arg: string)
    requires Consistent(t) && Present(t, uid)
    ensures Consistent(Exec(t, Cd(uid, arg)))
  {
  }

  ghost predicate AllowedRun(t: Tables, run: seq<Command>)
    requires Served(t, run)
    decreases |run|
  {
    run == [] || (Allowed(t, run[0]) && AllowedRun(Exec(t, run[0]), run[1..]))
  }

  ghost predicate ConsistentThroughout(t: Tables, run: seq<Command>)
    requires Served(t, run)
    decreases |run|
  {
    Consistent(t) && (run == [] || ConsistentThroughout(Exec(t, run[0]), run[1..]))
  }

  /** Every state of a run is consistent if and only if each of its commands is
      allowed where it is given. */
  lemma {:induction false} RunsConsistentExactly(t: Tables, run: seq<Command>)
    requires Consistent(t) && Served(t, run)
    ensures ConsistentThroughout(t, run) <==> AllowedRun(t, run)
    ensures AllowedRun(t, run) ==> Consistent(After(t, run))
    decreases |run|
  {
    hide Consistent, Exec, Allowed;
    if run != [] {
      StepConsistentExactly(t, run[0]);
      if Allowed(t, run[0]) {
        RunsConsistentExactly(Exec(t, run[0]), run[1..]);
      } else {
        ConsistentFirst(Exec(t, run[0]), run[1..]);
      }
    }
  }

  lemma {:induction false} ConsistentFirst(t: Tables, run: seq<Command>)
    requires Served(t, run)
    ensures ConsistentThroughout(t, run) ==> Consistent(t)
  {
    hide Consistent;
  }

  /** So after every allowed run, `cd` by text is `cd` by tree. */
  lemma {:induction false} CdAfterEveryRun(t: Tables, run: seq<Command>, uid: int, arg: string)
    requires Consistent(t) && Served(t, run) && AllowedRun(t, run)
    requires Present(After(t, run), uid) && !Absolute(arg)
    ensures var s := After(t, run);
            && Tree(s.v) && Place(s.v, s.u[uid])
            && CdByText(s, uid, arg) == WalkTree(s.v, Directory, uid, s.u[uid], arg)
  {
    hide Tree, After, Served, AllowedRun, CdByText, WalkTree, Safe;
    RunsConsistentExactly(t, run);
    ConsistentParts(After(t, run));
    TextRefinesTree(After(t, run), uid, arg);
  }

  // ----- where runs start --------------------------------------------------------

  /** Nothing but directories, every user in one of their own. */
  ghost predicate OnlyDirectories(t: Tables) {
    && t.g == map[] && Tree(t.v) && FreshKeys(t) && Homes(t)
    && forall x | x in t.v :: t.v[x].kind == Directory
  }

  lemma {:induction false} StartIsConsistent(t: Tables)
    requires OnlyDirectories(t)
    ensures Consistent(t) && Exact(t)
  {
  }
}
