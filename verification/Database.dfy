/** The server's view of the database: each statement as a method that changes
    the tables in place, and the removal commands built from them. */
module Database {
  import opened Basics
  import PathHandler
  import PathStrings
  import opened Tables
  import opened Subtree
  import opened Commands

  /** The columns a directory listing fetches for one child. */
  datatype Entry = Entry(id: int, kind: Kind, path: string)

  function Ids(rows: seq<Entry>): set<int> {
    set r | r in rows :: r.id
  }

  lemma {:induction false} IdsStep(rows: seq<Entry>, i: nat)
    requires i < |rows|
    ensures Ids(rows[..i + 1]) == Ids(rows[..i]) + {rows[i].id}
    ensures Ids(rows[..i + 1]) <= Ids(rows)
    ensures Ids(rows[..|rows|]) == Ids(rows)
  {
    assert rows[..i + 1] == rows[..i] + [rows[i]];
    assert rows[..|rows|] == rows;
  }

  class Store {
    var v: VTable
    var g: GTable
    var u: map<int, int>
    var nextFile: nat
    var nextHash: nat

    ghost function State(): Tables
      reads this
    {
      Tables(v, g, u, nextFile, nextHash)
    }

    constructor (t: Tables)
      ensures State() == t
    {
      v, g, u, nextFile, nextHash := t.v, t.g, t.u, t.nextFile, t.nextHash;
    }

    // ----- single statements ----------------------------------------------

    /** The keys of the rows a SELECT by type, owner and path returns. */
    method SelectByPath(kind: Kind, uid: int, path: string) returns (rows: seq<int>)
      ensures forall x :: x in rows <==> x in v && Matches(v[x], kind, uid, path)
    {
      rows := Enumerate(set x | x in v && Matches(v[x], kind, uid, path));
    }

    /** Deletes the caller's file at `path`; -1 when there is none. */
    method DelFileInV(uid: int, path: string) returns (hashId: int)
      requires UniquePaths(v) && FilesLinked(State())
      modifies this`v
      ensures var r := Lookup(old(v), File, uid, path);
              if r.None? then hashId == -1 && v == old(v)
              else Some(hashId) == old(v)[r.value].hashId && v == old(v) - {r.value}
    {
      var rows := SelectByPath(File, uid, path);
      hashId := -1;
      for i := 0 to |rows|
        invariant i == 0 ==> hashId == -1
        invariant i > 0 ==> rows[i - 1] in v && v[rows[i - 1]].hashId == Some(hashId) && 0 < hashId
      {
        var row := rows[i];
        assert row in rows;
        hashId := v[row].hashId.value;
      }
      assert |rows| > 0 ==> rows[|rows| - 1] in rows;
      if hashId == -1 {
        assert Lookup(v, File, uid, path).None? by {
          assert forall x | x in v :: Matches(v[x], File, uid, path) ==> x in rows;
        }
        return;
      }
      LookupUnique(v, File, uid, path, rows[|rows| - 1]);
      DeleteByPath(File, uid, path);
    }

    /** DELETE by type, owner and path. */
    method DeleteByPath(kind: Kind, uid: int, path: string)
      requires UniquePaths(v)
      modifies this`v
      ensures var r := Lookup(old(v), kind, uid, path);
              v == if r.None? then old(v) else old(v) - {r.value}
    {
      var r := set x | x in v && Matches(v[x], kind, uid, path);
      ghost var found := Lookup(v, kind, uid, path);
      forall x ensures x in r <==> found == Some(x) {
        if x in r {
          LookupUnique(v, kind, uid, path, x);
        }
      }
      v := v - r;
    }

    /** Takes one link from a content row and reports what is left. */
    method DelFileInG(hashId: int) returns (count: int)
      requires hashId in g
      modifies this`g
      ensures count == old(g)[hashId].linkCount - 1
      ensures g == old(g)[hashId := old(g)[hashId].(linkCount := count)]
    {
      g := g[hashId := g[hashId].(linkCount := g[hashId].linkCount - 1)];
      count := g[hashId].linkCount;
    }

    method UpdFileInG(hashId: int, now: int)
      requires hashId in g
      modifies this`g
      ensures g == old(g)[hashId := old(g)[hashId].(lastLinkTime := Some(now))]
    {
      g := g[hashId := g[hashId].(lastLinkTime := Some(now))];
    }

    /** The contents offered for physical deletion. */
    method GetLastTime() returns (rows: seq<int>)
      ensures forall h :: h in rows <==> h in g && g[h].lastLinkTime.Some?
    {
      rows := Enumerate(set h | h in g && g[h].lastLinkTime.Some?);
    }

    /** Deletes the caller's directory at `path`; -1 when there is none. */
    method DelDirV(uid: int, path: string) returns (dirId: int)
      requires UniquePaths(v) && ParentsFirst(v)
      modifies this`v
      ensures var r := Lookup(old(v), Directory, uid, path);
              if r.None? then dirId == -1 && v == old(v)
              else dirId == r.value && v == old(v) - {dirId}
    {
      var rows := SelectByPath(Directory, uid, path);
      dirId := -1;
      for i := 0 to |rows|
        invariant dirId == if i == 0 then -1 else rows[i - 1]
        invariant i > 0 ==> 0 < dirId
      {
        assert rows[i] in rows;
        dirId := rows[i];
      }
      if dirId == -1 {
        assert Lookup(v, Directory, uid, path).None? by {
          assert forall x | x in v :: Matches(v[x], Directory, uid, path) ==> x in rows;
        }
        return;
      }
      assert dirId in rows;
      LookupUnique(v, Directory, uid, path, dirId);
      DeleteByPath(Directory, uid, path);
    }

    /** The children of a directory, each once, in whatever order. */
    method GetDirContents(dirId: int) returns (rows: seq<Entry>)
      ensures Listing(State(), dirId, rows)
    {
      var ids := Enumerate(Children(v, dirId));
      rows := [];
      for i := 0 to |ids|
        invariant |rows| == i
        invariant forall k | 0 <= k < i :: ids[k] in v && rows[k] == Entry(ids[k], v[ids[k]].kind, v[ids[k]].path)
      {
        var id := ids[i];
        assert id in ids;
        rows := rows + [Entry(id, v[id].kind, v[id].path)];
      }
      assert forall k | 0 <= k < |ids| :: ids[k] in ids;
      forall c | c in Children(v, dirId) ensures c in Ids(rows) {
        assert c in ids;
        var i :| 0 <= i < |ids| && ids[i] == c;
        assert rows[i] in rows;
      }
    }

    // ----- rm and rmdir ----------------------------------------------------

    /** Unlinks one file. The count it gets back is never the -1 that means
        failure, so the command fails exactly when the caller has no such file. */
    method RmCommand(uid: int, path: string, now: int) returns (ret: int)
      requires Sound(State())
      modifies this
      ensures Sound(State())
      ensures (State(), ret) == RmResult(old(State()), uid, path, now)
      ensures var r := Lookup(old(v), File, uid, path);
              if r.None? then ret == -1 && State() == old(State())
              else ret == 0 && State() == Drop(old(State()), {r.value}, now)
    {
      hide Drop, UnlinkAll, Refs, Unlinked, CountsCover, ParentsFirst;
      ghost var t := State();
      ghost var r := Lookup(v, File, uid, path);
      var hashId := DelFileInV(uid, path);
      if hashId == -1 {
        return -1;
      }
      DropFile(t, r.value, now);
      DropSound(t, {r.value}, now);
      var count := DelFileInG(hashId);
      if count == -1 {
        return -1;
      }
      if count == 0 {
        UpdFileInG(hashId, now);
      }
      OneUnlinked(t.g[hashId], now);
      assert g == t.g[hashId := Unlinked(t.g[hashId], 1, now)];
      return 0;
    }

    /** Removes the caller's directory at `path` and, child by child through
        the children's own paths, everything of the caller's below it. */
    method RmdirCommand(uid: int, path: string, now: int) returns (num: int)
      requires Sound(State())
      modifies this
      ensures Sound(State())
      ensures (State(), num) == RmdirResult(old(State()), uid, path, now)
      ensures var r := Lookup(old(v), Directory, uid, path);
              if r.None? then num == -1 && State() == old(State())
              else var s := Removed(old(v), uid, r.value);
                   num == Tally(old(v), uid, s) && State() == Drop(old(State()), s, now)
      decreases |v|, 2
    {
      ghost var t := State();
      var d := DelDirV(uid, path);
      if d == -1 {
        return -1;
      }
      num := RemoveUnder(t, uid, d, now);
    }

    /** The part of rmdir that follows the deletion of the directory's own row. */
    method RemoveUnder(ghost t: Tables, uid: int, d: int, now: int) returns (num: int)
      requires Sound(t) && ParentsFirst(t.v)
      requires d in t.v && t.v[d].kind == Directory && t.v[d].userId == uid
      requires State() == t.(v := t.v - {d})
      modifies this
      ensures Sound(State())
      ensures State() == Drop(t, Removed(t.v, uid, d), now)
      ensures num == Tally(t.v, uid, Removed(t.v, uid, d))
      decreases |t.v|, 1
    {
      hide *;
      StartRemoval(t, uid, d, now);
      var rows := GetDirContents(d);
      ListingBefore(t, d, rows);
      num := RemoveContents(t, uid, d, rows, now);
      AllChildrenDone(t, uid, d, now);
      PartwaySmaller(t, uid, d, Children(t.v, d), now);
      NoRows(t, d, rows);
      NothingCounted(t.v, uid, d);
      if |rows| == 0 {
        num := 1;
      }
    }

    /** The loop over the fetched children, adding up what each one yields. */
    method RemoveContents(ghost t: Tables, uid: int, d: int, rows: seq<Entry>, now: int) returns (num: int)
      requires Sound(t) && d in t.v && Listing(t, d, rows)
      requires State() == Partway(t, uid, d, {}, now)
      modifies this
      ensures State() == Partway(t, uid, d, Children(t.v, d), now)
      ensures num == PartCount(t.v, uid, d, Children(t.v, d))
      decreases |t.v|, 0
    {
      hide Sound, Partway, PartCount, RmResult, RmdirResult;
      num := 0;
      NothingCounted(t.v, uid, d);
      ghost var done: set<int> := {};
      for i := 0 to |rows|
        invariant done == Ids(rows[..i])
        invariant State() == Partway(t, uid, d, done, now)
        invariant num == PartCount(t.v, uid, d, done)
      {
        IdsStep(rows, i);
        assert rows[i].id in Children(t.v, d) && done <= Children(t.v, d);
        PartwaySmaller(t, uid, d, done, now);
        ChildHandled(t, uid, d, done, rows[i].id, now);
        var n := RemoveChild(rows[i], uid, now);
        num := num + n;
        done := done + {rows[i].id};
      }
      assert rows[..|rows|] == rows;
    }

    method RemoveChild(row: Entry, uid: int, now: int) returns (num: int)
      requires Sound(State())
      modifies this
      ensures row.kind == File ==> State() == RmResult(old(State()), uid, row.path, now).0 && num == 1
      ensures row.kind == Directory ==> (State(), num) == RmdirResult(old(State()), uid, row.path, now)
      decreases |v|, 3
    {
      if row.kind == File {
        var _ := RmCommand(uid, row.path, now);
        num := 1;
      } else {
        num := RmdirCommand(uid, row.path, now);
      }
    }

    // ----- growth ----------------------------------------------------------

    /** INSERT INTO virtualFile, subject to the schema's constraints. */
    method InsertRow(row: VRow) returns (ok: bool)
      modifies this`v, this`nextFile
      ensures State() == InsertV(old(State()), row)
      ensures ok <==> (forall x | x in old(v) :: old(v)[x].path != row.path) && |row.path| <= 32 && |row.fileName| <= 32
                      && (row.hashId.Some? ==> row.hashId.value in g) && row.userId in u
      ensures v == if ok then old(v)[old(nextFile) := row] else old(v)
    {
      ok := (forall x | x in v :: v[x].path != row.path)
            && |row.path| <= NAME_LIMIT && |row.fileName| <= NAME_LIMIT
            && (row.hashId.Some? ==> row.hashId.value in g)
            && row.userId in u;
      if ok {
        v := v[nextFile := row];
        nextFile := nextFile + 1;
      }
    }

    method AddGlobFile(hash: string)
      modifies this`g, this`nextHash
      ensures State() == InsertG(old(State()), hash)
    {
      g := g[nextHash := GRow(hash, 1, None)];
      nextHash := nextHash + 1;
    }

    method UpdataLink(hash: string)
      modifies this`g
      ensures State() == BumpLinks(old(State()), hash)
    {
      g := map h | h in g ::
        if g[h].hash == hash then g[h].(linkCount := g[h].linkCount + 1, lastLinkTime := None) else g[h];
    }

    /** Scans the content rows in key order and keeps the last match. */
    method GetHashId(hash: string) returns (hashId: int)
      ensures var h := LastWithHash(g, hash, nextHash);
              hashId == if h.Some? then h.value else 0
    {
      hashId := 0;
      for k := 0 to nextHash
        invariant var h := LastWithHash(g, hash, k);
                  hashId == if h.Some? then h.value else 0
      {
        if k in g && g[k].hash == hash {
          hashId := k;
        }
      }
    }

    /** A user whose row has been removed is taken for user 0, whom the schema
        does not know. */
    method AddVirtualRow(uid: int, name: string, hash: string, size: int) returns (ok: bool)
      requires uid in u
      modifies this`v, this`nextFile
      ensures State() == AddVirtual(old(State()), uid, name, hash, size)
      ensures ok <==> Present(old(State()), uid)
                      && Insertable(old(State()), UploadRow(old(State()), uid, name, hash, size))
    {
      var cwd := u[uid];
      if cwd !in v {
        return false;
      }
      var hashId := GetHashId(hash);
      ok := InsertRow(VRow(cwd, name, v[cwd].userId, Some(hashId), size, File, v[cwd].path + "/" + name));
    }

    // ----- commands --------------------------------------------------------

    method MkdirCommand(uid: int, arg: string) returns (ok: bool)
      requires uid in u
      modifies this
      ensures State() == Exec(old(State()), Mkdir(uid, arg))
      ensures ok <==> v != old(v)
    {
      var cwd := u[uid];
      if cwd !in v {
        return false;
      }
      var path;
      if StartsUp(arg) {
        var parent := v[cwd].parentId;
        if parent !in v {
          return false;
        }
        path := Concatenate(v[parent].path, arg[3..]);
      } else {
        path := Concatenate(v[cwd].path, arg);
      }
      ok := InsertRow(VRow(cwd, FinalDir(arg), uid, None, 0, Directory, path));
      assert ok ==> v[old(nextFile)].path == path && forall x | x in old(v) :: old(v)[x].path != path;
    }

    /** The table updates that end an upload; `len` 0 means there was nothing
        to send because the store already held the content. */
    method PutsTables(uid: int, name: string, hash: string, stored: int, len: int)
      requires uid in u
      modifies this
      ensures State() == Exec(old(State()),
                              if len == 0 then PutsInstant(uid, name, hash, stored)
                              else PutsSent(uid, name, hash, len))
    {
      if len == 0 {
        var _ := AddVirtualRow(uid, name, hash, stored);
        UpdataLink(hash);
        return;
      }
      AddGlobFile(hash);
      var _ := AddVirtualRow(uid, name, hash, len);
    }

    method RmPath(uid: int, arg: string, now: int) returns (ret: int)
      requires Sound(State()) && uid in u
      modifies this
      ensures State() == Exec(old(State()), Rm(uid, arg, now))
      ensures var r := Target(old(State()), File, uid, arg);
              if r.None? then ret == -1 && State() == old(State())
              else ret == 0 && State() == Drop(old(State()), {r.value}, now)
      ensures Sound(State())
    {
      var whole := PathHandler.GetWholePath(arg, PathOf(v, u[uid]));
      if whole == None {
        return -1;
      }
      ret := RmCommand(uid, whole.value, now);
    }

    method RmdirPath(uid: int, arg: string, now: int) returns (num: int)
      requires Sound(State()) && uid in u
      modifies this
      ensures State() == Exec(old(State()), Rmdir(uid, arg, now))
      ensures var r := Target(old(State()), Directory, uid, arg);
              if r.None? then num == -1 && State() == old(State())
              else var s := Removed(old(v), uid, r.value);
                   num == Tally(old(v), uid, s) && State() == Drop(old(State()), s, now)
      ensures Sound(State())
    {
      var whole := PathHandler.GetWholePath(arg, PathOf(v, u[uid]));
      if whole == None {
        return -1;
      }
      num := RmdirCommand(uid, whole.value, now);
    }

    /** Moves a user to the directory row with the given path: 1 when it did,
        0 when the select came back empty. */
    method UpdDirInU(uid: int, path: string) returns (ret: int)
      requires UniquePaths(v) && uid in u
      modifies this`u
      ensures var r := Lookup(v, Directory, uid, path);
              if r.None? then ret == 0 && u == old(u) else ret == 1 && u == old(u)[uid := r.value]
    {
      var rows := SelectByPath(Directory, uid, path);
      if |rows| == 0 {
        assert Lookup(v, Directory, uid, path).None? by {
          assert forall x | x in v :: Matches(v[x], Directory, uid, path) ==> x in rows;
        }
        return 0;
      }
      var dirId := rows[|rows| - 1];
      assert dirId in rows;
      LookupUnique(v, Directory, uid, path, dirId);
      u := u[uid := dirId];
      return 1;
    }

    /** Replies with the text of the new directory, or None. */
    method CdCommand(uid: int, arg: string) returns (reply: Option<string>)
      requires UniquePaths(v) && uid in u
      modifies this`u
      ensures State() == Exec(old(State()), Cd(uid, arg))
      ensures reply.Some? <==> CdByText(old(State()), uid, arg).Some?
      ensures reply.Some? ==> Present(State(), uid) && reply.value == v[u[uid]].path
      ensures reply.None? ==> State() == old(State())
      ensures v == old(v) && g == old(g) && u.Keys == old(u).Keys && forall w | w in u && w != uid :: u[w] == old(u)[w]
    {
      var whole := PathHandler.GetWholePath(arg, PathOf(v, u[uid]));
      if whole == None {
        return None;
      }
      var path := whole.value;
      if path != "" && path[|path| - 1] == '/' {
        path := path[..|path| - 1];
      }
      var ret := UpdDirInU(uid, path);
      if ret == 1 {
        reply := Some(path);
      } else {
        reply := None;
      }
    }

    /** The content a download is served from, None when there is no such file. */
    method ExitFile(uid: int, name: string) returns (hash: Option<string>)
      requires UniquePaths(v) && uid in u
      ensures hash == DownloadHash(State(), uid, name)
      ensures if h, x :| x in v && v[x].path == PathOf(v, u[uid]) + "/" + name && v[x].hashId == Some(h) && h in g
              then hash == Some(g[h].hash) else hash == None
    {
      var path := PathOf(v, u[uid]) + "/" + name;
      var rows := Enumerate(set x | x in v && v[x].path == path && v[x].hashId.Some? && v[x].hashId.value in g);
      if |rows| == 0 {
        assert forall x | x in v && v[x].path == path && v[x].hashId.Some? && v[x].hashId.value in g :: x in rows;
        return None;
      }
      var x := rows[0];
      assert x in rows;
      assert forall y | y in v && v[y].path == path :: y == x;
      return Some(g[v[x].hashId.value].hash);
    }
  }

  lemma {:induction false} OneUnlinked(row: GRow, now: int)
    ensures var n := row.linkCount - 1;
            Unlinked(row, 1, now)
            == if n == 0 then row.(linkCount := n).(lastLinkTime := Some(now)) else row.(linkCount := n)
  {
  }

  /** `rows` lists the children of `d`, each once. */
  ghost predicate Listing(t: Tables, d: int, rows: seq<Entry>) {
    && Ids(rows) == Children(t.v, d)
    && forall i | 0 <= i < |rows| ::
         rows[i].id in t.v && rows[i] == Entry(rows[i].id, t.v[rows[i].id].kind, t.v[rows[i].id].path)
         && rows[i].id !in Ids(rows[..i])
  }

  /** Deleting the directory's own row is the first partway state. */
  lemma {:induction false} StartRemoval(t: Tables, uid: int, d: int, now: int)
    requires Sound(t) && d in t.v && t.v[d].kind == Directory
    ensures t.(v := t.v - {d}) == Partway(t, uid, d, {}, now)
    ensures Sound(Partway(t, uid, d, {}, now))
    ensures |t.v - {d}| < |t.v|
  {
    var below := RemovedBelow(t.v, uid, {});
    assert below == {};
    assert {d} + below == {d};
    DropDirectories(t, {d}, now);
    DropSound(t, {d}, now);
    assert (t.v - {d}).Keys == t.v.Keys - {d};
  }

  lemma {:induction false} NoRows(t: Tables, d: int, rows: seq<Entry>)
    requires Listing(t, d, rows)
    ensures rows == [] <==> Children(t.v, d) == {}
  {
    if rows != [] {
      assert rows[0].id in Ids(rows);
    }
  }

  lemma {:induction false} ListingBefore(t: Tables, d: int, rows: seq<Entry>)
    requires d in t.v && ParentsFirst(t.v) && Listing(t.(v := t.v - {d}), d, rows)
    ensures Listing(t, d, rows)
  {
    assert Children(t.v - {d}, d) == Children(t.v, d);
  }

  lemma {:induction false} NothingCounted(v: VTable, uid: int, d: int)
    ensures PartCount(v, uid, d, {}) == 0
  {
    var below := RemovedBelow(v, uid, {});
    assert FilesIn(v, {d}) * {} == {} && ForeignIn(v, uid, {d}) * {} == {};
    assert FilesIn(v, below) == {} && EmptyIn(v, below) == {} && ForeignIn(v, uid, below) == {};
  }
}
