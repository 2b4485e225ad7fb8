/** Small states from which a command breaks the forest or the link counts. */
module ForestExamples {
  import opened Basics
  import opened PathStrings
  import opened Tables
  import opened Subtree
  import opened Commands
  import opened Navigation
  import opened FileSystemRuns
  import opened ForestRuns

  const TOP_ROW := VRow(0, "file", 1, None, -1, Directory, "/file")
  const HOME_ROW := VRow(1, "will", 2, None, -1, Directory, "/file/will")

  /** The two rows and users such a start can consist of. */
  function OneHome(): Tables {
    Tables(map[1 := TOP_ROW, 2 := HOME_ROW], map[], map[1 := 1, 2 := 2], 3, 1)
  }

  lemma {:induction false} OneHomeIsStart()
    ensures OnlyDirectories(OneHome()) && Consistent(OneHome())
  {
    var t := OneHome();
    HomeRows(t.v);
    assert "/file" != "/file/will";
    hide RowOk, Component;
    StartIsConsistent(t);
  }

  lemma {:induction false} HomeRows(v: VTable)
    requires v == map[1 := TOP_ROW, 2 := HOME_ROW]
    ensures RowOk(v, 1) && RowOk(v, 2)
  {
    assert Token("file") && Token("will");
    assert "" + "/" + "file" == "/file" && "/file" + "/" + "will" == "/file/will";
  }

  /** A user who asks for a directory two steps down gets a row whose path is
      not its parent's path and its name. */
  lemma {:induction false} NestedMkdirBreaksTree() returns (t: Tables)
    ensures Consistent(t) && Present(t, 2) && !Tree(Exec(t, Mkdir(2, "a/b")).v)
  {
    hide OneHome, FinalDir, MkdirRow, Insertable, MkdirFits;
    OneHomeIsStart();
    NestedRow();
    t := OneHome();
    NestedRowAccepted(MkdirRow(t.v, 2, 2, "a/b").value);
    MkdirKeepsTree(t, 2, "a/b");
  }

  lemma {:induction false} NestedRow()
    ensures Present(OneHome(), 2) && OneHome().u[2] == 2 && !MkdirFits(OneHome().v, 2, "a/b")
    ensures var row := MkdirRow(OneHome().v, 2, 2, "a/b");
            && row.Some? && row.value.path == "/file/will/a/b" && |row.value.fileName| <= 3
            && row.value.hashId.None? && row.value.userId == 2
  {
    assert "a/b"[..3][0] == 'a' && "../"[0] == '.';
    assert "a/b"[1] == '/';
    assert HOME_ROW.path[9] == 'l';
    assert "/file/will" + "/" + "a/b" == "/file/will/a/b";
  }

  lemma {:induction false} NestedRowAccepted(row: VRow)
    requires row.path == "/file/will/a/b" && |row.fileName| <= 3 && row.hashId.None? && row.userId == 2
    ensures Insertable(OneHome(), row)
  {
    assert |row.path| == 14 && |TOP_ROW.path| == 5 && |HOME_ROW.path| == 10;
  }

  /** So does an upload under a name with a slash in it. */
  lemma {:induction false} NestedPutsBreaksTree() returns (t: Tables)
    ensures Consistent(t) && Exact(t) && Present(t, 2) && !Tree(Exec(t, PutsSent(2, "a/b", "h", 1)).v)
  {
    hide OneHome, Tree, Insertable, Exact, Framed, Homes, UploadRow;
    OneHomeIsStart();
    t := OneHome();
    StartIsConsistent(t);
    ConsistentParts(t);
    NewContentUnreferenced(t, "h");
    NestedUpload();
    SafeIsSound(InsertG(t, "h"));
    SameForest(t, InsertG(t, "h"));
    UploadKeepsTree(InsertG(t, "h"), 2, "a/b", "h", 1);
  }

  lemma {:induction false} NestedUpload()
    ensures Present(OneHome(), 2) && !Component("a/b")
    ensures var t := InsertG(OneHome(), "h"); Insertable(t, UploadRow(t, 2, "a/b", "h", 1))
  {
    assert "a/b"[1] == '/';
    var t := InsertG(OneHome(), "h");
    var row := UploadRow(t, 2, "a/b", "h", 1);
    assert row.path == ("/file/will" + "/") + "a/b";
    assert |row.path| == 14 && |TOP_ROW.path| == 5 && |HOME_ROW.path| == 10;
  }

  /** User 1 removes the directory above the home of user 2, whose row is left
      behind without a parent. The number returned is the -1 that is reported as
      failure. */
  lemma {:induction false} RmdirLeavesOrphan() returns (t: Tables)
    ensures Consistent(t) && Present(t, 1) && !Tree(Exec(t, Rmdir(1, "/file", 0)).v)
    ensures 2 in Exec(t, Rmdir(1, "/file", 0)).v && 1 !in Exec(t, Rmdir(1, "/file", 0)).v
    ensures WholePath("/file", t.v[t.u[1]].path) == Some("/file") && RmdirResult(t, 1, "/file", 0).1 == -1
  {
    hide Tree, Homes, Safe, Drop, UnlinkAll, Tally, Removed, Below;
    OneHomeIsStart();
    t := OneHome();
    assert "/file"[0] == '/';
    assert Matches(t.v[1], Directory, 1, "/file");
    TreeIsUnique(t.v);
    LookupUnique(t.v, Directory, 1, "/file", 1);
    RmdirKeepsTree(t.v, 1, 1);
    WillBelow();
    DropIs(t, Removed(t.v, 1, 1), 0);
  }

  lemma {:induction false} TreeIsUnique(v: VTable)
    requires Tree(v)
    ensures UniquePaths(v)
  {
  }

  lemma {:induction false} WillBelow()
    ensures 2 in Below(OneHome().v, 1) && OneHome().v[2].userId == 2
    ensures 1 in Removed(OneHome().v, 1, 1) && 2 !in Removed(OneHome().v, 1, 1)
    ensures Tally(OneHome().v, 1, Removed(OneHome().v, 1, 1)) == -1
  {
    var v := OneHome().v;
    assert Under(v, 1, 1);
    assert Removed(v, 1, 1) == {1};
    assert FilesIn(v, {1}) == {};
    assert 2 in Children(v, 1);
    assert EmptyIn(v, {1}) == {};
    assert ForeignIn(v, 1, {1}) == {2};
  }

  /** User 1 uploads a file named like the directory that is there already: the
      row is refused, and its new content row counts a link nobody holds. */
  lemma {:induction false} RefusedUploadBreaksCounts() returns (t: Tables)
    ensures Consistent(t) && Exact(t) && Present(t, 1)
    ensures var t' := Exec(t, PutsSent(1, "will", "h", 1)); Consistent(t') && !Exact(t')
  {
    hide OneHome, Tree, Homes, Safe, Framed, Exact, Insertable, Component;
    OneHomeIsStart();
    t := OneHome();
    StartIsConsistent(t);
    ConsistentParts(t);
    SameName();
    StepExactly(t, PutsSent(1, "will", "h", 1));
    StepConsistentExactly(t, PutsSent(1, "will", "h", 1));
  }

  lemma {:induction false} SameName()
    ensures Present(OneHome(), 1) && Rejected(OneHome(), PutsSent(1, "will", "h", 1))
    ensures !CountsRight(OneHome(), PutsSent(1, "will", "h", 1))
  {
    assert ("/file" + "/") + "will" == "/file/will";
    var t := InsertG(OneHome(), "h");
    assert t.v[2].path == UploadRow(t, 1, "will", "h", 1).path;
  }

  /** User 2 removes the directory it stands in and goes on: an upload has no row
      to go to, and its content counts a link all the same. */
  lemma {:induction false} StrandedUploads() returns (t: Tables, s: Tables)
    ensures Consistent(t) && 2 in t.u && s == Exec(t, Rmdir(2, "/file/will", 0))
    ensures 2 in s.u && !Present(s, 2) && Safe(s) && Exact(s)
    ensures var s' := Exec(s, PutsSent(2, "a", "h", 1)); s'.v == s.v && Safe(s') && !Exact(s')
  {
    hide Tree, Homes, Safe, Framed, Exact, Drop, UnlinkAll, Tally, Removed, Insertable;
    OneHomeIsStart();
    t := OneHome();
    StartIsConsistent(t);
    ConsistentParts(t);
    assert "/file/will"[0] == '/';
    assert Matches(t.v[2], Directory, 2, "/file/will");
    TreeIsUnique(t.v);
    LookupUnique(t.v, Directory, 2, "/file/will", 2);
    s := Exec(t, Rmdir(2, "/file/will", 0));
    StepKeepsSafe(t, Rmdir(2, "/file/will", 0));
    StepExactly(t, Rmdir(2, "/file/will", 0));
    DropIs(t, Removed(t.v, 2, 2), 0);
    WillGone();
    StepKeepsSafe(s, PutsSent(2, "a", "h", 1));
    StepExactly(s, PutsSent(2, "a", "h", 1));
  }

  lemma {:induction false} WillGone()
    ensures 2 in Removed(OneHome().v, 2, 2)
  {
    assert OwnedUnder(OneHome().v, 2, 2, 2);
  }
}
