/** What mkdir and uploads are for: the row they make is found again by its name,
    belongs to the user, and disturbs no other. */
module Creation {
  import opened Basics
  import opened PathStrings
  import opened Tables
  import opened Subtree
  import opened Commands
  import opened Navigation
  import opened FileSystemRuns
  import opened ForestRuns

  /** The texts fit their columns and nobody has the path. */
  ghost predicate Room(v: VTable, name: string, path: string) {
    |name| <= 32 && |path| <= 32 && forall x | x in v :: v[x].path != path
  }

  // ----- texts ------------------------------------------------------------------------

  /** An argument without superfluous slashes, of one ".." at most and behind it
      one name at least. */
  predicate Plain(arg: string) {
    var cs := Components(arg);
    arg == JoinRel(cs) && LeadingDots(cs) <= 1 && LeadingDots(cs) < |cs|
  }

  function Last(cs: seq<string>): string
    requires cs != []
  {
    cs[|cs| - 1]
  }

  lemma {:induction false} AfterSlash(pre: string, last: string)
    requires '/' !in last
    ensures AfterLastSlash(pre + "/" + last) == last
    decreases |last|
  {
    var s := pre + "/" + last;
    if last != "" {
      var front := last[..|last| - 1];
      assert s[|s| - 1] == last[|last| - 1];
      assert s[..|s| - 1] == pre + "/" + front;
      AfterSlash(pre, front);
    }
  }

  lemma {:induction false} JoinRelLast(cs: seq<string>)
    requires |cs| >= 2
    ensures JoinRel(cs) == JoinRel(cs[..|cs| - 1]) + "/" + Last(cs)
  {
    var front, last := cs[..|cs| - 1], Last(cs);
    assert cs[1..] == front[1..] + [last];
    JoinAbsAppend(front[1..], [last]);
    JoinAbsOne(last);
    assert JoinRel(cs) == cs[0] + (JoinAbs(front[1..]) + ("/" + last));
    assert JoinRel(front) + "/" + last == (cs[0] + JoinAbs(front[1..])) + ("/" + last);
  }

  /** The last component of a joined path is what stands behind its last slash. */
  lemma {:induction false} LastOfJoin(cs: seq<string>)
    requires Tokens(cs) && cs != []
    ensures AfterLastSlash(JoinRel(cs)) == Last(cs)
  {
    assert Token(Last(cs));
    if |cs| == 1 {
      assert JoinRel(cs) == cs[0] + "" == cs[0];
    } else {
      JoinRelLast(cs);
      AfterSlash(JoinRel(cs[..|cs| - 1]), Last(cs));
    }
  }

  lemma {:induction false} UpText(first: string, tail: string)
    requires first != "" && '/' !in first && (tail == "" || tail[0] == '/')
    ensures StartsUp(first + tail) <==> first == ".." && tail != ""
  {
    var arg := first + tail;
    assert forall i | 0 <= i < |first| :: arg[i] == first[i];
    assert tail != "" ==> arg[|first|] == '/';
    assert |arg| >= 3 ==> (arg[..3] == "../" <==> arg[0] == '.' && arg[1] == '.' && arg[2] == '/');
  }

  /** A joined path starts with "../" exactly when its first component is "..",
      and not the only one. */
  lemma {:induction false} UpOfJoin(cs: seq<string>)
    requires Tokens(cs) && cs != []
    ensures JoinRel(cs) == cs[0] + JoinAbs(cs[1..])
    ensures StartsUp(JoinRel(cs)) <==> |cs| >= 2 && cs[0] == ".."
    ensures |cs| >= 2 && cs[0] == ".." ==> JoinRel(cs)[3..] == JoinRel(cs[1..])
  {
    var first, rest := cs[0], cs[1..];
    assert Token(first);
    JoinShape(rest);
    UpText(first, JoinAbs(rest));
    assert JoinAbs([]) == "";
    if rest != [] && first == ".." {
      assert JoinRel(cs) == "../" + JoinRel(rest);
    }
  }

  lemma {:induction false} OneDot(cs: seq<string>)
    requires LeadingDots(cs) <= 1 && LeadingDots(cs) < |cs|
    ensures LeadingDots(cs) == if cs[0] == ".." then 1 else 0
    ensures cs[0] == ".." ==> |cs| >= 2
  {
  }

  lemma {:induction false} FinalOfJoin(cs: seq<string>)
    requires Tokens(cs) && cs != [] && (cs[0] == ".." ==> |cs| >= 2)
    ensures FinalDir(JoinRel(cs)) == Last(cs)
  {
    hide JoinRel, JoinAbs, AfterLastSlash, StartsUp, Token;
    UpOfJoin(cs);
    LastOfJoin(cs);
    if cs[0] == ".." {
      LastOfJoin(cs[1..]);
    }
  }

  lemma {:induction false} PlainParts(arg: string)
    requires Plain(arg)
    ensures var cs := Components(arg);
            && Tokens(cs) && cs != [] && arg == JoinRel(cs) && FinalDir(arg) == Last(cs) && !Absolute(arg)
            && (StartsUp(arg) <==> cs[0] == "..") && LeadingDots(cs) == (if cs[0] == ".." then 1 else 0)
            && (StartsUp(arg) ==> |cs| >= 2 && arg[3..] == JoinRel(cs[1..]))
  {
    hide Components, JoinRel, JoinAbs, FinalDir, Last, StartsUp, LeadingDots, Token, Tokens;
    var cs := Components(arg);
    SplitYieldsTokens(arg);
    OneDot(cs);
    UpOfJoin(cs);
    FinalOfJoin(cs);
    FirstIsToken(cs);
  }

  lemma {:induction false} FirstIsToken(cs: seq<string>)
    requires Tokens(cs) && cs != []
    ensures !Absolute(JoinRel(cs))
  {
    assert Token(cs[0]) && cs[0][0] in cs[0];
  }

  // ----- mkdir ------------------------------------------------------------------------

  /** What mkdir pastes together for a plain argument is what the resolver makes
      of it. */
  lemma {:induction false} PastedIsResolved(v: VTable, cwd: int, arg: string)
    requires Tree(v) && cwd in v && Plain(arg)
    ensures var whole, p := WholePath(arg, v[cwd].path), v[cwd].parentId;
            && whole.Some? && StripSlash(whole.value) == whole.value
            && (!StartsUp(arg) ==> whole.value == v[cwd].path + "/" + arg)
            && (StartsUp(arg) && p in v ==> whole.value == v[p].path + "/" + arg[3..])
  {
    hide Tree, JoinAbs, JoinRel, NamesTo, Components, StartsUp, LeadingDots, WholePath, PathOf, FinalDir;
    var cs := Components(arg);
    var base, k := NamesTo(v, cwd), LeadingDots(cs);
    PlainParts(arg);
    WholeByNames(v, cwd, arg);
    ParentNames(v, cwd);
    var front := base[..|base| - k];
    WholeOfParts(front, cs[k..]);
    assert Tokens(front + cs[k..]);
    JoinAbsEnd(front + cs[k..]);
    assert base[..|base|] == base && cs[0..] == cs;
  }

  lemma {:induction false} ParentNames(v: VTable, x: int)
    requires Tree(v) && x in v
    ensures var names := NamesTo(v, x);
            && names != [] && Tokens(names) && v[x].path == JoinAbs(names)
            && (v[x].parentId in v ==> v[v[x].parentId].path == JoinAbs(names[..|names| - 1]))
  {
    hide JoinAbs;
    var p := v[x].parentId;
    RowFacts(v, x);
    PathIsJoinedNames(v, x);
    PathIsJoinedNames(v, p);
    assert NamesTo(v, x) == NamesTo(v, p) + [v[x].fileName];
    assert NamesTo(v, x)[..|NamesTo(v, x)| - 1] == NamesTo(v, p);
  }

  /** The row mkdir asks for with a plain argument. */
  lemma {:induction false} PlainRow(v: VTable, cwd: int, uid: int, arg: string)
    requires Tree(v) && cwd in v && Plain(arg)
    ensures var whole, cs := WholePath(arg, v[cwd].path), Components(arg);
            && whole.Some? && cs != []
            && MkdirRow(v, cwd, uid, arg)
               == if cs[0] == ".." && v[cwd].parentId !in v then None
                  else Some(VRow(cwd, Last(cs), uid, None, 0, Directory, whole.value))
  {
    hide Tree, WholePath, Components, StartsUp, FinalDir, Plain, MkdirRow, JoinRel, LeadingDots, StripSlash;
    PlainParts(arg);
    PastedIsResolved(v, cwd, arg);
    MkdirRowText(v, cwd, uid, arg);
    MkdirRowFields(v, cwd, uid, arg);
  }

  /** A plain argument names a new directory below the current one's or its
      parent's path. When there is room for it, it is made: owned by the user, in
      the current directory, found by cd with the same argument, with every other
      row as before. Otherwise nothing changes. */
  lemma {:induction false} MkdirMakes(t: Tables, uid: int, arg: string)
    requires Consistent(t) && uid in t.u && Plain(arg)
    ensures var t', cwd, n := Exec(t, Mkdir(uid, arg)), t.u[uid], t.nextFile;
            && cwd in t.v && WholePath(arg, t.v[cwd].path).Some? && Components(arg) != []
            && var name, path := Last(Components(arg)), WholePath(arg, t.v[cwd].path).value;
               if Room(t.v, name, path) && (Components(arg)[0] == ".." ==> t.v[cwd].parentId in t.v)
               then && t' == t.(v := t.v[n := VRow(cwd, name, uid, None, 0, Directory, path)], nextFile := n + 1)
                    && n !in t.v && CdByText(t', uid, arg) == Some(n)
               else t' == t
  {
    hide Consistent, Tree, WholePath, Components, Plain, MkdirRow, StripSlash;
    var cwd := t.u[uid];
    AtHome(t, uid);
    ConsistentTree(t);
    PastedIsResolved(t.v, cwd, arg);
    PlainRow(t.v, cwd, uid, arg);
    var row := MkdirRow(t.v, cwd, uid, arg);
    if row.Some? {
      RoomForRow(t, row.value);
      if Insertable(t, row.value) {
        NewRowFound(t, row.value);
      }
    }
  }

  /** A directory of a known user is accepted exactly when there is room. */
  lemma {:induction false} RoomForRow(t: Tables, row: VRow)
    requires row.hashId.Some? ==> row.hashId.value in t.g
    requires row.userId in t.u
    ensures Insertable(t, row) <==> Room(t.v, row.fileName, row.path)
  {
  }

  lemma {:induction false} ConsistentTree(t: Tables)
    requires Consistent(t)
    ensures Tree(t.v) && UniquePaths(t.v) && FreshKeys(t) && t.nextFile !in t.v
  {
  }

  lemma {:induction false} MkdirRowFields(v: VTable, cwd: int, uid: int, arg: string)
    requires cwd in v
    ensures var row := MkdirRow(v, cwd, uid, arg);
            && (row.Some? <==> StartsUp(arg) ==> v[cwd].parentId in v)
            && (row.Some? ==> row.value.userId == uid && row.value.hashId == None && row.value.fileSize == 0
                              && row.value.kind == Directory)
  {
  }

  /** An accepted row is found by its type, owner and path. */
  lemma {:induction false} NewRowFound(t: Tables, row: VRow)
    requires UniquePaths(t.v) && t.nextFile !in t.v && Insertable(t, row)
    ensures Lookup(InsertV(t, row).v, row.kind, row.userId, row.path) == Some(t.nextFile)
  {
    InsertedUnique(t, row);
    LookupUnique(InsertV(t, row).v, row.kind, row.userId, row.path, t.nextFile);
  }

  lemma {:induction false} ComponentsAppend(a: string, b: string)
    requires b == "" || b[0] == '/'
    ensures Components(a + b) == Components(a) + Components(b)
    decreases |a|
  {
    if a == "" {
      assert a + b == b;
    } else if a[0] == '/' {
      assert (a + b)[1..] == a[1..] + b;
      ComponentsAppend(a[1..], b);
    } else {
      var n := TokenLength(a);
      var front, rest := a[..n], a[n..];
      assert a == front + rest && a + b == front + (rest + b);
      ComponentsAppend(rest, b);
      ComponentsOfToken(front, rest);
      ComponentsOfToken(front, rest + b);
    }
  }

  /** A slash between two paths only adds the components of the second. */
  lemma {:induction false} ComponentsBehind(a: string, b: string)
    ensures Components(a + "/" + b) == Components(a) + Components(b)
  {
    assert a + "/" + b == a + ("/" + b);
    assert ("/" + b)[1..] == b;
    ComponentsAppend(a, "/" + b);
  }

  lemma {:induction false} RestIsJoined(front: seq<string>, rest: seq<string>, sub: string)
    requires JoinAbs(front + rest) == JoinAbs(front) + "/" + sub
    ensures rest != [] && sub == JoinRel(rest)
  {
    hide JoinAbs, JoinRel;
    assert rest == [] ==> front + rest == front;
    WholeIsJoin(front, rest);
    SamePrefix(JoinAbs(front), sub, JoinRel(rest));
  }

  /** Without "..": the pasted path is the resolved one only if the argument is
      as it would be joined. */
  lemma {:induction false} PastedBelow(base: seq<string>, arg: string, k: nat)
    requires Tokens(base) && k == LeadingDots(Components(arg)) <= |base|
    requires JoinAbs(base[..|base| - k] + Components(arg)[k..]) == JoinAbs(base) + "/" + arg
    ensures k == 0 && Plain(arg)
  {
    hide JoinAbs, JoinRel, Components, LeadingDots;
    var cs := Components(arg);
    SplitYieldsTokens(arg);
    ComponentsBehind(JoinAbs(base), arg);
    SplitOfJoin(base);
    SplitOfJoin(base[..|base| - k] + cs[k..]);
    assert |base + cs| == |base[..|base| - k] + cs[k..]|;
    assert base[..|base|] == base && cs[0..] == cs;
    RestIsJoined(base, cs, arg);
  }

  lemma {:induction false} PastedAbove(base: seq<string>, arg: string, k: nat)
    requires Tokens(base) && k == LeadingDots(Components(arg)) <= |base| && StartsUp(arg) && base != []
    requires JoinAbs(base[..|base| - k] + Components(arg)[k..]) == JoinAbs(base[..|base| - 1]) + "/" + arg[3..]
    ensures Plain(arg)
  {
    hide JoinAbs, JoinRel, Components;
    var cs, up, sub := Components(arg), base[..|base| - 1], arg[3..];
    assert arg == ".." + "/" + sub;
    SplitYieldsTokens(arg);
    DotsAreOne();
    ComponentsBehind("..", sub);
    ComponentsBehind(JoinAbs(up), sub);
    SplitOfJoin(up);
    SplitOfJoin(base[..|base| - k] + cs[k..]);
    assert |up + cs[1..]| == |base[..|base| - k] + cs[k..]|;
    RestIsJoined(up, cs[1..], sub);
    UpOfJoin(cs);
    JoinShape(cs[1..]);
  }

  lemma {:induction false} DotsAreOne()
    ensures Components("..") == [".."]
  {
    ComponentsOfToken("..", "");
    assert ".." + "" == "..";
  }

  lemma {:induction false} ResolvedOnlyIfPlain(v: VTable, cwd: int, uid: int, arg: string)
    requires Tree(v) && cwd in v && MkdirRow(v, cwd, uid, arg).Some? && WholePath(arg, v[cwd].path).Some?
    requires MkdirRow(v, cwd, uid, arg).value.path == StripSlash(WholePath(arg, v[cwd].path).value)
    ensures Plain(arg)
  {
    hide Tree, JoinAbs, JoinRel, NamesTo, Components, StartsUp, LeadingDots, FinalDir, Plain, MkdirRow, PathOf;
    MkdirRowText(v, cwd, uid, arg);
    ParentNames(v, cwd);
    StartsUpIsRelative(arg);
    if !Absolute(arg) {
      var base, cs := NamesTo(v, cwd), Components(arg);
      var k := LeadingDots(cs);
      WholeByNames(v, cwd, arg);
      StripWhole(base[..|base| - k], cs[k..]);
      if StartsUp(arg) {
        PastedAbove(base, arg, k);
      } else {
        PastedBelow(base, arg, k);
      }
    }
  }

  lemma {:induction false} StartsUpIsRelative(arg: string)
    ensures StartsUp(arg) ==> !Absolute(arg)
  {
    assert |arg| >= 3 ==> arg[..3][0] == arg[0];
  }

  /** And only plain arguments do: with any other the path stored for the new
      directory is one that cd with the same argument does not look for. */
  lemma {:induction false} MkdirThenCdExactly(t: Tables, uid: int, arg: string)
    requires Consistent(t) && uid in t.u
    ensures var t' := Exec(t, Mkdir(uid, arg));
            t' != t ==> (CdByText(t', uid, arg) == Some(t.nextFile) <==> Plain(arg))
  {
    hide Consistent, Tree, WholePath, Plain, MkdirRow, StripSlash, Insertable, Components;
    AtHome(t, uid);
    ConsistentTree(t);
    if Plain(arg) {
      MkdirMakes(t, uid, arg);
    } else if Exec(t, Mkdir(uid, arg)) != t {
      var t', row := Exec(t, Mkdir(uid, arg)), MkdirRow(t.v, t.u[uid], uid, arg);
      if CdByText(t', uid, arg) == Some(t.nextFile) {
        ResolvedOnlyIfPlain(t.v, t.u[uid], uid, arg);
      }
    }
  }

  // ----- uploads ----------------------------------------------------------------------

  /** A single name is a plain argument that leads to the path an upload stores. */
  lemma {:induction false} NameIsPlain(v: VTable, cwd: int, name: string)
    requires Tree(v) && cwd in v && Component(name)
    ensures WholePath(name, v[cwd].path) == Some(v[cwd].path + "/" + name)
  {
    ComponentsOfToken(name, "");
    assert name + "" == name;
    JoinShape([name]);
    assert JoinRel([name]) == name;
    assert |name| >= 3 ==> name[..3][2] == name[2];
    hide Tree, WholePath, Components, JoinRel, JoinAbs, TokenLength;
    PastedIsResolved(v, cwd, name);
  }

  /** What the row of an upload holds, when there is a content for it. */
  lemma {:induction false} UploadRowIs(t: Tables, uid: int, name: string, hash: string, size: int)
    requires Consistent(t) && uid in t.u
    ensures Present(t, uid)
    ensures var row, cwd, h := UploadRow(t, uid, name, hash, size), t.u[uid], LastWithHash(t.g, hash, t.nextHash);
            && row == VRow(cwd, name, uid, Some(if h.Some? then h.value else 0), size, File, t.v[cwd].path + "/" + name)
            && (h.None? ==> WithHash(t.g, hash) == {} && !Insertable(t, row))
            && (h.Some? ==> Newest(t.g, hash, h.value)
                            && (Insertable(t, row) <==> Room(t.v, name, t.v[cwd].path + "/" + name)))
  {
    hide Tree, LastWithHash;
    AtHome(t, uid);
    assert forall h | h in WithHash(t.g, hash) :: 0 < h < t.nextHash;
    assert 0 !in t.g;
    var h := LastWithHash(t.g, hash, t.nextHash);
    assert h.None? ==> forall k | k in WithHash(t.g, hash) :: false;
    assert h.Some? ==> h.value in t.g;
  }

  /** The latest of the content rows with the hash. */
  ghost predicate Newest(g: GTable, hash: string, h: int) {
    h in WithHash(g, hash) && forall k | k in WithHash(g, hash) :: k <= h
  }

  lemma {:induction false} StoredFileFound(t: Tables, t': Tables, uid: int, name: string, row: VRow)
    requires Consistent(t) && uid in t.u && Present(t, uid) && Component(name) && Insertable(t, row)
    requires row.kind == File && row.userId == uid && row.path == t.v[t.u[uid]].path + "/" + name
    requires t'.v == InsertV(t, row).v && t'.u == t.u
    ensures Target(t', File, uid, name) == Some(t.nextFile)
  {
    hide Consistent, Tree, WholePath, Component;
    ConsistentTree(t);
    NameIsPlain(t.v, t.u[uid], name);
    NewRowFound(t, row);
  }

  /** A transferred file gets a content row of its own with one link, and where
      there is room a file row of the user in the current directory, which the
      name finds. No other row changes. */
  lemma {:induction false} SentMakes(t: Tables, uid: int, name: string, hash: string, size: int)
    requires Consistent(t) && uid in t.u
    ensures var t', cwd, n := Exec(t, PutsSent(uid, name, hash, size)), t.u[uid], t.nextFile;
            && cwd in t.v && n !in t.v && t.nextHash !in t.g
            && t'.u == t.u && t'.g == t.g[t.nextHash := GRow(hash, 1, None)]
            && var path := t.v[cwd].path + "/" + name;
               if Room(t.v, name, path)
               then && t'.v == t.v[n := VRow(cwd, name, uid, Some(t.nextHash), size, File, path)]
                    && (Component(name) ==> Target(t', File, uid, name) == Some(n))
               else t'.v == t.v
  {
    var t1 := InsertG(t, hash);
    ConsistentTree(t);
    NewContentConsistent(t, hash);
    hide Consistent, Tree, Safe, Framed, Insertable, Component, Target, LastWithHash, UploadRow;
    UploadRowIs(t1, uid, name, hash, size);
    var row := UploadRow(t1, uid, name, hash, size);
    if Insertable(t1, row) && Component(name) {
      StoredFileFound(t1, AddVirtual(t1, uid, name, hash, size), uid, name, row);
    }
  }

  lemma {:induction false} NewContentConsistent(t: Tables, hash: string)
    requires Consistent(t)
    ensures Consistent(InsertG(t, hash)) && t.nextHash !in t.g
    ensures LastWithHash(InsertG(t, hash).g, hash, t.nextHash + 1) == Some(t.nextHash)
  {
    hide Tree, Safe, Homes;
    ConsistentParts(t);
    NewContentUnreferenced(t, hash);
    SameForest(t, InsertG(t, hash));
    ConsistentParts(InsertG(t, hash));
  }

  /** An instant upload makes no content row. Every content with the hash gains a
      link, and where there is one, and room, the user gets a file row with the
      latest of them, which the name finds. */
  lemma {:induction false} InstantMakes(t: Tables, uid: int, name: string, hash: string, size: int)
    requires Consistent(t) && uid in t.u
    ensures var t', cwd, n := Exec(t, PutsInstant(uid, name, hash, size)), t.u[uid], t.nextFile;
            && cwd in t.v && n !in t.v
            && t'.u == t.u && t'.g.Keys == t.g.Keys
            && (forall h | h in t.g ::
                  t'.g[h] == if t.g[h].hash == hash then GRow(hash, t.g[h].linkCount + 1, None) else t.g[h])
            && var path := t.v[cwd].path + "/" + name;
               if Room(t.v, name, path) && WithHash(t.g, hash) != {}
               then && n in t'.v && t'.v[n].hashId.Some? && Newest(t.g, hash, t'.v[n].hashId.value)
                    && t'.v == t.v[n := VRow(cwd, name, uid, t'.v[n].hashId, size, File, path)]
                    && (Component(name) ==> Target(t', File, uid, name) == Some(n))
               else t'.v == t.v
  {
    hide Consistent, Tree, Safe, Framed, Insertable, Component, Target, LastWithHash, UploadRow;
    ConsistentTree(t);
    UploadRowIs(t, uid, name, hash, size);
    var row := UploadRow(t, uid, name, hash, size);
    if Insertable(t, row) && Component(name) {
      StoredFileFound(t, Exec(t, PutsInstant(uid, name, hash, size)), uid, name, row);
    }
  }

  // ----- without a row to stand in ------------------------------------------------------

  /** A user whose row has been removed makes no rows: a directory is not made,
      an upload only counts. Inputs are resolved against the empty path. */
  lemma {:induction false} StrandedUser(t: Tables, uid: int, arg: string, hash: string, size: int)
    requires Safe(t) && uid in t.u && t.u[uid] !in t.v
    ensures Exec(t, Mkdir(uid, arg)) == t
    ensures Exec(t, PutsSent(uid, arg, hash, size))
            == t.(g := t.g[t.nextHash := GRow(hash, 1, None)], nextHash := t.nextHash + 1)
    ensures Exec(t, PutsInstant(uid, arg, hash, size)).v == t.v
    ensures DownloadHash(t, uid, arg).None?
            <==> forall x | x in t.v && t.v[x].path == "/" + arg :: t.v[x].hashId.None? || t.v[x].hashId.value !in t.g
    ensures CdByText(t, uid, arg) == match WholePath(arg, "")
                                     case None => None
                                     case Some(whole) => Lookup(t.v, Directory, uid, StripSlash(whole))
  {
    assert "" + "/" == "/";
  }
}
