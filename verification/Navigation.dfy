/** Two ways to move about the virtual forest: by the parent and name columns,
    and by the cached path text. In a well-kept table they agree. */
module Navigation {
  import opened Basics
  import opened PathStrings
  import opened Tables
  import opened Subtree
  import opened Commands

  /** Every row's path is its parent's path, a slash and its own name; parents
      exist, and 0 stands for the top. */
  ghost predicate Tree(v: VTable) {
    && UniquePaths(v) && ParentsFirst(v)
    && forall x {:trigger RowOk(v, x)} | x in v :: RowOk(v, x)
  }

  ghost predicate RowOk(v: VTable, x: int)
    requires x in v
  {
    && (v[x].parentId == 0 || v[x].parentId in v)
    && v[x].path == PathOf(v, v[x].parentId) + "/" + v[x].fileName
    && Component(v[x].fileName)
  }

  ghost predicate Place(v: VTable, x: int) {
    x == 0 || x in v
  }

  /** The names on the way from the top down to `x`. */
  ghost function NamesTo(v: VTable, x: int): seq<string>
    requires Tree(v) && Place(v, x)
    decreases x
  {
    if x == 0 then []
    else
      assert RowOk(v, x);
      NamesTo(v, v[x].parentId) + [v[x].fileName]
  }

  // ----- walking the tree -------------------------------------------------

  /** `k` steps up the parent column. */
  ghost function ClimbParents(v: VTable, x: int, k: nat): Option<int>
    requires Tree(v) && Place(v, x)
    decreases k
  {
    if k == 0 then Some(x)
    else if x == 0 then None
    else
      assert RowOk(v, x);
      ClimbParents(v, v[x].parentId, k - 1)
  }

  ghost function ChildNamed(v: VTable, p: int, name: string): (r: Option<int>)
    ensures r.Some? ==> r.value in v && v[r.value].parentId == p && v[r.value].fileName == name
    ensures r.None? ==> forall c | c in v :: !(v[c].parentId == p && v[c].fileName == name)
  {
    if c :| c in v && v[c].parentId == p && v[c].fileName == name then Some(c) else None
  }

  /** Down the tree, one name at a time. */
  ghost function Descend(v: VTable, p: int, names: seq<string>): Option<int>
    decreases |names|
  {
    if names == [] then Some(p)
    else match ChildNamed(v, p, names[0])
         case None => None
         case Some(c) => Descend(v, c, names[1..])
  }

  /** The row of `uid` that a relative input leads to from `from`: up once for
      each leading "..", then down by name. */
  ghost function WalkTree(v: VTable, kind: Kind, uid: int, from: int, input: string): Option<int>
    requires Tree(v) && Place(v, from)
  {
    var cs := Components(input);
    var k := LeadingDots(cs);
    match ClimbParents(v, from, k)
    case None => None
    case Some(a) => OwnRow(v, kind, uid, Descend(v, a, cs[k..]))
  }

  ghost function OwnRow(v: VTable, kind: Kind, uid: int, r: Option<int>): Option<int> {
    if r.Some? && r.value in v && v[r.value].kind == kind && v[r.value].userId == uid then r else None
  }

  // ----- names and paths ---------------------------------------------------

  lemma {:induction false} RowFacts(v: VTable, x: int)
    requires Tree(v) && x in v
    ensures 0 <= v[x].parentId < x && Place(v, v[x].parentId)
    ensures v[x].path == PathOf(v, v[x].parentId) + ("/" + v[x].fileName)
    ensures Token(v[x].fileName)
  {
    assert RowOk(v, x);
    assert v[x].path == (PathOf(v, v[x].parentId) + "/") + v[x].fileName;
  }

  lemma {:induction false} PathIsJoinedNames(v: VTable, x: int)
    requires Tree(v) && Place(v, x)
    ensures Tokens(NamesTo(v, x)) && PathOf(v, x) == JoinAbs(NamesTo(v, x))
    decreases x
  {
    if x == 0 {
      TopHasNoRow(v);
    } else {
      RowFacts(v, x);
      hide Tree, JoinAbs, Token;
      var p, name := v[x].parentId, v[x].fileName;
      PathIsJoinedNames(v, p);
      JoinAbsAppend(NamesTo(v, p), [name]);
      JoinAbsOne(name);
    }
  }

  lemma {:induction false} TopHasNoRow(v: VTable)
    requires Tree(v)
    ensures 0 !in v && PathOf(v, 0) == JoinAbs([])
  {
  }

  lemma {:induction false} JoinAbsOne(name: string)
    ensures JoinAbs([name]) == "/" + name
  {
    assert [name][1..] == [];
  }

  /** The names determine the place. */
  lemma {:induction false} NamesInjective(v: VTable, x: int, y: int)
    requires Tree(v) && Place(v, x) && Place(v, y) && NamesTo(v, x) == NamesTo(v, y)
    ensures x == y
  {
    PathIsJoinedNames(v, x);
    PathIsJoinedNames(v, y);
  }

  lemma {:induction false} ClimbDropsNames(v: VTable, x: int, k: nat)
    requires Tree(v) && Place(v, x)
    ensures ClimbParents(v, x, k).Some? <==> k <= |NamesTo(v, x)|
    ensures ClimbParents(v, x, k).Some? ==>
              var a := ClimbParents(v, x, k).value;
              Place(v, a) && NamesTo(v, a) == NamesTo(v, x)[..|NamesTo(v, x)| - k]
    decreases k
  {
    if k > 0 && x != 0 {
      assert RowOk(v, x);
      ClimbDropsNames(v, v[x].parentId, k - 1);
    }
  }

  lemma {:induction false} DescendAddsNames(v: VTable, p: int, names: seq<string>)
    requires Tree(v) && Place(v, p)
    ensures Descend(v, p, names).Some? ==>
              var y := Descend(v, p, names).value;
              Place(v, y) && NamesTo(v, y) == NamesTo(v, p) + names
    decreases |names|
  {
    if names != [] && ChildNamed(v, p, names[0]).Some? {
      var c := ChildNamed(v, p, names[0]).value;
      DescendAddsNames(v, c, names[1..]);
      assert NamesTo(v, c) == NamesTo(v, p) + [names[0]];
      assert NamesTo(v, p) + names == NamesTo(v, c) + names[1..];
    }
  }

  /** Whatever place carries the names is where the descent arrives. */
  lemma {:induction false} DescendArrives(v: VTable, p: int, names: seq<string>, y: int)
    requires Tree(v) && Place(v, p) && Place(v, y) && NamesTo(v, y) == NamesTo(v, p) + names
    ensures Descend(v, p, names) == Some(y)
    decreases |names|
  {
    if names == [] {
      assert NamesTo(v, p) + names == NamesTo(v, p);
      NamesInjective(v, p, y);
    } else {
      var c := StepTowards(v, p, names, y);
      DescendArrives(v, c, names[1..], y);
    }
  }

  /** The child of `p` that lies on the way to `y`. */
  lemma {:induction false} StepTowards(v: VTable, p: int, names: seq<string>, y: int) returns (c: int)
    requires Tree(v) && Place(v, p) && Place(v, y) && NamesTo(v, y) == NamesTo(v, p) + names
    requires names != []
    ensures ChildNamed(v, p, names[0]) == Some(c) && c in v
    ensures NamesTo(v, y) == NamesTo(v, c) + names[1..]
  {
    var front, all := NamesTo(v, p), NamesTo(v, y);
    ClimbDropsNames(v, y, |names| - 1);
    c := ClimbParents(v, y, |names| - 1).value;
    assert all[..|all| - (|names| - 1)] == front + [names[0]];
    assert NamesTo(v, c) == front + [names[0]];
    RowFacts(v, c);
    assert c != 0 && NamesTo(v, c) == NamesTo(v, v[c].parentId) + [v[c].fileName];
    LastApart(front, names[0], NamesTo(v, v[c].parentId), v[c].fileName);
    NamesInjective(v, v[c].parentId, p);
    ChildUnique(v, p, c);
    assert front + names == (front + [names[0]]) + names[1..];
  }

  lemma {:induction false} LastApart(a: seq<string>, x: string, b: seq<string>, y: string)
    requires a + [x] == b + [y]
    ensures a == b && x == y
  {
    assert (a + [x])[..|a|] == a && (b + [y])[..|b|] == b;
    assert (a + [x])[|a|] == x && (b + [y])[|b|] == y;
  }

  lemma {:induction false} ChildUnique(v: VTable, p: int, c: int)
    requires Tree(v) && Place(v, p) && c in v && v[c].parentId == p
    ensures ChildNamed(v, p, v[c].fileName) == Some(c)
  {
    var r := ChildNamed(v, p, v[c].fileName);
    assert r.Some?;
    RowFacts(v, c);
    RowFacts(v, r.value);
    assert v[r.value].path == v[c].path;
  }

  /** A lookup by joined path and a descent by name find the same row. */
  lemma {:induction false} LookupIsDescent(v: VTable, kind: Kind, uid: int, a: int, rest: seq<string>)
    requires Tree(v) && Place(v, a) && Tokens(rest)
    ensures Lookup(v, kind, uid, JoinAbs(NamesTo(v, a) + rest)) == OwnRow(v, kind, uid, Descend(v, a, rest))
  {
    var text := JoinAbs(NamesTo(v, a) + rest);
    var found, walked := Lookup(v, kind, uid, text), Descend(v, a, rest);
    PathIsJoinedNames(v, a);
    if walked.Some? {
      DescendAddsNames(v, a, rest);
      PathIsJoinedNames(v, walked.value);
      if OwnRow(v, kind, uid, walked).Some? {
        LookupUnique(v, kind, uid, text, walked.value);
      }
    }
    if found.Some? {
      PathIsJoinedNames(v, found.value);
      JoinAbsInjective(NamesTo(v, found.value), NamesTo(v, a) + rest);
      DescendArrives(v, a, rest, found.value);
    }
  }

  /** Stripping the one trailing slash makes a resolved path canonical. */
  lemma {:induction false} StripWhole(front: seq<string>, rest: seq<string>)
    requires Tokens(front) && Tokens(rest)
    ensures StripSlash(JoinAbs(front) + "/" + JoinRel(rest)) == JoinAbs(front + rest)
  {
    WholeOfParts(front, rest);
    if rest == [] {
      assert front + rest == front;
    } else {
      assert Tokens(front + rest);
      JoinAbsEnd(front + rest);
    }
  }

  /** The text a relative input resolves to, by names. */
  lemma {:induction false} WholeByNames(v: VTable, cwd: int, arg: string)
    requires Tree(v) && cwd in v && !Absolute(arg)
    ensures var base, cs := NamesTo(v, cwd), Components(arg);
            var k := LeadingDots(cs);
            && Tokens(base) && Tokens(cs)
            && WholePath(arg, v[cwd].path)
               == if k > |base| then None else Some(JoinAbs(base[..|base| - k]) + "/" + JoinRel(cs[k..]))
  {
    hide Tree, JoinAbs, JoinRel, NamesTo;
    PathIsJoinedNames(v, cwd);
    SplitOfJoin(NamesTo(v, cwd));
    SplitYieldsTokens(arg);
  }

  /** Where a relative input leads, by names: up to `a`, and down by `rest`. */
  ghost predicate LeadsTo(v: VTable, cwd: int, arg: string, a: int, front: seq<string>, rest: seq<string>)
    requires Tree(v)
  {
    var cs := Components(arg);
    var k := LeadingDots(cs);
    && Place(v, a) && Place(v, cwd) && ClimbParents(v, cwd, k) == Some(a) && NamesTo(v, a) == front
    && rest == cs[k..] && Tokens(front) && Tokens(rest)
  }

  lemma {:induction false} LeadsOrFails(v: VTable, cwd: int, arg: string)
    returns (a: int, front: seq<string>, rest: seq<string>)
    requires Tree(v) && cwd in v && !Absolute(arg)
    ensures WholePath(arg, v[cwd].path).Some? ==>
              && LeadsTo(v, cwd, arg, a, front, rest)
              && WholePath(arg, v[cwd].path) == Some(JoinAbs(front) + "/" + JoinRel(rest))
    ensures WholePath(arg, v[cwd].path).None? ==> ClimbParents(v, cwd, LeadingDots(Components(arg))).None?
  {
    hide Tree, JoinAbs, JoinRel, NamesTo, WholePath;
    var base, cs := NamesTo(v, cwd), Components(arg);
    var k := LeadingDots(cs);
    WholeByNames(v, cwd, arg);
    ClimbDropsNames(v, cwd, k);
    a, front, rest := 0, [], [];
    if k <= |base| {
      a, front, rest := ClimbParents(v, cwd, k).value, base[..|base| - k], cs[k..];
    }
  }

  /** The main result: for every relative input, `cd` by text finds exactly
      the directory that climbing and descending the tree finds. */
  lemma {:induction false} TextRefinesTree(t: Tables, uid: int, arg: string)
    requires Tree(t.v) && Present(t, uid) && !Absolute(arg)
    ensures CdByText(t, uid, arg) == WalkTree(t.v, Directory, uid, t.u[uid], arg)
  {
    hide Tree, JoinAbs, JoinRel, NamesTo, Lookup, OwnRow, Descend, WholePath;
    var a, front, rest := LeadsOrFails(t.v, t.u[uid], arg);
    if WholePath(arg, t.v[t.u[uid]].path).Some? {
      StripWhole(front, rest);
      LookupIsDescent(t.v, Directory, uid, a, rest);
    }
  }

  /** An absolute input is compared as it stands: it is found exactly when,
      apart from one trailing slash, it is canonical and the walk from the top
      ends at a directory of the user. */
  lemma {:induction false} AbsoluteNeedsCanonical(t: Tables, uid: int, arg: string)
    requires Tree(t.v) && Present(t, uid) && Absolute(arg)
    ensures CdByText(t, uid, arg)
            == if arg == JoinAbs(Components(arg)) || arg == JoinAbs(Components(arg)) + "/"
               then OwnRow(t.v, Directory, uid, Descend(t.v, 0, Components(arg)))
               else None
  {
    var v, text, cs := t.v, StripSlash(arg), Components(arg);
    OneSlashLess(arg);
    SplitYieldsTokens(arg);
    LookupIsDescent(v, Directory, uid, 0, cs);
    assert NamesTo(v, 0) + cs == cs;
    var found := Lookup(v, Directory, uid, text);
    if found.Some? {
      StoredPathIsCanonical(v, found.value, arg);
    }
  }

  lemma {:induction false} OneSlashLess(arg: string)
    ensures StripSlash(arg) == JoinAbs(Components(arg))
            <==> arg == JoinAbs(Components(arg)) || arg == JoinAbs(Components(arg)) + "/"
  {
    var text := JoinAbs(Components(arg));
    SplitYieldsTokens(arg);
    if Components(arg) != [] {
      JoinAbsEnd(Components(arg));
    }
    assert arg != "" && arg[|arg| - 1] == '/' ==> arg == arg[..|arg| - 1] + "/";
    assert (text + "/")[..|text|] == text;
  }

  lemma {:induction false} StoredPathIsCanonical(v: VTable, x: int, arg: string)
    requires Tree(v) && x in v && v[x].path == StripSlash(arg)
    ensures StripSlash(arg) == JoinAbs(Components(arg))
  {
    PathIsJoinedNames(v, x);
    SplitOfJoin(NamesTo(v, x));
    StripKeepsComponents(arg);
  }

  lemma {:induction false} StripKeepsComponents(arg: string)
    ensures Components(StripSlash(arg)) == Components(arg)
  {
    if arg != "" && arg[|arg| - 1] == '/' {
      ComponentsDropSlash(arg[..|arg| - 1]);
      assert arg == arg[..|arg| - 1] + "/";
    }
  }

  /** `rm` and `rmdir` look up the resolved text with its trailing slash, if it
      has one: a relative input finds the row that climbing and descending
      finds, except that an input of nothing but ".." finds none. */
  lemma {:induction false} RemovalRefinesTree(t: Tables, kind: Kind, uid: int, arg: string)
    requires Tree(t.v) && Present(t, uid) && !Absolute(arg)
    ensures Target(t, kind, uid, arg)
            == if LeadingDots(Components(arg)) == |Components(arg)| then None
               else WalkTree(t.v, kind, uid, t.u[uid], arg)
  {
    hide Tree, JoinAbs, JoinRel, NamesTo, Lookup, OwnRow, Descend, WholePath;
    var a, front, rest := LeadsOrFails(t.v, t.u[uid], arg);
    if WholePath(arg, t.v[t.u[uid]].path).Some? {
      WholeOfParts(front, rest);
      if rest == [] {
        NothingEndsInSlash(t.v, kind, uid, JoinAbs(front) + "/" + JoinRel(rest));
      } else {
        LookupIsDescent(t.v, kind, uid, a, rest);
      }
    }
  }

  lemma {:induction false} NoTrailingSlash(v: VTable, x: int)
    requires Tree(v) && x in v
    ensures v[x].path != "" && v[x].path[|v[x].path| - 1] != '/'
  {
    PathIsJoinedNames(v, x);
    assert RowOk(v, x);
    if NamesTo(v, x) != [] {
      JoinAbsEnd(NamesTo(v, x));
    }
  }

  lemma {:induction false} NothingEndsInSlash(v: VTable, kind: Kind, uid: int, text: string)
    requires Tree(v) && text != "" && text[|text| - 1] == '/'
    ensures Lookup(v, kind, uid, text) == None
  {
    forall x | x in v ensures v[x].path != text {
      NoTrailingSlash(v, x);
    }
  }

  /** An absolute input is found exactly when it is canonical as it stands and
      the walk from the top ends at a row of the user of that type. */
  lemma {:induction false} RemovalNeedsCanonical(t: Tables, kind: Kind, uid: int, arg: string)
    requires Tree(t.v) && Present(t, uid) && Absolute(arg)
    ensures Target(t, kind, uid, arg)
            == if arg == JoinAbs(Components(arg)) then OwnRow(t.v, kind, uid, Descend(t.v, 0, Components(arg)))
               else None
  {
    var v, cs := t.v, Components(arg);
    SplitYieldsTokens(arg);
    LookupIsDescent(v, kind, uid, 0, cs);
    assert NamesTo(v, 0) + cs == cs;
    var found := Lookup(v, kind, uid, arg);
    if found.Some? {
      NoTrailingSlash(v, found.value);
      StoredPathIsCanonical(v, found.value, arg);
    }
  }

  /** What is looked up is what is removed: a file by itself, a directory with
      everything reached below it. */
  lemma {:induction false} RemovesTarget(t: Tables, uid: int, arg: string, now: int)
    requires uid in t.u
    ensures Exec(t, Rm(uid, arg, now))
            == match Target(t, File, uid, arg)
               case None => t
               case Some(x) => Drop(t, {x}, now)
    ensures Exec(t, Rmdir(uid, arg, now))
            == match Target(t, Directory, uid, arg)
               case None => t
               case Some(d) => Drop(t, Removed(t.v, uid, d), now)
  {
    hide WholePath, Drop, Removed, Tally;
  }

  /** A `cd` moves its user to the directory found, one of their own, and changes
      nothing else; where none is found it changes nothing. */
  lemma {:induction false} CdMoves(t: Tables, uid: int, arg: string)
    requires uid in t.u
    ensures var t', found := Exec(t, Cd(uid, arg)), CdByText(t, uid, arg);
            if found.None? then t' == t
            else && t' == t.(u := t.u[uid := found.value]) && found.value in t.v
                 && t.v[found.value].kind == Directory && t.v[found.value].userId == uid
  {
    hide WholePath;
  }

  /** After a successful `cd` the stored path of the new directory, which is
      what `pwd` reports, is the resolved text, less one trailing slash. */
  lemma {:induction false} PwdAfterCd(t: Tables, uid: int, arg: string)
    requires Tree(t.v) && Present(t, uid) && CdByText(t, uid, arg).Some?
    ensures var t' := Exec(t, Cd(uid, arg));
            && Present(t', uid)
            && var pwd, whole := t'.v[t'.u[uid]].path, WholePath(arg, PathOf(t.v, t.u[uid])).value;
               && (whole == pwd || whole == pwd + "/")
               && pwd == JoinAbs(NamesTo(t'.v, t'.u[uid]))
  {
    var whole := WholePath(arg, PathOf(t.v, t.u[uid])).value;
    PathIsJoinedNames(t.v, CdByText(t, uid, arg).value);
    assert whole != "" ==> whole == whole[..|whole| - 1] + [whole[|whole| - 1]];
  }
}
