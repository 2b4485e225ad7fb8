/** Subtrees of `virtualFile`: which rows a recursive removal reaches, and
    what it counts on the way. */
module Subtree {
  import opened Basics
  import opened Tables

  /** `x` is `d` or lies below it. */
  ghost predicate Under(v: VTable, d: int, x: int)
    decreases x
  {
    x in v && (x == d || (0 < v[x].parentId < x && Under(v, d, v[x].parentId)))
  }

  /** As `Under`, with every row from `d` down to `x` owned by `uid`. */
  ghost predicate OwnedUnder(v: VTable, uid: int, d: int, x: int)
    decreases x
  {
    && x in v && v[x].userId == uid
    && (x == d || (0 < v[x].parentId < x && OwnedUnder(v, uid, d, v[x].parentId)))
  }

  ghost function Below(v: VTable, d: int): set<int> {
    set x | x in v && Under(v, d, x)
  }

  ghost function Removed(v: VTable, uid: int, d: int): set<int> {
    set x | x in v && OwnedUnder(v, uid, d, x)
  }

  // ----- the count a removal reports --------------------------------------

  ghost function FilesIn(v: VTable, s: set<int>): set<int> {
    set x | x in v && v[x].kind == File && v[x].parentId in s
  }

  ghost function EmptyIn(v: VTable, s: set<int>): set<int> {
    set x | x in v && x in s && v[x].kind == Directory && Children(v, x) == {}
  }

  ghost function ForeignIn(v: VTable, uid: int, s: set<int>): set<int> {
    set x | x in v && v[x].kind == Directory && v[x].userId != uid && v[x].parentId in s
  }

  /** One for each file met, one for each empty directory, and minus one for
      each directory met that belongs to somebody else. */
  ghost function Tally(v: VTable, uid: int, s: set<int>): int {
    |FilesIn(v, s)| + |EmptyIn(v, s)| - |ForeignIn(v, uid, s)|
  }

  lemma {:induction false} TallyAdds(v: VTable, uid: int, a: set<int>, b: set<int>)
    requires a !! b
    ensures Tally(v, uid, a + b) == Tally(v, uid, a) + Tally(v, uid, b)
  {
    hide FilesIn, EmptyIn, ForeignIn;
    FilesAdd(v, a, b);
    EmptiesAdd(v, a, b);
    ForeignAdd(v, uid, a, b);
  }

  lemma {:induction false} FilesAdd(v: VTable, a: set<int>, b: set<int>)
    requires a !! b
    ensures FilesIn(v, a + b) == FilesIn(v, a) + FilesIn(v, b) && FilesIn(v, a) !! FilesIn(v, b)
  {
  }

  lemma {:induction false} EmptiesAdd(v: VTable, a: set<int>, b: set<int>)
    requires a !! b
    ensures EmptyIn(v, a + b) == EmptyIn(v, a) + EmptyIn(v, b) && EmptyIn(v, a) !! EmptyIn(v, b)
  {
  }

  lemma {:induction false} ForeignAdd(v: VTable, uid: int, a: set<int>, b: set<int>)
    requires a !! b
    ensures ForeignIn(v, uid, a + b) == ForeignIn(v, uid, a) + ForeignIn(v, uid, b)
    ensures ForeignIn(v, uid, a) !! ForeignIn(v, uid, b)
  {
  }

  // ----- shape of the removed set -----------------------------------------

  lemma {:induction false} OwnedIsUnder(v: VTable, uid: int, d: int, x: int)
    requires OwnedUnder(v, uid, d, x)
    ensures Under(v, d, x) && d <= x && d in v && v[d].userId == uid
    decreases x
  {
    if x != d {
      OwnedIsUnder(v, uid, d, v[x].parentId);
    }
  }

  /** A row below two siblings is below neither: siblings are the same row. */
  lemma {:induction false} SiblingsDisjoint(v: VTable, uid: int, a: int, b: int, x: int)
    requires ParentsFirst(v) && a in v && b in v && v[a].parentId == v[b].parentId
    requires OwnedUnder(v, uid, a, x) && OwnedUnder(v, uid, b, x)
    ensures a == b
    decreases x
  {
    if x != a && x != b {
      SiblingsDisjoint(v, uid, a, b, v[x].parentId);
    } else if a != b {
      OwnedIsUnder(v, uid, if x == a then b else a, v[x].parentId);
    }
  }

  /** Below `d` is `d` itself and what is below one of its children. */
  lemma {:induction false} UnderThroughChild(v: VTable, uid: int, d: int, x: int) returns (c: int)
    requires ParentsFirst(v) && OwnedUnder(v, uid, d, x) && x != d
    ensures c in Children(v, d) && OwnedUnder(v, uid, c, x)
    decreases x
  {
    if v[x].parentId == d {
      c := x;
    } else {
      c := UnderThroughChild(v, uid, d, v[x].parentId);
    }
  }

  lemma {:induction false} UnderChildIsUnder(v: VTable, uid: int, d: int, c: int, x: int)
    requires ParentsFirst(v) && OwnedUnder(v, uid, c, x)
    requires d in v && c in v && v[d].userId == uid && v[c].parentId == d && 0 < d
    ensures OwnedUnder(v, uid, d, x)
    decreases x
  {
    if x == c {
      assert OwnedUnder(v, uid, d, d);
    } else {
      UnderChildIsUnder(v, uid, d, c, v[x].parentId);
    }
  }

  /** Rows removed elsewhere do not change what is below `c`. */
  lemma {:induction false} UnderStable(v: VTable, uid: int, gone: set<int>, c: int, x: int)
    requires ParentsFirst(v)
    requires gone !! Removed(v, uid, c)
    ensures OwnedUnder(v - gone, uid, c, x) <==> OwnedUnder(v, uid, c, x)
    decreases x
  {
    var w := v - gone;
    if x in v && x != c && 0 < v[x].parentId < x {
      UnderStable(v, uid, gone, c, v[x].parentId);
    }
    if OwnedUnder(v, uid, c, x) {
      assert x in Removed(v, uid, c);
    }
  }

  lemma {:induction false} RemovedStable(v: VTable, uid: int, gone: set<int>, c: int)
    requires ParentsFirst(v) && gone !! Removed(v, uid, c)
    ensures Removed(v - gone, uid, c) == Removed(v, uid, c)
  {
    forall x ensures x in Removed(v - gone, uid, c) <==> x in Removed(v, uid, c) {
      UnderStable(v, uid, gone, c, x);
    }
  }

  /** What has been removed when the children `done` of `d` have been handled. */
  ghost function RemovedBelow(v: VTable, uid: int, done: set<int>): set<int> {
    set x, c | c in done && x in v && OwnedUnder(v, uid, c, x) :: x
  }

  lemma {:induction false} RemovedBelowStep(v: VTable, uid: int, d: int, done: set<int>, c: int)
    requires ParentsFirst(v) && done <= Children(v, d) && c in Children(v, d) && c !in done
    ensures RemovedBelow(v, uid, done + {c}) == RemovedBelow(v, uid, done) + Removed(v, uid, c)
    ensures {d} + RemovedBelow(v, uid, done) !! Removed(v, uid, c)
    ensures c !in {d} + RemovedBelow(v, uid, done)
    ensures d !in RemovedBelow(v, uid, done)
  {
    assert RemovedBelow(v, uid, done + {c}) == RemovedBelow(v, uid, done) + Removed(v, uid, c);
    forall x | x in RemovedBelow(v, uid, done) ensures x !in Removed(v, uid, c) && x != d && x != c {
      var b :| b in done && OwnedUnder(v, uid, b, x);
      OwnedIsUnder(v, uid, b, x);
      if OwnedUnder(v, uid, c, x) {
        SiblingsDisjoint(v, uid, b, c, x);
      }
      if x == c {
        OwnedIsUnder(v, uid, b, d);
      }
    }
    if d in Removed(v, uid, c) {
      OwnedIsUnder(v, uid, c, d);
    }
  }

  lemma {:induction false} RemovedDecompose(v: VTable, uid: int, d: int)
    requires ParentsFirst(v) && d in v && v[d].userId == uid
    ensures Removed(v, uid, d) == {d} + RemovedBelow(v, uid, Children(v, d))
    ensures d !in RemovedBelow(v, uid, Children(v, d))
  {
    assert 0 < d;
    forall x | x in Removed(v, uid, d) && x != d
      ensures x in RemovedBelow(v, uid, Children(v, d))
    {
      var c := UnderThroughChild(v, uid, d, x);
    }
    forall x | x in RemovedBelow(v, uid, Children(v, d))
      ensures x in Removed(v, uid, d) && x != d
    {
      var c :| c in Children(v, d) && OwnedUnder(v, uid, c, x);
      OwnedIsUnder(v, uid, c, x);
      UnderChildIsUnder(v, uid, d, c, x);
    }
    assert OwnedUnder(v, uid, d, d);
  }

  /** The count below `c` does not change either. */
  lemma {:induction false} TallyStable(v: VTable, uid: int, d: int, done: set<int>, c: int)
    requires ParentsFirst(v) && done <= Children(v, d) && c in Children(v, d) && c !in done
    ensures var gone := {d} + RemovedBelow(v, uid, done);
            Tally(v - gone, uid, Removed(v, uid, c)) == Tally(v, uid, Removed(v, uid, c))
  {
    var gone, s := {d} + RemovedBelow(v, uid, done), Removed(v, uid, c);
    var w := v - gone;
    RemovedBelowStep(v, uid, d, done, c);
    forall x | x in v && v[x].parentId in s ensures x !in gone {
      OwnedIsUnder(v, uid, c, v[x].parentId);
    }
    assert FilesIn(w, s) == FilesIn(v, s);
    assert ForeignIn(w, uid, s) == ForeignIn(v, uid, s);
    forall x | x in s ensures Children(w, x) == Children(v, x) {
      forall y | y in Children(v, x) ensures y in w {
        assert v[y].parentId in s;
      }
    }
    assert EmptyIn(w, s) == EmptyIn(v, s);
  }

  /** The files and the empty directories below `d`. */
  ghost function Leaves(v: VTable, d: int): set<int> {
    set x | x in v && Under(v, d, x) && (v[x].kind == File || Children(v, x) == {})
  }

  /** Whatever is counted is a leaf. */
  lemma {:induction false} CountedAreLeaves(v: VTable, uid: int, d: int)
    requires ParentsFirst(v) && d in v
    ensures var s := Removed(v, uid, d); FilesIn(v, s) + EmptyIn(v, s) <= Leaves(v, d)
  {
    var s := Removed(v, uid, d);
    forall x | x in FilesIn(v, s) + EmptyIn(v, s) ensures x in Leaves(v, d) {
      OwnedIsUnder(v, uid, d, if x in FilesIn(v, s) then v[x].parentId else x);
    }
  }

  /** With no directory of others in the way every directory is reached. */
  lemma {:induction false} DirectoryReached(v: VTable, uid: int, d: int, x: int)
    requires ParentsFirst(v) && d in v && v[d].userId == uid && ForeignIn(v, uid, Removed(v, uid, d)) == {}
    requires Under(v, d, x) && v[x].kind == Directory
    ensures x in Removed(v, uid, d)
    decreases x
  {
    if x != d {
      var p := v[x].parentId;
      DirectoryReached(v, uid, d, p);
      assert x in ForeignIn(v, uid, Removed(v, uid, d)) <==> v[x].userId != uid;
    }
  }

  lemma {:induction false} LeavesAreCounted(v: VTable, uid: int, d: int)
    requires ParentsFirst(v) && d in v && v[d].userId == uid && v[d].kind == Directory
    requires ForeignIn(v, uid, Removed(v, uid, d)) == {}
    ensures var s := Removed(v, uid, d); Leaves(v, d) <= FilesIn(v, s) + EmptyIn(v, s)
  {
    var s := Removed(v, uid, d);
    forall x | x in Leaves(v, d) ensures x in FilesIn(v, s) + EmptyIn(v, s) {
      DirectoryReached(v, uid, d, if v[x].kind == File then v[x].parentId else x);
    }
  }

  /** The count is the number of files and empty directories below `d` if and
      only if the removal meets no directory of somebody else. */
  lemma {:induction false} TallyExactly(v: VTable, uid: int, d: int)
    requires ParentsFirst(v) && d in v && v[d].userId == uid && v[d].kind == Directory
    ensures Tally(v, uid, Removed(v, uid, d)) == |Leaves(v, d)|
            <==> ForeignIn(v, uid, Removed(v, uid, d)) == {}
  {
    hide ParentsFirst, Leaves, Removed;
    var s := Removed(v, uid, d);
    var counted := FilesIn(v, s) + EmptyIn(v, s);
    CountedAreLeaves(v, uid, d);
    FilesApart(v, s);
    if ForeignIn(v, uid, s) == {} {
      LeavesAreCounted(v, uid, d);
      assert counted == Leaves(v, d);
    } else {
      NoMoreThan(counted, Leaves(v, d));
    }
  }

  lemma {:induction false} FilesApart(v: VTable, s: set<int>)
    ensures |FilesIn(v, s) + EmptyIn(v, s)| == |FilesIn(v, s)| + |EmptyIn(v, s)|
  {
    assert FilesIn(v, s) !! EmptyIn(v, s);
  }

  lemma {:induction false} NoMoreThan(a: set<int>, b: set<int>)
    requires a <= b
    ensures |a| <= |b|
  {
    assert b == a + (b - a);
  }

  /** When everything below `d` is the caller's, the rows removed are exactly
      those below `d`, and the count is files plus empty directories. */
  lemma {:induction false} WholeSubtreeOwned(v: VTable, uid: int, d: int)
    requires ParentsFirst(v) && d in v
    requires forall x | x in Below(v, d) :: v[x].userId == uid
    requires v[d].kind == Directory
    ensures Removed(v, uid, d) == Below(v, d)
    ensures Tally(v, uid, Removed(v, uid, d)) == |Leaves(v, d)|
  {
    assert Under(v, d, d);
    forall x ensures x in Removed(v, uid, d) <==> x in Below(v, d) {
      OwnedAll(v, uid, d, x);
    }
    var s := Below(v, d);
    forall x | x in v && v[x].parentId in s ensures x in s {
      assert Under(v, d, v[x].parentId);
      assert v[x].parentId in v;
    }
    assert ForeignIn(v, uid, s) == {};
    TallyExactly(v, uid, d);
  }

  lemma {:induction false} OwnedAll(v: VTable, uid: int, d: int, x: int)
    requires ParentsFirst(v)
    requires forall y | y in Below(v, d) :: v[y].userId == uid
    ensures OwnedUnder(v, uid, d, x) <==> Under(v, d, x)
    decreases x
  {
    if x in v && x != d && 0 < v[x].parentId < x {
      OwnedAll(v, uid, d, v[x].parentId);
    }
    if Under(v, d, x) {
      assert x in Below(v, d);
    }
  }

  // ----- one child of the directory being removed --------------------------

  /** The tables once `d` and the children `done` have been handled. */
  ghost function Partway(t: Tables, uid: int, d: int, done: set<int>, now: int): Tables {
    Drop(t, {d} + RemovedBelow(t.v, uid, done), now)
  }

  /** The count once the children `done` have been handled. */
  ghost function PartCount(v: VTable, uid: int, d: int, done: set<int>): int {
    |FilesIn(v, {d}) * done| - |ForeignIn(v, uid, {d}) * done| + Tally(v, uid, RemovedBelow(v, uid, done))
  }

  /** A remaining child is still there, is found by its path exactly when it
      is the caller's, and has the subtree it started with. */
  lemma {:induction false} ChildUntouched(t: Tables, uid: int, d: int, done: set<int>, c: int, now: int)
    requires Sound(t) && d in t.v && done <= Children(t.v, d) && c in Children(t.v, d) && c !in done
    ensures var v := Partway(t, uid, d, done, now).v;
            && c in v && v[c] == t.v[c]
            && Lookup(v, t.v[c].kind, uid, t.v[c].path) == (if t.v[c].userId == uid then Some(c) else None)
            && Removed(v, uid, c) == Removed(t.v, uid, c)
            && Tally(v, uid, Removed(t.v, uid, c)) == Tally(t.v, uid, Removed(t.v, uid, c))
  {
    var gone := {d} + RemovedBelow(t.v, uid, done);
    var v := Partway(t, uid, d, done, now).v;
    assert v == t.v - gone;
    RemovedBelowStep(t.v, uid, d, done, c);
    RemovedStable(t.v, uid, gone, c);
    TallyStable(t.v, uid, d, done, c);
    if t.v[c].userId == uid {
      LookupUnique(v, t.v[c].kind, uid, t.v[c].path, c);
    } else {
      forall x | x in v ensures !Matches(v[x], t.v[c].kind, uid, t.v[c].path) {
      }
    }
  }

  /** Removing the child's own part moves on to the next partway state. */
  lemma {:induction false} PartwayStep(t: Tables, uid: int, d: int, done: set<int>, c: int, now: int)
    requires Sound(t) && d in t.v && done <= Children(t.v, d) && c in Children(t.v, d) && c !in done
    ensures Drop(Partway(t, uid, d, done, now), Removed(t.v, uid, c), now) == Partway(t, uid, d, done + {c}, now)
  {
    var gone, part := {d} + RemovedBelow(t.v, uid, done), Removed(t.v, uid, c);
    RemovedBelowStep(t.v, uid, d, done, c);
    DropTwice(t, gone, part, now);
    assert gone + part == {d} + RemovedBelow(t.v, uid, done + {c});
  }

  lemma {:induction false} PartCountStep(t: Tables, uid: int, d: int, done: set<int>, c: int)
    requires Sound(t) && d in t.v && done <= Children(t.v, d) && c in Children(t.v, d) && c !in done
    ensures PartCount(t.v, uid, d, done + {c})
            == PartCount(t.v, uid, d, done)
               + if t.v[c].kind == File then 1
                 else if t.v[c].userId != uid then -1
                 else Tally(t.v, uid, Removed(t.v, uid, c))
    ensures t.v[c].kind == File && t.v[c].userId == uid ==> Removed(t.v, uid, c) == {c}
    ensures t.v[c].userId != uid ==> Removed(t.v, uid, c) == {}
  {
    var v := t.v;
    RemovedBelowStep(v, uid, d, done, c);
    TallyAdds(v, uid, RemovedBelow(v, uid, done), Removed(v, uid, c));
    SizeWith(FilesIn(v, {d}), done, c);
    SizeWith(ForeignIn(v, uid, {d}), done, c);
    if v[c].userId != uid {
      forall x ensures x !in Removed(v, uid, c) {
        if OwnedUnder(v, uid, c, x) {
          OwnedIsUnder(v, uid, c, x);
        }
      }
    } else if v[c].kind == File {
      FileAlone(v, uid, c);
    }
    NoTally(v, uid, c);
  }

  lemma {:induction false} SizeWith(s: set<int>, done: set<int>, c: int)
    requires c !in done
    ensures |s * (done + {c})| == |s * done| + if c in s then 1 else 0
  {
    assert s * (done + {c}) == s * done + if c in s then {c} else {};
  }

  lemma {:induction false} FileAlone(v: VTable, uid: int, c: int)
    requires ParentsFirst(v) && c in v && v[c].kind == File && v[c].userId == uid
    ensures Removed(v, uid, c) == {c}
  {
    assert OwnedUnder(v, uid, c, c);
    forall x | x in Removed(v, uid, c) ensures x == c {
      if x != c {
        var k := UnderThroughChild(v, uid, c, x);
      }
    }
  }

  /** Neither a file nor somebody else's directory adds anything of its own. */
  lemma {:induction false} NoTally(v: VTable, uid: int, c: int)
    requires ParentsFirst(v) && c in v
    ensures v[c].userId != uid || v[c].kind == File ==> Tally(v, uid, Removed(v, uid, c)) == 0
  {
    if v[c].userId != uid || v[c].kind == File {
      forall x ensures x in Removed(v, uid, c) ==> x == c && v[c].kind == File {
        if OwnedUnder(v, uid, c, x) {
          OwnedIsUnder(v, uid, c, x);
          FileAlone(v, uid, c);
        }
      }
      var s := Removed(v, uid, c);
      forall x | x in v ensures v[x].parentId !in s {
        assert v[x].parentId in v ==> v[v[x].parentId].kind == Directory;
      }
      assert FilesIn(v, s) == {} && EmptyIn(v, s) == {} && ForeignIn(v, uid, s) == {};
    }
  }

  // ----- what the two removal commands do ----------------------------------

  ghost function RmResult(t: Tables, uid: int, path: string, now: int): (Tables, int) {
    var r := Lookup(t.v, File, uid, path);
    if r.None? then (t, -1) else (Drop(t, {r.value}, now), 0)
  }

  ghost function RmdirResult(t: Tables, uid: int, path: string, now: int): (Tables, int) {
    var r := Lookup(t.v, Directory, uid, path);
    if r.None? then (t, -1)
    else
      var s := Removed(t.v, uid, r.value);
      (Drop(t, s, now), Tally(t.v, uid, s))
  }

  /** The command issued for one child does that child's part. */
  lemma {:induction false} ChildHandled(t: Tables, uid: int, d: int, done: set<int>, c: int, now: int)
    requires Sound(t) && d in t.v && done <= Children(t.v, d) && c in Children(t.v, d) && c !in done
    ensures var s, s', path := Partway(t, uid, d, done, now), Partway(t, uid, d, done + {c}, now), t.v[c].path;
            var n, n' := PartCount(t.v, uid, d, done), PartCount(t.v, uid, d, done + {c});
            && c in s.v && s.v[c] == t.v[c]
            && (t.v[c].kind == File ==> RmResult(s, uid, path, now).0 == s' && n' == n + 1)
            && (t.v[c].kind == Directory ==> RmdirResult(s, uid, path, now) == (s', n' - n))
  {
    ChildUntouched(t, uid, d, done, c, now);
    PartwayStep(t, uid, d, done, c, now);
    PartCountStep(t, uid, d, done, c);
    DropNothing(Partway(t, uid, d, done, now), now);
  }

  lemma {:induction false} DropNothing(t: Tables, now: int)
    ensures Drop(t, {}, now) == t
  {
    forall h | h in t.g ensures Refs(t.v, h) * {} == {} {
    }
    assert Drop(t, {}, now).g == t.g;
    assert t.v - {} == t.v;
  }

  lemma {:induction false} PartwaySmaller(t: Tables, uid: int, d: int, done: set<int>, now: int)
    requires Sound(t) && d in t.v
    ensures Sound(Partway(t, uid, d, done, now))
    ensures |Partway(t, uid, d, done, now).v| < |t.v|
  {
    var gone := {d} + RemovedBelow(t.v, uid, done);
    DropSound(t, gone, now);
    assert (t.v - gone).Keys == t.v.Keys - gone;
    assert t.v.Keys - gone < t.v.Keys;
    SmallerSet(t.v.Keys - gone, t.v.Keys);
  }

  lemma {:induction false} SmallerSet<T>(a: set<T>, b: set<T>)
    requires a < b
    ensures |a| < |b|
  {
    assert b == a + (b - a);
    assert b - a != {};
  }

  /** With every child handled the removal is complete. */
  lemma {:induction false} AllChildrenDone(t: Tables, uid: int, d: int, now: int)
    requires Sound(t) && d in t.v && t.v[d].userId == uid && t.v[d].kind == Directory
    ensures var all, s := Children(t.v, d), Removed(t.v, uid, d);
            && Partway(t, uid, d, all, now) == Drop(t, s, now)
            && Tally(t.v, uid, s) == PartCount(t.v, uid, d, all) + if all == {} then 1 else 0
  {
    var v, all := t.v, Children(t.v, d);
    RemovedDecompose(v, uid, d);
    TallyAdds(v, uid, {d}, RemovedBelow(v, uid, all));
    assert FilesIn(v, {d}) * all == FilesIn(v, {d});
    assert ForeignIn(v, uid, {d}) * all == ForeignIn(v, uid, {d});
    assert EmptyIn(v, {d}) == if all == {} then {d} else {};
  }
}
