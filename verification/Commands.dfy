/** What each command does to the tables, as functions. */
module Commands {
  import opened Basics
  import opened PathStrings
  import opened Tables
  import opened Subtree

  /** The stored path of row `x`, and "" for the top of the forest. */
  function PathOf(v: VTable, x: int): string {
    if x in v then v[x].path else ""
  }

  /** A single ordinary path component. */
  predicate Component(s: string) {
    Token(s) && s != ".."
  }

  // ----- mkdir -----------------------------------------------------------

  /** The text less one trailing slash. */
  function StripSlash(s: string): string {
    if s != "" && s[|s| - 1] == '/' then s[..|s| - 1] else s
  }

  function Concatenate(base: string, sub: string): string {
    if base != "" && base[|base| - 1] == '/' then base + sub else base + "/" + sub
  }

  /** Exactly one slash between the two, whether or not the first ends in one. */
  lemma {:induction false} OneSlashBetween(base: string, sub: string)
    ensures Concatenate(base, sub) == StripSlash(base) + "/" + sub
  {
    if base != "" && base[|base| - 1] == '/' {
      assert base == StripSlash(base) + "/";
    }
  }

  predicate StartsUp(arg: string) {
    |arg| >= 3 && arg[..3] == "../"
  }

  /** The text after the last slash, or all of it. */
  function AfterLastSlash(s: string): (r: string)
    ensures '/' !in r && |r| <= |s| && s[|s| - |r|..] == r
    ensures '/' in s ==> |r| < |s| && s[|s| - |r| - 1] == '/'
    ensures '/' !in s ==> r == s
  {
    if s == "" then ""
    else if s[|s| - 1] == '/' then ""
    else
      var r := AfterLastSlash(s[..|s| - 1]);
      assert s == s[..|s| - 1] + [s[|s| - 1]];
      r + [s[|s| - 1]]
  }

  function FinalDir(arg: string): string {
    AfterLastSlash(if StartsUp(arg) then arg[3..] else arg)
  }

  /** The path mkdir stores: a leading "../" is resolved against the parent
      row, everything else is pasted behind the current directory. */
  function FullPath(v: VTable, cwd: int, arg: string): Option<string>
    requires cwd in v
  {
    if StartsUp(arg) then
      if v[cwd].parentId in v then Some(Concatenate(v[v[cwd].parentId].path, arg[3..])) else None
    else Some(Concatenate(v[cwd].path, arg))
  }

  /** The row mkdir asks for: its parent is the current directory whatever
      the path says. */
  function MkdirRow(v: VTable, cwd: int, uid: int, arg: string): Option<VRow>
    requires cwd in v
  {
    match FullPath(v, cwd, arg)
    case None => None
    case Some(path) => Some(VRow(cwd, FinalDir(arg), uid, None, 0, Directory, path))
  }

  // ----- puts and gets ---------------------------------------------------

  /** The row of an upload. A hash nobody has recorded yields content key 0. */
  function UploadRow(t: Tables, uid: int, name: string, hash: string, size: int): VRow
    requires uid in t.u && t.u[uid] in t.v
  {
    var cwd := t.u[uid];
    var h := LastWithHash(t.g, hash, t.nextHash);
    VRow(cwd, name, t.v[cwd].userId, Some(if h.Some? then h.value else 0), size, File,
         t.v[cwd].path + "/" + name)
  }

  /** For a user whose row is gone the statement names user 0, whom there is not,
      and is refused. */
  function AddVirtual(t: Tables, uid: int, name: string, hash: string, size: int): Tables
    requires uid in t.u
  {
    if t.u[uid] in t.v then InsertV(t, UploadRow(t, uid, name, hash, size)) else t
  }

  /** The content a download of `name` is served from. */
  ghost function DownloadHash(t: Tables, uid: int, name: string): (r: Option<string>)
    requires uid in t.u
    ensures r.Some? ==> exists h | h in t.g :: t.g[h].hash == r.value
    ensures r.None? <==> forall x | x in t.v && t.v[x].path == PathOf(t.v, t.u[uid]) + "/" + name ::
                           t.v[x].hashId.None? || t.v[x].hashId.value !in t.g
  {
    var path := PathOf(t.v, t.u[uid]) + "/" + name;
    if x :| x in t.v && t.v[x].path == path && t.v[x].hashId.Some? && t.v[x].hashId.value in t.g
    then
      var h := t.v[x].hashId.value;
      assert h in t.g;
      Some(t.g[h].hash)
    else None
  }

  // ----- cd --------------------------------------------------------------

  /** The row `cd` finds by text: resolve, strip one trailing slash, look up. */
  ghost function CdByText(t: Tables, uid: int, arg: string): Option<int>
    requires uid in t.u
  {
    match WholePath(arg, PathOf(t.v, t.u[uid]))
    case None => None
    case Some(whole) => Lookup(t.v, Directory, uid, StripSlash(whole))
  }

  // ----- rm and rmdir ----------------------------------------------------

  /** The row the removals find by text: resolve and look up. */
  ghost function Target(t: Tables, kind: Kind, uid: int, arg: string): Option<int>
    requires uid in t.u
  {
    match WholePath(arg, PathOf(t.v, t.u[uid]))
    case None => None
    case Some(whole) => Lookup(t.v, kind, uid, whole)
  }

  // ----- all commands ----------------------------------------------------

  datatype Command =
    | Mkdir(uid: int, arg: string)
    | PutsInstant(uid: int, name: string, hash: string, size: int)
    | PutsSent(uid: int, name: string, hash: string, size: int)
    | Rm(uid: int, arg: string, now: int)
    | Rmdir(uid: int, arg: string, now: int)
    | Cd(uid: int, arg: string)

  /** The user is known and stands in an existing row. */
  predicate Present(t: Tables, uid: int) {
    uid in t.u && t.u[uid] in t.v
  }

  /** The row mkdir asks for, if there is a path to ask with. */
  function NewDirectory(t: Tables, uid: int, arg: string): Option<VRow>
    requires uid in t.u
  {
    if t.u[uid] in t.v then MkdirRow(t.v, t.u[uid], uid, arg) else None
  }

  /** A path that cannot be resolved leaves the tables alone. A user whose row
      has been removed has the empty path. */
  ghost function Exec(t: Tables, c: Command): (r: Tables)
    requires c.uid in t.u
    ensures r.u.Keys == t.u.Keys
  {
    match c
    case Mkdir(uid, arg) =>
      (match NewDirectory(t, uid, arg)
       case None => t
       case Some(row) => InsertV(t, row))
    case PutsInstant(uid, name, hash, size) => BumpLinks(AddVirtual(t, uid, name, hash, size), hash)
    case PutsSent(uid, name, hash, size) => AddVirtual(InsertG(t, hash), uid, name, hash, size)
    case Rm(uid, arg, now) =>
      (match WholePath(arg, PathOf(t.v, t.u[uid]))
       case None => t
       case Some(whole) => RmResult(t, uid, whole, now).0)
    case Rmdir(uid, arg, now) =>
      (match WholePath(arg, PathOf(t.v, t.u[uid]))
       case None => t
       case Some(whole) => RmdirResult(t, uid, whole, now).0)
    case Cd(uid, arg) =>
      (match CdByText(t, uid, arg)
       case None => t
       case Some(d) => t.(u := t.u[uid := d]))
  }
}
