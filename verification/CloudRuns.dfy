/** Tables and stored files together: what a file row promises is there. */
module CloudRuns {
  import opened Basics
  import opened Commands
  import opened FileSystemRuns
  import opened FileTransfer
  import opened Subtree
  import opened Tables
  import opened Uploads

  datatype Cloud = Cloud(t: Tables, s: Store)

  /** A command other than an upload, a step in the middle of an upload, or the
      end of one, where its session is over and the tables are updated. */
  datatype Event =
    | Handle(c: Command)
    | Transfer(step: Step)
    | EndInstant(id: nat, uid: int, name: string)
    | EndSent(id: nat, uid: int, name: string)

  predicate Possible(c: Cloud, contents: Contents, e: Event) {
    match e
    case Handle(cmd) => cmd.uid in c.t.u && !cmd.PutsInstant? && !cmd.PutsSent?
    case Transfer(step) => (step.Open? || step.Write?) && Enabled(c.s, contents, step)
    case EndInstant(id, uid, _) => uid in c.t.u && Enabled(c.s, contents, Instant(id))
    case EndSent(id, uid, _) => uid in c.t.u && Enabled(c.s, contents, Finish(id))
  }

  /** The step an event takes in the store, if any. */
  function StoreSteps(e: Event): seq<Step> {
    match e
    case Handle(_) => []
    case Transfer(step) => [step]
    case EndInstant(id, _, _) => [Instant(id)]
    case EndSent(id, _, _) => [Finish(id)]
  }

  /** The command an event gives to the tables, if any. */
  function TableCommand(c: Cloud, contents: Contents, e: Event): Option<Command>
    requires Possible(c, contents, e)
  {
    match e
    case Handle(cmd) => Some(cmd)
    case Transfer(_) => None
    case EndInstant(id, uid, name) => Some(PutsInstant(uid, name, c.s.sessions[id].hash, c.s.sessions[id].start))
    case EndSent(id, uid, name) =>
      Some(PutsSent(uid, name, c.s.sessions[id].hash, Announced(contents, c.s.sessions[id])))
  }

  ghost function Happened(c: Cloud, contents: Contents, e: Event): Cloud
    requires Possible(c, contents, e)
  {
    var cmd := TableCommand(c, contents, e);
    Cloud(if cmd.Some? then Exec(c.t, cmd.value) else c.t,
          if StoreSteps(e) == [] then c.s else Next(c.s, contents, StoreSteps(e)[0]))
  }

  ghost predicate History(c: Cloud, contents: Contents, events: seq<Event>, r: Cloud)
    decreases |events|
  {
    if events == [] then r == c
    else Possible(c, contents, events[0]) && History(Happened(c, contents, events[0]), contents, events[1..], r)
  }

  /** Everything the store does in a history. */
  function AllSteps(events: seq<Event>): seq<Step> {
    if events == [] then [] else StoreSteps(events[0]) + AllSteps(events[1..])
  }

  /** Every content that has a row is stored from its beginning to its end. */
  ghost predicate Backed(g: GTable, s: Store, contents: Contents) {
    forall h | h in g :: Stored(s, contents, g[h].hash)
  }

  ghost predicate Stored(s: Store, contents: Contents, hash: string) {
    hash in s.files && contents(hash) <= s.files[hash]
  }

  ghost predicate Whole(c: Cloud, contents: Contents) {
    Safe(c.t) && Aligned(c.s, contents) && Backed(c.t.g, c.s, contents)
  }

  // ----- every event ------------------------------------------------------------------

  /** What is stored stays stored. */
  lemma {:induction false} StaysStored(s: Store, contents: Contents, step: Step, hash: string)
    requires Aligned(s, contents) && Enabled(s, contents, step) && Stored(s, contents, hash)
    ensures Stored(Next(s, contents, step), contents, hash)
  {
    hide Enabled, Next;
    StepKeeps(s, contents, step);
    var n := Next(s, contents, step);
    assert Common(n.files[hash], contents(hash));
  }

  /** A session that ends has left its content. */
  lemma {:induction false} EndIsStored(s: Store, contents: Contents, step: Step)
    requires Aligned(s, contents) && Enabled(s, contents, step) && (step.Instant? || step.Finish?)
    ensures step.id in s.sessions && Stored(Next(s, contents, step), contents, s.sessions[step.id].hash)
  {
    StepKeeps(s, contents, step);
    var n := Next(s, contents, step);
    assert SessionOk(n, contents, n.sessions[step.id]);
  }

  ghost predicate SameHashes(g: GTable, g': GTable) {
    g'.Keys == g.Keys && forall h | h in g :: g'[h].hash == g[h].hash
  }

  lemma {:induction false} UnlinkedHashes(v: VTable, g: GTable, s: set<int>, now: int)
    ensures SameHashes(g, UnlinkAll(v, g, s, now))
  {
  }

  /** Removals make no content rows. */
  lemma {:induction false} RemovalHashes(t: Tables, c: Command)
    requires (c.Rm? || c.Rmdir?) && c.uid in t.u
    ensures SameHashes(t.g, Exec(t, c).g)
  {
    hide Removed, Tally, Lookup, UnlinkAll, SameHashes;
    forall s: set<int> ensures SameHashes(t.g, UnlinkAll(t.v, t.g, s, c.now)) {
      UnlinkedHashes(t.v, t.g, s, c.now);
    }
    SelfHashes(t.g);
  }

  lemma {:induction false} SelfHashes(g: GTable)
    ensures SameHashes(g, g)
  {
  }

  /** A command makes a content row for no hash but that of its upload. */
  lemma {:induction false} HashesOf(t: Tables, c: Command)
    requires c.uid in t.u
    ensures if c.PutsSent? then SameHashes(t.g[t.nextHash := GRow(c.hash, 1, None)], Exec(t, c).g)
            else SameHashes(t.g, Exec(t, c).g)
  {
    hide Removed, Tally, Insertable, UploadRow;
    match c
    case Mkdir(_, _) =>
    case PutsInstant(uid, name, hash, size) => SameContents(t, uid, name, hash, size);
    case PutsSent(uid, name, hash, size) => SameContents(InsertG(t, hash), uid, name, hash, size);
    case Rm(_, _, _) => RemovalHashes(t, c);
    case Rmdir(_, _, _) => RemovalHashes(t, c);
    case Cd(_, _) =>
  }

  lemma {:induction false} EventKeepsWhole(c: Cloud, contents: Contents, e: Event)
    requires Whole(c, contents) && Possible(c, contents, e)
    ensures Whole(Happened(c, contents, e), contents)
  {
    hide Safe, Aligned, Exec, Enabled, Next, Stored;
    var r, cmd := Happened(c, contents, e), TableCommand(c, contents, e);
    if StoreSteps(e) != [] {
      StepKeeps(c.s, contents, StoreSteps(e)[0]);
      forall h | h in c.t.g ensures Stored(r.s, contents, c.t.g[h].hash) {
        StaysStored(c.s, contents, StoreSteps(e)[0], c.t.g[h].hash);
      }
    }
    if e.EndSent? {
      EndIsStored(c.s, contents, Finish(e.id));
    }
    if cmd.Some? {
      StepKeepsSafe(c.t, cmd.value);
      HashesOf(c.t, cmd.value);
    }
  }

  /** After every history, whatever is uploaded, given up, removed or written past
      its end: every content row has its whole content stored. */
  lemma {:induction false} HistoriesStayWhole(c: Cloud, contents: Contents, events: seq<Event>, r: Cloud)
    requires Whole(c, contents) && History(c, contents, events, r)
    ensures Whole(r, contents)
    decreases |events|
  {
    hide Whole, Possible, Happened;
    if events != [] {
      EventKeepsWhole(c, contents, events[0]);
      HistoriesStayWhole(Happened(c, contents, events[0]), contents, events[1..], r);
    }
  }

  /** The store in a history runs through its own steps. */
  lemma {:induction false} StoreRuns(c: Cloud, contents: Contents, events: seq<Event>, r: Cloud)
    requires History(c, contents, events, r)
    ensures Run(c.s, contents, AllSteps(events), r.s)
    decreases |events|
  {
    hide Enabled, Next, Exec;
    if events != [] {
      var rest := AllSteps(events[1..]);
      StoreRuns(Happened(c, contents, events[0]), contents, events[1..], r);
      assert [] + rest == rest;
      if StoreSteps(events[0]) != [] {
        assert (StoreSteps(events[0]) + rest)[1..] == rest;
      }
    }
  }

  // ----- what is served ---------------------------------------------------------------

  /** Before anything is uploaded. */
  lemma {:induction false} StartIsWhole(t: Tables, contents: Contents)
    requires Safe(t) && t.g == map[]
    ensures Whole(Cloud(t, EmptyStore()), contents)
  {
  }

  /** In every reachable state a file row stands for a stored file that begins
      with the whole content, and is that content if and only if no upload has
      written past its end. */
  lemma {:induction false} FilesAreStored(t: Tables, contents: Contents, events: seq<Event>, r: Cloud, x: int)
    requires Safe(t) && t.g == map[] && History(Cloud(t, EmptyStore()), contents, events, r)
    ensures x in r.t.v && r.t.v[x].kind == File ==>
              && r.t.v[x].hashId.Some? && r.t.v[x].hashId.value in r.t.g
              && var hash := r.t.g[r.t.v[x].hashId.value].hash;
                 && Stored(r.s, contents, hash)
                 && (r.s.files[hash] == contents(hash) <==> !EverPast(EmptyStore(), contents, AllSteps(events), hash))
  {
    if x in r.t.v && r.t.v[x].kind == File {
      hide Exec, Possible, Happened, Safe, Next, Enabled, History, Aligned, AllSteps, Run, EverPast;
      StartIsWhole(t, contents);
      HistoriesStayWhole(Cloud(t, EmptyStore()), contents, events, r);
      SafeIsSound(r.t);
      ContentStored(t, contents, events, r, r.t.v[x].hashId.value);
    }
  }

  lemma {:induction false} ContentStored(t: Tables, contents: Contents, events: seq<Event>, r: Cloud, h: int)
    requires Safe(t) && t.g == map[] && History(Cloud(t, EmptyStore()), contents, events, r) && h in r.t.g
    ensures var hash := r.t.g[h].hash;
            && Stored(r.s, contents, hash)
            && (r.s.files[hash] == contents(hash) <==> !EverPast(EmptyStore(), contents, AllSteps(events), hash))
  {
    hide Exec, Possible, Happened, Safe, Next, Enabled, History, AllSteps, Run, EverPast;
    StartIsWhole(t, contents);
    HistoriesStayWhole(Cloud(t, EmptyStore()), contents, events, r);
    StoreRuns(Cloud(t, EmptyStore()), contents, events, r);
    StartIsAligned(contents);
    hide Aligned;
    RunsWithinExactly(EmptyStore(), contents, AllSteps(events), r.s, r.t.g[h].hash);
  }

  lemma {:induction false} StartIsAligned(contents: Contents)
    ensures Aligned(EmptyStore(), contents)
  {
  }

  /** So is what a download is served from. */
  lemma {:induction false} DownloadsAreStored(t: Tables, contents: Contents, events: seq<Event>, r: Cloud,
                                              uid: int, name: string)
    requires Safe(t) && t.g == map[] && History(Cloud(t, EmptyStore()), contents, events, r)
    ensures uid in r.t.u && DownloadHash(r.t, uid, name).Some? ==>
              var hash := DownloadHash(r.t, uid, name).value;
              && Stored(r.s, contents, hash)
              && (r.s.files[hash] == contents(hash) <==> !EverPast(EmptyStore(), contents, AllSteps(events), hash))
  {
    hide Exec, Possible, Happened, Safe, Next, Enabled, History, AllSteps, Run, EverPast, Stored;
    if uid in r.t.u && DownloadHash(r.t, uid, name).Some? {
      var h :| h in r.t.g && r.t.g[h].hash == DownloadHash(r.t, uid, name).value;
      ContentStored(t, contents, events, r, h);
    }
  }

  // ----- what can be done --------------------------------------------------------------

  function Transfers(steps: seq<Step>): seq<Event> {
    if steps == [] then [] else [Transfer(steps[0])] + Transfers(steps[1..])
  }

  function Handles(run: seq<Command>): seq<Event> {
    if run == [] then [] else [Handle(run[0])] + Handles(run[1..])
  }

  lemma {:induction false} HistoriesJoin(c: Cloud, contents: Contents, a: seq<Event>, m: Cloud,
                                         b: seq<Event>, r: Cloud)
    requires History(c, contents, a, m) && History(m, contents, b, r)
    ensures History(c, contents, a + b, r)
    decreases |a|
  {
    hide Possible, Happened;
    if a == [] {
      assert a + b == b;
    } else {
      HistoriesJoin(Happened(c, contents, a[0]), contents, a[1..], m, b, r);
      assert (a + b)[1..] == a[1..] + b;
    }
  }

  lemma {:induction false} OneEvent(c: Cloud, contents: Contents, e: Event)
    requires Possible(c, contents, e)
    ensures History(c, contents, [e], Happened(c, contents, e))
  {
    hide Possible, Happened;
    assert [e][1..] == [];
    assert History(Happened(c, contents, e), contents, [], Happened(c, contents, e));
  }

  /** What sessions do in the store on their own they can do in a cloud. */
  lemma {:induction false} TransfersHappen(c: Cloud, contents: Contents, steps: seq<Step>, s: Store)
    requires Run(c.s, contents, steps, s) && forall step | step in steps :: step.Open? || step.Write?
    ensures History(c, contents, Transfers(steps), Cloud(c.t, s))
    decreases |steps|
  {
    hide Enabled, Next, Exec;
    if steps != [] {
      assert steps[0] in steps && forall step | step in steps[1..] :: step in steps;
      TransfersHappen(Cloud(c.t, Next(c.s, contents, steps[0])), contents, steps[1..], s);
      assert Transfers(steps)[1..] == Transfers(steps[1..]);
    }
  }

  /** And so can any users with commands that are no uploads, whatever sessions
      are under way. */
  lemma {:induction false} CommandsHappen(c: Cloud, contents: Contents, run: seq<Command>)
    requires Served(c.t, run) && forall cmd | cmd in run :: !cmd.PutsInstant? && !cmd.PutsSent?
    ensures History(c, contents, Handles(run), Cloud(After(c.t, run), c.s))
    decreases |run|
  {
    hide Enabled, Next, Exec;
    if run != [] {
      assert run[0] in run && forall cmd | cmd in run[1..] :: cmd in run;
      CommandsHappen(Cloud(Exec(c.t, run[0]), c.s), contents, run[1..]);
      assert Handles(run)[1..] == Handles(run[1..]);
    }
  }

  lemma {:induction false} AllWrites(id: nat, counts: seq<nat>)
    ensures forall step | step in Writes(id, counts) :: step.Write?
  {
    if counts != [] {
      AllWrites(id, counts[1..]);
    }
  }

  /** The end of an upload in the tables. */
  lemma {:induction false} EndsAndServes(c: Cloud, contents: Contents, e: Event)
    requires Whole(c, contents) && Possible(c, contents, e) && (e.EndSent? || e.EndInstant?)
    requires !Rejected(c.t, TableCommand(c, contents, e).value)
    ensures var r := Happened(c, contents, e);
            && History(c, contents, [e], r) && r.s.files == c.s.files
            && e.uid in r.t.u && DownloadHash(r.t, e.uid, e.name) == Some(c.s.sessions[e.id].hash)
  {
    hide History, Safe, Aligned, Backed, DownloadHash, Exec, Insertable, UploadRow;
    OneEvent(c, contents, e);
    if e.EndSent? {
      var t := c.s.sessions[e.id];
      UploadThenDownload(c.t, e.uid, e.name, t.hash, Announced(contents, t));
    } else {
      var t := c.s.sessions[e.id];
      UploadThenDownload(c.t, e.uid, e.name, t.hash, t.start);
    }
  }

  /** From one end to the other: whatever else is under way, a user can upload a
      content under a name that is accepted, in chunks of any size, and a download
      of that name is served from a file that is that content, byte by byte. */
  lemma {:induction false} UploadedIsServed(c: Cloud, contents: Contents, id: nat, uid: int, name: string,
                                            hash: string, counts: seq<nat>)
    returns (events: seq<Event>, r: Cloud)
    requires Whole(c, contents) && uid in c.t.u && id !in c.s.sessions
    requires |FileOf(c.s, hash)| < |contents(hash)| && Sum(counts) == |contents(hash)| - |FileOf(c.s, hash)|
    requires forall n | n in counts ::
               0 < n <= if |contents(hash)| - |FileOf(c.s, hash)| > 1024000 then 4096 else 1000
    requires !Rejected(c.t, PutsSent(uid, name, hash, |contents(hash)| - |FileOf(c.s, hash)|))
    ensures History(c, contents, events, r)
    ensures uid in r.t.u && DownloadHash(r.t, uid, name) == Some(hash)
    ensures hash in r.s.files && r.s.files[hash] == contents(hash)
  {
    hide Safe, Aligned, Backed, Exec, Enabled, Next, Run, History, DownloadHash, Rejected, Possible, Happened;
    var begun, done := UninterruptedUpload(c.s, contents, id, hash, counts);
    TransfersHappen(c, contents, [Open(id, hash)], begun);
    AllWrites(id, counts);
    TransfersHappen(Cloud(c.t, begun), contents, Writes(id, counts), done);
    events := Transfers([Open(id, hash)]) + Transfers(Writes(id, counts));
    var m := Cloud(c.t, done);
    HistoriesJoin(c, contents, Transfers([Open(id, hash)]), Cloud(c.t, begun), Transfers(Writes(id, counts)), m);
    HistoriesStayWhole(c, contents, events, m);
    var e := EndSent(id, uid, name);
    FinishIsPossible(m, contents, e);
    EndsAndServes(m, contents, e);
    r := Happened(m, contents, e);
    HistoriesJoin(c, contents, events, m, [e], r);
    events := events + [e];
    ShorterIsPrefix(c.s, contents, hash);
    ResumedIsContent(FileOf(c.s, hash), contents(hash));
  }

  lemma {:induction false} FinishIsPossible(c: Cloud, contents: Contents, e: Event)
    requires e.EndSent? && e.uid in c.t.u && Enabled(c.s, contents, Finish(e.id))
    ensures Possible(c, contents, e)
    ensures TableCommand(c, contents, e)
            == Some(PutsSent(e.uid, e.name, c.s.sessions[e.id].hash, Announced(contents, c.s.sessions[e.id])))
  {
  }

  lemma {:induction false} ShorterIsPrefix(s: Store, contents: Contents, hash: string)
    requires Aligned(s, contents) && |FileOf(s, hash)| <= |contents(hash)|
    ensures FileOf(s, hash) <= contents(hash)
  {
    assert hash in s.files ==> Common(s.files[hash], contents(hash));
  }

  /** A content that is stored already, and has a row, is served under the new
      name without a byte being sent. */
  lemma {:induction false} InstantIsServed(c: Cloud, contents: Contents, id: nat, uid: int, name: string, hash: string)
    returns (events: seq<Event>, r: Cloud)
    requires Whole(c, contents) && uid in c.t.u && id !in c.s.sessions
    requires |FileOf(c.s, hash)| == |contents(hash)|
    requires !Rejected(c.t, PutsInstant(uid, name, hash, |contents(hash)|))
    ensures History(c, contents, events, r) && AllSteps(events) == [Open(id, hash), Instant(id)]
    ensures uid in r.t.u && DownloadHash(r.t, uid, name) == Some(hash)
    ensures hash in r.s.files && r.s.files[hash] == contents(hash)
  {
    hide Safe, Aligned, Backed, Exec, Enabled, Next, Run, History, DownloadHash, Rejected, Possible, Happened;
    var begun, done := InstantUpload(c.s, contents, id, hash);
    var m, e, first := Cloud(c.t, begun), EndInstant(id, uid, name), Transfer(Open(id, hash));
    OpenIsPossible(c, contents, id, hash);
    OneEvent(c, contents, first);
    HistoriesStayWhole(c, contents, [first], m);
    InstantIsPossible(m, contents, e);
    EndsAndServes(m, contents, e);
    r := Happened(m, contents, e);
    HistoriesJoin(c, contents, [first], m, [e], r);
    events := [first] + [e];
    TwoEvents(first, e);
    ShorterIsPrefix(c.s, contents, hash);
    OpenKeepsFile(c.s, contents, id, hash);
  }

  lemma {:induction false} TwoEvents(a: Event, b: Event)
    ensures AllSteps([a] + [b]) == StoreSteps(a) + StoreSteps(b)
  {
    assert ([a] + [b])[1..] == [b] && [b][1..] == [];
    assert AllSteps([b]) == StoreSteps(b) + AllSteps([b][1..]) == StoreSteps(b);
  }

  lemma {:induction false} OpenIsPossible(c: Cloud, contents: Contents, id: nat, hash: string)
    requires id !in c.s.sessions
    ensures Possible(c, contents, Transfer(Open(id, hash)))
    ensures Happened(c, contents, Transfer(Open(id, hash))) == Cloud(c.t, Next(c.s, contents, Open(id, hash)))
  {
  }

  lemma {:induction false} OpenKeepsFile(s: Store, contents: Contents, id: nat, hash: string)
    requires id !in s.sessions
    ensures Next(s, contents, Open(id, hash)).files == s.files[hash := FileOf(s, hash)]
  {
  }

  lemma {:induction false} InstantIsPossible(c: Cloud, contents: Contents, e: Event)
    requires e.EndInstant? && e.uid in c.t.u && Enabled(c.s, contents, Instant(e.id))
    ensures Possible(c, contents, e)
    ensures TableCommand(c, contents, e)
            == Some(PutsInstant(e.uid, e.name, c.s.sessions[e.id].hash, c.s.sessions[e.id].start))
  {
  }
}
