/** Any number of upload sessions, running at the same time or given up, on a
    store with one file for each content hash. */
module Uploads {
  import opened Basics
  import opened FileTransfer

  /** A server side upload: the hash it was told, the size it read when it
      opened the file, how much it has written from there on, and whether it is
      over. */
  datatype Session = Session(hash: string, start: nat, written: nat, finished: bool)

  datatype Store = Store(files: map<string, seq<Byte>>, sessions: map<nat, Session>)

  /** What each hash stands for. */
  type Contents = string -> seq<Byte>

  datatype Step =
    | Open(id: nat, hash: string)    // opens or creates the file, reads its size, seeks there
    | Instant(id: nat)               // the client found nothing missing
    | Write(id: nat, count: nat, behind: seq<Byte>)
                                     // one received chunk; `behind` has come in behind the content by then
    | Finish(id: nat)                // as much as was announced has been written, or more

  function FileOf(s: Store, hash: string): seq<Byte> {
    if hash in s.files then s.files[hash] else []
  }

  /** The length the client announces: its file less the size it was told. */
  function Announced(contents: Contents, t: Session): int {
    |contents(t.hash)| - t.start
  }

  function Left(contents: Contents, t: Session): int {
    Announced(contents, t) - t.written
  }

  /** The most that one write takes: a pipe's worth, or a block. */
  function ChunkLimit(announced: int): nat {
    if announced > LARGE then PIPE else BLOCK
  }

  predicate Working(s: Store, id: nat) {
    id in s.sessions && !s.sessions[id].finished
  }

  /** The block loop asks for no more than is left. The pipe loop takes what
      there is, up to a pipe's worth. */
  predicate Enabled(s: Store, contents: Contents, step: Step) {
    match step
    case Open(id, _) => id !in s.sessions
    case Instant(id) => Working(s, id) && Announced(contents, s.sessions[id]) == 0
    case Write(id, count, behind) =>
      && Working(s, id)
      && var t := s.sessions[id];
         && 0 < count <= ChunkLimit(Announced(contents, t)) && 0 < Left(contents, t)
         && count <= Left(contents, t) + if Announced(contents, t) > LARGE then |behind| else 0
    case Finish(id) =>
      && Working(s, id) && Announced(contents, s.sessions[id]) != 0 && Left(contents, s.sessions[id]) <= 0
  }

  /** Where a session writes next. */
  function Position(t: Session): nat {
    t.start + t.written
  }

  function Next(s: Store, contents: Contents, step: Step): (r: Store)
    requires Enabled(s, contents, step)
  {
    match step
    case Open(id, hash) =>
      var file := FileOf(s, hash);
      Store(s.files[hash := file], s.sessions[id := Session(hash, |file|, 0, false)])
    case Write(id, count, behind) =>
      var t := s.sessions[id];
      var chunk := (contents(t.hash) + behind)[Position(t)..Position(t) + count];
      Store(s.files[t.hash := WriteAt(FileOf(s, t.hash), Position(t), chunk)],
            s.sessions[id := t.(written := t.written + count)])
    case _ => s.(sessions := s.sessions[step.id := s.sessions[step.id].(finished := true)])
  }

  /** The step writes past the end of the content of `hash`. */
  predicate Past(s: Store, contents: Contents, step: Step, hash: string) {
    && step.Write? && step.id in s.sessions
    && var t := s.sessions[step.id]; t.hash == hash && Position(t) + step.count > |contents(hash)|
  }

  // ----- what every step keeps --------------------------------------------------

  /** The file begins with the content, or the content with the file. */
  ghost predicate Common(file: seq<Byte>, content: seq<Byte>) {
    file <= content || content <= file
  }

  /** A session writes where the file already reaches; after a finished session
      the whole content is there. */
  ghost predicate SessionOk(s: Store, contents: Contents, t: Session) {
    && t.hash in s.files && Position(t) <= |s.files[t.hash]|
    && (t.finished ==> contents(t.hash) <= s.files[t.hash])
  }

  ghost predicate Aligned(s: Store, contents: Contents) {
    && (forall h | h in s.files :: Common(s.files[h], contents(h)))
    && (forall id | id in s.sessions :: SessionOk(s, contents, s.sessions[id]))
  }

  /** No file goes beyond what its hash stands for. */
  ghost predicate Within(s: Store, contents: Contents) {
    forall h | h in s.files :: s.files[h] <= contents(h)
  }

  /** Part of the content and of what is behind it, written where it belongs. */
  lemma {:induction false} WriteKeepsCommon(file: seq<Byte>, content: seq<Byte>, behind: seq<Byte>,
                                            pos: nat, count: nat)
    requires Common(file, content) && pos <= |file| && pos + count <= |content + behind|
    ensures var r := WriteAt(file, pos, (content + behind)[pos..pos + count]);
            && Common(r, content) && pos + count <= |r| && |file| <= |r|
            && (content <= file ==> content <= r)
            && (|file| <= |content| ==> (|r| <= |content| <==> pos + count <= |content|))
  {
    var all := content + behind;
    var chunk := all[pos..pos + count];
    var r := WriteAt(file, pos, chunk);
    assert |r| == if pos + count <= |file| then |file| else pos + count;
    var n := Min(|r|, |content|);
    forall k | 0 <= k < n ensures r[k] == content[k] {
      if k < pos {
        assert r[k] == file[k];
      } else if k < pos + count {
        assert r[k] == all[k];
      } else {
        assert r[k] == file[k];
      }
    }
    if |r| <= |content| {
      assert r == content[..|r|];
    } else {
      assert content == r[..|content|];
    }
  }

  lemma {:induction false} WriteKeeps(s: Store, contents: Contents, id: nat, count: nat, behind: seq<Byte>)
    requires Aligned(s, contents) && Enabled(s, contents, Write(id, count, behind))
    ensures Aligned(Next(s, contents, Write(id, count, behind)), contents)
    ensures var n, t := Next(s, contents, Write(id, count, behind)), s.sessions[id];
            && t.hash in s.files && n.files.Keys == s.files.Keys && |s.files[t.hash]| <= |n.files[t.hash]|
            && (forall h | h in s.files && h != t.hash :: n.files[h] == s.files[h])
            && (|s.files[t.hash]| <= |contents(t.hash)|
                ==> (|n.files[t.hash]| <= |contents(t.hash)| <==> Position(t) + count <= |contents(t.hash)|))
            && Position(t) + count <= |n.files[t.hash]|
  {
    var n, t := Next(s, contents, Write(id, count, behind)), s.sessions[id];
    assert SessionOk(s, contents, t);
    assert Common(s.files[t.hash], contents(t.hash));
    WriteKeepsCommon(s.files[t.hash], contents(t.hash), behind, Position(t), count);
    var longer := WriteAt(s.files[t.hash], Position(t), (contents(t.hash) + behind)[Position(t)..Position(t) + count]);
    assert n.files == s.files[t.hash := longer] && n.sessions == s.sessions[id := t.(written := t.written + count)];
    hide WriteAt, Next, Common;
    forall i | i in n.sessions ensures SessionOk(n, contents, n.sessions[i]) {
      assert SessionOk(s, contents, s.sessions[i]);
    }
  }

  /** Every step, whoever takes it and whatever is queued behind the file it
      receives, keeps files and contents in common, and no file ever gets
      shorter. */
  lemma {:induction false} StepKeeps(s: Store, contents: Contents, step: Step)
    requires Aligned(s, contents) && Enabled(s, contents, step)
    ensures Aligned(Next(s, contents, step), contents)
    ensures forall h | h in s.files ::
              h in Next(s, contents, step).files && |s.files[h]| <= |Next(s, contents, step).files[h]|
  {
    if step.Write? {
      hide Next, Enabled, Aligned;
      WriteKeeps(s, contents, step.id, step.count, step.behind);
    } else {
      var n := Next(s, contents, step);
      forall id | id in n.sessions ensures SessionOk(n, contents, n.sessions[id]) {
        assert id in s.sessions ==> SessionOk(s, contents, s.sessions[id]);
      }
    }
  }

  /** A file is no longer than its content after a step exactly when it was so
      before and the step does not write past the end. */
  lemma {:induction false} StepWithinExactly(s: Store, contents: Contents, step: Step, hash: string)
    requires Aligned(s, contents) && Enabled(s, contents, step)
    ensures |FileOf(Next(s, contents, step), hash)| <= |contents(hash)|
            <==> |FileOf(s, hash)| <= |contents(hash)| && !Past(s, contents, step, hash)
  {
    if step.Write? {
      hide Aligned, Next;
      WriteKeeps(s, contents, step.id, step.count, step.behind);
    }
  }

  // ----- every run ----------------------------------------------------------------

  ghost predicate Run(s: Store, contents: Contents, steps: seq<Step>, r: Store)
    decreases |steps|
  {
    if steps == [] then r == s
    else Enabled(s, contents, steps[0]) && Run(Next(s, contents, steps[0]), contents, steps[1..], r)
  }

  /** Some step of the run writes past the end of the content of `hash`. */
  ghost predicate EverPast(s: Store, contents: Contents, steps: seq<Step>, hash: string)
    decreases |steps|
  {
    && steps != []
    && (Past(s, contents, steps[0], hash)
        || (Enabled(s, contents, steps[0]) && EverPast(Next(s, contents, steps[0]), contents, steps[1..], hash)))
  }

  /** Whatever the sessions do, and whichever of them stop for good, every file
      is a prefix of its content or begins with the whole of it, every session
      writes within or at the end of its file, and after a finished one the whole
      content is there. */
  lemma {:induction false} RunsStayAligned(s: Store, contents: Contents, steps: seq<Step>, r: Store)
    requires Aligned(s, contents) && Run(s, contents, steps, r)
    ensures Aligned(r, contents)
    ensures forall h | h in s.files :: h in r.files && |s.files[h]| <= |r.files[h]|
    decreases |steps|
  {
    hide Aligned, Enabled, Next;
    if steps != [] {
      StepKeeps(s, contents, steps[0]);
      RunsStayAligned(Next(s, contents, steps[0]), contents, steps[1..], r);
    }
  }

  /** A file ends up as a prefix of its content exactly when it was one and
      nobody has written past the end on the way. */
  lemma {:induction false} RunsWithinExactly(s: Store, contents: Contents, steps: seq<Step>, r: Store, hash: string)
    requires Aligned(s, contents) && Run(s, contents, steps, r)
    ensures FileOf(r, hash) <= contents(hash)
            <==> FileOf(s, hash) <= contents(hash) && !EverPast(s, contents, steps, hash)
    decreases |steps|
  {
    hide Aligned, Enabled, Next, Past, FileOf;
    PrefixIsLength(s, contents, hash);
    if steps != [] {
      StepKeeps(s, contents, steps[0]);
      StepWithinExactly(s, contents, steps[0], hash);
      PrefixIsLength(Next(s, contents, steps[0]), contents, hash);
      RunsWithinExactly(Next(s, contents, steps[0]), contents, steps[1..], r, hash);
    }
  }

  lemma {:induction false} PrefixIsLength(s: Store, contents: Contents, hash: string)
    requires Aligned(s, contents)
    ensures FileOf(s, hash) <= contents(hash) <==> |FileOf(s, hash)| <= |contents(hash)|
  {
    assert hash in s.files ==> Common(s.files[hash], contents(hash));
  }

  lemma {:induction false} WithinByFile(s: Store, contents: Contents)
    ensures Within(s, contents) <==> forall h :: FileOf(s, h) <= contents(h)
  {
    if Within(s, contents) {
      forall h ensures FileOf(s, h) <= contents(h) {
        assert h in s.files ==> s.files[h] <= contents(h);
      }
    }
    if forall h :: FileOf(s, h) <= contents(h) {
      forall h | h in s.files ensures s.files[h] <= contents(h) {
        assert FileOf(s, h) == s.files[h];
      }
    }
  }

  /** So the whole store does if and only if no write of the run goes past. */
  lemma {:induction false} StoreWithinExactly(s: Store, contents: Contents, steps: seq<Step>, r: Store)
    requires Aligned(s, contents) && Within(s, contents) && Run(s, contents, steps, r)
    ensures Within(r, contents) <==> !exists h :: EverPast(s, contents, steps, h)
  {
    hide Aligned, Run, EverPast, Within, FileOf;
    WithinByFile(s, contents);
    WithinByFile(r, contents);
    if h :| EverPast(s, contents, steps, h) {
      RunsWithinExactly(s, contents, steps, r, h);
    } else {
      forall h ensures FileOf(r, h) <= contents(h) {
        RunsWithinExactly(s, contents, steps, r, h);
      }
    }
  }

  /** Only the pipe of a large session can write past the end, and only when
      something is queued behind its file. */
  lemma {:induction false} OnlyPipesGoPast(s: Store, contents: Contents, step: Step, hash: string)
    requires Enabled(s, contents, step) && Past(s, contents, step, hash)
    ensures Announced(contents, s.sessions[step.id]) > 1024000 && step.behind != []
  {
  }

  function EmptyStore(): Store {
    Store(map[], map[])
  }

  /** From an empty store: a session that is over left a file that begins with
      the whole content, and is that content if and only if nobody has written
      past its end. */
  lemma {:induction false} FinishedMeansStored(contents: Contents, steps: seq<Step>, r: Store, id: nat)
    requires Run(EmptyStore(), contents, steps, r) && id in r.sessions
    ensures var t := r.sessions[id];
            && t.hash in r.files && Position(t) <= |r.files[t.hash]|
            && (t.finished ==> contents(t.hash) <= r.files[t.hash])
            && (t.finished ==> (r.files[t.hash] == contents(t.hash)
                                <==> !EverPast(EmptyStore(), contents, steps, t.hash)))
  {
    RunsStayAligned(EmptyStore(), contents, steps, r);
    RunsWithinExactly(EmptyStore(), contents, steps, r, r.sessions[id].hash);
    assert SessionOk(r, contents, r.sessions[id]);
  }

  // ----- a file spoiled -------------------------------------------------------------

  /** The file of the session is what the session has found and written. */
  ghost predicate Alone(s: Store, contents: Contents, id: nat, behind: seq<Byte>)
    requires id in s.sessions
  {
    var t := s.sessions[id];
    && t.hash in s.files && Position(t) <= |contents(t.hash) + behind|
    && s.files[t.hash] == (contents(t.hash) + behind)[..Position(t)]
  }

  lemma {:induction false} AloneWrites(s: Store, contents: Contents, id: nat, count: nat, behind: seq<Byte>)
    requires Enabled(s, contents, Write(id, count, behind)) && Alone(s, contents, id, behind)
    ensures var n := Next(s, contents, Write(id, count, behind));
            id in n.sessions && Alone(n, contents, id, behind)
  {
    var t := s.sessions[id];
    var all, pos := contents(t.hash) + behind, Position(t);
    assert all[..pos] + all[pos..pos + count] == all[..pos + count];
  }

  /** A large session with something queued behind its file can go on to write
      the first byte of that. */
  lemma {:induction false} SpoilingWrites(s: Store, contents: Contents, id: nat, behind: seq<Byte>)
    returns (steps: seq<Step>, r: Store)
    requires Aligned(s, contents) && Working(s, id) && behind != []
    requires 0 < Left(contents, s.sessions[id]) && Announced(contents, s.sessions[id]) > LARGE
    ensures Run(s, contents, steps, r)
    ensures var h := s.sessions[id].hash; h in r.files && |r.files[h]| > |contents(h)|
    ensures Alone(s, contents, id, behind) ==>
              var h := s.sessions[id].hash; r.files[h] == (contents(h) + behind)[..1 + |contents(h)|]
    decreases Left(contents, s.sessions[id])
  {
    var left := Left(contents, s.sessions[id]);
    var count := if left < PIPE then left + 1 else if left == PIPE then 1 else PIPE;
    var step := Write(id, count, behind);
    var n := Next(s, contents, step);
    StepKeeps(s, contents, step);
    WriteKeeps(s, contents, id, count, behind);
    if left < PIPE {
      steps, r := [], n;
      assert Run(n, contents, steps, r);
      if Alone(s, contents, id, behind) {
        AloneWrites(s, contents, id, count, behind);
      }
    } else {
      SessionGoesOn(s, contents, id, count, behind);
      if Alone(s, contents, id, behind) {
        AloneWrites(s, contents, id, count, behind);
      }
      steps, r := SpoilingWrites(n, contents, id, behind);
    }
    hide Enabled, Next;
    var whole := [step] + steps;
    assert whole[1..] == steps;
    steps := whole;
  }

  lemma {:induction false} SessionGoesOn(s: Store, contents: Contents, id: nat, count: nat, behind: seq<Byte>)
    requires Enabled(s, contents, Write(id, count, behind))
    ensures var n, t := Next(s, contents, Write(id, count, behind)), s.sessions[id];
            && Working(n, id) && n.sessions[id] == t.(written := t.written + count)
            && Left(contents, n.sessions[id]) == Left(contents, t) - count
  {
  }

  /** So every large content can end up with bytes of the client's next message
      behind it. */
  lemma {:induction false} LargeUploadSpoils(contents: Contents, hash: string, behind: seq<Byte>)
    returns (steps: seq<Step>, r: Store)
    requires |contents(hash)| > 1024000 && behind != []
    ensures Run(EmptyStore(), contents, steps, r)
    ensures hash in r.files && r.files[hash] == contents(hash) + [behind[0]] && !Within(r, contents)
  {
    var s := Next(EmptyStore(), contents, Open(0, hash));
    StepKeeps(EmptyStore(), contents, Open(0, hash));
    steps, r := SpoilingWrites(s, contents, 0, behind);
    RunsStayAligned(s, contents, steps, r);
    var whole := [Open(0, hash)] + steps;
    assert whole[1..] == steps;
    steps := whole;
    assert (contents(hash) + behind)[..1 + |contents(hash)|] == contents(hash) + [behind[0]];
  }

  // ----- sessions and transfers ---------------------------------------------------

  /** The writes of session `id`, one for each chunk it receives. */
  function Writes(id: nat, counts: seq<nat>): (steps: seq<Step>)
    ensures |steps| == |counts|
  {
    if counts == [] then [] else [Write(id, counts[0], [])] + Writes(id, counts[1..])
  }

  function Sum(counts: seq<nat>): nat {
    if counts == [] then 0 else counts[0] + Sum(counts[1..])
  }

  /** A session that still has something to write, within or at the end of its
      file. */
  ghost predicate Midway(s: Store, contents: Contents, id: nat) {
    && Working(s, id)
    && var t := s.sessions[id];
       && t.hash in s.files && t.start + t.written <= |s.files[t.hash]| <= |contents(t.hash)|
       && t.start < |contents(t.hash)|
  }

  /** The file when everything that is missing has been written. */
  ghost function Completed(s: Store, contents: Contents, id: nat): seq<Byte>
    requires Midway(s, contents, id)
  {
    var t := s.sessions[id];
    var pos := t.start + t.written;
    WriteAt(s.files[t.hash], pos, contents(t.hash)[pos..])
  }

  /** Two stores that differ in one file and the progress of one session. */
  ghost predicate Advanced(s: Store, r: Store, id: nat, file: seq<Byte>, count: nat)
    requires id in s.sessions
  {
    var t := s.sessions[id];
    && r.files == s.files[t.hash := file]
    && r.sessions == s.sessions[id := t.(written := t.written + count)]
  }

  lemma {:induction false} OneWrite(s: Store, contents: Contents, id: nat, count: nat)
    requires Midway(s, contents, id)
    requires 0 < count <= Left(contents, s.sessions[id]) && count <= ChunkLimit(Announced(contents, s.sessions[id]))
    ensures Enabled(s, contents, Write(id, count, []))
    ensures var n, t := Next(s, contents, Write(id, count, [])), s.sessions[id];
            && Midway(n, contents, id) && t.hash in n.files && Advanced(s, n, id, n.files[t.hash], count)
            && Completed(n, contents, id) == Completed(s, contents, id)
  {
    var t := s.sessions[id];
    OneChunk(s.files[t.hash], contents(t.hash), t.start, t.written, count);
    hide WriteAt;
  }

  lemma {:induction false} AdvancedTwice(s: Store, n: Store, r: Store, id: nat, a: nat, b: nat,
                                         file: seq<Byte>, more: seq<Byte>)
    requires id in s.sessions && Advanced(s, n, id, file, a) && Advanced(n, r, id, more, b)
    ensures Advanced(s, r, id, more, a + b)
  {
  }

  lemma {:induction false} NothingLeft(s: Store, contents: Contents, id: nat)
    requires Midway(s, contents, id) && s.sessions[id].start + s.sessions[id].written == |contents(s.sessions[id].hash)|
    ensures Advanced(s, s, id, Completed(s, contents, id), 0)
  {
    var t := s.sessions[id];
    assert contents(t.hash)[t.start + t.written..] == [];
    assert Completed(s, contents, id) == s.files[t.hash];
  }

  /** However the rest of the content is cut into chunks, writing them one by one
      in a session writes it as one piece. */
  lemma {:induction false} WritesCompose(s: Store, contents: Contents, id: nat, counts: seq<nat>) returns (r: Store)
    requires Midway(s, contents, id)
    requires forall n | n in counts :: 0 < n <= ChunkLimit(Announced(contents, s.sessions[id]))
    requires s.sessions[id].start + s.sessions[id].written + Sum(counts) == |contents(s.sessions[id].hash)|
    ensures Run(s, contents, Writes(id, counts), r)
    ensures Advanced(s, r, id, Completed(s, contents, id), Sum(counts))
    decreases |counts|
  {
    hide Advanced, Completed, Enabled, Next;
    if counts == [] {
      r := s;
      NothingLeft(s, contents, id);
    } else {
      assert counts[0] in counts && forall c | c in counts[1..] :: c in counts;
      OneWrite(s, contents, id, counts[0]);
      var n := Next(s, contents, Write(id, counts[0], []));
      SameSession(s, n, id, n.files[s.sessions[id].hash], counts[0]);
      r := WritesCompose(n, contents, id, counts[1..]);
      AdvancedTwice(s, n, r, id, counts[0], Sum(counts[1..]), n.files[s.sessions[id].hash], Completed(s, contents, id));
      assert Writes(id, counts)[1..] == Writes(id, counts[1..]);
    }
  }

  lemma {:induction false} SameSession(s: Store, n: Store, id: nat, file: seq<Byte>, count: nat)
    requires id in s.sessions && Advanced(s, n, id, file, count)
    ensures id in n.sessions && n.sessions[id] == s.sessions[id].(written := s.sessions[id].written + count)
  {
  }

  /** Writing a chunk and then the rest is writing both. */
  lemma {:induction false} OneChunk(file: seq<Byte>, content: seq<Byte>, start: nat, written: nat, count: nat)
    requires start + written <= |file| && start + written + count <= |content|
    ensures var pos, chunk := start + written, content[start..][written..written + count];
            && chunk == content[pos..pos + count] == (content + [])[pos..pos + count]
            && pos + count <= |WriteAt(file, pos, chunk)|
            && (|file| <= |content| ==> |WriteAt(file, pos, chunk)| <= |content|)
            && WriteAt(WriteAt(file, pos, chunk), pos + count, content[pos + count..])
               == WriteAt(file, pos, content[pos..])
  {
    var pos := start + written;
    assert content[start..][written..written + count] == content[pos..pos + count];
    assert content + [] == content;
    WriteTwice(file, pos, content[pos..pos + count], content[pos + count..]);
    assert content[pos..pos + count] + content[pos + count..] == content[pos..];
  }

  /** A session nobody interrupts does to the stored file what a whole upload
      does to it, in whatever chunks its loop takes. */
  lemma {:induction false} UninterruptedUpload(s: Store, contents: Contents, id: nat, hash: string, counts: seq<nat>)
    returns (begun: Store, r: Store)
    requires id !in s.sessions
    requires forall n | n in counts ::
               0 < n <= if |contents(hash)| - |FileOf(s, hash)| > 1024000 then 4096 else 1000
    requires |FileOf(s, hash)| < |contents(hash)| && Sum(counts) == |contents(hash)| - |FileOf(s, hash)|
    ensures Run(s, contents, [Open(id, hash)], begun) && Run(begun, contents, Writes(id, counts), r)
    ensures Enabled(r, contents, Finish(id)) && r.sessions[id].hash == hash && r.sessions[id].start == |FileOf(s, hash)|
    ensures r.files == s.files[hash := Resumed(FileOf(s, hash), contents(hash))]
  {
    var file, content := FileOf(s, hash), contents(hash);
    hide Resumed, WriteAt;
    begun := Next(s, contents, Open(id, hash));
    RunOne(s, contents, Open(id, hash));
    r := WritesCompose(begun, contents, id, counts);
    WrittenBehind(file, content);
    assert r.files == s.files[hash := Resumed(file, content)];
  }

  /** Nothing is written for a content that is stored already, or whose stored
      file has its length. */
  lemma {:induction false} InstantUpload(s: Store, contents: Contents, id: nat, hash: string)
    returns (begun: Store, r: Store)
    requires id !in s.sessions && |FileOf(s, hash)| == |contents(hash)|
    ensures Run(s, contents, [Open(id, hash), Instant(id)], r)
    ensures r.files == s.files[hash := FileOf(s, hash)]
    ensures begun == Next(s, contents, Open(id, hash)) && Enabled(begun, contents, Instant(id))
    ensures r == Next(begun, contents, Instant(id)) && begun.sessions[id] == Session(hash, |contents(hash)|, 0, false)
  {
    begun := Next(s, contents, Open(id, hash));
    r := Next(begun, contents, Instant(id));
    RunOne(begun, contents, Instant(id));
    hide Enabled, Next;
    assert [Open(id, hash), Instant(id)][1..] == [Instant(id)];
  }

  /** Where the stored file has outgrown the content, the length announced is
      negative: the session ends without writing, as one that was sent. */
  lemma {:induction false} OverlongEnds(s: Store, contents: Contents, id: nat, hash: string) returns (r: Store)
    requires id !in s.sessions && |FileOf(s, hash)| > |contents(hash)|
    ensures Run(s, contents, [Open(id, hash), Finish(id)], r) && r.files == s.files[hash := FileOf(s, hash)]
    ensures forall n: nat, b :: !Enabled(Next(s, contents, Open(id, hash)), contents, Write(id, n, b))
    ensures !Enabled(Next(s, contents, Open(id, hash)), contents, Instant(id))
  {
    var begun := Next(s, contents, Open(id, hash));
    r := Next(begun, contents, Finish(id));
    RunOne(begun, contents, Finish(id));
    assert [Open(id, hash), Finish(id)][1..] == [Finish(id)];
  }

  lemma {:induction false} RunOne(s: Store, contents: Contents, step: Step)
    requires Enabled(s, contents, step)
    ensures Run(s, contents, [step], Next(s, contents, step))
  {
    hide Enabled, Next;
    assert [step][1..] == [];
    assert Run(Next(s, contents, step), contents, [], Next(s, contents, step));
  }
}
