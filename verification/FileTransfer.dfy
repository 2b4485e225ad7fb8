/** Sending and receiving files: small ones in blocks, large ones through a
    pipe, both resumed from the size the receiver already has. */
module FileTransfer {
  import opened Basics
  import opened ByteStream

  /** Files longer than this go through a pipe. */
  const LARGE := 1024000
  const BLOCK := 1000
  const PIPE := 4096
  /** Lengths a transfer can count up to. */
  const LENGTH_LIMIT := 0x8000_0000

  // ----- files ----------------------------------------------------------------

  /** Overwrites and extends; writing behind the end leaves zeros between. */
  function WriteAt(content: seq<Byte>, pos: nat, data: seq<Byte>): (r: seq<Byte>)
    ensures |r| == if pos + |data| <= |content| then |content| else pos + |data|
  {
    var front := if pos <= |content| then content[..pos] else content + seq(pos - |content|, _ => 0);
    front + data + content[Min(pos + |data|, |content|)..]
  }

  /** What is written is there, what is not written over stays, and a gap is
      filled with zeros. */
  lemma {:induction false} WriteAtExactly(content: seq<Byte>, pos: nat, data: seq<Byte>, k: nat)
    requires k < |WriteAt(content, pos, data)|
    ensures WriteAt(content, pos, data)[k]
            == if pos <= k < pos + |data| then data[k - pos] else if k < |content| then content[k] else 0
  {
  }

  class OpenFile {
    var content: seq<Byte>
    var pos: nat

    constructor (content: seq<Byte>)
      ensures this.content == content && pos == 0
    {
      this.content, pos := content, 0;
    }

    method Seek(to: nat)
      modifies this`pos
      ensures pos == to
    {
      pos := to;
    }

    /** Nothing is read at or behind the end. */
    method Read(max: nat) returns (chunk: seq<Byte>)
      modifies this`pos
      ensures chunk == if old(pos) <= |content| then content[old(pos)..Min(old(pos) + max, |content|)] else []
      ensures pos == old(pos) + |chunk|
    {
      chunk := if pos <= |content| then content[pos..Min(pos + max, |content|)] else [];
      pos := pos + |chunk|;
    }

    method Write(data: seq<Byte>)
      modifies this
      ensures content == WriteAt(old(content), old(pos), data) && pos == old(pos) + |data| <= |content|
    {
      content := WriteAt(content, pos, data);
      pos := pos + |data|;
    }
  }

  lemma {:induction false} WriteTwice(content: seq<Byte>, pos: nat, a: seq<Byte>, b: seq<Byte>)
    requires pos <= |content|
    ensures pos + |a| <= |WriteAt(content, pos, a)|
    ensures WriteAt(WriteAt(content, pos, a), pos + |a|, b) == WriteAt(content, pos, a + b)
  {
    var once := WriteAt(content, pos, a);
    assert once[..pos + |a|] == content[..pos] + a;
    assert once[Min(pos + |a| + |b|, |once|)..] == content[Min(pos + |a| + |b|, |content|)..];
    assert content[..pos] + a + b == content[..pos] + (a + b);
  }

  // ----- sending --------------------------------------------------------------

  /** The number of bytes sent: whole blocks until `len` is reached, or the rest
      of the file when that is less. */
  function SentLength(len: int, left: nat): (m: nat)
    ensures m <= left
    ensures len == left ==> m == left
    ensures 0 < len <= left ==> len <= m < len + PIPE
  {
    if len <= 0 then 0
    else if len > LARGE then Min(left, (len + PIPE - 1) / PIPE * PIPE)
    else Min(left, (len + BLOCK - 1) / BLOCK * BLOCK)
  }

  /** Up to 1024000 bytes in blocks of 1000, more in pieces of 4096: all there is,
      or up to the first end of a piece at or behind the length. */
  lemma {:induction false} SentLengthExactly(len: int, left: nat)
    requires 0 < len
    ensures var m, piece := SentLength(len, left), if len > 1024000 then 4096 else 1000;
            && m <= left && (m == left || (m % piece == 0 && len <= m)) && m < len + piece
  {
    if len > LARGE {
      WholePieces((len + PIPE - 1) / PIPE);
    } else {
      WholePieces((len + BLOCK - 1) / BLOCK);
    }
  }

  lemma {:induction false} WholePieces(k: nat)
    ensures k * PIPE % 4096 == 0 && k * BLOCK % 1000 == 0
  {
  }

  /** Bytes that have gone through the pipe after `n` passes of its loop over a
      file with `left` bytes: behind the end a pass moves nothing. */
  function PipeSent(left: nat, n: nat): (m: nat)
    ensures m == Min(left, n * 4096)
  {
    if n == 0 then 0 else PipeSent(left, n - 1) + Min(left - PipeSent(left, n - 1), PIPE)
  }

  /** The loop that sends through the pipe ends if and only if the file is as
      long as announced. */
  lemma {:induction false} PipeSendEndsExactly(len: int, left: nat)
    ensures (exists n: nat :: PipeSent(left, n) >= len) <==> len <= left
  {
    if len <= left {
      assert PipeSent(left, left) >= len;
    }
  }

  /** Sends `len` bytes, announced to the peer before, from the position on. */
  method SendFile(c: Channel, file: OpenFile, len: int)
    requires file.pos <= |file.content| || len <= 0
    requires len > LARGE ==> len <= |file.content| - file.pos
    modifies c`queued, file`pos
    ensures len <= 0 ==> c.queued == old(c.queued)
    ensures len > 0 ==> var m := SentLength(len, |file.content| - old(file.pos));
                        c.queued == old(c.queued) + file.content[old(file.pos)..old(file.pos) + m]
  {
    if len > LARGE {
      SendThroughPipe(c, file, len);
    } else if len > 0 {
      SendBlocks(c, file, len);
    }
  }

  lemma {:induction false} NothingSent(left: nat)
    ensures PipeSent(left, 0) == 0
  {
  }

  lemma {:induction false} OnePassMore(left: nat, n: nat)
    ensures PipeSent(left, n + 1) == PipeSent(left, n) + Min(left - PipeSent(left, n), PIPE)
  {
  }

  lemma {:induction false} PassesSent(len: int, left: nat, k: nat)
    requires LARGE < len <= PipeSent(left, k) && (k - 1) * PIPE < len
    ensures PipeSent(left, k) == SentLength(len, left)
  {
  }

  lemma {:induction false} BlocksSent(len: int, left: nat, k: nat)
    requires 0 < len <= LARGE && (k - 1) * BLOCK < len && (len <= Min(left, k * BLOCK) || left <= k * BLOCK)
    ensures Min(left, k * BLOCK) == SentLength(len, left)
  {
  }

  method SendThroughPipe(c: Channel, file: OpenFile, len: int)
    requires LARGE < len <= |file.content| - file.pos
    modifies c`queued, file`pos
    ensures var m := SentLength(len, |file.content| - old(file.pos));
            c.queued == old(c.queued) + file.content[old(file.pos)..old(file.pos) + m]
  {
    hide SentLength, PipeSent;
    ghost var before, rest, k := c.queued, file.content[file.pos..], 0;
    NothingSent(|rest|);
    var total := 0;
    while total < len
      invariant total == PipeSent(|rest|, k) && (k == 0 || (k - 1) * PIPE < len)
      invariant |file.content| - |rest| + total == file.pos <= |file.content|
      invariant rest == file.content[|file.content| - |rest|..]
      invariant c.queued == before + rest[..total]
      decreases len - total
    {
      var chunk := file.Read(PIPE);
      var sent := c.SendN(chunk);
      assert rest[..total] + chunk == rest[..total + |chunk|];
      OnePassMore(|rest|, k);
      total := total + sent;
      k := k + 1;
    }
    PassesSent(len, |rest|, k);
  }

  method SendBlocks(c: Channel, file: OpenFile, len: int)
    requires 0 < len <= LARGE && file.pos <= |file.content|
    modifies c`queued, file`pos
    ensures var m := SentLength(len, |file.content| - old(file.pos));
            c.queued == old(c.queued) + file.content[old(file.pos)..old(file.pos) + m]
  {
    hide SentLength;
    ghost var before, start, k := c.queued, file.pos, 0;
    ghost var left := |file.content| - start;
    var cur := 0;
    while cur < len
      invariant cur == Min(left, k * BLOCK) && (k == 0 || (k - 1) * BLOCK < len)
      invariant file.pos == start + cur <= |file.content|
      invariant c.queued == before + file.content[start..start + cur]
      decreases len - cur
    {
      var buff := file.Read(BLOCK);
      if buff == [] {
        break;
      }
      var sent := c.SendN(buff);
      assert file.content[start..start + cur] + buff == file.content[start..start + cur + |buff|];
      cur := cur + sent;
      k := k + 1;
    }
    BlocksSent(len, left, k);
  }

  // ----- receiving ------------------------------------------------------------

  /** What moving bytes through a pipe takes off the stream: reads of up to a
      pipe's worth, not limited by what is still expected. */
  function SpliceTaken(len: int, available: nat, bursts: seq<nat>): (m: nat)
    requires len <= available
    ensures m <= available && (len <= 0 ==> m == 0)
    ensures 0 < len ==> len <= m < len + PIPE
    decreases if len < 0 then 0 else len
  {
    if len <= 0 then 0
    else
      var n := TakenOf(PIPE, available, bursts);
      n + SpliceTaken(len - n, available - n, Later(bursts))
  }

  function ReceivedLength(len: int, available: nat, bursts: seq<nat>): (m: nat)
    requires len <= available
    ensures m <= available && (len == available ==> m == len)
    ensures 0 < len ==> len <= m
  {
    if len > LARGE then SpliceTaken(len, available, bursts) else if len > 0 then len else 0
  }

  /** Bytes taken off the stream after `n` passes of the block loop. */
  function BlocksTaken(len: nat, available: nat, n: nat): (m: nat)
    ensures m == Min(Min(len, available), n * 1000)
  {
    if n == 0 then 0
    else
      var m := BlocksTaken(len, available, n - 1);
      m + Min(available - m, Min(len - m, BLOCK))
  }

  /** The same for the pipe. */
  function PipeTaken(available: nat, bursts: seq<nat>, n: nat): (m: nat)
    ensures Min(available, n) <= m <= available
    decreases n
  {
    if n == 0 then 0
    else
      var m := TakenOf(PIPE, available, bursts);
      m + PipeTaken(available - m, Later(bursts), n - 1)
  }

  /** Both receiving loops end if and only if the announced bytes arrive: at the
      end of a stream that is shorter they go on without getting any further. */
  lemma {:induction false} ReceivingEndsExactly(len: nat, available: nat, bursts: seq<nat>)
    ensures (exists n: nat :: BlocksTaken(len, available, n) >= len) <==> len <= available
    ensures (exists n: nat :: PipeTaken(available, bursts, n) >= len) <==> len <= available
  {
    if len <= available {
      assert BlocksTaken(len, available, len) >= len;
      assert PipeTaken(available, bursts, len) >= len;
    }
  }

  /** What the pipe takes when it ends is what its passes have taken by then. */
  lemma {:induction false} SpliceIsPasses(len: int, available: nat, bursts: seq<nat>) returns (n: nat)
    requires len <= available
    ensures PipeTaken(available, bursts, n) == SpliceTaken(len, available, bursts)
    ensures forall k: nat | k < n :: PipeTaken(available, bursts, k) < len
    decreases if len < 0 then 0 else len
  {
    n := 0;
    if len > 0 {
      var m := TakenOf(PIPE, available, bursts);
      n := SpliceIsPasses(len - m, available - m, Later(bursts));
      forall k: nat | k < n + 1 ensures PipeTaken(available, bursts, k) < len {
        if k > 0 {
          assert PipeTaken(available - m, Later(bursts), k - 1) < len - m;
        }
      }
      n := n + 1;
    }
  }

  /** Receives `len` bytes, which the peer has sent, at the position. */
  method RecvFile(c: Channel, file: OpenFile, len: int)
    requires len <= |c.queued| && file.pos <= |file.content|
    modifies c, file
    ensures var m := ReceivedLength(len, |old(c.queued)|, old(c.bursts));
            && file.content == WriteAt(old(file.content), old(file.pos), old(c.queued)[..m])
            && c.queued == old(c.queued)[m..]
  {
    if len > LARGE {
      RecvThroughPipe(c, file, len);
    } else if len > 0 {
      RecvBlocks(c, file, len);
    } else {
      assert WriteAt(file.content, file.pos, c.queued[..0]) == file.content;
    }
  }

  /** `done` bytes of `all` have gone to the file that held `base`. */
  ghost predicate Received(c: Channel, file: OpenFile, base: seq<Byte>, start: nat, all: seq<Byte>, done: nat)
    reads c, file
  {
    && start <= |base| && done <= |all| && c.queued == all[done..]
    && start + done == file.pos <= |file.content| && file.content == WriteAt(base, start, all[..done])
  }

  lemma {:induction false} NothingReceived(c: Channel, file: OpenFile)
    requires file.pos <= |file.content|
    ensures Received(c, file, file.content, file.pos, c.queued, 0)
  {
    assert WriteAt(file.content, file.pos, c.queued[..0]) == file.content;
  }

  /** Moves one chunk from the stream to the file. */
  method Take(c: Channel, file: OpenFile, chunk: seq<Byte>,
              ghost base: seq<Byte>, ghost start: nat, ghost all: seq<Byte>, ghost done: nat)
    requires start <= |base| && done + |chunk| <= |all| && chunk == all[done..done + |chunk|]
    requires c.queued == all[done + |chunk|..]
    requires start + done == file.pos <= |file.content| && file.content == WriteAt(base, start, all[..done])
    modifies file
    ensures Received(c, file, base, start, all, done + |chunk|)
  {
    WriteTwice(base, start, all[..done], chunk);
    assert all[..done] + chunk == all[..done + |chunk|];
    file.Write(chunk);
  }

  method RecvThroughPipe(c: Channel, file: OpenFile, len: int)
    requires LARGE < len <= |c.queued| && file.pos <= |file.content|
    modifies c, file
    ensures Received(c, file, old(file.content), old(file.pos), old(c.queued),
                     SpliceTaken(len, |old(c.queued)|, old(c.bursts)))
  {
    hide WriteAt, PipeTaken, TakenOf;
    NothingReceived(c, file);
    ghost var base, start, all := file.content, file.pos, c.queued;
    var total := 0;
    while total < len
      invariant 0 <= total <= |all| && Received(c, file, base, start, all, total)
      invariant len - total <= |c.queued|
      invariant total + SpliceTaken(len - total, |c.queued|, c.bursts) == SpliceTaken(len, |all|, old(c.bursts))
      decreases len - total
    {
      var chunk := c.Recv(PIPE);
      Take(c, file, chunk, base, start, all, total);
      total := total + |chunk|;
    }
  }

  method RecvBlocks(c: Channel, file: OpenFile, len: int)
    requires 0 < len <= LARGE && len <= |c.queued| && file.pos <= |file.content|
    modifies c, file
    ensures Received(c, file, old(file.content), old(file.pos), old(c.queued), len)
  {
    hide WriteAt, BlocksTaken;
    NothingReceived(c, file);
    ghost var base, start, all := file.content, file.pos, c.queued;
    ghost var k := 0;
    var left := len;
    while left > 0
      invariant 0 <= left <= len && Received(c, file, base, start, all, len - left)
      invariant len - left == BlocksTaken(len, |all|, k)
      decreases left
    {
      var buff := c.RecvN(if left < BLOCK then left else BLOCK);
      Take(c, file, buff, base, start, all, len - left);
      left := left - |buff|;
      k := k + 1;
    }
  }

  /** Some schedule makes the pipe swallow a byte of what comes next. */
  lemma {:induction false} Overshoot(len: int, available: nat) returns (bursts: seq<nat>)
    requires 0 < len < available
    ensures SpliceTaken(len, available, bursts) > len
    decreases len
  {
    if len > PIPE {
      bursts := Overshoot(len - PIPE, available - PIPE);
      bursts := [PIPE] + bursts;
      assert Later(bursts) == bursts[1..];
    } else if len == PIPE {
      bursts := [1];
      assert Later(bursts) == [];
      assert SpliceTaken(len - 1, available - 1, []) >= PIPE;
    } else {
      bursts := [];
    }
  }

  /** One pass through the pipe can take 4096 bytes, never more, and whatever is
      between, and the next passes go on from there. */
  lemma {:induction false} OnePass(available: nat, n: nat, rest: seq<nat>, k: nat)
    requires 0 < n <= available
    ensures n <= 4096 ==> PipeTaken(available, [n] + rest, k + 1) == n + PipeTaken(available - n, rest, k)
    ensures forall bursts :: PipeTaken(available, bursts, 1) <= 4096
  {
    if n <= 4096 {
      AnySplit(PIPE, available, n, rest);
    }
    forall bursts ensures PipeTaken(available, bursts, 1) <= 4096 {
      NoPasses(available - TakenOf(PIPE, available, bursts), Later(bursts));
    }
  }

  lemma {:induction false} NoPasses(available: nat, bursts: seq<nat>)
    ensures PipeTaken(available, bursts, 0) == 0
  {
  }

  /** Up to 1024000 bytes a receiver takes what was announced; of more it can take
      something of what is queued behind them. */
  lemma {:induction false} OnlyLargeOvershoots(len: int, available: nat)
    requires 0 < len < available
    ensures (exists bursts :: ReceivedLength(len, available, bursts) > len) <==> len > 1024000
  {
    if len > 1024000 {
      var bursts := Overshoot(len, available);
      assert ReceivedLength(len, available, bursts) > len;
    }
  }

  /** The pipe stops at the end of the file under every schedule exactly when
      nothing is queued behind the file. */
  lemma {:induction false} SpliceStopsExactly(len: int, available: nat)
    requires 0 < len <= available
    ensures (forall bursts :: SpliceTaken(len, available, bursts) == len) <==> available == len
  {
    if len < available {
      var bursts := Overshoot(len, available);
      assert SpliceTaken(len, available, bursts) != len;
    }
  }

  // ----- whole transfers ------------------------------------------------------

  /** What the receiver ends up with: what it had, and the rest of the sender's
      content from there on. */
  function Resumed(had: seq<Byte>, content: seq<Byte>): (r: seq<Byte>) {
    had + content[Min(|had|, |content|)..]
  }

  /** That is the content exactly when the receiver had a prefix of it. */
  lemma {:induction false} ResumedIsContent(had: seq<Byte>, content: seq<Byte>)
    ensures Resumed(had, content) == content <==> had <= content
  {
    if Resumed(had, content) == content {
      assert content[..|had|] == Resumed(had, content)[..|had|] == had;
    }
  }

  /** What is missing is written behind what is there. */
  lemma {:induction false} WrittenBehind(had: seq<Byte>, content: seq<Byte>)
    ensures WriteAt(had, |had|, content[Min(|had|, |content|)..]) == Resumed(had, content)
    ensures |had| == |content| ==> Resumed(had, content) == had
  {
  }

  lemma {:induction false} EightBytes()
    ensures Pow256(8) == 0x1_0000_0000_0000_0000
  {
    assert Pow256(2) == 0x1_0000;
    assert Pow256(4) == 0x1_0000_0000;
    assert Pow256(6) == 0x1_0000_0000_0000;
  }

  method SendLength(c: Channel, n: int)
    requires -LENGTH_LIMIT < n < LENGTH_LIMIT
    modifies c`queued
    ensures Pow256(8) == 0x1_0000_0000_0000_0000 && c.queued == old(c.queued) + SignedToBytes(n, 8)
  {
    EightBytes();
    var sent := c.SendN(SignedToBytes(n, 8));
  }

  method RecvLength(c: Channel, ghost n: int, ghost behind: seq<Byte>) returns (r: int)
    requires -LENGTH_LIMIT < n < LENGTH_LIMIT
    requires Pow256(8) == 0x1_0000_0000_0000_0000 && c.queued == SignedToBytes(n, 8) + behind
    modifies c
    ensures r == n && c.queued == behind
  {
    SignedRoundTrip(n, 8);
    assert c.queued[..8] == SignedToBytes(n, 8) && c.queued[8..] == behind;
    var b := c.RecvN(8);
    r := SignedFromBytes(b);
  }

  /** An upload, both ends in the order in which they wait for each other: the
      client opens its file, the server tells how much it has of the content,
      the client announces and sends the rest. */
  method Puts(up: Channel, down: Channel, local: OpenFile, stored: OpenFile) returns (instant: bool)
    requires up != down && local != stored && up.queued == [] && down.queued == []
    requires |local.content| < LENGTH_LIMIT && |stored.content| < LENGTH_LIMIT
    modifies up, down, local`pos, stored
    ensures stored.content == Resumed(old(stored.content), local.content)
    ensures instant <==> |old(stored.content)| == |local.content|
    ensures up.queued == [] && down.queued == []
  {
    hide Pow256, SignedToBytes, SignedFromBytes, SpliceTaken, WriteAt, Resumed;
    WrittenBehind(stored.content, local.content);
    // the client finds its file, the server looks for the content
    SendLength(up, 1);
    assert up.queued == SignedToBytes(1, 8) + [];
    var flag := RecvLength(up, 1, []);
    var has := |stored.content|;
    SendLength(down, has);
    stored.Seek(has);
    // the client announces what is missing
    assert down.queued == SignedToBytes(has, 8) + [];
    var offset := RecvLength(down, has, []);
    var missing := |local.content| - offset;
    if missing == 0 {
      SendLength(up, 0);
      assert up.queued == SignedToBytes(0, 8) + [];
      var len := RecvLength(up, 0, []);
      return len == 0;
    }
    local.Seek(offset);
    SendLength(up, missing);
    SendFile(up, local, missing);
    ghost var rest := local.content[Min(offset, |local.content|)..];
    assert up.queued == SignedToBytes(missing, 8) + rest;
    // the server takes it in
    var len := RecvLength(up, missing, rest);
    instant := len == 0;
    RecvFile(up, stored, len);
    assert rest[..|rest|] == rest;
  }

  /** A download of content that the server has. */
  method Gets(up: Channel, down: Channel, stored: OpenFile, local: OpenFile)
    requires up != down && local != stored && up.queued == [] && down.queued == []
    requires |local.content| < LENGTH_LIMIT && |stored.content| < LENGTH_LIMIT
    modifies up, down, local, stored`pos
    ensures local.content == Resumed(old(local.content), stored.content)
    ensures up.queued == [] && down.queued == []
  {
    hide Pow256, SignedToBytes, SignedFromBytes, SpliceTaken, WriteAt, Resumed;
    WrittenBehind(local.content, stored.content);
    // the server has found the row
    SendLength(down, 0);
    assert down.queued == SignedToBytes(0, 8) + [];
    var flag := RecvLength(down, 0, []);
    // the client tells what it has
    var has := |local.content|;
    SendLength(up, has);
    local.Seek(has);
    assert up.queued == SignedToBytes(has, 8) + [];
    var offset := RecvLength(up, has, []);
    // the server sends the rest
    var missing := |stored.content| - offset;
    stored.Seek(offset);
    SendLength(down, missing);
    SendFile(down, stored, missing);
    ghost var rest := stored.content[Min(offset, |stored.content|)..];
    assert down.queued == SignedToBytes(missing, 8) + rest;
    var len := RecvLength(down, missing, rest);
    RecvFile(down, local, len);
    assert rest[..|rest|] == rest;
  }
}
