/** Command frames: four bytes of length, four of type, then the content. */
module Frames {
  import opened Basics
  import opened ByteStream

  const CONTENT_LIMIT := 1000

  /** A frame as a client builds it. */
  datatype Message = Message(kind: int, content: seq<Byte>)

  predicate Sendable(m: Message) {
    -0x8000_0000 <= m.kind < 0x8000_0000 && |m.content| <= CONTENT_LIMIT
  }

  lemma {:induction false} FourBytes()
    ensures Pow256(4) == 0x1_0000_0000
  {
    assert Pow256(1) == 256 && Pow256(2) == 0x1_0000 && Pow256(3) == 0x100_0000;
  }

  function Encode(m: Message): (b: seq<Byte>)
    requires Sendable(m)
  {
    FourBytes();
    SignedToBytes(|m.content|, 4) + SignedToBytes(m.kind, 4) + m.content
  }

  function EncodeAll(ms: seq<Message>): seq<Byte>
    requires forall m | m in ms :: Sendable(m)
  {
    if ms == [] then [] else Encode(ms[0]) + EncodeAll(ms[1..])
  }

  /** The outcome of handling one readable connection: it was closed, a task
      was enqueued, or the frame was dropped. */
  datatype Handled = Closed | Enqueued(task: Message) | Dropped

  function Ones(n: nat): (b: seq<Byte>)
    ensures |b| == n && forall i | 0 <= i < n :: b[i] == 255
  {
    seq(n, _ => 255)
  }

  /** A four-byte integer that was -1 before the bytes came in. */
  function Int32(b: seq<Byte>): int
    requires |b| <= 4
  {
    SignedFromBytes(b + Ones(4 - |b|))
  }

  /** What the server makes of the bytes `b`, and how many it consumes. */
  function Decode(b: seq<Byte>): (r: (Handled, nat))
    ensures r.1 <= |b|
  {
    var length := Int32(b[..Min(4, |b|)]);
    if b == [] then (Closed, 0)
    else if |b| <= 4 then (Closed, |b|)
    else
      var kind := Int32(b[4..Min(8, |b|)]);
      var rest := b[Min(8, |b|)..];
      if length > 0 then
        var n := Min(length, |rest|);
        (if n > 0 then Enqueued(Message(kind, rest[..n])) else Dropped, Min(8, |b|) + n)
      else (if length == 0 then Enqueued(Message(kind, [])) else Dropped, Min(8, |b|))
  }

  /** Sends one frame. */
  method SendMessage(c: Channel, m: Message)
    requires Sendable(m)
    modifies c`queued
    ensures c.queued == old(c.queued) + Encode(m)
  {
    var n := c.SendN(Encode(m));
  }

  /** Reads one frame off a connection that is not in a transfer. */
  method HandleMessage(c: Channel) returns (h: Handled)
    modifies c
    ensures var r := Decode(old(c.queued)); h == r.0 && c.queued == old(c.queued)[r.1..]
  {
    ghost var all := c.queued;
    var b := c.RecvN(4);
    if b == [] {
      return Closed;
    }
    var length := Int32(b);
    b := c.RecvN(4);
    if b == [] {
      return Closed;
    }
    var kind := Int32(b);
    assert b == all[4..Min(8, |all|)] && c.queued == all[Min(8, |all|)..];
    assert forall n | 0 <= n <= |c.queued| :: c.queued[n..] == all[Min(8, |all|) + n..];
    if length > 0 {
      b := c.RecvN(length);
      h := if b != [] then Enqueued(Message(kind, b)) else Dropped;
    } else {
      h := if length == 0 then Enqueued(Message(kind, [])) else Dropped;
    }
  }

  /** One frame is decoded to the message it was built from, and the bytes
      behind it are left alone. */
  lemma {:induction false} FrameRoundTrip(m: Message, behind: seq<Byte>)
    requires Sendable(m)
    ensures Decode(Encode(m) + behind) == (Enqueued(m), |Encode(m)|)
    ensures (Encode(m) + behind)[|Encode(m)|..] == behind
  {
    FourBytes();
    var b := Encode(m) + behind;
    assert b[..4] == SignedToBytes(|m.content|, 4) == b[..4] + Ones(0);
    assert b[4..8] == SignedToBytes(m.kind, 4) == b[4..8] + Ones(0);
    assert b[8..][..|m.content|] == m.content;
    SignedRoundTrip(|m.content|, 4);
    SignedRoundTrip(m.kind, 4);
  }

  /** What becomes of a frame, by the bytes there are: the connection is closed
      when nothing follows the length; the frame is dropped when its length is
      negative, or promises content and none follows; otherwise a task is
      enqueued with what there is of the content. Bytes missing from the type are
      those of -1. */
  lemma {:induction false} HandledExactly(b: seq<Byte>)
    ensures Decode(b).0.Closed? <==> |b| <= 4
    ensures Decode(b).0.Dropped? <==> |b| > 4 && var n := SignedFromBytes(b[..4]); n < 0 || (n > 0 && |b| <= 8)
    ensures |b| >= 8 ==>
              var n := SignedFromBytes(b[..4]);
              var taken := if n <= 0 then 0 else if 8 + n <= |b| then n else |b| - 8;
              && Decode(b).1 == 8 + taken
              && (Decode(b).0.Enqueued? ==>
                    Decode(b).0.task == Message(SignedFromBytes(b[4..8]), b[8..8 + taken]))
    ensures 4 < |b| < 8 ==>
              && Decode(b).1 == |b|
              && (Decode(b).0.Enqueued? ==>
                    Decode(b).0.task == Message(SignedFromBytes(b[4..] + Ones(8 - |b|)), []))
  {
    if |b| > 4 {
      assert b[..4] + Ones(0) == b[..4];
      assert |b| >= 8 ==> b[4..8] + Ones(0) == b[4..8];
      assert |b| < 8 ==> b[4..Min(8, |b|)] == b[4..] && 4 - |b[4..]| == 8 - |b|;
    }
  }

  lemma {:induction false} FramesAreNotEmpty(ms: seq<Message>)
    requires forall m | m in ms :: Sendable(m)
    ensures EncodeAll(ms) == [] ==> ms == []
  {
  }

  /** Handles the connection until nothing is left to read. */
  method HandleAll(c: Channel, ghost ms: seq<Message>) returns (tasks: seq<Message>)
    requires forall m | m in ms :: Sendable(m)
    requires c.queued == EncodeAll(ms)
    modifies c
    ensures tasks == ms && c.queued == []
  {
    tasks := [];
    ghost var k := 0;
    while c.queued != []
      invariant k <= |ms| && tasks == ms[..k] && c.queued == EncodeAll(ms[k..])
      decreases |ms| - k
    {
      ghost var rest := ms[k..];
      assert rest != [] && rest[0] == ms[k] && rest[1..] == ms[k + 1..];
      hide Decode, Encode;
      FrameRoundTrip(ms[k], EncodeAll(ms[k + 1..]));
      var h := HandleMessage(c);
      tasks := tasks + [h.task];
      k := k + 1;
    }
    FramesAreNotEmpty(ms[k..]);
  }

  /** Sends a sequence of frames. */
  method SendAll(c: Channel, ms: seq<Message>)
    requires forall m | m in ms :: Sendable(m)
    modifies c`queued
    ensures c.queued == old(c.queued) + EncodeAll(ms)
  {
    ghost var before := c.queued;
    for i := 0 to |ms|
      invariant c.queued + EncodeAll(ms[i..]) == before + EncodeAll(ms)
    {
      assert ms[i..][1..] == ms[i + 1..];
      ghost var sent := c.queued;
      SendMessage(c, ms[i]);
      assert sent + (Encode(ms[i]) + EncodeAll(ms[i + 1..])) == c.queued + EncodeAll(ms[i + 1..]);
    }
  }

  /** Any sequence of messages arrives as it was sent, however the bytes are
      split on the way. */
  method Conversation(ms: seq<Message>, bursts: seq<nat>) returns (tasks: seq<Message>)
    requires forall m | m in ms :: -0x8000_0000 <= m.kind < 0x8000_0000 && |m.content| <= 1000
    ensures tasks == ms
  {
    var c := new Channel(bursts);
    SendAll(c, ms);
    tasks := HandleAll(c, ms);
  }
}
