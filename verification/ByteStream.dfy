/** One direction of a connection, and the loops that send and receive an exact
    number of bytes over it whatever the network hands out at a time. */
module ByteStream {
  import opened Basics

  class Channel {
    /** Bytes sent and not yet received. */
    var queued: seq<Byte>
    /** How many bytes each coming receive finds ready; beyond the list, all. */
    var bursts: seq<nat>

    constructor (bursts: seq<nat>)
      ensures queued == [] && this.bursts == bursts
    {
      queued, this.bursts := [], bursts;
    }

    /** What the next receive of at most `max` bytes takes: something as long as
        there is something, never more than asked for. */
    function Taken(max: nat): (n: nat)
      reads this
      ensures n <= max && n <= |queued|
      ensures n == 0 <==> max == 0 || queued == []
    {
      TakenOf(max, |queued|, bursts)
    }

    method Recv(max: nat) returns (chunk: seq<Byte>)
      modifies this
      ensures chunk == old(queued)[..old(Taken(max))] && queued == old(queued)[old(Taken(max))..]
      ensures bursts == Later(old(bursts))
    {
      var n := Taken(max);
      chunk, queued := queued[..n], queued[n..];
      bursts := Later(bursts);
    }

    /** A send may accept only a part of what it is given. */
    method Send(data: seq<Byte>) returns (n: nat)
      modifies this`queued
      ensures n <= |data| && (data != [] ==> n > 0) && queued == old(queued) + data[..n]
    {
      var accepted: int := *;
      n := if 0 < accepted <= |data| then accepted else |data|;
      queued := queued + data[..n];
    }

    method SendN(data: seq<Byte>) returns (sent: nat)
      modifies this`queued
      ensures sent == |data| && queued == old(queued) + data
    {
      var left := data;
      while left != []
        invariant |left| <= |data| && left == data[|data| - |left|..]
        invariant queued == old(queued) + data[..|data| - |left|]
        decreases |left|
      {
        var n := Send(left);
        assert data[..|data| - |left|] + left[..n] == data[..|data| - |left| + n];
        left := left[n..];
      }
      sent := |data| - |left|;
    }

    /** Receives `len` bytes, or what there is when the stream ends before. */
    method RecvN(len: nat) returns (data: seq<Byte>)
      modifies this
      ensures var n := Min(len, |old(queued)|); data == old(queued)[..n] && queued == old(queued)[n..]
    {
      data := [];
      ghost var all := queued;
      while |data| < len
        invariant |data| <= len && |data| <= |all| && data == all[..|data|] && queued == all[|data|..]
        decreases len - |data|
      {
        var chunk := Recv(len - |data|);
        if chunk == [] {
          break;
        }
        data := data + chunk;
      }
    }
  }

  function TakenOf(max: nat, available: nat, bursts: seq<nat>): (n: nat)
    ensures n <= max && n <= available
    ensures n == 0 <==> max == 0 || available == 0
  {
    var most := Min(max, available);
    if bursts == [] || most == 0 || bursts[0] >= most then most else if bursts[0] == 0 then 1 else bursts[0]
  }

  /** The network may hand out any number of bytes there are and were asked for,
      and go on in any way. */
  lemma {:induction false} AnySplit(max: nat, available: nat, n: nat, rest: seq<nat>)
    requires 0 < n <= max && n <= available
    ensures TakenOf(max, available, [n] + rest) == n && Later([n] + rest) == rest
  {
    assert ([n] + rest)[1..] == rest;
  }

  function Later(bursts: seq<nat>): seq<nat> {
    if bursts == [] then [] else bursts[1..]
  }

  // ----- numbers on the wire ----------------------------------------------------

  function Pow256(width: nat): (p: nat)
    ensures p > 0
  {
    if width == 0 then 1 else 256 * Pow256(width - 1)
  }

  /** Little-endian, `width` bytes. */
  function ToBytes(n: nat, width: nat): (b: seq<Byte>)
    ensures |b| == width
  {
    if width == 0 then [] else [n % 256] + ToBytes(n / 256, width - 1)
  }

  function FromBytes(b: seq<Byte>): (n: nat)
    ensures n < Pow256(|b|)
  {
    if b == [] then 0 else b[0] + 256 * FromBytes(b[1..])
  }

  lemma {:induction false} NumberRoundTrip(n: nat, width: nat)
    requires n < Pow256(width)
    ensures FromBytes(ToBytes(n, width)) == n
  {
    if width > 0 {
      NumberRoundTrip(n / 256, width - 1);
      assert ToBytes(n, width)[1..] == ToBytes(n / 256, width - 1);
    }
  }

  /** Little-endian: every further byte counts 256 times as much. */
  lemma {:induction false} LaterBytesCountMore(b: seq<Byte>, x: Byte)
    ensures FromBytes(b + [x]) == FromBytes(b) + x * Pow256(|b|)
  {
    if b == [] {
      assert [x][1..] == [];
    } else {
      assert (b + [x])[1..] == b[1..] + [x];
      LaterBytesCountMore(b[1..], x);
      assert x * (256 * Pow256(|b| - 1)) == 256 * (x * Pow256(|b| - 1));
    }
  }

  lemma {:induction false} FirstAndRest(x: Byte, rest: nat)
    ensures (x + 256 * rest) % 256 == x && (x + 256 * rest) / 256 == rest
  {
  }

  lemma {:induction false} BytesRoundTrip(b: seq<Byte>)
    ensures ToBytes(FromBytes(b), |b|) == b
  {
    if b != [] {
      BytesRoundTrip(b[1..]);
      FirstAndRest(b[0], FromBytes(b[1..]));
      assert b == [b[0]] + b[1..];
    }
  }

  /** Two's complement. */
  function SignedToBytes(n: int, width: nat): (b: seq<Byte>)
    requires 0 <= 2 * n + Pow256(width) && 2 * n < Pow256(width)
    ensures |b| == width
  {
    ToBytes(if n < 0 then n + Pow256(width) else n, width)
  }

  function SignedFromBytes(b: seq<Byte>): int {
    var n := FromBytes(b);
    if 2 * n < Pow256(|b|) then n else n - Pow256(|b|)
  }

  /** The upper half of the numbers stands for the negative ones. */
  lemma {:induction false} UpperHalfIsNegative(b: seq<Byte>)
    ensures 0 <= 2 * SignedFromBytes(b) + Pow256(|b|) && 2 * SignedFromBytes(b) < Pow256(|b|)
    ensures SignedFromBytes(b) == FromBytes(b) || SignedFromBytes(b) == FromBytes(b) - Pow256(|b|)
  {
  }

  lemma {:induction false} SignedRoundTrip(n: int, width: nat)
    requires 0 <= 2 * n + Pow256(width) && 2 * n < Pow256(width)
    ensures SignedFromBytes(SignedToBytes(n, width)) == n
  {
    NumberRoundTrip(if n < 0 then n + Pow256(width) else n, width);
  }
}
