/** sfifo: the byte queue under the FTP daemon. One slot stays free; read and write
    positions may come to rest one past the last index. */
module Sfifo {
  import opened Bytes
  import Ring

  const MAX_REQUEST: int := 0x4000_0000

  /** A resting position and index 0 are the same place. */
  function Norm(p: nat, size: nat): (r: nat)
    requires 0 < size && p <= size
    ensures r < size
  {
    if p == size then 0 else p
  }

  /** Distance from read to write position around the ring. */
  function Dist(r: nat, w: nat, size: nat): (d: nat)
    requires 0 < size && r <= size && w <= size
    ensures d < size
    ensures Norm(w, size) == Ring.Slot(Norm(r, size) + d, size)
  {
    var p, q := Norm(r, size), Norm(w, size);
    if q >= p then q - p else q - p + size
  }

  /** The masked difference of two positions is that distance, for every resting place. */
  lemma MaskedDifference(r: nat, w: nat, size: nat)
    requires IsPow2(size) && size <= MAX_REQUEST && r <= size && w <= size
    ensures BitAnd(Wrap32(w - r), size - 1) == Dist(r, w, size)
  {
    hide BitAnd, Pow2;
    var k, q := Pow2Fits(size);
    BitAndMask(Wrap32(w - r), k);
    WrapThenMod(w - r, size);
    var d := Dist(r, w, size);
    DistMod(r, w, size);
  }

  lemma DistMod(r: nat, w: nat, size: nat)
    requires 0 < size && r <= size && w <= size
    ensures (w - r) % size == Dist(r, w, size)
  {
    var d, e := Dist(r, w, size), w - r;
    if e == d {
      ModUnique(e, size, 0, d);
    } else if e == d - size {
      ModUnique(e, size, -1, d);
    } else {
      assert e == d + size;
      ModUnique(e, size, 1, d);
    }
  }

  /** The bytes tcp_write accepts when `want` bytes are offered from `r` on, in one piece
      or, past the buffer's end, in two. */
  function Accepted(r: nat, want: nat, size: nat, ok1: bool, ok2: bool): nat
    requires r <= size
  {
    if r + want > size then
      if !ok1 then 0 else if !ok2 then size - r else want
    else
      if ok2 then want else 0
  }

  /** `size <<= 1` on a 32-bit int. */
  function Doubled(n: i32): i32 {
    Signed32(Wrap32(2 * n))
  }

  /** The size after `k` turns of the loop of sfifo_init. */
  function Turns(k: nat): i32 {
    if k == 0 then 1 else Doubled(Turns(k - 1))
  }

  lemma Pow2Of30()
    ensures Pow2(30) == MAX_REQUEST
  {
    assert Pow2(10) == 1024;
    assert Pow2(20) == 1024 * 1024;
  }

  lemma DoubledIs(n: i32)
    ensures 0 <= n < MAX_REQUEST ==> Doubled(n) == 2 * n
    ensures n == MAX_REQUEST ==> Doubled(n) == -0x8000_0000
    ensures n == -0x8000_0000 ==> Doubled(n) == 0
  {
  }

  /** 1, 2, 4 and so on up to 2^30, then the sign bit, then 0 for good. */
  lemma {:induction false} TurnsAre(k: nat)
    ensures Turns(k) == if k <= 30 then Pow2(k) else if k == 31 then -0x8000_0000 else 0
  {
    hide Doubled;
    Pow2Of30();
    if k > 0 {
      TurnsAre(k - 1);
      DoubledIs(Turns(k - 1));
      if k <= 30 {
        Pow2Monotone(k, 30);
      }
    }
  }

  /** The loop of sfifo_init ends if and only if the request is below 2^30. */
  lemma InitEndsExactly(request: i32)
    ensures (exists k :: Turns(k) > request) <==> request < MAX_REQUEST
  {
    hide Turns, Pow2;
    Pow2Of30();
    TurnsAre(30);
    if request < MAX_REQUEST {
      assert Turns(30) > request;
    }
    forall k: nat ensures Turns(k) <= MAX_REQUEST {
      TurnsAre(k);
      if k <= 30 {
        Pow2Monotone(k, 30);
      }
    }
  }

  lemma StillSmall(n: nat, k: nat)
    requires n == Turns(k) == Pow2(k) && n < MAX_REQUEST
    ensures 2 * n <= MAX_REQUEST && Doubled(n) == 2 * n == Pow2(k + 1) == Turns(k + 1)
  {
    hide Doubled, Pow2, Turns;
    Pow2Of30();
    NextTurn(k);
    DoubledIs(n);
    if k < 30 {
      Pow2Monotone(k + 1, 30);
    } else {
      Pow2Monotone(30, k);
    }
  }

  lemma NextTurn(k: nat)
    ensures Pow2(k + 1) == 2 * Pow2(k) && Turns(k + 1) == Doubled(Turns(k))
  {
  }

  class Fifo {
    const buffer: array<byte>
    const size: nat
    var readpos: nat
    var writepos: nat

    ghost predicate Valid()
      reads this, buffer
    {
      && IsPow2(size) && size <= MAX_REQUEST && buffer.Length == size
      && readpos <= size && writepos <= size
    }

    ghost function Contents(): (q: seq<byte>)
      requires Valid()
      reads this, buffer
      ensures |q| < size
    {
      Ring.Queue(buffer[..], Norm(readpos, size), Dist(readpos, writepos, size))
    }

    /** sfifo_init: the least power of two above the request. Requests from 2^30 on are
        those for which its loop does not end, by InitEndsExactly. */
    constructor (request: i32)
      requires request < MAX_REQUEST
      ensures Valid() && Contents() == [] && fresh(buffer)
      ensures request < size && (size == 1 || size / 2 <= request)
    {
      var n: i32, k: nat := 1, 0;
      while n <= request
        invariant n == Turns(k) == Pow2(k) && (n == 1 || n / 2 <= request) && n <= MAX_REQUEST
        decreases request - n
      {
        StillSmall(n, k);
        n, k := Doubled(n), k + 1;
      }
      buffer := new byte[n];
      size, readpos, writepos := n, 0, 0;
      assert IsPow2(n);
      new;
      assert Contents() == [];
    }

    /** sfifo_used */
    method Used() returns (n: nat)
      requires Valid()
      ensures n == |Contents()|
    {
      MaskedDifference(readpos, writepos, size);
      n := BitAnd(Wrap32(writepos - readpos), size - 1);
    }

    /** sfifo_space */
    method Space() returns (n: nat)
      requires Valid()
      ensures n == size - 1 - |Contents()|
    {
      var u := Used();
      n := size - 1 - u;
    }

    /** sfifo_write */
    method Write(buf: seq<byte>) returns (total: nat)
      requires Valid()
      modifies this`writepos, buffer
      ensures Valid()
      ensures total == Min(|buf|, size - 1 - old(|Contents()|))
      ensures Contents() == old(Contents()) + buf[..total]
    {
      hide Ring.Queue, Ring.Slot, Ring.Paste, IsPow2, Dist;
      total := Space();
      var len := |buf|;
      if len > total {
        len := total;
      } else {
        total := len;
      }
      ghost var b0, start, used := buffer[..], Norm(readpos, size), Dist(readpos, writepos, size);
      var chunk := buf[..len];
      Ring.CopyIn(buffer, writepos, chunk);
      PasteAtRest(b0, writepos, chunk);
      Ring.PasteAppends(b0, start, used, chunk);
      DistAfterWrite(readpos, writepos, len, size);
      writepos := if writepos + len > size then writepos + len - size else writepos + len;
    }

    /** One tcp_write of `len` queue bytes that lie in one piece. */
    method Offer(len: nat, ok: bool) returns (sent: seq<byte>)
      requires Valid() && len <= |Contents()| && readpos + len <= size
      modifies this`readpos
      ensures Valid() && readpos == old(readpos) + |sent|
      ensures |sent| == if ok then len else 0
      ensures sent + Contents() == old(Contents())
    {
      hide Ring.Queue, Ring.Slot, IsPow2, Dist;
      sent := [];
      if ok {
        ghost var q, d := Contents(), Dist(readpos, writepos, size);
        Segment(buffer[..], readpos, d, len);
        Dropped(buffer[..], readpos, writepos, len);
        sent := buffer[readpos..readpos + len];
        readpos := readpos + len;
        assert q[..len] + q[len..] == q;
      }
    }

    /** The first of two writes: all bytes up to the buffer's end, then back to index 0. */
    method OfferToEnd(ok: bool) returns (sent: seq<byte>)
      requires Valid() && size - readpos <= |Contents()|
      modifies this`readpos
      ensures Valid() && readpos == if ok then 0 else old(readpos)
      ensures |sent| == if ok then size - old(readpos) else 0
      ensures sent + Contents() == old(Contents())
    {
      hide Ring.Queue, Ring.Slot, IsPow2, Dist;
      sent := Offer(size - readpos, ok);
      if ok {
        RestIsZero(writepos, size);
        readpos := 0;
      }
    }

    /** send_data and send_msgdata: offer the queue to TCP, whose send buffer has room for
        `sndbuf` bytes and whose two writes succeed as `ok1`, `ok2` say. Lengths are 16 bits
        wide, as tcp_sndbuf is. */
    method Drain(sndbuf: u16, ok1: bool, ok2: bool) returns (sent: seq<byte>)
      requires Valid()
      modifies this`readpos
      ensures Valid()
      ensures sent + Contents() == old(Contents())
      ensures |sent| == Accepted(old(readpos), Min(sndbuf, old(|Contents()|)), size, ok1, ok2)
      ensures ok1 && ok2 && sndbuf >= old(|Contents()|) ==> Contents() == []
    {
      hide Contents, IsPow2;
      sent := [];
      var u := Used();
      if u > 0 {
        ghost var q := Contents();
        if u <= sndbuf {
          ModUnique(u, TWO16, 0, u);
        }
        var len := if sndbuf < u then sndbuf else u % TWO16;   // (u16_t)
        if readpos + len > size {
          len := len - (size - readpos);
          sent := OfferToEnd(ok1);
          if !ok1 { return; }
        }
        var more := Offer(len, ok2);
        assert sent + (more + Contents()) == q;
        sent := sent + more;
      }
    }
  }

  lemma RestIsZero(w: nat, size: nat)
    requires 0 < size && w <= size
    ensures Dist(size, w, size) == Dist(0, w, size)
  {
  }

  lemma PasteAtRest(buf: seq<byte>, w: nat, chunk: seq<byte>)
    requires w <= |buf| && 0 < |buf| && |chunk| < |buf|
    ensures Ring.Paste(buf, w, chunk) == Ring.Paste(buf, Norm(w, |buf|), chunk)
  {
    if w == |buf| {
      assert chunk[..0] == [] && chunk[0..] == chunk;
      assert Overlay(buf, w, []) == buf;
      assert Overlay(Overlay(buf, 0, chunk[..|chunk|]), 0, chunk[|chunk|..]) == Overlay(buf, 0, chunk) by {
        assert chunk[..|chunk|] == chunk && chunk[|chunk|..] == [];
      }
    }
  }

  lemma DistAfterWrite(r: nat, w: nat, len: nat, size: nat)
    requires 0 < size && r <= size && w <= size && Dist(r, w, size) + len < size
    ensures var w' := if w + len > size then w + len - size else w + len;
            w' <= size && Dist(r, w', size) == Dist(r, w, size) + len
  {
  }

  /** A run of queue bytes that does not pass the buffer's end is one slice of it. */
  lemma Segment(buf: seq<byte>, r: nat, used: nat, len: nat)
    requires 0 < |buf| && r <= |buf| && len <= used <= |buf| && r + len <= |buf|
    ensures buf[r..r + len] == Ring.Queue(buf, Norm(r, |buf|), used)[..len]
  {
    if r < |buf| {
      Ring.TwoSegments(buf, r, used, len);
      assert buf[r..r + len] + buf[..0] == buf[r..r + len];
    }
  }

  /** Moving the read position over `len` bytes, to a rest or back to 0, drops them. */
  lemma Dropped(buf: seq<byte>, r: nat, w: nat, len: nat)
    requires 0 < |buf| && r <= |buf| && w <= |buf| && r + len <= |buf|
    requires len <= Dist(r, w, |buf|)
    ensures var size, q := |buf|, Ring.Queue(buf, Norm(r, |buf|), Dist(r, w, |buf|));
            && Ring.Queue(buf, Norm(r + len, size), Dist(r + len, w, size)) == q[len..]
            && (r + len == size ==> Ring.Queue(buf, 0, Dist(0, w, size)) == q[len..])
  {
    var size, d := |buf|, Dist(r, w, |buf|);
    Ring.Drop(buf, Norm(r, size), d, len);
    assert Norm(r + len, size) == Ring.Slot(Norm(r, size) + len, size);
    assert Dist(r + len, w, size) == d - len;
  }
}
