/** kfifo: a byte queue over a power-of-two buffer with free-running 32-bit counters. */
module Kfifo {
  import opened Bytes
  import Ring

  class Fifo {
    const buffer: array<byte>
    const size: u32
    const mask: u32
    var inPos: u32
    var outPos: u32

    /** The counters may have wrapped any number of times, each on its own. A size of 0
        passes the test of kfifo_init and makes a queue without room. */
    ghost predicate Valid()
      reads this, buffer
    {
      && (IsPow2(size) || (size == 0 && inPos == outPos == 0))
      && buffer.Length == size && mask == Wrap32(size - 1)
      && Wrap32(inPos - outPos) <= size
    }

    ghost function Contents(): (q: seq<byte>)
      requires Valid()
      reads this, buffer
      ensures |q| == Wrap32(inPos - outPos)
    {
      if size == 0 then [] else Ring.Queue(buffer[..], At(outPos, size), Wrap32(inPos - outPos))
    }

    /** kfifo_init; its BUG_ON lets through powers of two and 0. */
    constructor (buffer: array<byte>, size: u32)
      requires (IsPow2(size) || size == 0) && buffer.Length == size
      ensures Valid() && Contents() == []
      ensures this.buffer == buffer && this.size == size
    {
      this.buffer, this.size, this.mask := buffer, size, Wrap32(size - 1);
      inPos, outPos := 0, 0;
    }

    /** kfifo_data_size */
    method DataSize() returns (n: u32)
      requires Valid()
      ensures n == |Contents()| <= size
    {
      n := Wrap32(inPos - outPos);
    }

    /** kfifo_unused */
    method Unused() returns (n: u32)
      requires Valid()
      ensures n == size - |Contents()|
    {
      hide Wrap32, IsPow2, At;
      RoomLeft(size, Wrap32(inPos - outPos));
      n := Wrap32((mask + 1) - Wrap32(inPos - outPos));
    }

    /** kfifo_put */
    method Put(src: seq<byte>) returns (len: nat)
      requires Valid()
      modifies this`inPos, buffer
      ensures Valid()
      ensures len == Min(|src|, size - old(|Contents()|))
      ensures Contents() == old(Contents()) + src[..len]
    {
      hide At, BitAnd, Wrap32, IsPow2, Ring.Queue, Ring.Slot, Ring.Paste;
      MaskIs(size, inPos);
      ghost var buf := buffer[..];
      FreeSpace(size, inPos, outPos);
      len := Min(|src|, Wrap32(size - inPos + outPos));
      Ring.CopyIn(buffer, BitAnd(inPos, Wrap32(size - 1)), src[..len]);
      if size > 0 {
        Positions(size, inPos, outPos);
        Ring.PasteAppends(buf, At(outPos, size), Wrap32(inPos - outPos), src[..len]);
      }
      MoreUsed(size, inPos, outPos, len);
      inPos := Wrap32(inPos + len);
    }

    /** kfifo_get */
    method Get(want: nat) returns (data: seq<byte>)
      requires Valid()
      modifies this`outPos
      ensures Valid()
      ensures |data| == Min(want, old(|Contents()|))
      ensures data + Contents() == old(Contents())
    {
      hide At, BitAnd, Wrap32, IsPow2, Ring.Queue, Ring.Slot;
      MaskIs(size, outPos);
      ghost var used, q := Wrap32(inPos - outPos), Contents();
      var len := Min(want, Wrap32(inPos - outPos));
      data := Ring.CopyOut(buffer, BitAnd(outPos, Wrap32(size - 1)), len, used);
      if size > 0 {
        Positions(size, inPos, outPos);
        Ring.Drop(buffer[..], At(outPos, size), used, len);
        Moved(size, outPos, len);
      }
      LessUsed(inPos, outPos, len);
      outPos := Wrap32(outPos + len);
      assert q[..len] + q[len..] == q;
    }

    /** kfifo_copy_out: the bytes around the ring from any counter value `off` on, which
        are queued bytes where `off` lies between the two counters. */
    method CopyOut(len: nat, off: u32) returns (data: seq<byte>)
      requires Valid() && len <= size && (size == 0 ==> off == 0)
      ensures |data| == len && (size > 0 ==> data == Ring.Queue(buffer[..], At(off, size), size)[..len])
      ensures var k := Wrap32(off - outPos);
              k + len <= |Contents()| ==> data == Contents()[k..k + len]
    {
      hide At, BitAnd, Wrap32, IsPow2, Ring.Queue, Ring.Slot;
      MaskIs(size, off);
      data := Ring.CopyOut(buffer, BitAnd(off, mask), len, size);
      ghost var k, used := Wrap32(off - outPos), Wrap32(inPos - outPos);
      if size > 0 && k + len <= used {
        Moved(size, outPos, k);
        WrapBack(off, outPos);
        Ring.Window(buffer[..], At(outPos, size), used, k, len);
      }
    }

    /** kfifo_out_peek: what Get would return. */
    method Peek(want: nat) returns (data: seq<byte>)
      requires Valid()
      ensures data == Contents()[..Min(want, |Contents()|)]
    {
      hide At, IsPow2, Ring.Queue, BitAnd;
      MaskIs(size, outPos);
      var l := Wrap32(inPos - outPos);
      data := CopyOut(if want > l then l else want, outPos);
    }
  }

  /** A counter's position in the ring. */
  ghost function At(x: u32, size: nat): (r: nat)
    requires 0 < size
    ensures r < size
  {
    x % size
  }

  /** The masked counters are the ring positions, wrapped counters included. */
  lemma Positions(size: u32, inPos: u32, outPos: u32)
    requires IsPow2(size) && Wrap32(inPos - outPos) <= size
    ensures BitAnd(inPos, size - 1) == At(inPos, size)
    ensures BitAnd(outPos, size - 1) == At(outPos, size)
    ensures At(inPos, size) == Ring.Slot(At(outPos, size) + Wrap32(inPos - outPos), size)
  {
    hide BitAnd, Pow2, Ring.Slot, At, Wrap32;
    var k, q := Pow2Fits(size);
    Masked(inPos, size, k);
    Masked(outPos, size, k);
    Moved(size, outPos, Wrap32(inPos - outPos));
    WrapBack(inPos, outPos);
  }

  lemma Masked(x: u32, size: u32, k: nat)
    requires size == Pow2(k)
    ensures BitAnd(x, size - 1) == At(x, size)
  {
    BitAndMask(x, k);
  }

  /** The test in kfifo_init singles out the powers of two, and 0. */
  lemma {:induction false} PowerTest(n: nat)
    requires n > 0
    ensures BitAnd(n, n - 1) == 0 <==> IsPow2(n)
    decreases n
  {
    var m := n / 2;
    if n == 1 {
      assert Pow2(0) == 1;
    } else if n % 2 == 0 {
      PowerTest(m);
      assert (n - 1) / 2 == m - 1;
      DoublePow2(m);
    } else {
      AndSelf(m);
      assert (n - 1) / 2 == m && (n - 1) % 2 == 0;
      OddPow2(n);
    }
  }

  lemma {:induction false} AndSelf(m: nat)
    ensures BitAnd(m, m) == m
  {
    if m > 0 {
      AndSelf(m / 2);
      assert BitAnd(m, m) == 2 * BitAnd(m / 2, m / 2) + (m % 2) * (m % 2);
      assert m % 2 == 0 || m % 2 == 1;
    }
  }

  lemma DoublePow2(m: nat)
    requires m > 0
    ensures IsPow2(2 * m) <==> IsPow2(m)
  {
    if IsPow2(m) {
      var k: nat :| m == Pow2(k);
      assert 2 * m == Pow2(k + 1);
    }
    if IsPow2(2 * m) {
      var k: nat :| 2 * m == Pow2(k);
      assert k > 0 && m == Pow2(k - 1);
    }
  }

  lemma OddPow2(n: nat)
    requires n > 1 && n % 2 == 1
    ensures !IsPow2(n)
  {
    forall k: nat ensures n != Pow2(k) {
      if k > 0 {
        assert Pow2(k) == 2 * Pow2(k - 1);
      }
    }
  }

  lemma AndNothing(y: nat)
    ensures BitAnd(0, y) == 0
  {
  }

  /** The mask in unsigned arithmetic, for every size kfifo_init accepts. */
  lemma MaskIs(size: u32, x: u32)
    requires IsPow2(size) || (size == 0 && x == 0)
    ensures IsPow2(size) ==> size > 0 && Wrap32(size - 1) == size - 1 && BitAnd(x, size - 1) == At(x, size) < size
    ensures size == 0 ==> BitAnd(x, Wrap32(size - 1)) == 0
  {
    hide Pow2, At, BitAnd;
    if IsPow2(size) {
      var k, q := Pow2Fits(size);
      hide IsPow2;
      Masked(x, size, k);
    }
    assert BitAnd(0, Wrap32(-1)) == 0 by { AndNothing(Wrap32(-1)); }
  }

  /** Advancing a counter advances its position, across the 32-bit wrap too. */
  lemma Moved(size: u32, x: u32, len: nat)
    requires IsPow2(size) && len <= size
    ensures At(Wrap32(x + len), size) == Ring.Slot(At(x, size) + len, size)
  {
    assert size > 0;
    hide Ring.Slot, IsPow2;
    Ring.Advance(x, len, size);
    WrapThenMod(x + len, size);
  }

  lemma WrapBack(x: u32, y: u32)
    ensures Wrap32(y + Wrap32(x - y)) == x
  {
  }

  lemma RoomLeft(size: u32, used: u32)
    requires used <= size
    ensures Wrap32(Wrap32(size - 1) + 1 - used) == size - used
  {
    if size == 0 {
      assert Wrap32(-1) == TWO32 - 1;
    }
  }

  lemma FreeSpace(size: u32, inPos: u32, outPos: u32)
    requires Wrap32(inPos - outPos) <= size
    ensures Wrap32(size - inPos + outPos) == size - Wrap32(inPos - outPos)
  {
  }

  lemma MoreUsed(size: u32, before: u32, out: u32, len: nat)
    requires Wrap32(before - out) + len <= size
    ensures Wrap32(Wrap32(before + len) - out) == Wrap32(before - out) + len
  {
  }

  lemma LessUsed(inPos: u32, out: u32, len: nat)
    requires len <= Wrap32(inPos - out)
    ensures Wrap32(inPos - Wrap32(out + len)) == Wrap32(inPos - out) - len
  {
  }
}
