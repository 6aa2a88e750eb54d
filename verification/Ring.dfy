/** A byte queue laid out in a circular buffer: the abstraction both FIFOs share. */
module Ring {
  import opened Bytes

  /** Index `i` of a buffer of `size` bytes that is walked around at most once. */
  function Slot(i: nat, size: nat): (r: nat)
    requires i < 2 * size
    ensures r < size
  {
    if i < size then i else i - size
  }

  /** The `n` bytes from index `start` on, oldest first. */
  ghost function Queue(buf: seq<byte>, start: nat, n: nat): (r: seq<byte>)
    requires start < |buf| && n <= |buf|
    ensures |r| == n
  {
    seq(n, k requires 0 <= k < n => buf[Slot(start + k, |buf|)])
  }

  /** The first of the two segments of a copy of `n` bytes at `start`. */
  function Head(start: nat, n: nat, size: nat): nat
    requires start <= size
  {
    if n < size - start then n else size - start
  }

  /** A buffer after both segments of `chunk` have been copied in at `w`. */
  function Paste(buf: seq<byte>, w: nat, chunk: seq<byte>): (r: seq<byte>)
    requires w <= |buf| && |chunk| <= |buf|
    ensures |r| == |buf|
  {
    var l := Head(w, |chunk|, |buf|);
    Overlay(Overlay(buf, w, chunk[..l]), 0, chunk[l..])
  }

  /** Where `Paste` puts what. */
  lemma PasteAt(buf: seq<byte>, w: nat, chunk: seq<byte>, k: nat)
    requires w < |buf| && |chunk| <= |buf| && k < |buf|
    ensures Paste(buf, w, chunk)[Slot(w + k, |buf|)] ==
              if k < |chunk| then chunk[k] else buf[Slot(w + k, |buf|)]
  {
  }

  /** Writing behind the contents appends to the queue. */
  lemma PasteAppends(buf: seq<byte>, start: nat, n: nat, chunk: seq<byte>)
    requires start < |buf| && n + |chunk| <= |buf|
    ensures var buf' := Paste(buf, Slot(start + n, |buf|), chunk);
            Queue(buf', start, n + |chunk|) == Queue(buf, start, n) + chunk
  {
    var size := |buf|;
    var w := Slot(start + n, size);
    var buf' := Paste(buf, w, chunk);
    forall k | 0 <= k < n + |chunk|
      ensures Queue(buf', start, n + |chunk|)[k] == (Queue(buf, start, n) + chunk)[k]
    {
      var j := if k >= n then k - n else k - n + size;
      assert Slot(w + j, size) == Slot(start + k, size);
      PasteAt(buf, w, chunk, j);
    }
  }

  /** Moving the read position forward drops the oldest bytes. */
  lemma Drop(buf: seq<byte>, start: nat, n: nat, k: nat)
    requires start < |buf| && k <= n <= |buf|
    ensures Queue(buf, Slot(start + k, |buf|), n - k) == Queue(buf, start, n)[k..]
  {
    var size, q := |buf|, Queue(buf, start, n);
    forall j | 0 <= j < n - k
      ensures Queue(buf, Slot(start + k, size), n - k)[j] == q[k..][j]
    {
      assert Slot(Slot(start + k, size) + j, size) == Slot(start + (k + j), size);
      assert q[k..][j] == q[k + j];
    }
  }

  /** A read that starts `k` bytes into the queue and stays inside it. */
  lemma Window(buf: seq<byte>, start: nat, n: nat, k: nat, len: nat)
    requires start < |buf| && k + len <= n <= |buf|
    ensures Queue(buf, Slot(start + k, |buf|), |buf|)[..len] == Queue(buf, start, n)[k..k + len]
  {
    var size := |buf|;
    var a, b := Queue(buf, Slot(start + k, size), size)[..len], Queue(buf, start, n)[k..k + len];
    forall j | 0 <= j < len ensures a[j] == b[j] {
      assert Slot(Slot(start + k, size) + j, size) == Slot(start + (k + j), size);
    }
  }

  /** The two segments a reader copies out are the oldest bytes in order. */
  lemma TwoSegments(buf: seq<byte>, start: nat, n: nat, k: nat)
    requires start < |buf| && k <= n <= |buf|
    ensures var l := Head(start, k, |buf|);
            buf[start..start + l] + buf[..k - l] == Queue(buf, start, n)[..k]
  {
    var l, q := Head(start, k, |buf|), Queue(buf, start, n);
    forall j | 0 <= j < k ensures (buf[start..start + l] + buf[..k - l])[j] == q[..k][j] {
      assert q[..k][j] == q[j] == buf[Slot(start + j, |buf|)];
    }
  }

  /** Positions that agree modulo the size advance together. */
  lemma Advance(x: nat, k: nat, size: nat)
    requires 0 < size && k <= size
    ensures (x + k) % size == Slot(x % size + k, size)
  {
    var q, r := x / size, x % size;
    assert x == q * size + r;
    if r + k < size {
      ModUnique(x + k, size, q, r + k);
    } else {
      assert x + k == (q + 1) * size + (r + k - size);
      ModUnique(x + k, size, q + 1, r + k - size);
    }
  }

  /** The two memcpy calls of a write that may run past the buffer's end. */
  method CopyIn(buffer: array<byte>, at: nat, chunk: seq<byte>)
    requires at <= buffer.Length && |chunk| <= buffer.Length
    modifies buffer
    ensures buffer[..] == Paste(old(buffer[..]), at, chunk)
  {
    hide Overlay;
    var l := Min(|chunk|, buffer.Length - at);
    Copy(buffer, at, chunk[..l]);
    Copy(buffer, 0, chunk[l..]);
  }

  /** The two memcpy calls of a read that may run past the buffer's end. */
  method CopyOut(buffer: array<byte>, at: nat, len: nat, ghost used: nat) returns (data: seq<byte>)
    requires at <= buffer.Length && len <= used <= buffer.Length && (at == buffer.Length ==> used == 0)
    ensures |data| == len && (at < buffer.Length ==> data == Queue(buffer[..], at, used)[..len])
  {
    var l := Min(len, buffer.Length - at);
    data := buffer[at..at + l] + buffer[..len - l];
    if at < buffer.Length {
      TwoSegments(buffer[..], at, used, len);
      assert data == buffer[..][at..at + l] + buffer[..][..len - l];
    }
  }
}
