/** What the HTTP download writes to flash, as a function of the byte stream: the
    1024-byte staging buffer, the sector erases and the bounds test of http_flash_wr. */
module HttpFlash {
  import opened Bytes
  import opened NorFlash
  import opened NorImage

  datatype Partition = Partition(start: nat, length: nat)

  /** `pending` is wr_buf[..wr_last_len]. */
  datatype Writer = Writer(nor: Nor, addr: nat, pending: seq<byte>)

  ghost predicate PartitionOk(pt: Partition, n: Nor) {
    && Device(n)
    && pt.start % SECTOR == 0
    && 0 < pt.length
    && pt.start + pt.length <= |n.cells|
  }

  /** http_flash_wr: erase on a sector boundary, then program if the block ends
      strictly before the partition does. */
  function FlashWr(pt: Partition, w: Writer, src: seq<byte>): Writer {
    var n := Prepare(w.nor, w.addr);
    if w.addr >= pt.start && w.addr + |src| < pt.start + pt.length then
      Writer(Program(n, w.addr, src), w.addr + |src|, w.pending)
    else
      w.(nor := n)
  }

  /** One turn of http_wr_to_flash: top up the staging buffer, write it out once full. */
  function Stage(pt: Partition, w: Writer, chunk: seq<byte>): (r: Writer)
    requires |w.pending| + |chunk| <= BLOCK
    ensures |r.pending| < BLOCK
  {
    var full := w.pending + chunk;
    if |full| >= BLOCK then FlashWr(pt, w, full).(pending := []) else w.(pending := full)
  }

  /** http_wr_to_flash */
  function Feed(pt: Partition, w: Writer, data: seq<byte>): (r: Writer)
    requires |w.pending| < BLOCK
    ensures |r.pending| < BLOCK
    decreases |data|
  {
    if data == [] then w
    else
      var n := Min(|data|, BLOCK - |w.pending|);
      Feed(pt, Stage(pt, w, data[..n]), data[n..])
  }

  lemma FeedNothing(pt: Partition, w: Writer)
    requires |w.pending| < BLOCK
    ensures Feed(pt, w, []) == w
  {
  }

  function Init(pt: Partition, n: Nor): Writer {
    Writer(n, pt.start, [])
  }

  /** The closing write of whatever is still staged. */
  function Flush(pt: Partition, w: Writer): Writer {
    FlashWr(pt, w, w.pending)
  }

  /** The whole download of the bytes `f`. */
  function Download(pt: Partition, n: Nor, f: seq<byte>): Writer {
    Flush(pt, Feed(pt, Init(pt, n), f))
  }

  /** Segment-free reference: cut the stream into blocks from its start. */
  function WriteBlocks(pt: Partition, w: Writer, s: seq<byte>): (r: Writer)
    decreases |s|
  {
    if |s| < BLOCK then w.(pending := s)
    else WriteBlocks(pt, FlashWr(pt, w, s[..BLOCK]), s[BLOCK..])
  }

  lemma PendingIsPassive(pt: Partition, w: Writer, p: seq<byte>, s: seq<byte>)
    ensures WriteBlocks(pt, w.(pending := p), s) == WriteBlocks(pt, w, s)
    decreases |s|
  {
    if |s| >= BLOCK {
      var x := FlashWr(pt, w, s[..BLOCK]);
      assert FlashWr(pt, w.(pending := p), s[..BLOCK]) == x.(pending := p);
      PendingIsPassive(pt, x, p, s[BLOCK..]);
    }
  }

  /** The staging buffer makes no difference to where block boundaries fall. */
  lemma {:induction false} FeedIsWriteBlocks(pt: Partition, w: Writer, data: seq<byte>)
    requires |w.pending| < BLOCK
    ensures Feed(pt, w, data) == WriteBlocks(pt, w, w.pending + data)
    decreases |data|
  {
    if data == [] {
      assert w.pending + data == w.pending;
    } else {
      var n := Min(|data|, BLOCK - |w.pending|);
      var full := w.pending + data[..n];
      var s := w.pending + data;
      if |full| >= BLOCK {
        assert s[..BLOCK] == full && s[BLOCK..] == data[n..];
        var x := FlashWr(pt, w, full);
        FeedIsWriteBlocks(pt, x.(pending := []), data[n..]);
        PendingIsPassive(pt, x, [], data[n..]);
        assert [] + data[n..] == data[n..];
      } else {
        FeedIsWriteBlocks(pt, w.(pending := full), data[n..]);
        assert full + data[n..] == s;
        PendingIsPassive(pt, w, full, s);
      }
    }
  }

  /** Re-chunking is a homomorphism: how the stream is cut into calls is invisible. */
  lemma {:induction false} FeedAppend(pt: Partition, w: Writer, a: seq<byte>, b: seq<byte>)
    requires |w.pending| < BLOCK
    ensures Feed(pt, Feed(pt, w, a), b) == Feed(pt, w, a + b)
    decreases |a|
  {
    hide FlashWr;
    var n := Min(|a|, BLOCK - |w.pending|);
    var full := w.pending + a[..n];
    if |full| >= BLOCK {
      TakeAcross(a, b, n);
      FeedAppend(pt, FlashWr(pt, w, full).(pending := []), a[n..], b);
      assert Feed(pt, w, a) == Feed(pt, FlashWr(pt, w, full).(pending := []), a[n..]);
      assert Feed(pt, w, a + b) == Feed(pt, FlashWr(pt, w, full).(pending := []), a[n..] + b);
    } else {
      assert a[..n] == a && a[n..] == [];
      assert Feed(pt, w, a) == w.(pending := full);
      FeedIsWriteBlocks(pt, w.(pending := full), b);
      FeedIsWriteBlocks(pt, w, a + b);
      assert full + b == w.pending + (a + b);
      PendingIsPassive(pt, w, full, full + b);
    }
  }

  lemma TakeAcross(a: seq<byte>, b: seq<byte>, n: nat)
    requires n <= |a|
    ensures (a + b)[..n] == a[..n] && (a + b)[n..] == a[n..] + b
  {
  }

  // ---------------------------------------------------------------- safety, for any stream

  /** The write address and all programs stay in the partition, erases in its sectors. */
  ghost predicate Safe(pt: Partition, n0: Nor, w: Writer) {
    && pt.start <= w.addr < pt.start + pt.length
    && Confined(w.nor.log, pt.start, pt.start + pt.length)
    && SameOutside(n0, w.nor, pt.start, pt.start + Ceil(pt.length))
  }

  /** A write changes nothing outside a range that covers its block and its sector. */
  lemma FlashWrFrame(pt: Partition, n0: Nor, w: Writer, src: seq<byte>, lo: nat, hi: nat)
    requires |n0.cells| <= MAX_DEVICE && SameOutside(n0, w.nor, lo, hi) && hi <= |n0.cells|
    requires lo <= w.addr && w.addr + |src| <= hi && (w.addr % SECTOR == 0 ==> w.addr + SECTOR <= hi)
    ensures SameOutside(n0, FlashWr(pt, w, src).nor, lo, hi)
  {
    PrepareFrame(n0, w.nor, w.addr, lo, hi);
  }

  lemma PrepareFrame(n0: Nor, n: Nor, addr: nat, lo: nat, hi: nat)
    requires |n0.cells| <= MAX_DEVICE && SameOutside(n0, n, lo, hi) && hi <= |n0.cells|
    requires lo <= addr && (addr % SECTOR == 0 ==> addr + SECTOR <= hi)
    ensures SameOutside(n0, Prepare(n, addr), lo, hi)
  {
    if addr % SECTOR == 0 {
      assert SectorOf(addr) * SECTOR == addr;
    }
  }

  /** A sector that starts in the partition ends within its last sector. */
  lemma SectorInside(pt: Partition, addr: nat)
    requires pt.start % SECTOR == 0 && addr % SECTOR == 0 && pt.start <= addr < pt.start + pt.length
    ensures addr + SECTOR <= pt.start + Ceil(pt.length)
  {
    var p, q := pt.start / SECTOR, addr / SECTOR;
    assert addr - pt.start == (q - p) * SECTOR;
    assert (pt.length + SECTOR - 1) / SECTOR >= q - p + 1;
  }

  lemma FlashWrSafe(pt: Partition, n0: Nor, w: Writer, src: seq<byte>)
    requires PartitionOk(pt, n0) && Safe(pt, n0, w)
    ensures Safe(pt, n0, FlashWr(pt, w, src))
  {
    hide SameOutside, Ceil;
    var hi := pt.start + Ceil(pt.length);
    CeilFits(pt, n0);
    if w.addr % SECTOR == 0 {
      SectorInside(pt, w.addr);
    }
    SameSize(n0, w.nor, pt.start, hi);
    if w.addr + |src| < pt.start + pt.length {
      FlashWrFrame(pt, n0, w, src, pt.start, hi);
    } else {
      PrepareFrame(n0, w.nor, w.addr, pt.start, hi);
    }
  }

  lemma CeilFits(pt: Partition, n0: Nor)
    requires PartitionOk(pt, n0)
    ensures pt.start + pt.length <= pt.start + Ceil(pt.length) <= |n0.cells|
  {
    var p, q := pt.start / SECTOR, |n0.cells| / SECTOR;
    assert pt.length <= (q - p) * SECTOR;
    assert (pt.length + SECTOR - 1) / SECTOR <= q - p;
  }

  lemma {:induction false} FeedSafe(pt: Partition, n0: Nor, w: Writer, data: seq<byte>)
    requires PartitionOk(pt, n0) && |w.pending| < BLOCK && Safe(pt, n0, w)
    ensures Safe(pt, n0, Feed(pt, w, data))
    decreases |data|
  {
    hide SameOutside, Confined, FlashWr;
    if data != [] {
      var n := Min(|data|, BLOCK - |w.pending|);
      var full := w.pending + data[..n];
      if |full| >= BLOCK {
        FlashWrSafe(pt, n0, w, full);
        FeedSafe(pt, n0, FlashWr(pt, w, full).(pending := []), data[n..]);
      } else {
        FeedSafe(pt, n0, w.(pending := full), data[n..]);
      }
    }
  }

  /** Whatever the server sends, and however much: only the partition's sectors change,
      and nothing is programmed outside the partition itself. */
  lemma DownloadSafe(pt: Partition, n: Nor, f: seq<byte>)
    requires PartitionOk(pt, n) && n.log == []
    ensures Safe(pt, n, Download(pt, n, f))
    ensures Safe(pt, n, Feed(pt, Init(pt, n), f))
  {
    FeedSafe(pt, n, Init(pt, n), f);
    var w := Feed(pt, Init(pt, n), f);
    FlashWrSafe(pt, n, w, w.pending);
  }

  // ---------------------------------------------------------------- the image

  ghost predicate Aligned(pt: Partition, w: Writer, done: seq<byte>) {
    w.addr == pt.start + |done| && |done| % BLOCK == 0
  }

  /** One block inside the partition extends the image by exactly that block. */
  lemma BlockStep(pt: Partition, n0: Nor, w: Writer, done: seq<byte>, src: seq<byte>)
    requires PartitionOk(pt, n0) && Written(pt.start, n0, w.nor, done)
    requires Aligned(pt, w, done)
    requires |src| <= BLOCK && |done| + |src| < pt.length
    ensures var r := FlashWr(pt, w, src);
            r.addr == w.addr + |src| && r.pending == w.pending && Written(pt.start, n0, r.nor, done + src)
  {
    EraseStep(pt.start, n0, w.nor, done);
    ProgramStep(pt.start, n0, Prepare(w.nor, w.addr), done, src);
    assert FlashWr(pt, w, src) == Writer(Program(Prepare(w.nor, w.addr), w.addr, src), w.addr + |src|, w.pending);
  }

  /** The part of a stream that fills whole blocks. */
  function Whole(s: seq<byte>): (k: nat)
    ensures k <= |s| < k + BLOCK
  {
    |s| / BLOCK * BLOCK
  }

  /** The last multiple of the block size in front of the partition's end: blocks behind it
      are refused. */
  function Cap(pt: Partition): (k: nat)
    requires 0 < pt.length
    ensures k < pt.length <= k + BLOCK && k % BLOCK == 0
  {
    (pt.length - 1) / BLOCK * BLOCK
  }

  /** A block has been refused: `done` is stored and everything behind it is blank. */
  ghost predicate Jammed(pt: Partition, w: Writer, done: seq<byte>) {
    && 0 < pt.length && |done| == Cap(pt) && w.addr == pt.start + |done|
    && pt.start + pt.length <= |w.nor.cells| <= MAX_DEVICE
    && Holds(w.nor, pt.start, done)
    && Blank(w.nor, w.addr, pt.start + pt.length)
  }

  /** A block that would reach the partition's end is erased for but not programmed. */
  lemma Refused(pt: Partition, n0: Nor, w: Writer, done: seq<byte>, s: seq<byte>)
    requires PartitionOk(pt, n0) && Written(pt.start, n0, w.nor, done) && Aligned(pt, w, done)
    requires |s| <= BLOCK && |done| < pt.length <= |done| + |s|
    ensures FlashWr(pt, w, s) == w.(nor := Prepare(w.nor, w.addr))
    ensures Jammed(pt, FlashWr(pt, w, s), done)
  {
    hide Written, Logged, SameOutside, Holds, Blank, Erase;
    CapIs(pt, |done|);
    EraseStep(pt.start, n0, w.nor, done);
    ReadyParts(pt.start, n0, Prepare(w.nor, w.addr), done, pt.start + pt.length);
  }

  lemma CapIs(pt: Partition, d: nat)
    requires d % BLOCK == 0 && d < pt.length <= d + BLOCK
    ensures d == Cap(pt)
  {
    var q := d / BLOCK;
    assert d == q * BLOCK;
    assert (pt.length - 1) / BLOCK == q;
  }

  lemma ReadyParts(start: nat, n0: Nor, n: Nor, done: seq<byte>, top: nat)
    requires Ready(start, n0, n, done) && |done| % BLOCK == 0 && top <= start + |done| + BLOCK
    ensures Holds(n, start, done) && Blank(n, start + |done|, top) && |n.cells| == |n0.cells|
  {
    hide Holds, Logged;
    WithinSector(|done|);
    assert top <= Edge(start, done);
  }

  /** Erasing for a refused block again changes nothing that is of interest. */
  lemma JamPrepare(pt: Partition, w: Writer, done: seq<byte>)
    requires Jammed(pt, w, done)
    ensures Jammed(pt, w.(nor := Prepare(w.nor, w.addr)), done)
  {
    var m := Prepare(w.nor, w.addr);
    assert m.cells[pt.start..w.addr] == w.nor.cells[pt.start..w.addr];
  }

  lemma {:induction false} BlocksJam(pt: Partition, w: Writer, done: seq<byte>, s: seq<byte>)
    requires Jammed(pt, w, done)
    ensures var r := WriteBlocks(pt, w, s); Jammed(pt, r, done) && r.pending == s[Whole(s)..]
    decreases |s|
  {
    hide Holds, Blank, Prepare;
    if |s| >= BLOCK {
      JamPrepare(pt, w, done);
      BlocksJam(pt, FlashWr(pt, w, s[..BLOCK]), done, s[BLOCK..]);
      assert Whole(s) == Whole(s[BLOCK..]) + BLOCK;
      assert s[BLOCK..][Whole(s[BLOCK..])..] == s[Whole(s)..];
    }
  }

  lemma BlocksRefused(pt: Partition, n0: Nor, w: Writer, done: seq<byte>, s: seq<byte>)
    requires PartitionOk(pt, n0) && Written(pt.start, n0, w.nor, done) && Aligned(pt, w, done)
    requires |s| >= BLOCK && |done| < pt.length <= |done| + BLOCK
    ensures |done| == Cap(pt) && (done + s)[..|done|] == done
    ensures var r := WriteBlocks(pt, w, s);
            Jammed(pt, r, done) && r.pending == s[BLOCK..][Whole(s[BLOCK..])..]
  {
    hide Written, FlashWr, Jammed;
    CapIs(pt, |done|);
    Refused(pt, n0, w, done, s[..BLOCK]);
    BlocksJam(pt, FlashWr(pt, w, s[..BLOCK]), done, s[BLOCK..]);
  }

  /** `done` fills whole blocks and is stored, and no sector behind it has been touched. */
  ghost predicate Storing(pt: Partition, n0: Nor, w: Writer, done: seq<byte>) {
    && Written(pt.start, n0, w.nor, done) && Aligned(pt, w, done) && |done| < pt.length
    && SameOutside(n0, w.nor, pt.start, pt.start + Ceil(|done|))
  }

  lemma StoreBlock(pt: Partition, n0: Nor, w: Writer, done: seq<byte>, b: seq<byte>)
    requires PartitionOk(pt, n0) && Storing(pt, n0, w, done)
    requires |b| == BLOCK && |done| + BLOCK < pt.length
    ensures Storing(pt, n0, FlashWr(pt, w, b), done + b)
  {
    hide Written, FlashWr, SameOutside, Ceil;
    BlockStep(pt, n0, w, done, b);
    BlockFrame(pt, n0, w, done, b);
  }

  /** Cutting off the first block. */
  lemma Cut(done: seq<byte>, s: seq<byte>)
    requires |s| >= BLOCK
    ensures var b, rest, k := s[..BLOCK], s[BLOCK..], Whole(s[BLOCK..]);
            && Whole(s) == k + BLOCK
            && s[Whole(s)..] == rest[k..] && done + s[..Whole(s)] == (done + b) + rest[..k]
            && (done + b) + rest == done + s
  {
    var k := Whole(s[BLOCK..]);
    assert s[..k + BLOCK] == s[..BLOCK] + s[BLOCK..][..k];
  }

  /** Staged writing programs whole blocks and keeps the rest, and touches no sector behind
      the last programmed one, until a block is refused. */
  lemma {:induction false} BlocksOnly(pt: Partition, n0: Nor, w: Writer, done: seq<byte>, s: seq<byte>)
    requires PartitionOk(pt, n0) && Storing(pt, n0, w, done)
    ensures var r, k := WriteBlocks(pt, w, s), Whole(s);
            && r.pending == s[k..]
            && (|done| + k <= Cap(pt) ==> Storing(pt, n0, r, done + s[..k]))
            && (|done| + k > Cap(pt) ==> |done + s| >= Cap(pt) && Jammed(pt, r, (done + s)[..Cap(pt)]))
    decreases |s|
  {
    hide Storing, FlashWr, Jammed, Whole, Cap, PartitionOk;
    StoringParts(pt, n0, w, done);
    if |s| < BLOCK {
      ShortRest(done, s);
      CapBelow(pt, |done|);
      PassiveStoring(pt, n0, w, done, s);
    } else {
      Cut(done, s);
      if |done| + BLOCK < pt.length {
        StoreBlock(pt, n0, w, done, s[..BLOCK]);
        BlocksOnly(pt, n0, FlashWr(pt, w, s[..BLOCK]), done + s[..BLOCK], s[BLOCK..]);
      } else {
        BlocksRefused(pt, n0, w, done, s);
      }
    }
  }

  lemma StoringParts(pt: Partition, n0: Nor, w: Writer, done: seq<byte>)
    requires Storing(pt, n0, w, done)
    ensures Written(pt.start, n0, w.nor, done) && Aligned(pt, w, done) && |done| < pt.length
  {
    hide Written;
  }

  lemma PassiveStoring(pt: Partition, n0: Nor, w: Writer, done: seq<byte>, p: seq<byte>)
    requires Storing(pt, n0, w, done)
    ensures Storing(pt, n0, w.(pending := p), done)
  {
    hide Written;
  }

  lemma ShortRest(done: seq<byte>, s: seq<byte>)
    requires |s| < BLOCK
    ensures Whole(s) == 0 && s[..0] == [] && done + s[..0] == done && s[0..] == s
  {
  }

  lemma CapBelow(pt: Partition, d: nat)
    requires d % BLOCK == 0 && d < pt.length
    ensures d <= Cap(pt)
  {
    var q, c := d / BLOCK, (pt.length - 1) / BLOCK;
    assert d == q * BLOCK && q <= c;
  }

  lemma BlockFrame(pt: Partition, n0: Nor, w: Writer, done: seq<byte>, b: seq<byte>)
    requires PartitionOk(pt, n0) && Aligned(pt, w, done) && |b| == BLOCK && |done| + |b| < pt.length
    requires SameOutside(n0, w.nor, pt.start, pt.start + Ceil(|done|))
    ensures SameOutside(n0, FlashWr(pt, w, b).nor, pt.start, pt.start + Ceil(|done + b|))
  {
    hide SameOutside, FlashWr, Ceil;
    var d := |done|;
    assert |done + b| == d + BLOCK;
    CeilFits(pt, n0);
    CeilStep(pt.start, d, pt.length);
    WidenSame(n0, w.nor, pt.start, pt.start + Ceil(d), pt.start + Ceil(d + BLOCK));
    FlashWrFrame(pt, n0, w, b, pt.start, pt.start + Ceil(d + BLOCK));
  }

  lemma CeilStep(start: nat, d: nat, top: nat)
    requires start % SECTOR == 0 && d + BLOCK <= top
    ensures Ceil(d) <= Ceil(d + BLOCK) <= Ceil(top)
    ensures d + BLOCK <= Ceil(d + BLOCK)
    ensures (start + d) % SECTOR == 0 ==> d + SECTOR <= Ceil(d + BLOCK)
  {
    if (start + d) % SECTOR == 0 {
      assert d % SECTOR == 0;
    }
  }

  /** What a download that is broken off leaves in flash. */
  lemma FeedWritten(pt: Partition, n: Nor, f: seq<byte>)
    requires PartitionOk(pt, n) && n.log == []
    ensures var r, k := Feed(pt, Init(pt, n), f), Whole(f);
            && r.pending == f[k..]
            && (k <= Cap(pt) ==>
                  && r.addr == pt.start + k && Written(pt.start, n, r.nor, f[..k])
                  && SameOutside(n, r.nor, pt.start, pt.start + Ceil(k)))
            && (k > Cap(pt) ==> Jammed(pt, r, f[..Cap(pt)]))
  {
    hide Feed, WriteBlocks, Whole, Ceil, Jammed, Written, SameOutside, Cap;
    FeedIsWriteBlocks(pt, Init(pt, n), f);
    assert [] + f == f && [] + f[..Whole(f)] == f[..Whole(f)];
    NothingWritten(pt, n);
    BlocksOnly(pt, n, Init(pt, n), [], f);
  }

  lemma NothingWritten(pt: Partition, n: Nor)
    requires PartitionOk(pt, n) && n.log == []
    ensures Storing(pt, n, Init(pt, n), [])
  {
  }

  /** What byte `i` of the partition reads behind the stored part of `f`: erased or not. */
  function Remains(pt: Partition, n0: Nor, f: seq<byte>, i: nat): byte
    requires 0 < pt.length && pt.start + i < |n0.cells|
  {
    if Whole(f) > Cap(pt) || i < Ceil(Whole(f)) then 0xFF else n0.cells[pt.start + i]
  }

  /** The part of `f` that is stored before the closing write. */
  function Kept(pt: Partition, f: seq<byte>): (k: nat)
    requires 0 < pt.length
    ensures k <= |f|
  {
    if Whole(f) > Cap(pt) then Cap(pt) else Whole(f)
  }

  lemma CellAfter(pt: Partition, n: Nor, f: seq<byte>, i: nat)
    requires PartitionOk(pt, n) && n.log == [] && i < pt.length
    ensures var c, k := Feed(pt, Init(pt, n), f).nor, Kept(pt, f);
            |c.cells| == |n.cells| && c.cells[pt.start + i] == if i < k then f[i] else Remains(pt, n, f, i)
  {
    hide Feed, Ceil, Whole, Cap, Logged;
    var c, k := Feed(pt, Init(pt, n), f).nor, Kept(pt, f);
    FeedWritten(pt, n, f);
    FeedSize(pt, n, f);
    if i < k {
      assert c.cells[pt.start..pt.start + k][i] == f[..k][i];
    }
  }

  lemma FeedSize(pt: Partition, n: Nor, f: seq<byte>)
    requires PartitionOk(pt, n) && n.log == []
    ensures |Feed(pt, Init(pt, n), f).nor.cells| == |n.cells|
  {
    hide Feed;
    DownloadSafe(pt, n, f);
  }

  /** A body of which `f` was received without the closing write is in flash exactly when the
      bytes behind the stored blocks happen to be there already. */
  lemma BrokenOffExactly(pt: Partition, n: Nor, f: seq<byte>, g: seq<byte>)
    requires PartitionOk(pt, n) && n.log == []
    requires |g| <= pt.length && (f <= g || g <= f)
    ensures Holds(Feed(pt, Init(pt, n), f).nor, pt.start, g) <==>
            forall i | Kept(pt, f) <= i < |g| :: g[i] == Remains(pt, n, f, i)
  {
    hide Feed, Holds, Remains, Kept, Device;
    var c, k := Feed(pt, Init(pt, n), f).nor, Kept(pt, f);
    CellAfter(pt, n, f, 0);
    HoldsCells(c, pt.start, g);
    forall i | 0 <= i < |g|
      ensures c.cells[pt.start + i] == if i < k then g[i] else Remains(pt, n, f, i)
    {
      CellAfter(pt, n, f, i);
    }
  }

  /** A body shorter than the partition is in flash byte for byte, in sectors erased
      before they were programmed; cells past the last touched sector keep their value. */
  lemma DownloadWritten(pt: Partition, n: Nor, f: seq<byte>)
    requires PartitionOk(pt, n) && n.log == []
    requires |f| < pt.length
    ensures var r := Download(pt, n, f);
            r.addr == pt.start + |f| && Written(pt.start, n, r.nor, f)
  {
    hide Written, FlashWr, SameOutside, Ceil, Jammed, Feed;
    var k := Whole(f);
    FeedWritten(pt, n, f);
    CapBelow(pt, k);
    BlockStep(pt, n, Feed(pt, Init(pt, n), f), f[..k], f[k..]);
    assert f[..k] + f[k..] == f;
  }

  // ---------------------------------------------------------------- a stream that reaches the partition's end

  /** What the closing write adds behind a refused block: the last partial block of the
      stream, at the place of the refused one, if it is short enough. */
  function Spill(pt: Partition, f: seq<byte>): (q: seq<byte>)
    requires 0 < pt.length
    ensures Cap(pt) + |q| < pt.length
  {
    var p := f[Whole(f)..];
    if Cap(pt) + |p| < pt.length then p else []
  }

  lemma JamFlush(pt: Partition, w: Writer, done: seq<byte>)
    requires Jammed(pt, w, done)
    ensures var r, q := Flush(pt, w), if |done| + |w.pending| < pt.length then w.pending else [];
            && r.addr == pt.start + |done| + |q|
            && Holds(r.nor, pt.start, done + q)
            && Blank(r.nor, pt.start + |done| + |q|, pt.start + pt.length)
  {
    hide Holds, Blank, Prepare, Program, Cap;
    JamPrepare(pt, w, done);
    var n, q := Prepare(w.nor, w.addr), w.pending;
    if |done| + |q| < pt.length {
      JamProgram(n, pt.start, done, q, pt.start + pt.length);
    } else {
      assert done + [] == done;
    }
  }

  lemma JamProgram(n: Nor, lo: nat, done: seq<byte>, q: seq<byte>, top: nat)
    requires Holds(n, lo, done) && Blank(n, lo + |done|, top) && lo + |done| + |q| <= top
    ensures var m := Program(n, lo + |done|, q);
            Holds(m, lo, done + q) && Blank(m, lo + |done| + |q|, top)
  {
    ProgramExtends(n, lo, done, q);
  }

  /** A stream of at least the partition's length: the blocks in front of the refused one are
      stored, behind them there is at most the end of the stream. */
  lemma DownloadOver(pt: Partition, n: Nor, f: seq<byte>)
    requires PartitionOk(pt, n) && n.log == [] && |f| >= pt.length
    ensures var r, c, q := Download(pt, n, f), Cap(pt), Spill(pt, f);
            && r.addr == pt.start + c + |q|
            && Holds(r.nor, pt.start, f[..c] + q)
            && Blank(r.nor, pt.start + c + |q|, pt.start + pt.length)
  {
    hide Feed, Written, Holds, Blank, FlashWr, SameOutside, Ceil, Program, Prepare;
    var w, c, k := Feed(pt, Init(pt, n), f), Cap(pt), Whole(f);
    FeedWritten(pt, n, f);
    if k > c {
      JamFlush(pt, w, f[..c]);
    } else {
      WholeCap(pt, f);
      Refused(pt, n, w, f[..c], w.pending);
      assert f[..c] + [] == f[..c];
    }
  }

  lemma WholeCap(pt: Partition, f: seq<byte>)
    requires 0 < pt.length <= |f| && Whole(f) <= Cap(pt)
    ensures Whole(f) == Cap(pt)
  {
    assert |f| / BLOCK >= (pt.length - 1) / BLOCK;
  }

  /** What byte `i` reads behind the stored blocks of such a stream. */
  function Tail(pt: Partition, f: seq<byte>, i: nat): byte
    requires 0 < pt.length && Cap(pt) <= i
  {
    var q := Spill(pt, f);
    if i - Cap(pt) < |q| then q[i - Cap(pt)] else 0xFF
  }

  /** For every stream, of any length, and every body it starts with: the image is right
      exactly when the stream ends before the partition does, or the bytes of the refused
      block happen to be there. */
  lemma DownloadExactly(pt: Partition, n: Nor, f: seq<byte>, g: seq<byte>)
    requires PartitionOk(pt, n) && n.log == [] && g <= f && |g| <= pt.length
    ensures Holds(Download(pt, n, f).nor, pt.start, g) <==>
            |f| < pt.length || forall i | Cap(pt) <= i < |g| :: g[i] == Tail(pt, f, i)
  {
    hide Download, Blank, Cap, Spill;
    var r, c, q := Download(pt, n, f), Cap(pt), Spill(pt, f);
    if |f| < pt.length {
      DownloadWritten(pt, n, f);
      HoldsPrefix(pt.start, n, r.nor, f, |g|);
    } else {
      hide Holds;
      DownloadOver(pt, n, f);
      TailCells(pt, r.nor, f, g);
    }
  }

  lemma TailCells(pt: Partition, n: Nor, f: seq<byte>, g: seq<byte>)
    requires 0 < pt.length <= |f| && g <= f && |g| <= pt.length
    requires Holds(n, pt.start, f[..Cap(pt)] + Spill(pt, f))
    requires Blank(n, pt.start + Cap(pt) + |Spill(pt, f)|, pt.start + pt.length)
    ensures Holds(n, pt.start, g) <==> forall i | Cap(pt) <= i < |g| :: g[i] == Tail(pt, f, i)
  {
    hide Holds, Spill, Cap;
    var c, q := Cap(pt), Spill(pt, f);
    HoldsCells(n, pt.start, g);
    HoldsCells(n, pt.start, f[..c] + q);
    forall i | 0 <= i < |g|
      ensures n.cells[pt.start + i] == if i < c then g[i] else Tail(pt, f, i)
    {
      if i < c + |q| {
        assert n.cells[pt.start + i] == (f[..c] + q)[i];
      }
    }
  }

  lemma HoldsPrefix(start: nat, n0: Nor, n: Nor, f: seq<byte>, k: nat)
    requires Written(start, n0, n, f) && k <= |f|
    ensures Holds(n, start, f[..k])
  {
    hide Logged, Blank, SameOutside;
    assert n.cells[start..start + |f|][..k] == n.cells[start..start + k];
  }

  /** Every accepted Content-Length is at most the partition length, and the image is
      right exactly when it is smaller, or when the unwritten last block reads as blank. */
  lemma ImageExactly(pt: Partition, n: Nor, f: seq<byte>)
    requires PartitionOk(pt, n) && n.log == []
    requires |f| <= pt.length
    ensures Holds(Download(pt, n, f).nor, pt.start, f) <==>
            |f| < pt.length || forall i | Cap(pt) <= i < |f| :: f[i] == 0xFF
    ensures Download(pt, n, f).addr == pt.start + |f| <==> |f| < pt.length
  {
    hide Download, Holds, Blank;
    DownloadExactly(pt, n, f, f);
    if |f| < pt.length {
      DownloadWritten(pt, n, f);
    } else {
      DownloadOver(pt, n, f);
      assert Spill(pt, f) == [] by { NoSpill(pt, f); }
    }
  }

  lemma NoSpill(pt: Partition, f: seq<byte>)
    requires 0 < pt.length == |f|
    ensures Spill(pt, f) == []
  {
    if Whole(f) <= Cap(pt) {
      WholeCap(pt, f);
    } else {
      WholeAll(pt, f);
    }
  }

  lemma WholeAll(pt: Partition, f: seq<byte>)
    requires 0 < pt.length == |f| && Whole(f) > Cap(pt)
    ensures Whole(f) == |f|
  {
    var q, c := |f| / BLOCK, (|f| - 1) / BLOCK;
    assert q > c;
    assert |f| - 1 < q * BLOCK;
  }

  /** A 4 KiB partition offered a 4 KiB image: the download accepts it and loses its tail. */
  lemma FullPartitionLosesItsTail()
    ensures var pt, n := Partition(0, SECTOR), Nor(seq(SECTOR, _ => 0xFF), []);
            var f: seq<byte> := seq(SECTOR, _ => 0);
            PartitionOk(pt, n) && !Holds(Download(pt, n, f).nor, pt.start, f)
  {
    var pt, n := Partition(0, SECTOR), Nor(seq(SECTOR, _ => 0xFF), []);
    var f: seq<byte> := seq(SECTOR, _ => 0);
    ImageExactly(pt, n, f);
    assert Cap(pt) == 3072;
    assert f[3072] == 0;
  }
}
