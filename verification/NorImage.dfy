/** How an image grows in flash when it is written in 1024-byte blocks from a sector
    boundary on, each sector being erased as the write address reaches it. Both
    over-the-air writers follow this discipline. */
module NorImage {
  import opened Bytes
  import opened NorFlash

  const BLOCK: nat := 1024

  /** Erase on a sector boundary, as both writers do before every block. */
  function Prepare(n: Nor, addr: nat): Nor {
    if addr % SECTOR == 0 then Erase(n, addr) else n
  }

  /** Room for one more block behind `done`. */
  ghost predicate Fits(start: nat, n0: Nor, done: seq<byte>) {
    Device(n0) && start % SECTOR == 0 && |done| % BLOCK == 0 && start + |done| < |n0.cells|
  }

  function Ceil(x: nat): nat {
    (x + SECTOR - 1) / SECTOR * SECTOR
  }

  /** `done` has been programmed from `start` on. */
  ghost predicate Written(start: nat, n0: Nor, n: Nor, done: seq<byte>) {
    && Holds(n, start, done)
    && Blank(n, start + |done|, start + Ceil(|done|))
    && Logged(n.log, start, start + Ceil(|done|))
    && SameOutside(n0, n, start, Edge(start, done))
  }

  /** Written, and the sector of the next address has been erased. */
  ghost predicate Ready(start: nat, n0: Nor, n: Nor, done: seq<byte>) {
    && Holds(n, start, done)
    && Blank(n, start + |done|, Edge(start, done))
    && Logged(n.log, start, Edge(start, done))
    && SameOutside(n0, n, start, Edge(start, done))
  }

  /** The end of the sector the next byte falls into. */
  function Edge(start: nat, done: seq<byte>): nat {
    start + |done| / SECTOR * SECTOR + SECTOR
  }

  /** The erase that precedes a block leaves its cells blank and the image alone. */
  lemma EraseStep(start: nat, n0: Nor, n: Nor, done: seq<byte>)
    requires Fits(start, n0, done) && Written(start, n0, n, done)
    ensures Ready(start, n0, Prepare(n, start + |done|), done)
  {
    hide Holds, Logged, Blank, SameOutside, Erase;
    var addr := start + |done|;
    if addr % SECTOR == 0 {
      assert |done| % SECTOR == 0 && Edge(start, done) == addr + SECTOR && Ceil(|done|) == |done|;
      assert |n.cells| == |n0.cells| by { SameSize(n0, n, start, Edge(start, done)); }
      EraseFrame(n0, n, start, done);
      EraseLogged(n.log, start, addr);
    } else {
      assert start + Ceil(|done|) == Edge(start, done);
    }
  }

  lemma SameSize(n0: Nor, n: Nor, lo: nat, hi: nat)
    requires SameOutside(n0, n, lo, hi)
    ensures |n.cells| == |n0.cells|
  {
  }

  /** Programming into blank cells of one sector. */
  lemma ProgramStep(start: nat, n0: Nor, n: Nor, done: seq<byte>, src: seq<byte>)
    requires Fits(start, n0, done) && Ready(start, n0, n, done)
    requires |src| <= BLOCK
    ensures Written(start, n0, Program(n, start + |done|, src), done + src)
  {
    hide Holds, Logged, Blank, SameOutside, Program;
    var at := start + |done|;
    EdgeArithmetic(start, done, src);
    ProgramFrame(n0, n, start, Edge(start, done), at, src, start + Ceil(|done + src|));
    ProgramExtends(n, start, done, src);
    LogStep(n.log, start, Edge(start, done), at, src, start + Ceil(|done + src|));
    WidenSame(n0, Program(n, at, src), start, Edge(start, done), Edge(start, done + src));
  }

  lemma EdgeArithmetic(start: nat, done: seq<byte>, src: seq<byte>)
    requires start % SECTOR == 0 && |done| % BLOCK == 0 && |src| <= BLOCK
    ensures start + |done| + |src| <= Edge(start, done) <= Edge(start, done + src)
    ensures start + Ceil(|done + src|) <= Edge(start, done)
    ensures (start + |done|) % SECTOR + |src| <= SECTOR
    ensures (start + |done|) / SECTOR < Edge(start, done) / SECTOR
  {
    var p, q, r := start / SECTOR, |done| / SECTOR, |done| % SECTOR;
    assert start == p * SECTOR && |done| == q * SECTOR + r;
    assert r <= SECTOR - BLOCK by { WithinSector(|done|); }
    ModUnique(start + |done|, SECTOR, p + q, r);
    ModUnique(Edge(start, done), SECTOR, p + q + 1, 0);
    assert |done + src| == |done| + |src|;
    assert (|done| + |src|) / SECTOR >= q;
  }

  lemma WithinSector(x: nat)
    requires x % BLOCK == 0
    ensures x % SECTOR <= SECTOR - BLOCK
  {
    assert x % SECTOR % BLOCK == 0;
  }

  lemma WidenSame(n0: Nor, n: Nor, lo: nat, hi: nat, hi': nat)
    requires SameOutside(n0, n, lo, hi) && hi <= hi'
    ensures SameOutside(n0, n, lo, hi')
  {
  }

  lemma EraseLogged(log: seq<Op>, lo: nat, addr: nat)
    requires Logged(log, lo, addr) && addr % SECTOR == 0
    ensures Logged(log + [Erased(addr / SECTOR)], lo, addr + SECTOR)
  {
    ErasedFirstSnoc(log, Erased(addr / SECTOR));
  }

  /** A program inside one erased sector keeps the log in order. */
  lemma LogStep(log: seq<Op>, lo: nat, hi: nat, addr: nat, src: seq<byte>, hi': nat)
    requires Logged(log, lo, hi) && hi' <= hi
    requires lo <= addr && addr / SECTOR < hi / SECTOR && addr % SECTOR + |src| <= SECTOR
    ensures Logged(log + [Programmed(addr, src)], lo, hi')
  {
    assert Erased(addr / SECTOR) in log;
    var j :| 0 <= j < |log| && log[j] == Erased(addr / SECTOR);
    forall x | addr <= x < addr + |src| ensures ErasedBefore(log, |log|, x / SECTOR) {
      assert x / SECTOR == addr / SECTOR;
      assert log[j] == Erased(x / SECTOR);
    }
    ErasedFirstSnoc(log, Programmed(addr, src));
  }
}
