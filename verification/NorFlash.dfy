/** The SPI NOR device that both over-the-air writers drive: erasing sets a 4 KiB
    sector to 0xFF, programming can only clear bits. Every accepted operation is
    also kept in a log, so that properties of whole downloads can speak about the
    order of operations and not only about the final contents. */
module NorFlash {
  import opened Bytes

  const SECTOR: nat := 0x1000
  const MAX_DEVICE: nat := 0x100_0000   // addresses are 24 bits wide

  datatype Op =
    | Erased(sector: nat)                        // sector number, not address
    | Programmed(addr: nat, data: seq<byte>)

  datatype Nor = Nor(cells: seq<byte>, log: seq<Op>)

  ghost predicate Device(n: Nor) {
    |n.cells| % SECTOR == 0 && |n.cells| <= MAX_DEVICE
  }

  /** The sector an address selects: the driver keeps 24 address bits. */
  function SectorOf(addr: nat): nat {
    addr % MAX_DEVICE / SECTOR
  }

  /** CMD_FLASH_ERASE_SECTOR: the sector holding `addr`; refused past the device. */
  function Erase(n: Nor, addr: nat): (r: Nor)
    ensures |r.cells| == |n.cells|
  {
    var base := SectorOf(addr) * SECTOR;
    if base + SECTOR <= |n.cells| then
      Nor(seq(|n.cells|, i requires 0 <= i < |n.cells| =>
            if base <= i < base + SECTOR then 0xFF else n.cells[i]),
          n.log + [Erased(SectorOf(addr))])
    else n
  }

  /** Page program: bits go from 1 to 0 only; refused past the device. */
  function Program(n: Nor, addr: nat, data: seq<byte>): (r: Nor)
    ensures |r.cells| == |n.cells|
  {
    if addr + |data| <= |n.cells| then
      Nor(seq(|n.cells|, i requires 0 <= i < |n.cells| =>
            if addr <= i < addr + |data| then AndByte(data[i - addr], n.cells[i]) else n.cells[i]),
          n.log + [Programmed(addr, data)])
    else n
  }

  /** Cells `lo..hi` read 0xFF. */
  ghost predicate Blank(n: Nor, lo: nat, hi: nat) {
    hi <= |n.cells| && forall i :: lo <= i < hi ==> n.cells[i] == 0xFF
  }

  /** Cells `lo..lo + |data|` read `data`. */
  ghost predicate Holds(n: Nor, lo: nat, data: seq<byte>) {
    lo + |data| <= |n.cells| && n.cells[lo..lo + |data|] == data
  }

  lemma HoldsCells(n: Nor, lo: nat, data: seq<byte>)
    requires lo + |data| <= |n.cells|
    ensures Holds(n, lo, data) <==> forall i | 0 <= i < |data| :: n.cells[lo + i] == data[i]
  {
    var c := n.cells[lo..lo + |data|];
    assert forall i | 0 <= i < |data| :: c[i] == n.cells[lo + i];
  }

  lemma ProgramBlank(n: Nor, addr: nat, data: seq<byte>)
    requires Blank(n, addr, addr + |data|)
    ensures Holds(Program(n, addr, data), addr, data)
  {
    var r := Program(n, addr, data);
    forall i | 0 <= i < |data| ensures r.cells[addr + i] == data[i] {
      assert n.cells[addr + i] == 0xFF;
      AndOnes(data[i]);
    }
    assert r.cells[addr..addr + |data|] == data;
  }

  /** Programming the blank cells behind `done` extends it. */
  lemma ProgramExtends(n: Nor, lo: nat, done: seq<byte>, data: seq<byte>)
    requires Holds(n, lo, done)
    requires Blank(n, lo + |done|, lo + |done| + |data|)
    ensures Holds(Program(n, lo + |done|, data), lo, done + data)
  {
    var at := lo + |done|;
    var m := Program(n, at, data);
    ProgramBlank(n, at, data);
    assert m.cells[lo..at] == n.cells[lo..at];
    assert m.cells[lo..at + |data|] == m.cells[lo..at] + m.cells[at..at + |data|];
  }

  /** Every programmed byte lies in a sector erased earlier in the log. */
  ghost predicate ErasedFirst(log: seq<Op>) {
    forall i, x | 0 <= i < |log| && log[i].Programmed? && log[i].addr <= x < log[i].addr + |log[i].data| ::
      ErasedBefore(log, i, x / SECTOR)
  }

  ghost predicate ErasedBefore(log: seq<Op>, i: nat, sector: nat) {
    exists j :: 0 <= j < i && j < |log| && log[j] == Erased(sector)
  }

  /** No operation of the log touches anything outside `lo..hi`; an erase counts by
      the first address of its sector. */
  ghost predicate Confined(log: seq<Op>, lo: nat, hi: nat) {
    forall i | 0 <= i < |log| ::
      match log[i]
      case Erased(s) => lo <= s * SECTOR < hi
      case Programmed(a, d) => lo <= a && a + |d| <= hi
  }

  /** Programs follow erases, and every sector starting in `lo..hi` has been erased. */
  ghost predicate Logged(log: seq<Op>, lo: nat, hi: nat) {
    && ErasedFirst(log)
    && forall s | lo / SECTOR <= s < hi / SECTOR :: Erased(s) in log
  }

  ghost predicate SameOutside(n0: Nor, n: Nor, lo: nat, hi: nat) {
    && |n.cells| == |n0.cells|
    && forall i | 0 <= i < |n.cells| && !(lo <= i < hi) :: n.cells[i] == n0.cells[i]
  }

  /** Programming inside `lo..hi` changes nothing outside it and nothing behind the data. */
  lemma ProgramFrame(n0: Nor, n: Nor, lo: nat, hi: nat, at: nat, data: seq<byte>, top: nat)
    requires SameOutside(n0, n, lo, hi) && Blank(n, at, hi) && top <= hi
    requires lo <= at && at + |data| <= hi
    ensures SameOutside(n0, Program(n, at, data), lo, hi)
    ensures Blank(Program(n, at, data), at + |data|, top)
    ensures Blank(n, at, at + |data|)
    ensures Program(n, at, data).log == n.log + [Programmed(at, data)]
  {
  }

  /** Erasing the sector behind `done` blanks it and leaves `done` alone. */
  lemma EraseFrame(n0: Nor, n: Nor, lo: nat, done: seq<byte>)
    requires (lo + |done|) % SECTOR == 0 && lo + |done| + SECTOR <= |n.cells| <= MAX_DEVICE
    requires Holds(n, lo, done) && SameOutside(n0, n, lo, lo + |done| + SECTOR)
    ensures var m := Erase(n, lo + |done|);
            && Holds(m, lo, done)
            && Blank(m, lo + |done|, lo + |done| + SECTOR)
            && SameOutside(n0, m, lo, lo + |done| + SECTOR)
            && m.log == n.log + [Erased((lo + |done|) / SECTOR)]
  {
    var m := Erase(n, lo + |done|);
    assert SectorOf(lo + |done|) == (lo + |done|) / SECTOR;
    assert m.cells[lo..lo + |done|] == n.cells[lo..lo + |done|];
  }

  /** A sector erased on the way stays recorded when the log grows. */
  lemma ErasedFirstSnoc(log: seq<Op>, op: Op)
    requires ErasedFirst(log)
    requires op.Programmed? ==> forall x | op.addr <= x < op.addr + |op.data| :: ErasedBefore(log, |log|, x / SECTOR)
    ensures ErasedFirst(log + [op])
  {
    var l := log + [op];
    forall i, x | 0 <= i < |l| && l[i].Programmed? && l[i].addr <= x < l[i].addr + |l[i].data|
      ensures ErasedBefore(l, i, x / SECTOR)
    {
      assert ErasedBefore(log, i, x / SECTOR);
      var j :| 0 <= j < i && j < |log| && log[j] == Erased(x / SECTOR);
      assert l[j] == Erased(x / SECTOR);
    }
  }
}
