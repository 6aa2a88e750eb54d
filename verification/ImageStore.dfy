/** store_block: the sink of the TFTP download. Every datagram carries a 24-byte header
    and up to 1024 bytes of image; the CRC over all of them guards the image header that
    tells the boot loader to install the image. */
module ImageStore {
  import opened Bytes
  import opened NorFlash
  import opened NorImage

  const HD_LEN: nat := 24            // sizeof(SEND_PTK_HD)
  const CRC_LEN: nat := 4
  const PKT_MAX: nat := HD_LEN + 1024
  const WINDOW_LO: u32 := 0x27000
  const WINDOW_HI: u32 := 0x200000
  const IMG_HEAD_LEN: nat := 32

  /** SEND_PTK_HD */
  datatype PktHead = PktHead(
    totalLen: u32, seqNo: u16, totalSeq: u16, exAddr: u32, hdAddr: u32, os0Addr: u32, os1Addr: u32)

  /** What the code can take: shorter packets make its lengths wrap, longer ones
      overrun its 1024-byte read-back buffer. */
  type Pkt = s: seq<byte> | HD_LEN <= |s| <= PKT_MAX witness seq(HD_LEN, _ => 0)

  function ReadHead(src: Pkt): PktHead {
    PktHead(Le32(src[0..4]), Le16(src[4..6]), Le16(src[6..8]),
            Le32(src[8..12]), Le32(src[12..16]), Le32(src[16..20]), Le32(src[20..24]))
  }

  /** IMG_HEAD with status 1, as it lies in memory. */
  function ImageHead(h: PktHead, crc: u32): (r: seq<byte>)
    ensures |r| == IMG_HEAD_LEN
  {
    EncLe32(h.os1Addr) + EncLe32(h.totalLen) + EncLe32(h.exAddr) + EncLe32(h.os0Addr)
    + EncLe32(h.hdAddr) + EncLe32(crc) + EncLe32(1) + EncLe32(0)
  }

  /** The little-endian word at offset `at`. */
  function Word(s: seq<byte>, at: nat): int
    requires at + 4 <= |s|
  {
    s[at] as int + 256 * (s[at + 1] as int) + 65536 * (s[at + 2] as int) + 16777216 * (s[at + 3] as int)
  }

  /** seq equals total_seq, by their bytes. */
  predicate ClosesSequence(src: Pkt) {
    src[4] == src[6] && src[5] == src[7]
  }

  /** The packet header is read field by field from its offsets in SEND_PTK_HD. */
  lemma HeadFields(src: Pkt)
    ensures var h := ReadHead(src);
            && h.totalLen == Word(src, 0) && h.exAddr == Word(src, 8) && h.hdAddr == Word(src, 12)
            && h.os0Addr == Word(src, 16) && h.os1Addr == Word(src, 20)
            && (h.seqNo == h.totalSeq <==> ClosesSequence(src))
  {
  }

  /** The 32 bytes of an image header as the packet `src` determines them: where the image
      is, its length, where to expand it, where to install it and this header's own address,
      all from the packet's header; its trailing CRC; status 1; 0. */
  ghost predicate CommittedBy(header: seq<byte>, src: Pkt) {
    && |header| == 32
    && header[0..4] == src[20..24] && header[4..8] == src[0..4] && header[8..12] == src[8..12]
    && header[12..16] == src[16..20] && header[16..20] == src[12..16]
    && header[20..24] == src[|src| - 4..]
    && header[24..28] == [1, 0, 0, 0] && header[28..32] == [0, 0, 0, 0]
  }

  lemma HeaderLayout(src: Pkt)
    ensures CommittedBy(ImageHead(ReadHead(src), Trailer(src)), src)
  {
    hide Le32, EncLe32;
    var h := ReadHead(src);
    LittleEndian(src[0..4]);
    LittleEndian(src[8..12]);
    LittleEndian(src[12..16]);
    LittleEndian(src[16..20]);
    LittleEndian(src[20..24]);
    LittleEndian(src[|src| - 4..]);
    var one, zero := [1, 0, 0, 0], [0, 0, 0, 0];
    assert Le32(one) == 1 && Le32(zero) == 0 by { SmallWords(); }
    LittleEndian(one);
    LittleEndian(zero);
    Quarters(src[20..24], src[0..4], src[8..12], src[16..20], src[12..16], src[|src| - 4..], one, zero);
  }

  lemma SmallWords()
    ensures Le32([1, 0, 0, 0]) == 1 && Le32([0, 0, 0, 0]) == 0
  {
  }

  lemma Quarters(a: seq<byte>, b: seq<byte>, c: seq<byte>, d: seq<byte>, e: seq<byte>, f: seq<byte>, g: seq<byte>, h: seq<byte>)
    requires |a| == |b| == |c| == |d| == |e| == |f| == |g| == |h| == 4
    ensures var s := a + b + c + d + e + f + g + h;
            && |s| == 32 && s[0..4] == a && s[4..8] == b && s[8..12] == c && s[12..16] == d
            && s[16..20] == e && s[20..24] == f && s[24..28] == g && s[28..32] == h
  {
  }

  /** co_crc32: the polynomial is a parameter, chaining is what the code relies on. */
  function Crc(step: (u32, byte) -> u32, data: seq<byte>, init: u32): u32
    decreases |data|
  {
    if data == [] then init
    else step(Crc(step, data[..|data| - 1], init), data[|data| - 1])
  }

  lemma {:induction false} CrcChain(step: (u32, byte) -> u32, a: seq<byte>, b: seq<byte>, init: u32)
    ensures Crc(step, a + b, init) == Crc(step, b, Crc(step, a, init))
    decreases |b|
  {
    if b == [] {
      assert a + b == a;
    } else {
      var b' := b[..|b| - 1];
      CrcChain(step, a, b', init);
      assert (a + b)[..|a + b| - 1] == a + b';
    }
  }

  /** os_data_addr, tftp_crc and the device. */
  datatype Store = Store(nor: Nor, addr: u32, crc: u32)

  /** One call store_block(block, src, |src|). */
  datatype Call = Call(block: u32, src: Pkt)

  function Opened(st: Store, c: Call): Store {
    if c.block == 0 then st.(addr := ReadHead(c.src).os1Addr, crc := 0) else st
  }

  predicate InWindow(addr: u32) {
    WINDOW_LO <= addr < WINDOW_HI
  }

  predicate IsLast(src: Pkt) {
    ReadHead(src).seqNo == ReadHead(src).totalSeq
  }

  /** The bytes of a packet the running CRC covers. */
  function Covered(src: Pkt): seq<byte> {
    if IsLast(src) then src[..|src| - CRC_LEN] else src
  }

  function Trailer(src: Pkt): u32 {
    Le32(src[|src| - CRC_LEN..])
  }

  /** Erase and payload, the part every accepted packet gets. */
  function Payload(n: Nor, addr: u32, src: Pkt): Nor {
    Program(Prepare(n, addr), addr, src[HD_LEN..])
  }

  function WriteHeader(n: Nor, h: PktHead, crc: u32): Nor {
    Program(Erase(n, h.hdAddr), h.hdAddr, ImageHead(h, crc))
  }

  /** store_block */
  function StoreBlock(step: (u32, byte) -> u32, st: Store, c: Call): Store {
    var s := Opened(st, c);
    if !InWindow(s.addr) then s.(nor := Prepare(s.nor, s.addr))
    else Accept(step, s, c.src)
  }

  /** The part of store_block behind the address test. */
  function Accept(step: (u32, byte) -> u32, s: Store, src: Pkt): Store {
    var n := Payload(s.nor, s.addr, src);
    var crc := Crc(step, Covered(src), s.crc);
    var n' := if IsLast(src) && crc == Trailer(src) then WriteHeader(n, ReadHead(src), crc) else n;
    Store(n', Wrap32(s.addr + |src| - HD_LEN), crc)
  }

  function Run(step: (u32, byte) -> u32, st: Store, calls: seq<Call>): Store
    decreases |calls|
  {
    if calls == [] then st
    else StoreBlock(step, Run(step, st, calls[..|calls| - 1]), calls[|calls| - 1])
  }

  // ---------------------------------------------------------------- every run

  /** What a history of calls has accepted since its last block 0: next address and the
      bytes the CRC must cover. It knows no flash and no CRC. */
  datatype Ledger = Ledger(addr: u32, bytes: seq<byte>)

  function Enter(l: Ledger, c: Call): Ledger {
    if c.block == 0 then Ledger(ReadHead(c.src).os1Addr, []) else l
  }

  function Book(l: Ledger, c: Call): Ledger {
    var e := Enter(l, c);
    if InWindow(e.addr) then Ledger(Wrap32(e.addr + |c.src| - HD_LEN), e.bytes + Covered(c.src)) else e
  }

  function Books(l: Ledger, calls: seq<Call>): Ledger
    decreases |calls|
  {
    if calls == [] then l else Book(Books(l, calls[..|calls| - 1]), calls[|calls| - 1])
  }

  ghost predicate Agrees(step: (u32, byte) -> u32, st: Store, l: Ledger) {
    st.addr == l.addr && st.crc == Crc(step, l.bytes, 0)
  }

  lemma StoreBlockBooks(step: (u32, byte) -> u32, st: Store, l: Ledger, c: Call)
    requires Agrees(step, st, l)
    ensures Agrees(step, Opened(st, c), Enter(l, c))
    ensures Agrees(step, StoreBlock(step, st, c), Book(l, c))
  {
    hide ReadHead, Payload, WriteHeader, Covered, Prepare, IsLast;
    CrcChain(step, Enter(l, c).bytes, Covered(c.src), 0);
  }

  lemma {:induction false} RunBooks(step: (u32, byte) -> u32, st: Store, calls: seq<Call>)
    requires st.crc == 0
    ensures Agrees(step, Run(step, st, calls), Books(Ledger(st.addr, []), calls))
    decreases |calls|
  {
    hide StoreBlock, Book;
    if calls != [] {
      var h, c := calls[..|calls| - 1], calls[|calls| - 1];
      RunBooks(step, st, h);
      StoreBlockBooks(step, Run(step, st, h), Books(Ledger(st.addr, []), h), c);
    }
  }

  /** Over every run from a fresh start, whatever the packets hold: the image header is
      written by a call exactly when that call is accepted, is the last of its sequence,
      and the CRC of all bytes accepted since block 0 without the final four equals them.
      In every other call flash receives at most an erase and the payload. */
  lemma CommitExactly(step: (u32, byte) -> u32, st: Store, calls: seq<Call>, c: Call)
    requires st.crc == 0
    ensures var before, src := Run(step, st, calls), c.src;
            var l := Enter(Books(Ledger(st.addr, []), calls), c);
            var after, paid := StoreBlock(step, before, c).nor, Payload(before.nor, l.addr, src);
            if !(0x27000 <= l.addr < 0x200000) then after == Prepare(before.nor, l.addr)
            else if ClosesSequence(src) && Crc(step, l.bytes + src[..|src| - 4], 0) == Word(src, |src| - 4)
              then exists header :: CommittedBy(header, src) &&
                     after == Program(Erase(paid, Word(src, 12)), Word(src, 12), header)
            else after == paid
  {
    hide ReadHead, Payload, Prepare, Trailer, CommittedBy, Word, ClosesSequence, Program, Erase, ImageHead;
    var before, l := Run(step, st, calls), Books(Ledger(st.addr, []), calls);
    RunBooks(step, st, calls);
    StoreBlockBooks(step, before, l, c);
    CrcChain(step, Enter(l, c).bytes, Covered(c.src), 0);
    HeadFields(c.src);
    TrailerWord(c.src);
    HeaderLayout(c.src);
  }

  lemma TrailerWord(src: Pkt)
    ensures Trailer(src) == Word(src, |src| - 4)
  {
  }

  // ---------------------------------------------------------------- refused addresses

  /** The first cell of the sector an address selects. */
  function Base(addr: u32): nat {
    SectorOf(addr) * SECTOR
  }

  /** An erase for `addr` has no effect: not on a boundary, or not on a device of this size. */
  predicate Harmless(addr: u32, size: nat) {
    addr % SECTOR != 0 || Base(addr) + SECTOR > size
  }

  /** Exactly when the erase in front of a block does something, and what. */
  lemma PrepareExactly(n: Nor, addr: u32)
    ensures Prepare(n, addr) == n <==> Harmless(addr, |n.cells|)
    ensures Prepare(n, addr).cells == n.cells <==>
            Harmless(addr, |n.cells|) || Blank(n, Base(addr), Base(addr) + SECTOR)
    ensures !Harmless(addr, |n.cells|) ==> Blank(Prepare(n, addr), Base(addr), Base(addr) + SECTOR)
  {
    var m, base := Prepare(n, addr), Base(addr);
    if !Harmless(addr, |n.cells|) {
      assert |m.log| == |n.log| + 1;
      if Blank(n, base, base + SECTOR) {
        assert m.cells == n.cells;
      } else {
        var i :| base <= i < base + SECTOR && n.cells[i] != 0xFF;
        assert m.cells[i] != n.cells[i];
      }
    }
  }

  lemma StoreBlockSize(step: (u32, byte) -> u32, st: Store, c: Call)
    ensures |StoreBlock(step, st, c).nor.cells| == |st.nor.cells|
  {
    hide Erase, Program, ReadHead, Crc, Trailer, ImageHead;
  }

  lemma {:induction false} RunSize(step: (u32, byte) -> u32, st: Store, calls: seq<Call>)
    ensures |Run(step, st, calls).nor.cells| == |st.nor.cells|
    decreases |calls|
  {
    hide StoreBlock;
    if calls != [] {
      RunSize(step, st, calls[..|calls| - 1]);
      StoreBlockSize(step, Run(step, st, calls[..|calls| - 1]), calls[|calls| - 1]);
    }
  }

  /** The sector erase precedes the address test. Over every run, a call whose address is
      outside the window, be it named by its block 0 or reached by earlier packets, leaves
      flash alone if and only if that address is not on a sector boundary or lies off the
      device; its cells stay the same also if the sector is blank already. */
  lemma RefusedCallExactly(step: (u32, byte) -> u32, st: Store, calls: seq<Call>, c: Call)
    requires st.crc == 0
    requires !(0x27000 <= Enter(Books(Ledger(st.addr, []), calls), c).addr < 0x200000)
    ensures var before, addr := Run(step, st, calls), Enter(Books(Ledger(st.addr, []), calls), c).addr;
            var after := StoreBlock(step, before, c);
            && (after.nor == before.nor <==> Harmless(addr, |st.nor.cells|))
            && (after.nor.cells == before.nor.cells <==>
                  Harmless(addr, |st.nor.cells|) || Blank(before.nor, Base(addr), Base(addr) + SECTOR))
            && (!Harmless(addr, |st.nor.cells|) ==> Blank(after.nor, Base(addr), Base(addr) + SECTOR))
  {
    hide ReadHead, Prepare, Blank, Harmless, Base, Payload, Crc, Books;
    var before, l := Run(step, st, calls), Books(Ledger(st.addr, []), calls);
    CommitExactly(step, st, calls, c);
    RunSize(step, st, calls);
    PrepareExactly(before.nor, Enter(l, c).addr);
  }

  /** A first packet of zeros names address 0, below the window, and sector 0 is lost. */
  lemma RefusedPacketErasesSectorZero(step: (u32, byte) -> u32)
    ensures var zeros: Pkt := seq(HD_LEN, _ => 0);
            var st := Store(Nor(seq(SECTOR, _ => 0), []), 0x8C000, 0);
            !InWindow(ReadHead(zeros).os1Addr) && StoreBlock(step, st, Call(0, zeros)).nor.cells != st.nor.cells
  {
    hide Crc, Prepare, ReadHead, Payload, IsLast, Trailer;
    var zeros: Pkt := seq(HD_LEN, _ => 0);
    var st := Store(Nor(seq(SECTOR, _ => 0), []), 0x8C000, 0);
    HeadFields(zeros);
    assert Word(zeros, 20) == 0;
    PrepareExactly(st.nor, 0);
    assert Base(0) == 0 && st.nor.cells[0] == 0;
  }

  // ---------------------------------------------------------------- a well-formed package

  /** All packets but the last are full. */
  datatype Package = Package(body: seq<Pkt>, last: Pkt)

  function Packets(p: Package): seq<Pkt> {
    p.body + [p.last]
  }

  /** store_block calls for packets in order. */
  function Calls(pkts: seq<Pkt>): seq<Call> {
    seq(|pkts|, i requires 0 <= i < |pkts| => Call(Wrap32(i), pkts[i]))
  }

  function Image(pkts: seq<Pkt>): seq<byte>
    decreases |pkts|
  {
    if pkts == [] then [] else Image(pkts[..|pkts| - 1]) + pkts[|pkts| - 1][HD_LEN..]
  }

  function Hashed(pkts: seq<Pkt>): seq<byte>
    decreases |pkts|
  {
    if pkts == [] then [] else Hashed(pkts[..|pkts| - 1]) + pkts[|pkts| - 1]
  }

  ghost predicate FullPkt(src: Pkt) {
    |src| == 1048 && !ClosesSequence(src)
  }

  /** Sequence numbers mark the last packet only; fewer packets than store_block can count. */
  ghost predicate Framed(p: Package) {
    && (forall i | 0 <= i < |p.body| :: FullPkt(p.body[i]))
    && ClosesSequence(p.last) && 28 <= |p.last|
    && |p.body| < TWO32
  }

  /** From sector-aligned `a` on, the image lies in the accepted window and on the device. */
  ghost predicate Placed(p: Package, a: u32, size: nat) {
    && Word(Packets(p)[0], 20) == a
    && a % 4096 == 0
    && 0x27000 <= a && a + 1024 * |p.body| < 0x200000
    && a + Length(p) <= size
  }

  /** The image header has a sector of its own. */
  ghost predicate Apart(p: Package, a: u32, hd: u32, size: nat) {
    && Word(p.last, 12) == hd
    && hd % 4096 + 32 <= 4096
    && hd + 32 <= size
    && (hd / 4096 * 4096 + 4096 <= a || a + 1024 * |p.body| + 1024 <= hd / 4096 * 4096)
  }

  /** The bytes of the image. */
  function Length(p: Package): int {
    1024 * |p.body| + |p.last| - 24
  }

  /** `image` is in flash from `a` on and `bytes` have been hashed. */
  ghost predicate Midway(step: (u32, byte) -> u32, a: nat, n0: Nor, st: Store, image: seq<byte>, bytes: seq<byte>) {
    && Written(a, n0, st.nor, image)
    && st.addr == a + |image|
    && st.crc == Crc(step, bytes, 0)
  }

  lemma MidwayStart(step: (u32, byte) -> u32, a: nat, n0: Nor, st: Store)
    requires st.nor == n0 && n0.log == [] && st.addr == a && st.crc == 0 && a < |n0.cells|
    ensures Midway(step, a, n0, st, [], [])
  {
    assert Ceil(0) == 0;
    assert n0.cells[a..a] == [];
  }

  /** One accepted packet. */
  lemma PacketStep(step: (u32, byte) -> u32, a: nat, n0: Nor, s: Store, image: seq<byte>, bytes: seq<byte>, src: Pkt)
    requires Fits(a, n0, image) && Midway(step, a, n0, s, image, bytes) && InWindow(s.addr)
    ensures Written(a, n0, Payload(s.nor, s.addr, src), image + src[HD_LEN..])
    ensures !IsLast(src) ==> Midway(step, a, n0, Accept(step, s, src), image + src[HD_LEN..], bytes + src)
  {
    hide Written, ReadHead, IsLast, Crc, Program, Prepare, WriteHeader, Trailer, Device, Ready;
    EraseStep(a, n0, s.nor, image);
    ProgramStep(a, n0, Prepare(s.nor, s.addr), image, src[HD_LEN..]);
    CrcChain(step, bytes, src, 0);
  }

  lemma {:induction false} ImageSize(body: seq<Pkt>)
    requires forall i | 0 <= i < |body| :: FullPkt(body[i])
    ensures |Image(body)| == 1024 * |body|
    decreases |body|
  {
    if body != [] {
      assert FullPkt(body[|body| - 1]);
      ImageSize(body[..|body| - 1]);
    }
  }

  /** Where packet number |body| of a package finds the store. */
  ghost predicate Arrived(step: (u32, byte) -> u32, a: u32, n0: Nor, st: Store, body: seq<Pkt>) {
    if body == [] then st.nor == n0 else Midway(step, a, n0, st, Image(body), Hashed(body))
  }

  lemma ArrivedOpens(step: (u32, byte) -> u32, a: u32, n0: Nor, st: Store, body: seq<Pkt>, src: Pkt)
    requires Arrived(step, a, n0, st, body) && n0.log == [] && a < |n0.cells| && |body| < TWO32
    requires body == [] ==> ReadHead(src).os1Addr == a
    ensures Midway(step, a, n0, Opened(st, Call(Wrap32(|body|), src)), Image(body), Hashed(body))
  {
    hide ReadHead, Midway, Image, Hashed, Wrap32;
    WrapSmall(|body|);
    if body == [] {
      MidwayStart(step, a, n0, Opened(st, Call(0, src)));
      assert Image(body) == Image([]) == [] && Hashed(body) == Hashed([]) == [] by { NoPackets(); }
    }
  }

  lemma WrapSmall(x: nat)
    requires x < TWO32
    ensures Wrap32(x) == x
  {
  }

  lemma NoPackets()
    ensures Image([]) == [] && Hashed([]) == []
  {
  }

  lemma {:induction false} BodyRun(step: (u32, byte) -> u32, a: u32, st: Store, body: seq<Pkt>)
    requires Device(st.nor) && st.nor.log == [] && a % SECTOR == 0 && |body| < TWO32
    requires forall i | 0 <= i < |body| :: FullPkt(body[i])
    requires WINDOW_LO <= a && a + 1024 * |body| < WINDOW_HI && a + 1024 * |body| <= |st.nor.cells|
    requires body != [] ==> Word(body[0], 20) == a
    ensures Arrived(step, a, st.nor, Run(step, st, Calls(body)), body)
    decreases |body|
  {
    hide ReadHead, Opened, Accept, Midway, IsLast, Word, ClosesSequence;
    if body != [] {
      var prev, src := body[..|body| - 1], body[|body| - 1];
      BodyRun(step, a, st, prev);
      assert Calls(body)[..|body| - 1] == Calls(prev);
      var before := Run(step, st, Calls(prev));
      StartsAt(src);
      ArrivedOpens(step, a, st.nor, before, prev, src);
      var s := Opened(before, Call(Wrap32(|prev|), src));
      MidwayAddr(step, a, st.nor, s, Image(prev), Hashed(prev));
      ImageSize(prev);
      assert FullPkt(src);
      PacketStep(step, a, st.nor, s, Image(prev), Hashed(prev), src);
    }
  }

  lemma StartsAt(src: Pkt)
    ensures ReadHead(src).os1Addr == Word(src, 20) && (IsLast(src) <==> ClosesSequence(src))
  {
    HeadFields(src);
  }

  lemma MidwayAddr(step: (u32, byte) -> u32, a: nat, n0: Nor, st: Store, image: seq<byte>, bytes: seq<byte>)
    requires Midway(step, a, n0, st, image, bytes)
    ensures st.addr == a + |image|
  {
  }

  // ---------------------------------------------------------------- the image header

  /** Erasing and programming a sector of its own leaves an image elsewhere alone. */
  lemma HeaderApart(n: Nor, hd: nat, data: seq<byte>, a: nat, image: seq<byte>)
    requires Device(n) && 0 < |data| && hd + |data| <= |n.cells|
    requires hd % SECTOR + |data| <= SECTOR
    requires Holds(n, a, image)
    requires hd / SECTOR * SECTOR + SECTOR <= a || a + |image| <= hd / SECTOR * SECTOR
    ensures var m := Program(Erase(n, hd), hd, data);
            && Holds(m, a, image) && Holds(m, hd, data)
            && SameOutside(n, m, hd / SECTOR * SECTOR, hd / SECTOR * SECTOR + SECTOR)
  {
    hide Erase, Program, Blank, Holds, SameOutside, Device;
    var base := hd / SECTOR * SECTOR;
    EraseWithin(n, hd, |data|);
    var e := Erase(n, hd);
    ProgramBlank(e, hd, data);
    ProgramWithin(n, e, base, base + SECTOR, hd, data);
    HoldsOutside(n, Program(e, hd, data), base, base + SECTOR, a, image);
  }

  lemma EraseWithin(n: Nor, hd: nat, len: nat)
    requires Device(n) && 0 < len && hd + len <= |n.cells| && hd % SECTOR + len <= SECTOR
    ensures var base := hd / SECTOR * SECTOR;
            SameOutside(n, Erase(n, hd), base, base + SECTOR) && Blank(Erase(n, hd), hd, hd + len)
  {
    assert SectorOf(hd) == hd / SECTOR;
    assert hd / SECTOR * SECTOR + SECTOR <= |n.cells|;
  }

  lemma ProgramWithin(n0: Nor, n: Nor, lo: nat, hi: nat, at: nat, data: seq<byte>)
    requires SameOutside(n0, n, lo, hi) && lo <= at && at + |data| <= hi
    ensures SameOutside(n0, Program(n, at, data), lo, hi)
  {
  }

  lemma HoldsOutside(n: Nor, m: Nor, lo: nat, hi: nat, a: nat, image: seq<byte>)
    requires SameOutside(n, m, lo, hi) && Holds(n, a, image) && (hi <= a || a + |image| <= lo)
    ensures Holds(m, a, image)
  {
    assert m.cells[a..a + |image|] == n.cells[a..a + |image|];
  }

  /** The CRC over the whole package agrees with its last four bytes. */
  ghost predicate Sound(step: (u32, byte) -> u32, p: Package)
    requires 28 <= |p.last|
  {
    Crc(step, Flatten(p.body) + p.last[..|p.last| - 4], 0) == Word(p.last, |p.last| - 4)
  }

  /** The payload of packet `i` is in flash from `a + 1024 * i` on, that of the last packet
      behind them. */
  ghost predicate InPlace(n: Nor, p: Package, a: u32) {
    && a + Length(p) <= |n.cells| && (forall i | 0 <= i < |p.body| :: |p.body[i]| == 1048)
    && (forall i | 0 <= i < |p.body| :: n.cells[a + 1024 * i..a + 1024 * i + 1024] == p.body[i][24..])
    && n.cells[a + 1024 * |p.body|..a + Length(p)] == p.last[24..]
  }

  /** The payloads are in flash; a header with status 1 made of the last packet's fields is at
      `hd` when the CRC agrees; no cell outside the image's sectors, and that of the header in
      this case only, has changed. */
  ghost predicate Installed(step: (u32, byte) -> u32, n0: Nor, n: Nor, p: Package, a: u32, hd: u32) {
    && 28 <= |p.last| && |n.cells| == |n0.cells| && hd + 32 <= |n.cells|
    && InPlace(n, p, a)
    && (Sound(step, p) ==> CommittedBy(n.cells[hd..hd + 32], p.last))
    && var base := hd / 4096 * 4096;
       SameBut(n0, n, a, a + Length(p) / 4096 * 4096 + 4096, base, if Sound(step, p) then base + 4096 else base)
  }

  /** Only cells in `lo..hi` or `lo'..hi'` differ. */
  ghost predicate SameBut(n0: Nor, n: Nor, lo: nat, hi: nat, lo': nat, hi': nat) {
    && |n.cells| == |n0.cells|
    && forall x | 0 <= x < |n.cells| && !(lo <= x < hi) && !(lo' <= x < hi') :: n.cells[x] == n0.cells[x]
  }

  lemma SameTwice(n0: Nor, n: Nor, m: Nor, lo: nat, hi: nat, lo': nat, hi': nat)
    requires SameOutside(n0, n, lo, hi) && (m == n || SameOutside(n, m, lo', hi'))
    ensures SameBut(n0, m, lo, hi, lo', hi')
  {
  }

  /** A well-formed package handed over packet by packet. */
  lemma PackageStored(step: (u32, byte) -> u32, st: Store, p: Package, a: u32, hd: u32)
    requires Device(st.nor) && st.nor.log == []
    requires Framed(p) && Placed(p, a, |st.nor.cells|) && Apart(p, a, hd, |st.nor.cells|)
    ensures Installed(step, st.nor, Run(step, st, Calls(Packets(p))).nor, p, a, hd)
  {
    hide ReadHead, Opened, Midway, Written, Trailer, Payload, ImageHead, Holds, Placed, Apart, Device, Program, Erase;
    hide Word, ClosesSequence, Installed, CommittedBy, Crc, Flatten, Hashed, Image, SameOutside, Run;
    var s := LastArrives(step, st, p, a);
    var image := Image(Packets(p));
    var n, after := Payload(s.nor, s.addr, p.last), Run(step, st, Calls(Packets(p))).nor;
    WrittenHolds(a, st.nor, n, image);
    MidwayCrc(step, a, st.nor, s, Image(p.body), Hashed(p.body), p.last[..|p.last| - CRC_LEN]);
    HeaderFits(p, a, hd, st.nor, n, image);
    HeadFields(p.last);
    TrailerWord(p.last);
    HashedIsFlat(p.body);
    if Sound(step, p) {
      HeaderApart(n, hd, ImageHead(ReadHead(p.last), Trailer(p.last)), a, image);
      HeaderLayout(p.last);
    }
    InstalledOf(step, st.nor, n, after, p, a, hd, ImageHead(ReadHead(p.last), Trailer(p.last)), hd / SECTOR * SECTOR);
  }

  lemma InstalledOf(step: (u32, byte) -> u32, n0: Nor, n: Nor, m: Nor, p: Package, a: u32, hd: u32,
                    header: seq<byte>, base: nat)
    requires base == hd / 4096 * 4096 && hd + 32 <= |n0.cells|
    requires Framed(p) && SameOutside(n0, n, a, Edge(a, Image(Packets(p)))) && Holds(m, a, Image(Packets(p)))
    requires if Sound(step, p)
             then Holds(m, hd, header) && CommittedBy(header, p.last) && SameOutside(n, m, base, base + 4096)
             else m == n
    ensures Installed(step, n0, m, p, a, hd)
  {
    hide CommittedBy, Sound, ClosesSequence, Image, InPlace, SameBut, SameOutside, Packets;
    LastPart(p);
    InPlaceOf(m, p, a);
    var top := Edge(a, Image(Packets(p)));
    SameTwice(n0, n, m, a, top, base, if Sound(step, p) then base + 4096 else base);
    SameSizes(n0, n, m, a, top, base, base + 4096);
    if Sound(step, p) {
      assert |header| == 32 by { CommittedSize(header, p.last); }
    }
  }

  lemma CommittedSize(header: seq<byte>, src: Pkt)
    requires CommittedBy(header, src)
    ensures |header| == 32
  {
  }

  lemma SameSizes(n0: Nor, n: Nor, m: Nor, lo: nat, hi: nat, lo': nat, hi': nat)
    requires SameOutside(n0, n, lo, hi) && (m == n || SameOutside(n, m, lo', hi'))
    ensures |m.cells| == |n0.cells|
  {
  }

  lemma InPlaceOf(m: Nor, p: Package, a: u32)
    requires Framed(p) && Holds(m, a, Image(Packets(p)))
    ensures InPlace(m, p, a)
  {
    hide ClosesSequence, Image, Packets, Holds;
    forall i | 0 <= i < |p.body|
      ensures |p.body[i]| == 1048 && a + 1024 * i + 1024 <= |m.cells|
      ensures m.cells[a + 1024 * i..a + 1024 * i + 1024] == p.body[i][24..]
    {
      PartInFlash(m, p, a, i);
    }
    LastInFlash(m, p, a);
  }

  /** What has been programmed, packet by packet. */
  lemma PartInFlash(m: Nor, p: Package, a: nat, i: nat)
    requires Framed(p) && Holds(m, a, Image(Packets(p))) && i < |p.body|
    ensures |p.body[i]| == 1048 && a + 1024 * i + 1024 <= |m.cells|
    ensures m.cells[a + 1024 * i..a + 1024 * i + 1024] == p.body[i][24..]
  {
    hide ClosesSequence, Image, Packets;
    assert FullPkt(p.body[i]);
    LastPart(p);
    ImagePart(p.body, i);
    assert Image(Packets(p))[1024 * i..1024 * i + 1024] == Image(p.body)[1024 * i..1024 * i + 1024];
    SubSlice(m.cells, a, Image(Packets(p)), 1024 * i, 1024);
  }

  lemma LastInFlash(m: Nor, p: Package, a: nat)
    requires Framed(p) && Holds(m, a, Image(Packets(p)))
    ensures a + Length(p) <= |m.cells|
    ensures m.cells[a + 1024 * |p.body|..a + Length(p)] == p.last[24..]
  {
    hide ClosesSequence, Image, Packets;
    LastPart(p);
    assert Image(Packets(p))[1024 * |p.body|..Length(p)] == p.last[24..];
    SubSlice(m.cells, a, Image(Packets(p)), 1024 * |p.body|, |p.last| - 24);
  }

  lemma LastPart(p: Package)
    requires forall i | 0 <= i < |p.body| :: FullPkt(p.body[i])
    ensures Image(Packets(p)) == Image(p.body) + p.last[24..] && |Image(p.body)| == 1024 * |p.body|
  {
    hide FullPkt;
    assert Packets(p)[..|p.body|] == p.body;
    ImageSize(p.body);
  }

  lemma {:induction false} ImagePart(body: seq<Pkt>, i: nat)
    requires i < |body| && forall j | 0 <= j < |body| :: FullPkt(body[j])
    ensures 1024 * i + 1024 <= |Image(body)| && Image(body)[1024 * i..1024 * i + 1024] == body[i][24..]
    decreases |body|
  {
    hide ClosesSequence;
    var prev, k := body[..|body| - 1], 1024 * i;
    ImageSize(prev);
    assert FullPkt(body[|body| - 1]);
    if i < |prev| {
      ImagePart(prev, i);
      assert Image(body)[k..k + 1024] == Image(prev)[k..k + 1024];
    } else {
      assert Image(body)[k..k + 1024] == body[i][24..];
    }
  }

  lemma {:induction false} HashedIsFlat(body: seq<Pkt>)
    ensures Hashed(body) == Flatten(body)
    decreases |body|
  {
    if body != [] {
      var prev := body[..|body| - 1];
      HashedIsFlat(prev);
      FlattenSnoc(prev, body[|body| - 1]);
      assert prev + [body[|body| - 1]] == body;
    }
  }

  /** The store when the last packet has been accepted but for its CRC. */
  lemma LastArrives(step: (u32, byte) -> u32, st: Store, p: Package, a: u32) returns (s: Store)
    requires Device(st.nor) && st.nor.log == []
    requires Framed(p) && Placed(p, a, |st.nor.cells|)
    ensures Run(step, st, Calls(Packets(p))) == Accept(step, s, p.last)
    ensures Midway(step, a, st.nor, s, Image(p.body), Hashed(p.body))
    ensures Written(a, st.nor, Payload(s.nor, s.addr, p.last), Image(Packets(p)))
    ensures |Image(Packets(p))| == 1024 * |p.body| + |p.last| - HD_LEN
  {
    hide ReadHead, Opened, Midway, Written, IsLast, Payload, Accept, Word, ClosesSequence, Device;
    var pkts := Packets(p);
    assert pkts[..|p.body|] == p.body && pkts[|p.body|] == p.last;
    assert Calls(pkts)[..|p.body|] == Calls(p.body);
    assert p.body != [] ==> pkts[0] == p.body[0];
    StartsAt(pkts[0]);
    BodyRun(step, a, st, p.body);
    var before := Run(step, st, Calls(p.body));
    ArrivedOpens(step, a, st.nor, before, p.body, p.last);
    s := Opened(before, Call(Wrap32(|p.body|), p.last));
    MidwayAddr(step, a, st.nor, s, Image(p.body), Hashed(p.body));
    ImageSize(p.body);
    PacketStep(step, a, st.nor, s, Image(p.body), Hashed(p.body), p.last);
  }

  lemma HeaderFits(p: Package, a: u32, hd: u32, n0: Nor, n: Nor, image: seq<byte>)
    requires Device(n0) && |n.cells| == |n0.cells| && Apart(p, a, hd, |n0.cells|)
    requires |image| == 1024 * |p.body| + |p.last| - HD_LEN
    ensures Device(n) && Word(p.last, 12) == hd && hd + IMG_HEAD_LEN <= |n.cells|
    ensures hd % SECTOR + IMG_HEAD_LEN <= SECTOR
    ensures hd / SECTOR * SECTOR + SECTOR <= a || a + |image| <= hd / SECTOR * SECTOR
  {
    hide Word;
  }

  lemma WrittenHolds(a: nat, n0: Nor, n: Nor, image: seq<byte>)
    requires Written(a, n0, n, image)
    ensures Holds(n, a, image) && SameOutside(n0, n, a, Edge(a, image)) && |n.cells| == |n0.cells|
  {
  }

  lemma MidwayCrc(step: (u32, byte) -> u32, a: nat, n0: Nor, st: Store, image: seq<byte>, bytes: seq<byte>, more: seq<byte>)
    requires Midway(step, a, n0, st, image, bytes)
    ensures Crc(step, more, st.crc) == Crc(step, bytes + more, 0)
  {
    CrcChain(step, bytes, more, 0);
  }

  // ---------------------------------------------------------------- the code

  class Sink {
    const step: (u32, byte) -> u32
    var nor: Nor
    var osDataAddr: u32
    var tftpCrc: u32

    function State(): Store
      reads this
    {
      Store(nor, osDataAddr, tftpCrc)
    }

    constructor (step: (u32, byte) -> u32, nor: Nor)
      ensures this.step == step && State() == Store(nor, 0x8C000, 0)
    {
      this.step := step;
      this.nor, osDataAddr, tftpCrc := nor, 0x8C000, 0;
    }

    /** store_block */
    method Put(block: u32, src: Pkt)
      modifies this
      ensures State() == StoreBlock(step, old(State()), Call(block, src))
    {
      hide ReadHead, Erase, Program, ImageHead, Crc, Le32;
      var hd := ReadHead(src);
      if block == 0 {
        osDataAddr, tftpCrc := hd.os1Addr, 0;
      }
      if osDataAddr % SECTOR == 0 {
        nor := Erase(nor, osDataAddr);
      }
      if osDataAddr >= WINDOW_HI || osDataAddr < WINDOW_LO {
        return;
      }
      nor := Program(nor, osDataAddr, src[HD_LEN..]);
      if hd.seqNo != hd.totalSeq {
        tftpCrc := Crc(step, src, tftpCrc);
      } else {
        var orCrc := Le32(src[|src| - CRC_LEN..]);
        tftpCrc := Crc(step, src[..|src| - CRC_LEN], tftpCrc);
        if tftpCrc == orCrc {
          nor := Erase(nor, hd.hdAddr);
          nor := Program(nor, hd.hdAddr, ImageHead(hd, orCrc));
        }
      }
      osDataAddr := osDataAddr + |src| - HD_LEN;
    }
  }
}
