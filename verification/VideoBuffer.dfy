/** The packet-to-frame buffer between the camera's packet producer and one waiting
    reader. Packet arrival, the start of a read and its end are atomic steps. */
module VideoBuffer {
  import opened Bytes

  const HDR: nat := 4   // sizeof(VB_HDR_ST)

  datatype Status = STA_INIT | STA_COPY | STA_GET | STA_FULL | STA_ERR

  /** g_vbuf: `buf` is the reader's buffer while `reading`. */
  datatype Vbuf = Vbuf(
    reading: bool, buf: seq<byte>, frameId: u32, pktCnt: u32, frameLen: nat, status: Status)

  /** VB_HDR_ST */
  function Id(p: seq<byte>): byte requires |p| >= HDR { p[0] }
  function Eof(p: seq<byte>): byte requires |p| >= HDR { p[1] }
  function SeqNo(p: seq<byte>): byte requires |p| >= HDR { p[3] }
  function Payload(p: seq<byte>): seq<byte> requires |p| >= HDR { p[HDR..] }

  /** The marker test on a finished frame. Below seven bytes the code reads in front of the
      buffer; `stray` is what it would conclude from there. */
  predicate RightImage(f: seq<byte>, stray: bool) {
    if |f| < 7 then stray
    else
      && f[0] == 0xFF && f[1] == 0xD8
      && f[|f| - 7] == 0xFF && f[|f| - 6] == 0xD9
      && Le32(f[|f| - 4..]) == |f| - 5
  }

  /** A JPEG image as the camera closes it: start marker, end marker seven bytes before the
      end, and in the last four bytes, least significant first, the length without the last
      five. */
  ghost predicate WellMarked(f: seq<byte>) {
    && |f| >= 7
    && f[0] == 0xFF && f[1] == 0xD8 && f[|f| - 7] == 0xFF && f[|f| - 6] == 0xD9
    && f[|f| - 4] as int + 256 * (f[|f| - 3] as int) + 65536 * (f[|f| - 2] as int) + 16777216 * (f[|f| - 1] as int)
         == |f| - 5
  }

  lemma MarkedExactly(f: seq<byte>, stray: bool)
    ensures RightImage(f, stray) <==> if |f| < 7 then stray else WellMarked(f)
  {
    if |f| >= 7 {
      var t := f[|f| - 4..];
      assert t[0] == f[|f| - 4] && t[1] == f[|f| - 3] && t[2] == f[|f| - 2] && t[3] == f[|f| - 1];
    }
  }

  /** Start of frame: a new id with sequence number 1. */
  function Restart(v: Vbuf, p: seq<byte>): Vbuf
    requires |p| >= HDR
  {
    if Id(p) != v.frameId && SeqNo(p) == 1
    then v.(frameId := Id(p), frameLen := 0, pktCnt := 0, status := STA_COPY)
    else v
  }

  predicate Wanted(v: Vbuf, p: seq<byte>)
    requires |p| >= HDR
  {
    Id(p) == v.frameId && v.pktCnt + 1 == SeqNo(p) && v.status == STA_COPY
  }

  function Take(v: Vbuf, p: seq<byte>, stray: bool): Vbuf
    requires |p| >= HDR && v.frameLen <= |v.buf|
  {
    if |Payload(p)| <= |v.buf| - v.frameLen then
      var b := Overlay(v.buf, v.frameLen, Payload(p));
      var n := v.frameLen + |Payload(p)|;
      v.(buf := b, frameLen := n, pktCnt := Wrap32(v.pktCnt + 1),
         status := if Eof(p) != 1 then STA_COPY else if RightImage(b[..n], stray) then STA_GET else STA_ERR)
    else
      v.(status := STA_FULL)
  }

  /** video_buffer_recv_video_data */
  function Recv(v: Vbuf, p: seq<byte>, stray: bool): (r: Vbuf)
    requires v.frameLen <= |v.buf| || !v.reading || v.status.STA_INIT?
    ensures r.reading == v.reading && |r.buf| == |v.buf|
  {
    if v.reading && (v.status == STA_COPY || v.status == STA_INIT) && |p| >= HDR then
      var w := Restart(v, p);
      if Wanted(w, p) then Take(w, p, stray) else w
    else v
  }

  /** The start of video_buffer_read_frame with a caller's buffer. */
  function Begin(v: Vbuf, buf: seq<byte>): Vbuf {
    if buf == [] || v.reading then v else v.(reading := true, buf := buf)
  }

  datatype ReadResult = ReadResult(err: int, len: nat)

  /** The end of video_buffer_read_frame: `woken` by the semaphore or timed out. */
  function Result(v: Vbuf, woken: bool): ReadResult {
    if !woken then ReadResult(-5, 0)
    else match v.status
         case STA_GET => ReadResult(0, Min(v.frameLen, |v.buf|))
         case STA_FULL => ReadResult(-2, 0)
         case STA_ERR => ReadResult(-3, 0)
         case _ => ReadResult(-4, 0)
  }

  function End(v: Vbuf): Vbuf {
    if v.reading then v.(reading := false, buf := [], status := STA_INIT) else v
  }

  datatype Event =
    | BeginRead(buf: seq<byte>)
    | Packet(data: seq<byte>, stray: bool)
    | EndRead

  /** video_buffer_open */
  const Opened: Vbuf := Vbuf(false, [], 0xFFFF, 0, 0, STA_INIT)

  ghost predicate Sane(v: Vbuf) {
    && (v.reading && !v.status.STA_INIT? ==> v.frameLen <= |v.buf|)
    && (!v.reading ==> v.status.STA_INIT?)
  }

  function Next(v: Vbuf, e: Event): Vbuf
    requires Sane(v)
  {
    match e
    case BeginRead(b) => Begin(v, b)
    case Packet(p, stray) => Recv(v, p, stray)
    case EndRead => End(v)
  }

  lemma NextSane(v: Vbuf, e: Event)
    requires Sane(v)
    ensures Sane(Next(v, e))
  {
    hide RightImage;
  }

  function Run(h: seq<Event>): (v: Vbuf)
    ensures Sane(v)
    decreases |h|
  {
    if h == [] then Opened
    else
      var u := Run(h[..|h| - 1]);
      NextSane(u, h[|h| - 1]);
      Next(u, h[|h| - 1])
  }

  // ---------------------------------------------------------------- what a frame is made of

  ghost predicate Arrived(h: seq<Event>, i: nat) {
    i < |h| && h[i].Packet? && |h[i].data| >= HDR
  }

  /** `idx` picks arrivals of `h`, in order, with header id `id` and sequence numbers
      1, 2, ...; only the last may carry the end-of-frame mark. */
  ghost predicate Picks(h: seq<Event>, idx: seq<nat>, id: u32) {
    && (forall k | 0 <= k < |idx| :: Arrived(h, idx[k]))
    && (forall j, k | 0 <= j < k < |idx| :: idx[j] < idx[k])
    && (forall k | 0 <= k < |idx| :: Id(h[idx[k]].data) == id && SeqNo(h[idx[k]].data) == k + 1)
    && (forall k | 0 <= k < |idx| :: k < |idx| - 1 ==> Eof(h[idx[k]].data) != 1)
  }

  ghost function Payloads(h: seq<Event>, idx: seq<nat>): seq<seq<byte>>
    requires forall k | 0 <= k < |idx| :: Arrived(h, idx[k])
  {
    seq(|idx|, k requires 0 <= k < |idx| && Arrived(h, idx[k]) => Payload(h[idx[k]].data))
  }

  /** The buffer's prefix is the concatenation of the picked packets, all of them arrivals
      of the read in progress. */
  ghost predicate Assembled(h: seq<Event>, idx: seq<nat>, v: Vbuf) {
    && Picks(h, idx, v.frameId)
    && (forall j | 0 <= j < |h| && idx != [] && idx[0] <= j :: !h[j].EndRead?)
    && |idx| == v.pktCnt
    && v.frameLen <= |v.buf|
    && v.buf[..v.frameLen] == Flatten(Payloads(h, idx))
    && (v.status.STA_COPY? ==> forall k | 0 <= k < |idx| :: Eof(h[idx[k]].data) != 1)
    && (v.status.STA_GET? ==> idx != [] && Eof(h[idx[|idx| - 1]].data) == 1)
    && (v.status.STA_GET? && v.frameLen >= 7 ==> RightImage(v.buf[..v.frameLen], false))
  }

  lemma PicksGrow(h: seq<Event>, e: Event, idx: seq<nat>, id: u32)
    requires Picks(h, idx, id)
    ensures Picks(h + [e], idx, id)
    ensures Payloads(h + [e], idx) == Payloads(h, idx)
  {
    assert forall k | 0 <= k < |idx| :: (h + [e])[idx[k]] == h[idx[k]];
  }

  lemma AssembledGrow(h: seq<Event>, e: Event, idx: seq<nat>, v: Vbuf)
    requires Assembled(h, idx, v) && !e.EndRead?
    ensures Assembled(h + [e], idx, v)
  {
    hide RightImage, Flatten;
    PicksGrow(h, e, idx, v.frameId);
    assert forall k | 0 <= k < |idx| :: (h + [e])[idx[k]] == h[idx[k]];
  }

  lemma PicksTake(h: seq<Event>, idx: seq<nat>, id: u32, e: Event)
    requires Picks(h, idx, id) && e.Packet? && |e.data| >= HDR
    requires forall k | 0 <= k < |idx| :: Eof(h[idx[k]].data) != 1
    requires Id(e.data) == id && SeqNo(e.data) == |idx| + 1
    ensures Picks(h + [e], idx + [|h|], id)
    ensures Payloads(h + [e], idx + [|h|]) == Payloads(h, idx) + [Payload(e.data)]
  {
    var h', idx' := h + [e], idx + [|h|];
    assert forall k | 0 <= k < |idx| :: h'[idx[k]] == h[idx[k]] && idx'[k] == idx[k];
    assert h'[|h|] == e;
  }

  /** Taking a wanted packet extends the frame by exactly that packet. */
  lemma TakeStep(h: seq<Event>, idx: seq<nat>, v: Vbuf, e: Event) returns (idx': seq<nat>)
    requires e.Packet? && |e.data| >= HDR && v.status.STA_COPY? && Assembled(h, idx, v) && Wanted(v, e.data)
    ensures Assembled(h + [e], idx', Take(v, e.data, e.stray))
  {
    hide Flatten;
    var p := e.data;
    if |Payload(p)| <= |v.buf| - v.frameLen {
      idx' := idx + [|h|];
      PicksTake(h, idx, v.frameId, e);
      FlattenSnoc(Payloads(h, idx), Payload(p));
      var w := Take(v, p, e.stray);
      assert w.buf[..w.frameLen] == v.buf[..v.frameLen] + Payload(p);
      assert (h + [e])[|h|] == e;
      assert forall k | 0 <= k < |idx| :: (h + [e])[idx[k]] == h[idx[k]];
    } else {
      idx' := idx;
      AssembledGrow(h, e, idx, v);
    }
  }

  ghost predicate Loaded(v: Vbuf) {
    v.reading && !v.status.STA_INIT?
  }

  lemma EmptyFrame(h: seq<Event>, v: Vbuf)
    requires v.pktCnt == 0 && v.frameLen == 0 && v.status.STA_COPY?
    ensures Assembled(h, [], v)
  {
    assert Payloads(h, []) == [];
  }

  lemma PacketStep(h: seq<Event>, idx: seq<nat>, v: Vbuf, e: Event) returns (idx': seq<nat>)
    requires e.Packet? && Sane(v) && (Loaded(v) ==> Assembled(h, idx, v))
    ensures Loaded(Next(v, e)) ==> Assembled(h + [e], idx', Next(v, e))
  {
    hide Assembled, Take, Flatten;
    idx' := idx;
    if v.reading && (v.status == STA_COPY || v.status == STA_INIT) && |e.data| >= HDR {
      var w := Restart(v, e.data);
      var base := idx;
      if w != v {
        EmptyFrame(h, w);
        base := [];
      }
      idx' := base;
      if Wanted(w, e.data) {
        idx' := TakeStep(h, base, w, e);
      } else if Loaded(w) {
        AssembledGrow(h, e, base, w);
      }
    } else if Loaded(v) {
      AssembledGrow(h, e, idx, v);
    }
  }

  /** Over every interleaving of reads and packets, the buffer of a read in progress holds
      packets 1..pktCnt of one frame id, in arrival order, each exactly once. */
  lemma {:induction false} FrameOfRun(h: seq<Event>) returns (idx: seq<nat>)
    ensures Loaded(Run(h)) ==> Assembled(h, idx, Run(h))
    decreases |h|
  {
    idx := [];
    if h != [] {
      var g, e := h[..|h| - 1], h[|h| - 1];
      assert h == g + [e];
      var earlier := FrameOfRun(g);
      hide Assembled, Recv;
      if e.Packet? {
        idx := PacketStep(g, earlier, Run(g), e);
      } else if Loaded(Run(h)) {
        idx := earlier;
        AssembledGrow(g, e, idx, Run(g));
      }
    }
  }

  /** A read that returns error 0 returns a whole frame: its length is at most the buffer's,
      its bytes are packets 1..n of one id ending in the end-of-frame packet, and from seven
      bytes on it carries the start and end markers and its own length. */
  lemma GoodRead(h: seq<Event>, woken: bool) returns (idx: seq<nat>)
    requires Run(h).reading && Result(Run(h), woken).err == 0
    ensures var v, r := Run(h), Result(Run(h), woken);
            && r.len <= |v.buf| && Picks(h, idx, v.frameId) && idx != []
            && (forall j | idx[0] <= j < |h| :: !h[j].EndRead?)
            && v.buf[..r.len] == Flatten(Payloads(h, idx))
            && Eof(h[idx[|idx| - 1]].data) == 1
            && (r.len >= 7 ==>
                  && v.buf[0] == 0xFF && v.buf[1] == 0xD8
                  && v.buf[r.len - 7] == 0xFF && v.buf[r.len - 6] == 0xD9
                  && v.buf[r.len - 4] as int + 256 * (v.buf[r.len - 3] as int) +
                     65536 * (v.buf[r.len - 2] as int) + 16777216 * (v.buf[r.len - 1] as int) == r.len - 5)
  {
    hide RightImage;
    idx := FrameOfRun(h);
    MarkedExactly(Run(h).buf[..Run(h).frameLen], false);
  }

  // ---------------------------------------------------------------- producer to reader

  /** The header video_buffer_add_pkt_header writes when g_pkt_seq is `g`. */
  function Stamp(g: u32, frameId: u32, eof: bool, note: u32): seq<byte> {
    [ToByte(frameId), if eof then 1 else 0, ToByte(note), ToByte(Wrap32(g + 1))]
  }

  /** One frame cut into `chunks`, stamped packet by packet; the last one is end of frame. */
  function Produce(g: u32, frameId: u32, chunks: seq<seq<byte>>, note: u32): (r: seq<seq<byte>>)
    ensures |r| == |chunks|
    decreases |chunks|
  {
    if chunks == [] then []
    else
      var eof := |chunks| == 1;
      [Stamp(g, frameId, eof, note) + chunks[0]] +
      Produce(if eof then 0 else Wrap32(g + 1), frameId, chunks[1..], note)
  }

  lemma {:induction false} ProducedAt(g: u32, frameId: u32, chunks: seq<seq<byte>>, note: u32, k: nat)
    requires k < |chunks| && g + |chunks| < TWO32
    ensures var p := Produce(g, frameId, chunks, note)[k];
            && |p| == HDR + |chunks[k]| && Payload(p) == chunks[k]
            && Id(p) == ToByte(frameId) && SeqNo(p) == ToByte(g + k + 1) && p[2] == ToByte(note)
            && Eof(p) == if k == |chunks| - 1 then 1 else 0
    decreases |chunks|
  {
    hide ToByte;
    var eof := |chunks| == 1;
    assert Wrap32(g + 1) == g + 1;
    StampParts(g, frameId, eof, note, chunks[0]);
    if k > 0 {
      ProducedAt(g + 1, frameId, chunks[1..], note, k - 1);
      assert Produce(g, frameId, chunks, note)[k] == Produce(g + 1, frameId, chunks[1..], note)[k - 1];
    }
  }

  lemma StampParts(g: u32, frameId: u32, eof: bool, note: u32, chunk: seq<byte>)
    ensures var p := Stamp(g, frameId, eof, note) + chunk;
            && |p| == HDR + |chunk| && Payload(p) == chunk
            && Id(p) == ToByte(frameId) && SeqNo(p) == ToByte(Wrap32(g + 1)) && p[2] == ToByte(note)
            && Eof(p) == if eof then 1 else 0
  {
    hide ToByte, Wrap32;
    var p := Stamp(g, frameId, eof, note) + chunk;
    assert p[HDR..] == chunk;
  }

  function RecvAll(v: Vbuf, pkts: seq<seq<byte>>, stray: bool): (r: Vbuf)
    requires Sane(v)
    ensures Sane(r)
    decreases |pkts|
  {
    if pkts == [] then v
    else
      var u := RecvAll(v, pkts[..|pkts| - 1], stray);
      var e := Packet(pkts[|pkts| - 1], stray);
      NextSane(u, e);
      Next(u, e)
  }

  /** What the first `j` packets of a frame add to a reader that has `k` packets of its id:
      those from number k + 1 on, up to the last number that fits 8 bits. */
  function Gain(chunks: seq<seq<byte>>, k: nat, j: nat): seq<byte>
    requires j <= |chunks|
  {
    if k < j && k < 255 then Flatten(chunks[k..Min(j, 255)]) else []
  }

  /** The packet number a reader has reached after those. */
  function Reached(k: nat, j: nat): nat {
    if k < j && k < 255 then Min(j, 255) else k
  }

  /** `v` is waiting with packets of the id of the frame to come. */
  ghost predicate Holding(v: Vbuf, id: byte) {
    Sane(v) && v.reading && v.status.STA_COPY? && v.frameId == id
  }

  ghost predicate Room(v: Vbuf, chunks: seq<seq<byte>>, j: nat)
    requires j <= |chunks|
  {
    v.frameLen + |Gain(chunks, v.pktCnt, j)| <= |v.buf|
  }

  /** How the reader `v` stands as `w` after `j` packets, none of them a wanted last one. */
  ghost predicate Along(v: Vbuf, w: Vbuf, id: byte, chunks: seq<seq<byte>>, j: nat)
    requires j <= |chunks| && v.frameLen <= |v.buf|
  {
    if Room(v, chunks, j) then
      && Holding(w, id) && |w.buf| == |v.buf| && w.pktCnt == Reached(v.pktCnt, j)
      && w.frameLen == v.frameLen + |Gain(chunks, v.pktCnt, j)|
      && w.buf[..w.frameLen] == v.buf[..v.frameLen] + Gain(chunks, v.pktCnt, j)
    else
      w.status.STA_FULL?
  }

  /** Packet number j + 1 continues the frame. */
  predicate Continues(k: nat, j: nat) {
    k <= j < 255
  }

  lemma GainStep(chunks: seq<seq<byte>>, k: nat, j: nat)
    requires j < |chunks|
    ensures Gain(chunks, k, j + 1) == Gain(chunks, k, j) + if Continues(k, j) then chunks[j] else []
    ensures Reached(k, j + 1) == Reached(k, j) + Bit(Continues(k, j))
    ensures Continues(k, j) ==> Reached(k, j) == j
  {
    if Continues(k, j) {
      assert chunks[k..j + 1] == chunks[k..j] + [chunks[j]];
      FlattenSnoc(chunks[k..j], chunks[j]);
      if k == j {
        assert chunks[k..j] == [];
      }
    }
  }

  /** The 8-bit number matches the 32-bit count for exactly the continuing packets. */
  lemma WantedExactly(v: Vbuf, k: nat, j: nat, p: seq<byte>)
    requires |p| >= HDR && Id(p) == v.frameId && v.status.STA_COPY?
    requires SeqNo(p) == ToByte(j + 1) && v.pktCnt == Reached(k, j)
    ensures Restart(v, p) == v && (Wanted(v, p) <==> Continues(k, j))
  {
    if k <= j < 255 {
      assert ToByte(j + 1) == j + 1;
    } else if j < k < 255 {
      assert ToByte(j + 1) == j + 1;
    }
  }

  /** A packet that does not continue the frame, or comes too late, changes nothing. */
  lemma PassedBy(v: Vbuf, w: Vbuf, id: byte, chunks: seq<seq<byte>>, j: nat, p: seq<byte>, stray: bool)
    requires j < |chunks| && Sane(w) && v.frameLen <= |v.buf| && Along(v, w, id, chunks, j)
    requires |p| >= HDR && Id(p) == id && SeqNo(p) == ToByte(j + 1)
    requires !Continues(v.pktCnt, j) || !Room(v, chunks, j)
    ensures Recv(w, p, stray) == w && Along(v, w, id, chunks, j + 1)
  {
    hide Gain, Reached, Continues, ToByte;
    GainStep(chunks, v.pktCnt, j);
    if Room(v, chunks, j) {
      WantedExactly(w, v.pktCnt, j, p);
    }
  }

  /** A packet that continues the frame is appended if it fits, and judged if it is the last. */
  lemma TakenUp(v: Vbuf, w: Vbuf, id: byte, chunks: seq<seq<byte>>, j: nat, p: seq<byte>, stray: bool)
    requires j < |chunks| && v.frameLen <= |v.buf| && Along(v, w, id, chunks, j)
    requires |p| >= HDR && Id(p) == id && SeqNo(p) == ToByte(j + 1) && Payload(p) == chunks[j]
    requires Continues(v.pktCnt, j) && Room(v, chunks, j)
    ensures var x := Recv(w, p, stray);
            var all := v.buf[..v.frameLen] + Gain(chunks, v.pktCnt, j + 1);
            && (Eof(p) != 1 || !Room(v, chunks, j + 1) ==> Along(v, x, id, chunks, j + 1))
            && (Eof(p) == 1 && Room(v, chunks, j + 1) ==>
                  && |x.buf| == |v.buf| && x.frameLen == |all| && x.buf[..|all|] == all
                  && x.status == if RightImage(all, stray) then STA_GET else STA_ERR)
  {
    hide Gain, Reached, Continues, ToByte, RightImage;
    GainStep(chunks, v.pktCnt, j);
    WantedExactly(w, v.pktCnt, j, p);
    var n := w.frameLen + |Payload(p)|;
    if n <= |w.buf| {
      assert Overlay(w.buf, w.frameLen, Payload(p))[..n] == w.buf[..w.frameLen] + Payload(p);
    }
  }

  lemma RecvLast(v: Vbuf, pkts: seq<seq<byte>>, stray: bool, j: nat)
    requires Sane(v) && j < |pkts|
    ensures RecvAll(v, pkts[..j + 1], stray) == Recv(RecvAll(v, pkts[..j], stray), pkts[j], stray)
  {
    assert pkts[..j + 1][..j] == pkts[..j];
  }

  lemma {:induction false} FrameAlong(v: Vbuf, frameId: u32, chunks: seq<seq<byte>>, note: u32, stray: bool, j: nat)
    requires Holding(v, ToByte(frameId)) && j < |chunks| < TWO32
    ensures Along(v, RecvAll(v, Produce(0, frameId, chunks, note)[..j], stray), ToByte(frameId), chunks, j)
    decreases j
  {
    hide Along, Recv, ToByte, Continues;
    var pkts, id := Produce(0, frameId, chunks, note), ToByte(frameId);
    if j == 0 {
      assert pkts[..0] == [];
      NothingYet(v, id, chunks);
    } else {
      FrameAlong(v, frameId, chunks, note, stray, j - 1);
      ProducedAt(0, frameId, chunks, note, j - 1);
      RecvLast(v, pkts, stray, j - 1);
      var w := RecvAll(v, pkts[..j - 1], stray);
      if Continues(v.pktCnt, j - 1) && Room(v, chunks, j - 1) {
        TakenUp(v, w, id, chunks, j - 1, pkts[j - 1], stray);
      } else {
        PassedBy(v, w, id, chunks, j - 1, pkts[j - 1], stray);
      }
    }
  }

  lemma NothingYet(v: Vbuf, id: byte, chunks: seq<seq<byte>>)
    requires Holding(v, id)
    ensures Along(v, v, id, chunks, 0)
  {
  }

  /** A finished read returns exactly `f`. */
  ghost predicate Returns(w: Vbuf, f: seq<byte>) {
    Result(w, true).err == 0 && |f| <= |w.buf| && Result(w, true).len == |f| && w.buf[..|f|] == f
  }

  /** The code a read that ends in this state returns: the reader is woken exactly when its
      frame has been judged or does not fit, and times out otherwise. */
  function Code(w: Vbuf): int {
    Result(w, !w.status.STA_INIT? && !w.status.STA_COPY?).err
  }

  /** The image test on what a reader holds. */
  ghost predicate Accepted(f: seq<byte>, stray: bool) {
    if |f| < 7 then stray else WellMarked(f)
  }

  /** A reader that already holds packets of that id gets what it holds, followed by the
      packets it lacks, if and only if these are numbered, fit and make a marked frame; and
      with which code every other read ends. */
  lemma ResumedFrame(v: Vbuf, frameId: u32, chunks: seq<seq<byte>>, note: u32, stray: bool)
    requires Holding(v, ToByte(frameId)) && 0 < |chunks| < TWO32
    ensures var w, n := RecvAll(v, Produce(0, frameId, chunks, note), stray), |chunks|;
            var all := v.buf[..v.frameLen] + Gain(chunks, v.pktCnt, n);
            && (Result(w, true).err == 0 <==>
                  v.pktCnt < n <= 255 && |all| <= |v.buf| && Accepted(all, stray))
            && (Result(w, true).err == 0 ==> Returns(w, all))
            && Code(w) == (if |all| > |v.buf| then -2
                           else if !(v.pktCnt < n <= 255) then -5
                           else if Accepted(all, stray) then 0 else -3)
  {
    hide Along, Recv, Gain, RightImage, ToByte, Produce, WellMarked;
    MarkedExactly(v.buf[..v.frameLen] + Gain(chunks, v.pktCnt, |chunks|), stray);
    var n, pkts, id := |chunks|, Produce(0, frameId, chunks, note), ToByte(frameId);
    FrameAlong(v, frameId, chunks, note, stray, n - 1);
    ProducedAt(0, frameId, chunks, note, n - 1);
    RecvLast(v, pkts, stray, n - 1);
    assert pkts[..n] == pkts;
    var w := RecvAll(v, pkts[..n - 1], stray);
    GainStep(chunks, v.pktCnt, n - 1);
    if Continues(v.pktCnt, n - 1) && Room(v, chunks, n - 1) {
      TakenUp(v, w, id, chunks, n - 1, pkts[n - 1], stray);
    } else {
      PassedBy(v, w, id, chunks, n - 1, pkts[n - 1], stray);
    }
    if !(Continues(v.pktCnt, n - 1) && Room(v, chunks, n)) {
      NotReturned(v, RecvAll(v, pkts, stray), id, chunks, n);
    }
  }

  lemma NotReturned(v: Vbuf, w: Vbuf, id: byte, chunks: seq<seq<byte>>, j: nat)
    requires j <= |chunks| && v.frameLen <= |v.buf| && Along(v, w, id, chunks, j)
    ensures Result(w, true).err != 0 && Code(w) == if Room(v, chunks, j) then -5 else -2
  {
  }

  /** The state a new id puts a waiting reader into. */
  function Anew(v: Vbuf, id: byte): Vbuf {
    v.(frameId := id, frameLen := 0, pktCnt := 0, status := STA_COPY)
  }

  ghost predicate Waiting(v: Vbuf) {
    Sane(v) && v.reading && (v.status.STA_INIT? || v.status.STA_COPY?)
  }

  /** A frame with a new id is received as by a reader that has just started on it: whatever
      an abandoned frame has left behind is dropped. */
  lemma {:induction false} Resync(v: Vbuf, frameId: u32, chunks: seq<seq<byte>>, note: u32, stray: bool, j: nat)
    requires Waiting(v) && v.frameId != ToByte(frameId) && 0 < j <= |chunks| < TWO32
    ensures var pkts := Produce(0, frameId, chunks, note)[..j];
            RecvAll(v, pkts, stray) == RecvAll(Anew(v, ToByte(frameId)), pkts, stray)
    decreases j
  {
    hide Take, Produce;
    var pkts, u := Produce(0, frameId, chunks, note), Anew(v, ToByte(frameId));
    RecvLast(v, pkts, stray, j - 1);
    RecvLast(u, pkts, stray, j - 1);
    if j == 1 {
      ProducedAt(0, frameId, chunks, note, 0);
      assert pkts[..0] == [];
    } else {
      hide Recv;
      Resync(v, frameId, chunks, note, stray, j - 1);
    }
  }

  /** A frame with the last id seen is not taken up by a reader that holds nothing of it. */
  lemma {:induction false} StaleFrame(v: Vbuf, frameId: u32, chunks: seq<seq<byte>>, note: u32, stray: bool, k: nat)
    requires Sane(v) && v.status.STA_INIT? && v.frameId == ToByte(frameId)
    requires k <= |chunks| < TWO32
    ensures RecvAll(v, Produce(0, frameId, chunks, note)[..k], stray) == v
    decreases k
  {
    if k > 0 {
      var pkts := Produce(0, frameId, chunks, note);
      ProducedAt(0, frameId, chunks, note, k - 1);
      assert pkts[..k][..k - 1] == pkts[..k - 1] && pkts[..k][k - 1] == pkts[k - 1];
      StaleFrame(v, frameId, chunks, note, stray, k - 1);
    }
  }

  /** No frame is read twice: whatever has happened, a read that begins after the last one has
      ended is not served by packets of the id seen last. */
  lemma NotTwice(h: seq<Event>, buf: seq<byte>, frameId: u32, chunks: seq<seq<byte>>, note: u32, stray: bool)
    requires buf != [] && Run(h).frameId == ToByte(frameId) && |chunks| < TWO32
    ensures var w := RecvAll(Run(h + [EndRead, BeginRead(buf)]), Produce(0, frameId, chunks, note), stray);
            w.reading && w.buf == buf && Code(w) == -5
  {
    hide RecvAll, Produce, ToByte;
    var pkts, e, b := Produce(0, frameId, chunks, note), EndRead, BeginRead(buf);
    assert (h + [e])[..|h|] == h && (h + [e, b])[..|h| + 1] == h + [e];
    assert Run(h + [e]) == End(Run(h)) && Run(h + [e, b]) == Begin(End(Run(h)), buf);
    assert pkts[..|chunks|] == pkts;
    StaleFrame(Run(h + [e, b]), frameId, chunks, note, stray, |chunks|);
  }

  /** How many packets of the frame a waiting reader takes itself to have already. */
  function Already(v: Vbuf, id: byte): nat {
    if id != v.frameId then 0 else v.pktCnt
  }

  /** What a waiting reader will hold when the whole frame has come in. */
  ghost function Outcome(v: Vbuf, id: byte, chunks: seq<seq<byte>>): seq<byte>
    requires Waiting(v)
  {
    if id != v.frameId then Gain(chunks, 0, |chunks|)
    else if v.status.STA_COPY? then v.buf[..v.frameLen] + Gain(chunks, v.pktCnt, |chunks|)
    else []
  }

  /** Every frame of every producer to every waiting reader, in the middle of a frame or not:
      the read succeeds exactly when the frame has at most 255 packets, the reader starts on
      it or lacks some of it, and what it then holds fits and is a marked image; otherwise it
      ends with -2 if that does not fit, -3 if it is complete but not marked, and in a timeout
      if the reader never gets to the last packet. */
  lemma RoundTrip(v: Vbuf, frameId: u32, chunks: seq<seq<byte>>, note: u32, stray: bool)
    requires Waiting(v) && 0 < |chunks| < TWO32
    ensures var w, id := RecvAll(v, Produce(0, frameId, chunks, note), stray), ToByte(frameId);
            var all := Outcome(v, id, chunks);
            && (Result(w, true).err == 0 <==>
                  && (id != v.frameId || v.status.STA_COPY?)
                  && Already(v, id) < |chunks| <= 255 && |all| <= |v.buf| && Accepted(all, stray))
            && (Result(w, true).err == 0 ==> Returns(w, all))
            && Code(w) == (if id == v.frameId && v.status.STA_INIT? then -5
                           else if |all| > |v.buf| then -2
                           else if !(Already(v, id) < |chunks| <= 255) then -5
                           else if Accepted(all, stray) then 0 else -3)
  {
    hide Recv, Gain, RightImage, ToByte, Produce, Returns, WellMarked;
    var pkts, id := Produce(0, frameId, chunks, note), ToByte(frameId);
    assert pkts[..|chunks|] == pkts;
    if id != v.frameId {
      Resync(v, frameId, chunks, note, stray, |chunks|);
      ResumedFrame(Anew(v, id), frameId, chunks, note, stray);
      assert [] + Gain(chunks, 0, |chunks|) == Gain(chunks, 0, |chunks|);
    } else if v.status.STA_COPY? {
      ResumedFrame(v, frameId, chunks, note, stray);
    } else {
      StaleFrame(v, frameId, chunks, note, stray, |chunks|);
    }
  }

  /** A well-marked frame that fits reaches a waiting reader byte for byte if and only if it
      has at most 255 packets and either its id is new to the reader or the reader is in the
      middle of a frame of that id and holds exactly the first packets of this one. */
  lemma FrameDelivered(v: Vbuf, frameId: u32, chunks: seq<seq<byte>>, note: u32)
    requires Waiting(v) && 0 < |chunks| < TWO32
    requires |Flatten(chunks)| <= |v.buf|
    requires var f := Flatten(chunks);
             && |f| >= 7 && f[0] == 0xFF && f[1] == 0xD8 && f[|f| - 7] == 0xFF && f[|f| - 6] == 0xD9
             && f[|f| - 4] as int + 256 * (f[|f| - 3] as int) + 65536 * (f[|f| - 2] as int) +
                16777216 * (f[|f| - 1] as int) == |f| - 5
    ensures var w, k := RecvAll(v, Produce(0, frameId, chunks, note), false), v.pktCnt;
            Returns(w, Flatten(chunks)) <==>
              && |chunks| <= 255
              && (ToByte(frameId) != v.frameId ||
                  (v.status.STA_COPY? && k < |chunks| && v.buf[..v.frameLen] == Flatten(chunks[..k])))
  {
    hide RightImage, ToByte, Produce, Flatten, RecvAll;
    var w, n, k := RecvAll(v, Produce(0, frameId, chunks, note), false), |chunks|, v.pktCnt;
    RoundTrip(v, frameId, chunks, note, false);
    assert chunks[0..n] == chunks;
    if ToByte(frameId) == v.frameId && v.status.STA_COPY? && k < n <= 255 {
      assert chunks[..k] + chunks[k..n] == chunks;
      FlattenAppend(chunks[..k], chunks[k..n]);
      SamePrefix(v.buf[..v.frameLen], Flatten(chunks[..k]), Flatten(chunks[k..n]));
    }
  }

  /** The id after opening is none a packet can carry: whatever its id, the first frame is
      delivered to the first reader if and only if it has at most 255 packets. */
  lemma FirstFrame(buf: seq<byte>, frameId: u32, chunks: seq<seq<byte>>, note: u32)
    requires 0 < |chunks| < TWO32 && |Flatten(chunks)| <= |buf| && WellMarked(Flatten(chunks))
    ensures Returns(RecvAll(Run([BeginRead(buf)]), Produce(0, frameId, chunks, note), false), Flatten(chunks)) <==>
            |chunks| <= 255
  {
    hide Returns, RecvAll, Produce, Flatten;
    var b := BeginRead(buf);
    assert [b][..0] == [] && Run([b]) == Begin(Opened, buf);
    FrameDelivered(Run([b]), frameId, chunks, note);
  }

  // ---------------------------------------------------------------- packets of no concern

  /** Packets that neither belong to the frame with this id nor start another: too short for
      a header, or with another id and not number 1. */
  predicate Noise(p: seq<byte>, id: byte) {
    |p| < 4 || (p[0] != id && p[3] != 1)
  }

  function Quiet(pkts: seq<seq<byte>>, id: byte): seq<seq<byte>>
    decreases |pkts|
  {
    if pkts == [] then []
    else
      var q, p := Quiet(pkts[..|pkts| - 1], id), pkts[|pkts| - 1];
      if Noise(p, id) then q else q + [p]
  }

  /** A reader that has started on a frame stays with its id through packets of that frame
      and noise, and noise leaves no trace. */
  lemma {:induction false} NoisePasses(v: Vbuf, pkts: seq<seq<byte>>, id: byte, stray: bool)
    requires Sane(v) && v.reading && v.frameId == id && !v.status.STA_INIT?
    requires forall i | 0 <= i < |pkts| :: Noise(pkts[i], id) || (|pkts[i]| >= 4 && pkts[i][0] == id)
    ensures var w := RecvAll(v, pkts, stray);
            w == RecvAll(v, Quiet(pkts, id), stray) && w.reading && w.frameId == id && !w.status.STA_INIT?
    decreases |pkts|
  {
    hide Recv, Noise;
    if pkts != [] {
      var prev, p := pkts[..|pkts| - 1], pkts[|pkts| - 1];
      NoisePasses(v, prev, id, stray);
      StaysWith(RecvAll(v, prev, stray), p, id, stray);
      if !Noise(p, id) {
        assert (Quiet(prev, id) + [p])[..|Quiet(prev, id)|] == Quiet(prev, id);
      }
    }
  }

  lemma StaysWith(w: Vbuf, p: seq<byte>, id: byte, stray: bool)
    requires Sane(w) && w.reading && w.frameId == id && !w.status.STA_INIT?
    requires Noise(p, id) || (|p| >= 4 && p[0] == id)
    ensures var x := Recv(w, p, stray); x.reading && x.frameId == id && !x.status.STA_INIT?
    ensures Noise(p, id) ==> Recv(w, p, stray) == w
  {
    hide RightImage;
  }

  /** A frame that starts with its own first packet reaches a waiting reader through any noise
      between its packets as it would without. */
  lemma NoisyFrame(v: Vbuf, pkts: seq<seq<byte>>, frameId: u32, chunks: seq<seq<byte>>, note: u32, stray: bool)
    requires Waiting(v) && v.frameId != ToByte(frameId) && 0 < |chunks| < TWO32
    requires pkts != [] && Quiet(pkts, ToByte(frameId)) == Produce(0, frameId, chunks, note)
    requires pkts[0] == Produce(0, frameId, chunks, note)[0]
    ensures RecvAll(v, pkts, stray) == RecvAll(v, Produce(0, frameId, chunks, note), stray)
  {
    hide Produce, ToByte, Quiet, RecvAll, RightImage;
    var clean, id := Produce(0, frameId, chunks, note), ToByte(frameId);
    ProducedAt(0, frameId, chunks, note, 0);
    assert ToByte(1) == 1 by { OneByte(); }
    var w := Recv(v, clean[0], stray);
    assert w.reading && w.frameId == id && !w.status.STA_INIT?;
    assert Sane(w) by { NextSane(v, Packet(clean[0], stray)); }
    forall i | 0 <= i < |pkts[1..]|
      ensures Noise(pkts[1..][i], id) || (|pkts[1..][i]| >= 4 && pkts[1..][i][0] == id)
    {
      if !Noise(pkts[i + 1], id) {
        QuietMember(pkts, id, i + 1);
        var j :| 0 <= j < |clean| && clean[j] == pkts[i + 1];
        ProducedAt(0, frameId, chunks, note, j);
      }
    }
    RecvFirst(v, pkts, stray);
    RecvFirst(v, clean, stray);
    NoisePasses(w, pkts[1..], id, stray);
    QuietTail(pkts, id);
  }

  lemma OneByte()
    ensures ToByte(1) == 1
  {
  }

  lemma {:induction false} QuietMember(pkts: seq<seq<byte>>, id: byte, i: nat)
    requires i < |pkts| && !Noise(pkts[i], id)
    ensures pkts[i] in Quiet(pkts, id)
    decreases |pkts|
  {
    if i < |pkts| - 1 {
      QuietMember(pkts[..|pkts| - 1], id, i);
    }
  }

  lemma {:induction false} QuietTail(pkts: seq<seq<byte>>, id: byte)
    requires pkts != [] && !Noise(pkts[0], id)
    ensures Quiet(pkts, id) == [pkts[0]] + Quiet(pkts[1..], id)
    decreases |pkts|
  {
    var prev := pkts[..|pkts| - 1];
    if prev != [] {
      QuietTail(prev, id);
      assert prev[1..] == pkts[1..][..|pkts| - 2];
    }
  }

  lemma {:induction false} RecvFirst(v: Vbuf, pkts: seq<seq<byte>>, stray: bool)
    requires Sane(v) && pkts != [] && Sane(Recv(v, pkts[0], stray))
    ensures RecvAll(v, pkts, stray) == RecvAll(Recv(v, pkts[0], stray), pkts[1..], stray)
    decreases |pkts|
  {
    hide Recv;
    var prev := pkts[..|pkts| - 1];
    if prev != [] {
      RecvFirst(v, prev, stray);
      assert prev[1..] == pkts[1..][..|pkts| - 2];
    }
  }

  lemma SamePrefix(a: seq<byte>, b: seq<byte>, c: seq<byte>)
    ensures a + c == b + c <==> a == b
  {
    if a + c == b + c {
      assert (a + c)[..|a|] == a && (b + c)[..|b|] == b;
    }
  }

  /** A reader in the middle of one frame meets another with the same id: the read succeeds
      and returns a mixture of the two. */
  lemma MixedFrame()
    ensures var first: seq<seq<byte>> := [[0xFF, 0xD8, 1], []];
            var second: seq<seq<byte>> := [[0xFF, 0xD8, 2], [0xFF, 0xD9, 0, 5, 0, 0, 0]];
            var h := [BeginRead(seq(16, _ => 0)), Packet(Produce(0, 7, first, 0)[0], false)];
            var w := RecvAll(Run(h), Produce(0, 7, second, 0), false);
            Returns(w, first[0] + second[1]) && first[0] != second[0]
  {
    hide RecvAll, RightImage, Flatten, Gain;
    var first: seq<seq<byte>> := [[0xFF, 0xD8, 1], []];
    var second: seq<seq<byte>> := [[0xFF, 0xD8, 2], [0xFF, 0xD9, 0, 5, 0, 0, 0]];
    var v := Midway(first[0]);
    ResumedFrame(v, 7, second, 0, false);
    hide Produce, Run;
    assert Gain(second, 1, 2) == second[1] by { GainOfSecond(second); }
    MarkedTen(first[0] + second[1]);
  }

  lemma GainOfSecond(chunks: seq<seq<byte>>)
    requires |chunks| == 2
    ensures Gain(chunks, 1, 2) == chunks[1]
  {
    assert chunks[1..2] == [chunks[1]];
    assert Flatten([chunks[1]]) == chunks[1] + Flatten([]);
  }

  lemma MarkedTen(f: seq<byte>)
    requires f == [0xFF, 0xD8, 1, 0xFF, 0xD9, 0, 5, 0, 0, 0]
    ensures WellMarked(f)
  {
  }

  /** A 16-byte read that has taken the first of at least two packets with id 7. */
  lemma Midway(chunk: seq<byte>) returns (v: Vbuf)
    requires |chunk| == 3
    ensures v == Run([BeginRead(seq(16, _ => 0)), Packet(Produce(0, 7, [chunk, []], 0)[0], false)])
    ensures Holding(v, 7) && v.pktCnt == 1 && v.frameLen == 3 && |v.buf| == 16 && v.buf[..3] == chunk
  {
    var p := Produce(0, 7, [chunk, []], 0)[0];
    ProducedAt(0, 7, [chunk, []], 0, 0);
    var b, e := BeginRead(seq(16, _ => 0)), Packet(p, false);
    assert [b, e][..1] == [b] && [b][..0] == [];
    assert Run([b]) == Begin(Opened, b.buf);
    v := Run([b, e]);
    assert v == Recv(Run([b]), p, false);
  }

  // ---------------------------------------------------------------- the code

  class Receiver {
    var base: array?<byte>     // buf_base
    var frameId: u32
    var pktCnt: u32
    var ptr: nat               // buf_ptr, as an offset into the reader's buffer
    var frameLen: nat
    var startBuf: Status
    var pktSeq: u32            // g_pkt_seq

    ghost function State(): Vbuf
      reads this, base
    {
      Vbuf(base != null, if base == null then [] else base[..], frameId, pktCnt, frameLen, startBuf)
    }

    ghost predicate Valid()
      reads this, base
    {
      && Sane(State())
      && (base != null && startBuf.STA_COPY? ==> ptr == frameLen)
    }

    /** video_buffer_open */
    constructor ()
      ensures Valid() && State() == Opened && pktSeq == 0
    {
      base, frameId, pktCnt, ptr, frameLen, startBuf, pktSeq := null, 0xFFFF, 0, 0, 0, STA_INIT, 0;
    }

    /** video_buffer_add_pkt_header */
    method AddPktHeader(id: u32, eof: bool, note: u32) returns (hdr: seq<byte>)
      modifies this`pktSeq
      ensures hdr == Stamp(old(pktSeq), id, eof, note)
      ensures pktSeq == if eof then 0 else Wrap32(old(pktSeq) + 1)
    {
      pktSeq := Wrap32(pktSeq + 1);
      hdr := [ToByte(id), if eof then 1 else 0, ToByte(note), ToByte(pktSeq)];
      if eof {
        pktSeq := 0;
      }
    }

    /** The copying branch of video_buffer_recv_video_data. */
    method CopyPacket(p: seq<byte>, stray: bool)
      requires Valid() && base != null && startBuf.STA_COPY? && |p| >= HDR
      modifies this`pktCnt, this`ptr, this`frameLen, this`startBuf, base
      ensures Valid() && State() == Take(old(State()), p, stray)
    {
      hide RightImage;
      var payload := p[HDR..];
      var left := base.Length - frameLen;
      if |payload| <= left {
        Copy(base, ptr, payload);
        frameLen := frameLen + |payload|;
        ptr := ptr + |payload|;
        pktCnt := Wrap32(pktCnt + 1);
        if p[1] == 1 {
          startBuf := if RightImage(base[..frameLen], stray) then STA_GET else STA_ERR;
          assert base[..][..frameLen] == base[..frameLen];
        }
      } else {
        startBuf := STA_FULL;
      }
    }

    /** video_buffer_recv_video_data */
    method RecvVideoData(p: seq<byte>, stray: bool)
      requires Valid()
      modifies this, base
      ensures Valid() && State() == Recv(old(State()), p, stray) && pktSeq == old(pktSeq)
    {
      hide Take;
      if base == null || !(startBuf == STA_COPY || startBuf == STA_INIT) || |p| < HDR {
        return;
      }
      if p[0] != frameId && p[3] == 1 {
        frameId, frameLen, pktCnt, ptr, startBuf := p[0], 0, 0, 0, STA_COPY;
      }
      if p[0] == frameId && pktCnt + 1 == p[3] && startBuf == STA_COPY {
        CopyPacket(p, stray);
      }
    }

    /** video_buffer_read_frame up to the wait */
    method BeginRead(buf: array<byte>) returns (err: int)
      requires Valid()
      modifies this`base
      ensures Valid() && State() == Begin(old(State()), buf[..])
      ensures err == if buf.Length == 0 then -1 else if old(base) != null then -5 else 0
    {
      if buf.Length == 0 { return -1; }
      if base != null { return -5; }
      base := buf;
      err := 0;
    }

    /** video_buffer_read_frame from the wait on, for the reader that waits */
    method EndRead(woken: bool) returns (r: ReadResult)
      requires Valid() && base != null
      modifies this`base, this`startBuf
      ensures Valid() && State() == End(old(State())) && r == Result(old(State()), woken)
      ensures r.err == if !woken then -5 else match old(startBuf)
                                              case STA_GET => 0
                                              case STA_FULL => -2
                                              case STA_ERR => -3
                                              case _ => -4
    {
      var len, err := 0, -5;
      if woken {
        match startBuf {
          case STA_GET => len, err := frameLen, 0;
          case STA_FULL => err := -2;
          case STA_ERR => err := -3;
          case _ => err := -4;
        }
      }
      if len >= base.Length {
        len := base.Length;
      }
      startBuf, base := STA_INIT, null;
      r := ReadResult(err, len);
    }
  }
}
