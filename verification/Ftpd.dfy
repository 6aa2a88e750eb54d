/** The sending half of the FTP daemon: RETR and LIST/NLST transfers driven by TCP
    callbacks, over the queue of module Sfifo. */
module Ftpd {
  import opened Bytes
  import Sfifo

  /** fsm->state, as far as sending is concerned. */
  datatype Job = FTPD_IDLE | FTPD_RETR | FTPD_LIST

  /** What the environment decides during one callback: free send buffer and success of
      tcp_write on the data connection, bytes vfs_read grants, whether vfs_eof reports the
      end once it is reached, and the same for the control connection. */
  datatype Choice = Choice(sndbuf: u16, ok1: bool, ok2: bool, granted: nat, eof: bool,
                           ctrlSndbuf: u16, ctrlOk1: bool, ctrlOk2: bool)

  datatype Event =
    | Connected(c: Choice)   // ftpd_dataconnected
    | DataSent(c: Choice)    // ftpd_datasent
    | Poll(c: Choice)        // ftpd_msgpoll
    | MsgSent(c: Choice)     // ftpd_msgsent: the control connection has room again

  const READ_MAX: nat := 2048
  const FIFO_REQUEST: nat := 2000
  const CAPACITY: nat := 2047
  const LINE_MAX: nat := 1024   // the buffer sprintf formats a directory line into

  function Ascii(s: string): seq<byte> {
    seq(|s|, i requires 0 <= i < |s| => s[i] as int % 256)
  }

  const MSG200: seq<byte> := Ascii("200 Command okay.\r\n")
  const MSG226: seq<byte> := Ascii("226 Closing data connection.\r\n")

  /** An environment that stands in nobody's way. */
  predicate Favourable(c: Choice) {
    c.sndbuf >= READ_MAX && c.ok1 && c.ok2 && c.granted >= READ_MAX && c.eof
  }

  /** The control connection takes all that a queue can hold. */
  predicate Taken(c: Choice) {
    c.ctrlSndbuf >= CAPACITY && c.ctrlOk1 && c.ctrlOk2
  }

  /** Pieces of at most `size` bytes that `n` bytes are cut into. */
  function Pieces(n: int, size: nat): nat
    requires 0 < size
  {
    if n <= 0 then 0 else (n + size - 1) / size
  }

  /** A connection is made and nothing goes wrong on it. */
  ghost predicate Calm(events: seq<Event>) {
    && events != [] && events[0].Connected?
    && forall i | 0 <= i < |events| :: Favourable(events[i].c)
  }

  /** Callbacks of the data transfer. */
  ghost function Callbacks(events: seq<Event>): nat {
    if events == [] then 0 else Callbacks(events[..|events| - 1]) + Bit(!events[|events| - 1].MsgSent?)
  }

  /** The control connection makes no progress of its own. */
  ghost predicate Quiet(events: seq<Event>) {
    forall e | e in events :: !e.MsgSent?
  }

  /** One TCP connection's send side: queue and bytes TCP has accepted. */
  class Channel {
    const fifo: Sfifo.Fifo
    var wire: seq<byte>            // accepted by TCP
    ghost var total: seq<byte>     // ever queued

    /** Nothing is lost, repeated or reordered on the way to TCP. */
    ghost predicate Valid()
      reads this, fifo, fifo.buffer
    {
      fifo.Valid() && fifo.size == CAPACITY + 1 && wire + fifo.Contents() == total
    }

    constructor ()
      ensures Valid() && wire == [] && total == [] && fresh(fifo) && fresh(fifo.buffer)
    {
      fifo := new Sfifo.Fifo(FIFO_REQUEST);
      wire, total := [], [];
      new;
      SizeFor2000(fifo.size);
    }

    /** The queue holds what TCP has not accepted yet. */
    lemma Behind()
      requires Valid()
      ensures wire <= total && |fifo.Contents()| == |total| - |wire| <= CAPACITY
    {
    }

    method Used() returns (n: nat)
      requires Valid()
      ensures n == |total| - |wire| <= CAPACITY
    {
      Behind();
      n := fifo.Used();
    }

    method Space() returns (n: nat)
      requires Valid()
      ensures n == CAPACITY - (|total| - |wire|)
    {
      Behind();
      n := fifo.Space();
    }

    method Write(buf: seq<byte>)
      requires Valid() && |total| - |wire| + |buf| <= CAPACITY
      modifies this`total, fifo`writepos, fifo.buffer
      ensures Valid() && total == old(total) + buf
    {
      hide Sfifo.Fifo.Contents;
      Behind();
      ghost var q := fifo.Contents();
      var n := fifo.Write(buf);
      assert buf[..n] == buf;
      total := total + buf;
      assert wire + (q + buf) == (wire + q) + buf;
    }

    /** send_data and send_msgdata */
    method Send(sndbuf: u16, ok1: bool, ok2: bool)
      requires Valid()
      modifies this`wire, fifo`readpos
      ensures Valid() && old(wire) <= wire <= total
      ensures |wire| == |old(wire)| +
                Sfifo.Accepted(old(fifo.readpos), Min(sndbuf, |total| - |old(wire)|), CAPACITY + 1, ok1, ok2)
      ensures ok1 && ok2 ==> |wire| == |old(wire)| + Min(sndbuf, |total| - |old(wire)|)
      ensures sndbuf >= CAPACITY && ok1 && ok2 ==> wire == total
      ensures sndbuf == 0 ==> wire == old(wire)
    {
      hide Sfifo.Fifo.Contents;
      Behind();
      ghost var q := fifo.Contents();
      var sent := fifo.Drain(sndbuf, ok1, ok2);
      assert wire + (sent + fifo.Contents()) == (wire + sent) + fifo.Contents();
      wire := wire + sent;
      Behind();
    }
  }

  class Session {
    const file: seq<byte>          // RETR: the file
    const lines: seq<seq<byte>>    // LIST: the formatted directory entries
    const job: Job
    const data: Channel
    const ctrl: Channel

    var state: Job
    var attached: bool             // fsm->datafs != NULL
    var connected: bool
    var open: bool                 // fsd->vfs_file != NULL
    var pos: nat                   // bytes read from the file
    var next: nat                  // directory entries read
    var held: bool                 // fsd->vfs_dirent != NULL

    ghost const repr: set<object>
    ghost const ctrlRepr: set<object>

    ghost predicate Valid()
      reads this, repr, ctrlRepr
    {
      && data in repr && data.fifo in repr && data.fifo.buffer in repr
      && ctrl in ctrlRepr && ctrl.fifo in ctrlRepr && ctrl.fifo.buffer in ctrlRepr
      && repr !! ctrlRepr && this !in repr && this !in ctrlRepr
      && data.Valid() && ctrl.Valid()
      && pos <= |file| && next <= |lines| && (held ==> next > 0)
      && (job.FTPD_RETR? || job.FTPD_LIST?)
      && (attached ==> state == job)
      && forall i | 0 <= i < |lines| :: |lines[i]| < LINE_MAX
    }

    /** What the transfer has taken from its source so far. */
    ghost function Produced(): seq<byte>
      requires Valid()
      reads this, repr, ctrlRepr
    {
      if job.FTPD_RETR? then file[..pos] else Flatten(lines[..if held then next - 1 else next])
    }

    ghost function Whole(): seq<byte> {
      if job.FTPD_RETR? then file else Flatten(lines)
    }

    /** Nothing is lost, repeated or reordered between the source and TCP, and a transfer
        is given up only when TCP has taken all of it. */
    ghost predicate Conserved()
      requires Valid()
      reads this, repr, ctrlRepr
    {
      && data.total == Produced()
      && (job.FTPD_RETR? && !open ==> pos == |file|)
      && (!attached ==> data.wire == Whole())
    }

    /** Callbacks a favourable environment still has to make: one for each read of what is
        left, one to empty the queue, one to notice the end of a file, one to finish. */
    ghost function Work(): nat
      requires Valid()
      reads this, repr, ctrlRepr
    {
      var left := |Whole()| - |data.total|;
      if !attached then 0
      else 1 + Bit(data.wire != data.total) +
           (if job.FTPD_RETR? then Bit(open) + Pieces(left, 2047) else Pieces(left, 1024))
    }

    /** The control queue has room for reply 226. */
    ghost predicate HasRoom()
      reads ctrl
    {
      |ctrl.total| - |ctrl.wire| + |MSG226| <= CAPACITY
    }

    /** All replies once 226 has been offered: it is queued if there is room for it. */
    ghost function With226(): seq<byte>
      reads ctrl
    {
      if HasRoom() then ctrl.total + MSG226 else ctrl.total
    }

    /** open_dataconnection and the tail of cmd_retr or cmd_list_common, on a control
        connection that has carried replies before. */
    constructor (job: Job, file: seq<byte>, lines: seq<seq<byte>>, ctrl: Channel)
      requires job.FTPD_RETR? || job.FTPD_LIST?
      requires forall i | 0 <= i < |lines| :: |lines[i]| < LINE_MAX
      requires ctrl.Valid()
      ensures Valid() && Conserved() && fresh(repr)
      ensures this.ctrl == ctrl && ctrlRepr == {ctrl, ctrl.fifo, ctrl.fifo.buffer}
      ensures this.job == job && this.file == file && this.lines == lines
      ensures attached && !connected && data.wire == []
    {
      this.job, this.file, this.lines, this.ctrl := job, file, lines, ctrl;
      var d := new Channel();
      data := d;
      repr := {d as object, d.fifo as object, d.fifo.buffer as object};
      ctrlRepr := {ctrl as object, ctrl.fifo as object, ctrl.fifo.buffer as object};
      state, attached, connected, open := job, true, false, job.FTPD_RETR?;
      pos, next, held := 0, 0, false;
      new;
      assert lines[..0] == [];
    }

    /** send_msg: dropped when the control queue has no room for all of it, otherwise offered
        to TCP at once behind all that is queued. */
    method SendMsg(msg: seq<byte>, c: Choice)
      requires Valid()
      modifies ctrlRepr
      ensures Valid() && old(ctrl.wire) <= ctrl.wire
      ensures old(|ctrl.total| - |ctrl.wire|) + |msg| > CAPACITY ==> ctrl.wire == old(ctrl.wire)
      ensures old(|ctrl.total| - |ctrl.wire|) + |msg| <= CAPACITY && c.ctrlOk1 && c.ctrlOk2 ==>
                |ctrl.wire| == |old(ctrl.wire)| + Min(c.ctrlSndbuf, |ctrl.total| - |old(ctrl.wire)|)
      ensures old(|ctrl.total| - |ctrl.wire|) + |msg| <= CAPACITY && Taken(c) ==> ctrl.wire == ctrl.total
      ensures ctrl.total == if old(|ctrl.total| - |ctrl.wire|) + |msg| <= CAPACITY then old(ctrl.total) + msg else old(ctrl.total)
      ensures c.ctrlSndbuf == 0 ==> ctrl.wire == old(ctrl.wire)
    {
      var space := ctrl.Space();
      if space < |msg| { return; }
      ctrl.Write(msg);
      ctrl.Send(c.ctrlSndbuf, c.ctrlOk1, c.ctrlOk2);
    }

    /** `n` commands answered by msg200, as cmd_noop does, while the control connection takes
        nothing. */
    method Noops(n: nat, c: Choice)
      requires Valid() && c.ctrlSndbuf == 0 && |ctrl.total| - |ctrl.wire| + |MSG200| * n <= CAPACITY
      modifies ctrlRepr
      ensures Valid() && ctrl.wire == old(ctrl.wire)
      ensures ctrl.total == old(ctrl.total) + Flatten(seq(n, _ => MSG200))
      ensures |ctrl.total| == old(|ctrl.total|) + |MSG200| * n
    {
      hide Channel.Valid, Flatten;
      assert Flatten(seq(0, _ => MSG200)) == [] by { FlattenNone(); }
      for k := 0 to n
        invariant Valid() && ctrl.wire == old(ctrl.wire)
        invariant ctrl.total == old(ctrl.total) + Flatten(seq(k, _ => MSG200))
        invariant |ctrl.total| == old(|ctrl.total|) + |MSG200| * k
      {
        assert |MSG200| * (k + 1) <= |MSG200| * n;
        SendMsg(MSG200, c);
        FlattenSnoc(seq(k, _ => MSG200), MSG200);
        assert seq(k, _ => MSG200) + [MSG200] == seq(k + 1, _ => MSG200);
      }
    }

    /** The closing steps shared by send_file and send_next_directory. */
    method Finish(c: Choice)
      requires Valid() && Conserved() && data.wire == Whole()
      modifies this`attached, this`state, ctrlRepr
      ensures Valid() && Conserved() && !attached
      ensures ctrl.total == old(With226()) && old(ctrl.wire) <= ctrl.wire
      ensures old(HasRoom()) && Taken(c) ==> ctrl.wire == ctrl.total
    {
      attached, state := false, FTPD_IDLE;
      SendMsg(MSG226, c);
    }

    /** send_data, as far as a session sees it. */
    method SendData(c: Choice)
      requires Valid() && Conserved() && attached
      modifies repr
      ensures Valid() && Conserved() && old(data.wire) <= data.wire
      ensures data.total == old(data.total)
      ensures c.ok1 && c.ok2 ==> |data.wire| == |old(data.wire)| + Min(c.sndbuf, |data.total| - |old(data.wire)|)
      ensures Favourable(c) ==> data.wire == data.total
    {
      hide Channel.Valid, Flatten;
      data.Send(c.sndbuf, c.ok1, c.ok2);
    }

    /** What a callback reads: as much as the queue and the buffer take and the file grants. */
    ghost function Chunk(c: Choice): nat
      requires Valid()
      reads this, repr, ctrlRepr
    {
      data.Behind();
      Min(c.granted, Min(Min(CAPACITY - (|data.total| - |data.wire|), READ_MAX), |file| - pos))
    }

    /** The branch of send_file that still reads. */
    method FeedFile(c: Choice)
      requires Valid() && Conserved() && attached && job.FTPD_RETR? && open
      modifies this`open, this`pos, repr
      ensures Valid() && Conserved() && old(data.wire) <= data.wire
      ensures pos == old(pos) + old(Chunk(c))
      ensures var idle := old(|data.total| - |data.wire| < CAPACITY && Chunk(c) == 0);
              && (open <==> !(idle && c.eof && pos == |file|))
              && (idle ==> data.wire == old(data.wire))
              && (!idle && c.ok1 && c.ok2 ==>
                    |data.wire| == |old(data.wire)| + Min(c.sndbuf, |data.total| - |old(data.wire)|))
      ensures Favourable(c) ==> Work() < old(Work())
      ensures Favourable(c) && old(data.wire == data.total) ==> data.wire == data.total && Work() == old(Work()) - 1
    {
      hide Channel.Valid, Flatten;
      data.Behind();
      var len := data.Space();
      if len == 0 {
        SendData(c);
        return;
      }
      if len > READ_MAX {
        len := READ_MAX;
      }
      len := Min(c.granted, Min(len, |file| - pos));   // vfs_read
      if len == 0 {
        if c.eof && pos == |file| {                    // vfs_eof
          open := false;
        }
        return;
      }
      ReadChunk(len);
      SendData(c);
    }

    /** `len` bytes from the file into the queue. */
    method ReadChunk(len: nat)
      requires Valid() && Conserved() && attached && job.FTPD_RETR? && open
      requires len <= |file| - pos && |data.total| - |data.wire| + len <= CAPACITY
      modifies this`pos, repr
      ensures Valid() && Conserved() && pos == old(pos) + len && data.wire == old(data.wire)
    {
      hide Channel.Valid, Flatten;
      data.Write(file[pos..pos + len]);
      assert file[..pos + len] == file[..pos] + file[pos..pos + len];
      pos := pos + len;
    }

    /** send_file */
    method SendFile(c: Choice)
      requires Valid() && Conserved() && attached && job.FTPD_RETR?
      modifies this`open, this`pos, this`attached, this`state, repr, ctrlRepr
      ensures Valid() && Conserved() && old(data.wire) <= data.wire
      ensures attached ==> ctrl.total == old(ctrl.total) && ctrl.wire == old(ctrl.wire)
      ensures !attached ==> ctrl.total == old(With226()) && old(ctrl.wire) <= ctrl.wire
      ensures !attached && old(HasRoom()) && Taken(c) ==> ctrl.wire == ctrl.total
      ensures connected && Favourable(c) ==> Work() < old(Work())
      ensures connected && Favourable(c) && old(data.wire == data.total) ==>
                data.wire == data.total && Work() == old(Work()) - 1
    {
      hide Channel.Valid, Flatten;
      if !connected { return; }
      if open {
        FeedFile(c);
        return;
      }
      var used := data.Used();
      if used > 0 {
        SendData(c);
        return;
      }
      data.Behind();
      assert file[..pos] == file;
      Finish(c);
    }

    /** One directory line into the queue. */
    method WriteLine()
      requires Valid() && Conserved() && attached && job.FTPD_LIST? && held
      requires |data.total| - |data.wire| + |lines[next - 1]| <= CAPACITY
      modifies this`held, repr
      ensures Valid() && Conserved() && !held && data.wire == old(data.wire)
      ensures data.total == old(data.total) + lines[next - 1]
    {
      var line := lines[next - 1];
      FlattenSnoc(lines[..next - 1], line);
      assert lines[..next - 1] + [line] == lines[..next];
      data.Write(line);
      held := false;
    }

    /** The loop of send_next_directory: lines go into the queue until one does not fit or
        none is left. */
    method FillListing() returns (full: bool)
      requires Valid() && Conserved() && attached && job.FTPD_LIST?
      modifies this`next, this`held, repr
      ensures Valid() && Conserved() && data.wire == old(data.wire) && |old(data.total)| <= |data.total|
      ensures full ==> held && |data.total| - |data.wire| + |lines[next - 1]| > CAPACITY
      ensures !full ==> !held && next == |lines|
    {
      hide Channel.Valid, Flatten;
      while true
        invariant Valid() && Conserved() && data.wire == old(data.wire) && |old(data.total)| <= |data.total|
        decreases |lines| - next, held
      {
        if !held {
          if next == |lines| { return false; }   // vfs_readdir: no more entries
          next, held := next + 1, true;
        }
        var space := data.Space();
        if space < |lines[next - 1]| { return true; }
        WriteLine();
      }
    }

    /** send_next_directory */
    method SendNextDirectory(c: Choice)
      requires Valid() && Conserved() && attached && job.FTPD_LIST?
      modifies this`next, this`held, this`attached, this`state, repr, ctrlRepr
      ensures Valid() && Conserved() && old(data.wire) <= data.wire
      ensures attached ==>
                (if held then |data.total| - |old(data.wire)| + |lines[next - 1]| > CAPACITY else next == |lines|)
      ensures attached && c.ok1 && c.ok2 ==>
                |data.wire| == |old(data.wire)| + Min(c.sndbuf, |data.total| - |old(data.wire)|)
      ensures attached ==> ctrl.total == old(ctrl.total) && ctrl.wire == old(ctrl.wire)
      ensures !attached ==> ctrl.total == old(With226()) && old(ctrl.wire) <= ctrl.wire
      ensures !attached && old(HasRoom()) && Taken(c) ==> ctrl.wire == ctrl.total
      ensures Favourable(c) ==> Work() < old(Work())
    {
      hide Channel.Valid, Flatten;
      ghost var before := |data.total|;
      var full := FillListing();
      FewerPieces(|Whole()|, before, |data.total|);
      var used := data.Used();
      if full || used > 0 {
        ListedPart();
        SendData(c);
        return;
      }
      data.Behind();
      assert lines[..next] == lines;
      Finish(c);
    }

    /** The lines taken so far are no longer than the listing. */
    lemma ListedPart()
      requires Valid() && Conserved() && job.FTPD_LIST?
      ensures |data.total| <= |Whole()|
      ensures !held && next == |lines| ==> data.total == Whole()
    {
      var k := if held then next - 1 else next;
      FlattenAppend(lines[..k], lines[k..]);
      assert lines[..k] + lines[k..] == lines;
      assert k == |lines| ==> lines[..k] == lines;
    }

    /** One callback. A data callback exists only on an established connection, and none
        remains once the transfer is over. */
    method Dispatch(e: Event)
      requires Valid() && Conserved()
      modifies this, repr, ctrlRepr
      ensures Valid() && Conserved()
      ensures old(data.wire) <= data.wire && (old(connected) ==> connected) && (attached ==> old(attached))
      ensures ctrl.total == if old(attached) && !attached then old(With226()) else old(ctrl.total)
      ensures old(ctrl.wire) <= ctrl.wire
      ensures !e.MsgSent? && (attached || !old(attached)) ==> ctrl.wire == old(ctrl.wire)
      ensures e.MsgSent? && e.c.ctrlOk1 && e.c.ctrlOk2 ==>
                |ctrl.wire| == |old(ctrl.wire)| + Min(e.c.ctrlSndbuf, |ctrl.total| - |old(ctrl.wire)|)
      ensures e.MsgSent? && Taken(e.c) ==> ctrl.wire == ctrl.total
      ensures !e.MsgSent? && old(attached && HasRoom()) && !attached && Taken(e.c) ==> ctrl.wire == ctrl.total
      ensures e.MsgSent? ==> connected == old(connected) && attached == old(attached) && Work() == old(Work())
      ensures e.MsgSent? ==> data.wire == old(data.wire) && data.total == old(data.total)
      ensures !e.MsgSent? && Favourable(e.c) && (old(connected) || e.Connected?) && old(attached) ==>
                connected && Work() < old(Work())
      ensures !e.MsgSent? && Favourable(e.c) && (old(connected) || e.Connected?) && old(attached) &&
              job.FTPD_RETR? && old(data.wire == data.total) ==>
                data.wire == data.total && Work() == old(Work()) - 1
    {
      hide Channel.Valid, Flatten;
      if e.MsgSent? {
        ctrl.Send(e.c.ctrlSndbuf, e.c.ctrlOk1, e.c.ctrlOk2);
        return;
      }
      if !attached { return; }
      match e {
        case Connected(_) => connected := true;
        case _ =>
          if !connected { return; }
      }
      match state {
        case FTPD_LIST => SendNextDirectory(e.c);
        case FTPD_RETR => SendFile(e.c);
        case FTPD_IDLE =>
      }
    }

    /** Every sequence of callbacks with every behaviour of TCP and the file system: bytes
        accepted by TCP followed by the queue are what has been read; reply 226 is queued at
        most once, behind all earlier replies, and only when TCP has accepted the whole file
        or listing; it is dropped if and only if the control queue has no room for it, which
        only progress of the control connection can change, and it is with TCP once the control
        connection has taken what was queued; and on a connection that nothing goes wrong on the
        transfer finishes within the callbacks counted by Work, a file exactly then. */
    method Serve(events: seq<Event>)
      requires Valid() && Conserved() && attached
      modifies this, repr, ctrlRepr
      ensures Valid() && data.total == Produced() && data.wire <= data.total
      ensures attached ==> ctrl.total == old(ctrl.total)
      ensures !attached ==> ctrl.total == old(ctrl.total) || ctrl.total == old(ctrl.total) + MSG226
      ensures !attached && old(HasRoom()) ==> ctrl.total == old(ctrl.total) + MSG226
      ensures !attached && !old(HasRoom()) && Quiet(events) ==> ctrl.total == old(ctrl.total)
      ensures !attached ==> data.wire == Whole()
      ensures events != [] && events[|events| - 1].MsgSent? && Taken(events[|events| - 1].c) ==>
                ctrl.wire == ctrl.total && (!attached && old(HasRoom()) ==> ctrl.wire == old(ctrl.total) + MSG226)
      ensures Calm(events) && Callbacks(events) >= old(Work()) ==> !attached
      ensures Calm(events) && job.FTPD_RETR? && old(data.wire == data.total) ==>
                (attached <==> Callbacks(events) < old(Work()))
    {
      hide Channel.Valid, Flatten;
      ghost var calm, room := Calm(events), HasRoom();
      ghost var exact := job.FTPD_RETR? && data.wire == data.total;
      for k := 0 to |events|
        invariant Valid() && Conserved()
        invariant attached ==> ctrl.total == old(ctrl.total) && |old(ctrl.wire)| <= |ctrl.wire|
        invariant attached && Quiet(events) ==> ctrl.wire == old(ctrl.wire)
        invariant !attached ==> ctrl.total == old(ctrl.total) || ctrl.total == old(ctrl.total) + MSG226
        invariant !attached && room ==> ctrl.total == old(ctrl.total) + MSG226
        invariant !attached && !room && Quiet(events) ==> ctrl.total == old(ctrl.total)
        invariant k > 0 && events[k - 1].MsgSent? && Taken(events[k - 1].c) ==> ctrl.wire == ctrl.total
        invariant calm && attached ==> (k > 0 ==> connected) && Work() + Callbacks(events[..k]) <= old(Work())
        invariant calm && exact && attached ==>
                    data.wire == data.total && Work() + Callbacks(events[..k]) == old(Work())
        invariant calm && exact && !attached ==> Callbacks(events[..k]) >= old(Work())
      {
        assert events[..k + 1][..k] == events[..k] && events[k] in events;
        Dispatch(events[k]);
      }
      assert events[..|events|] == events;
      data.Behind();
    }
  }

  /** More of the whole in the queue leaves no more pieces, and one less once a piece is in. */
  lemma FewerPieces(whole: nat, before: nat, after: nat)
    requires before <= after
    ensures Pieces(whole - after, 1024) <= Pieces(whole - before, 1024)
    ensures after >= before + 1024 && before < whole ==> Pieces(whole - after, 1024) < Pieces(whole - before, 1024)
    ensures before < after && after == whole ==> Pieces(whole - after, 1024) < Pieces(whole - before, 1024)
  {
  }

  lemma TwoCallbacks(a: Event, b: Event)
    requires !a.MsgSent? && !b.MsgSent?
    ensures Callbacks([a, b]) == 2
  {
    assert [a, b][..1] == [a];
    assert [a][..0] == [];
    assert Callbacks([a]) == 1;
  }

  lemma FlattenNone()
    ensures Flatten(seq(0, _ => MSG200)) == []
  {
  }

  /** An empty file while 107 replies wait on a control connection that takes nothing: the
      transfer is complete and closed, and no reply 226 is queued. */
  method FullQueueDropsReply() returns (s: Session)
    ensures s.Valid() && !s.attached && s.data.wire == s.Whole()
    ensures s.ctrl.total == Flatten(seq(107, _ => MSG200))
  {
    hide Channel.Valid, Flatten;
    var ctrl := new Channel();
    s := new Session(FTPD_RETR, [], [], ctrl);
    var c := Choice(READ_MAX, true, true, READ_MAX, true, 0, true, true);
    assert |MSG200| == 19 && |MSG226| == 30;
    s.Noops(107, c);
    assert [] + Flatten(seq(107, _ => MSG200)) == Flatten(seq(107, _ => MSG200));
    TwoCallbacks(Connected(c), Poll(c));
    s.Serve([Connected(c), Poll(c)]);
  }

  lemma SizeFor2000(n: nat)
    requires IsPow2(n) && FIFO_REQUEST < n && (n == 1 || n / 2 <= FIFO_REQUEST)
    ensures n == 2048
  {
    var k: nat :| n == Pow2(k);
    assert Pow2(10) == 1024 && Pow2(11) == 2048 && Pow2(12) == 4096;
    if k < 11 {
      Pow2Monotone(k, 10);
    } else if k > 11 {
      Pow2Monotone(12, k);
    }
  }
}
