/** Safety of the TFTP download over every run of the system. */
module TftpSafety {
  import opened Bytes
  import opened Tftp
  import ImageStore
  import NorFlash

  /** The calls to store_block for the first `m` blocks of the file. */
  ghost predicate Prefix(f: File, st: seq<Stored>) {
    && |st| <= |f.blocks|
    && forall i | 0 <= i < |st| :: st[i] == Stored(Wrap32(Number(i + 1) - 1), f.blocks[i])
  }

  ghost predicate ClientOk(f: File, c: Client) {
    var m := |c.stored|;
    && Prefix(f, c.stored)
    && (c.finished <==> m == |f.blocks|)
    && (c.mode == STATE_RRQ ==> m == 0 && c.block == 0 && c.blkSize == BLOCK_SIZE)
    && (c.mode == STATE_OACK ==> m == 0 && c.block == 0 && f.oack)
    && (c.mode == STATE_DATA ==> m > 0 && c.block == c.lastBlock == Number(m))
    && (c.mode != STATE_RRQ ==> c.serverPort == f.port && c.blkSize == f.blkSize)
  }

  function Rank(s: Server): int {
    match s
    case Idle => -1
    case Options => 0
    case Sending(n) => n
  }

  /** Client and server are never more than one block apart. */
  ghost predicate InStep(f: File, c: Client, s: Server) {
    var m := |c.stored|;
    && (s.Idle? ==> m == 0)
    && (!s.Idle? ==> m <= Rank(s) <= m + 1 && Rank(s) <= |f.blocks|)
    && (s.Options? ==> f.oack)
    && (s.Sending? ==> s.n > 0 && (f.oack ==> c.mode != STATE_RRQ))
  }

  function Floor(f: File, m: nat): nat {
    if m > 0 then m else if f.oack then 0 else 1
  }

  /** Datagrams under way to the client: in order, none older than the last block stored. */
  ghost predicate DownOk(f: File, down: seq<nat>, m: nat, s: Server) {
    && (forall i | 0 <= i < |down| :: Floor(f, m) <= down[i] <= Rank(s))
    && (forall i, j | 0 <= i < j < |down| :: down[i] <= down[j])
  }

  ghost predicate MailOk(c: Client, x: Mail) {
    && x.ord <= |c.stored|
    && match x.msg
       case ReadRequest => x.ord == 0
       case Ack(k) => k == Number(x.ord) && c.mode != STATE_RRQ
  }

  /** Acknowledgements under way: in order, each for the last block stored when it left. */
  ghost predicate UpOk(up: seq<Mail>, c: Client, s: Server) {
    && (forall i | 0 <= i < |up| :: MailOk(c, up[i]))
    && (forall i, j | 0 <= i < j < |up| :: up[i].ord <= up[j].ord)
    && (s.Sending? ==> forall i | 0 <= i < |up| :: up[i].ord >= s.n - 1)
  }

  ghost predicate Inv(f: File, s: Sys) {
    && ClientOk(f, s.client)
    && InStep(f, s.client, s.server)
    && DownOk(f, s.down, |s.client.stored|, s.server)
    && UpOk(s.up, s.client, s.server)
  }

  lemma NumbersDiffer(n: nat)
    ensures Number(n) != Number(n + 1)
  {
  }

  // ---------------------------------------------------------------- client steps

  /** How one handler call moves the client: it may latch, repeat or store one block. */
  ghost predicate Advance(f: File, c: Client, e: Effect) {
    var d := e.client;
    && ClientOk(f, d)
    && (c.mode != STATE_RRQ ==> d.mode != STATE_RRQ)
    && |c.stored| <= |d.stored| <= |c.stored| + 1
    && (e.sent.Some? ==> MailOk(d, Mail(e.sent.value, |d.stored|)))
  }

  lemma StoreNext(f: File, c: Client)
    requires FileOk(f) && ClientOk(f, c) && !c.finished
    requires c.mode == STATE_RRQ ==> !f.oack
    ensures var e := Handle(c, Datagram(f, |c.stored| + 1), f.port);
            Advance(f, c, e) && |e.client.stored| == |c.stored| + 1
  {
    var m := |c.stored|;
    NumbersDiffer(m);
    var e := Handle(c, Datagram(f, m + 1), f.port);
    var payload := f.blocks[m];
    assert m == 0 ==> Number(m + 1) == 1;
    assert e.client.stored == c.stored + [Stored(Wrap32(Number(m + 1) - 1), payload)];
    assert |payload| < f.blkSize as int <==> m + 1 == |f.blocks|;
  }

  lemma RepeatLast(f: File, c: Client)
    requires FileOk(f) && ClientOk(f, c) && !c.finished && |c.stored| > 0
    ensures var e := Handle(c, Datagram(f, |c.stored|), f.port);
            Advance(f, c, e) && |e.client.stored| == |c.stored|
  {
  }

  lemma LatchOptions(f: File, c: Client)
    requires FileOk(f) && ClientOk(f, c) && !c.finished && |c.stored| == 0 && f.oack
    ensures var e := Handle(c, Datagram(f, 0), f.port);
            Advance(f, c, e) && |e.client.stored| == |c.stored|
  {
  }

  /** Any datagram the channel can hold is the last one stored or the next one. */
  lemma ClientStep(f: File, s: Sys)
    requires FileOk(f) && Inv(f, s) && s.down != []
    ensures var e := Handle(s.client, Datagram(f, s.down[0]), f.port);
            && Advance(f, s.client, e)
            && |e.client.stored| <= Rank(s.server)
            && (|e.client.stored| > |s.client.stored| ==> s.down[0] == |e.client.stored|)
  {
    hide Handle, Datagram, Advance, MailOk;
    var c, h := s.client, s.down[0];
    var m := |c.stored|;
    assert Floor(f, m) <= h <= Rank(s.server) <= m + 1;
    if c.finished {
      FinishedIsInert(f, c, Datagram(f, h));
    } else if h == m + 1 {
      StoreNext(f, c);
    } else if m > 0 {
      RepeatLast(f, c);
    } else {
      LatchOptions(f, c);
    }
  }

  lemma FinishedIsInert(f: File, c: Client, p: Packet)
    requires ClientOk(f, c) && c.finished
    ensures Handle(c, p, f.port) == Effect(c, None)
    ensures Advance(f, c, Handle(c, p, f.port))
  {
  }

  lemma ForeignStep(f: File, c: Client, p: Packet, port: nat)
    requires ClientOk(f, c) && c.mode != STATE_RRQ && port != f.port
    ensures var e := Handle(c, p, port);
            Advance(f, c, e) && e == Effect(if c.finished then c else c.(peer := port), None)
  {
    ForeignPortIgnored(c, p, port);
  }

  lemma TimerStep(f: File, c: Client)
    requires ClientOk(f, c)
    ensures var e := Timeout(c); Advance(f, c, e) && e.client.stored == c.stored
  {
  }

  // ---------------------------------------------------------------- channels

  /** Mail already under way stays in order while the client moves on. */
  lemma UpAfter(f: File, up: seq<Mail>, c: Client, s: Server, e: Effect)
    requires UpOk(up, c, s) && Advance(f, c, e)
    ensures UpOk(up, e.client, s)
  {
    forall i | 0 <= i < |up| ensures MailOk(e.client, up[i]) {
      assert MailOk(c, up[i]);
    }
  }

  lemma UpSnoc(up: seq<Mail>, c: Client, s: Server, x: Mail)
    requires UpOk(up, c, s) && MailOk(c, x) && x.ord == |c.stored|
    requires s.Sending? ==> x.ord >= s.n - 1
    ensures UpOk(up + [x], c, s)
  {
    forall i | 0 <= i < |up| ensures up[i].ord <= |c.stored| {
      assert MailOk(c, up[i]);
    }
  }

  /** After any client step the rest of the system is as before. */
  lemma Delivered(f: File, s: Sys, e: Effect)
    requires Advance(f, s.client, e) && UpOk(s.up, s.client, s.server)
    requires InStep(f, s.client, s.server)
    requires |e.client.stored| <= Rank(s.server) || |e.client.stored| == |s.client.stored|
    requires DownOk(f, s.down, |e.client.stored|, s.server)
    ensures Inv(f, Deliver(s, e, f.port))
  {
    hide MailOk, ClientOk;
    UpAfter(f, s.up, s.client, s.server, e);
    assert InStep(f, e.client, s.server);
    if e.sent.Some? {
      UpSnoc(s.up, e.client, s.server, Mail(e.sent.value, |e.client.stored|));
    }
  }

  lemma DownTail(f: File, down: seq<nat>, m: nat, m': nat, s: Server)
    requires DownOk(f, down, m, s) && down != []
    requires m' == m || (m' == m + 1 && down[0] == m')
    ensures DownOk(f, down[1..], m', s)
  {
  }

  // ---------------------------------------------------------------- server steps

  /** The server moves on only on a true acknowledgement of the block in flight. */
  lemma ServerStep(f: File, s: Sys)
    requires FileOk(f) && Inv(f, s) && s.up != []
    ensures Inv(f, Next(f, s, ServerReceives))
  {
    var x := s.up[0];
    assert MailOk(s.client, x);
    var (server, out) := Serve(f, s.server, x.msg);
    var up := s.up[1..];
    assert forall i | 0 <= i < |up| :: up[i] == s.up[i + 1];
    if s.server.Sending? && server != s.server {
      var n := s.server.n;
      NumbersDiffer(n - 1);
      assert x.ord == n && |s.client.stored| == n;
      assert forall i | 0 <= i < |up| :: up[i].ord >= n;
    }
    if server != s.server {
      DownMoves(f, s.down, |s.client.stored|, s.server, server);
    } else {
      assert s.down + [] == s.down;
    }
    assert UpOk(up, s.client, server);
  }

  lemma DownMoves(f: File, down: seq<nat>, m: nat, s: Server, s': Server)
    requires DownOk(f, down, m, s) && Rank(s) < Rank(s') && Floor(f, m) <= Rank(s') && !s'.Idle?
    ensures DownOk(f, down + [Rank(s') as nat], m, s')
  {
  }

  lemma RepeatStep(f: File, s: Sys)
    requires Inv(f, s) && FileOk(f)
    ensures Inv(f, Next(f, s, ServerRepeats))
  {
    if s.server.Idle? {
      assert s.down + [] == s.down;
    } else {
      assert Floor(f, |s.client.stored|) <= Rank(s.server);
      assert Next(f, s, ServerRepeats).down == s.down + [Rank(s.server) as nat];
    }
  }

  // ---------------------------------------------------------------- the channels' own steps

  lemma LossStep(f: File, s: Sys, i: nat)
    requires Inv(f, s)
    ensures Inv(f, Next(f, s, LoseDown(i))) && Inv(f, Next(f, s, LoseUp(i)))
  {
    hide ClientOk, InStep, MailOk, UpOk, DownOk;
    if i < |s.down| {
      DownWithout(f, s.down, |s.client.stored|, s.server, i);
    }
    if i < |s.up| {
      UpWithout(s.up, s.client, s.server, i);
    }
  }

  lemma DownWithout(f: File, down: seq<nat>, m: nat, s: Server, i: nat)
    requires DownOk(f, down, m, s) && i < |down|
    ensures DownOk(f, Without(down, i), m, s)
  {
  }

  lemma UpWithout(up: seq<Mail>, c: Client, s: Server, i: nat)
    requires UpOk(up, c, s) && i < |up|
    ensures UpOk(Without(up, i), c, s)
  {
    hide MailOk;
  }

  lemma DuplicateStep(f: File, s: Sys, i: nat)
    requires Inv(f, s)
    ensures Inv(f, Next(f, s, DuplicateDown(i))) && Inv(f, Next(f, s, DuplicateUp(i)))
  {
    hide ClientOk, InStep, MailOk;
    assert i < |s.down| ==> DownOk(f, Twice(s.down, i), |s.client.stored|, s.server);
    assert i < |s.up| ==> UpOk(Twice(s.up, i), s.client, s.server);
  }

  // ---------------------------------------------------------------- every run

  lemma StepKeepsInv(f: File, s: Sys, a: Step)
    requires FileOk(f) && Inv(f, s) && Enabled(f, s, a)
    ensures Inv(f, Next(f, s, a))
  {
    hide ClientOk, UpOk, DownOk, Advance, Handle, Deliver, Serve;
    match a
    case ClientReceives =>
      var e := Handle(s.client, Datagram(f, s.down[0]), f.port);
      ClientStep(f, s);
      AdvanceBounds(f, s.client, e);
      DownTail(f, s.down, |s.client.stored|, |e.client.stored|, s.server);
      Delivered(f, s.(down := s.down[1..]), e);
    case ForeignDatagram(p, port) =>
      ForeignStep(f, s.client, p, port);
      Delivered(f, s, Handle(s.client, p, port));
    case TimerFires =>
      TimerStep(f, s.client);
      Delivered(f, s, Timeout(s.client));
    case ServerReceives => ServerStep(f, s);
    case ServerRepeats => RepeatStep(f, s);
    case LoseDown(i) => LossStep(f, s, i);
    case LoseUp(i) => LossStep(f, s, i);
    case DuplicateDown(i) => DuplicateStep(f, s, i);
    case DuplicateUp(i) => DuplicateStep(f, s, i);
  }

  lemma AdvanceBounds(f: File, c: Client, e: Effect)
    requires Advance(f, c, e)
    ensures |c.stored| <= |e.client.stored| <= |c.stored| + 1
  {
  }

  lemma {:induction false} RunKeepsInv(f: File, c: Client, steps: seq<Step>)
    requires FileOk(f) && Feasible(f, c, steps)
    ensures Inv(f, RunSys(f, c, steps))
    decreases |steps|
  {
    hide Next, Inv, Enabled;
    if steps == [] {
      BootInv(f, c);
    } else {
      var prev := steps[..|steps| - 1];
      RunKeepsInv(f, c, prev);
      StepKeepsInv(f, RunSys(f, c, prev), steps[|steps| - 1]);
    }
  }

  lemma BootInv(f: File, c: Client)
    requires FileOk(f)
    ensures Inv(f, Boot(c))
  {
  }

  /** Over every run: the blocks handed to store_block are a gap-free, repeat-free prefix
      of the file; an acknowledgement under way never runs ahead of what is stored; the
      client stops exactly when it has stored the final short block. */
  lemma DownloadSafety(f: File, c: Client, steps: seq<Step>)
    requires FileOk(f) && Feasible(f, c, steps)
    ensures var s := RunSys(f, c, steps);
            var m := |s.client.stored|;
            && m <= |f.blocks|
            && (forall i | 0 <= i < m :: s.client.stored[i].payload == f.blocks[i])
            && (forall i | 0 <= i < |s.up| && s.up[i].msg.Ack? ::
                  s.up[i].ord <= m && s.up[i].msg.block == Number(s.up[i].ord))
            && (s.client.finished <==> m == |f.blocks|)
            && (s.server.Sending? ==> s.server.n - 1 <= m)
  {
    RunKeepsInv(f, c, steps);
    var s := RunSys(f, c, steps);
    assert forall i | 0 <= i < |s.up| :: MailOk(s.client, s.up[i]);
  }

  /** Whatever TftpSend would send now, over every run: the request while nothing has been
      stored, or the acknowledgement of the last block stored. */
  lemma SendsTruth(f: File, c: Client, steps: seq<Step>)
    requires FileOk(f) && Feasible(f, c, steps)
    ensures var client := RunSys(f, c, steps).client;
            match Send(client)
            case ReadRequest => client.stored == []
            case Ack(k) => k == Number(|client.stored|)
  {
    hide Feasible, RunSys;
    RunKeepsInv(f, c, steps);
  }

  // ---------------------------------------------------------------- what leaves the client

  /** Timer interrupts so far. */
  function Fired(steps: seq<Step>): nat {
    if steps == [] then 0 else Fired(steps[..|steps| - 1]) + Bit(steps[|steps| - 1].TimerFires?)
  }

  /** Where the last datagram came from that was taken off the socket; port 69 before any. */
  function LastPort(f: File, steps: seq<Step>): nat {
    if steps == [] then 69
    else match steps[|steps| - 1]
         case ClientReceives => f.port
         case ForeignDatagram(_, port) => port
         case _ => LastPort(f, steps[..|steps| - 1])
  }

  /** An unfinished client knows of its history the timeouts, the last sender and whether
      the server has been heard. */
  ghost predicate Remembers(f: File, c: Client, steps: seq<Step>) {
    !c.finished ==>
      && c.timeouts == Fired(steps) && c.peer == LastPort(f, steps)
      && (c.mode == STATE_RRQ <==> ClientReceives !in steps)
  }

  lemma HeardAfter(steps: seq<Step>)
    requires steps != []
    ensures ClientReceives in steps <==>
            ClientReceives in steps[..|steps| - 1] || steps[|steps| - 1] == ClientReceives
  {
    assert steps == steps[..|steps| - 1] + [steps[|steps| - 1]];
  }

  /** How a datagram from the server, the timer and everything else move the client. */
  lemma ClientMoves(f: File, s: Sys, a: Step)
    requires FileOk(f) && Inv(f, s) && Enabled(f, s, a)
    ensures var c, d := s.client, Next(f, s, a).client;
            && (c.finished ==> d.finished)
            && (!c.finished ==>
                  && d.timeouts == c.timeouts + Bit(a.TimerFires?)
                  && d.peer == (if a.ClientReceives? then f.port else if a.ForeignDatagram? then a.port else c.peer)
                  && (d.mode == STATE_RRQ <==> c.mode == STATE_RRQ && !a.ClientReceives?))
  {
    hide UpOk;
    if a.ClientReceives? {
      assert 0 <= s.down[0] <= |f.blocks|;
    }
  }

  lemma {:induction false} RunRemembers(f: File, c: Client, steps: seq<Step>)
    requires FileOk(f) && Feasible(f, c, steps)
    ensures Remembers(f, RunSys(f, c, steps).client, steps)
    decreases |steps|
  {
    hide Next, Inv, Enabled;
    if steps != [] {
      var prev, a := steps[..|steps| - 1], steps[|steps| - 1];
      RunRemembers(f, c, prev);
      RunKeepsInv(f, c, prev);
      ClientMoves(f, RunSys(f, c, prev), a);
      HeardAfter(steps);
    }
  }

  /** The timer over every run: an unfinished client whose last datagram did not come from a
      stranger sends exactly one datagram for each of the first ten timeouts, the request until
      it has heard from the server and from then on the acknowledgement of the last block
      stored; nothing else about the system changes, and later timeouts send nothing. */
  lemma TimerExactly(f: File, c: Client, steps: seq<Step>)
    requires FileOk(f) && Feasible(f, c, steps)
    ensures var s, t := RunSys(f, c, steps), RunSys(f, c, steps + [TimerFires]);
            var m, port := |s.client.stored|, LastPort(f, steps);
            var request := if ClientReceives in steps then Ack(m % 65536) else ReadRequest;
            && t.server == s.server && t.down == s.down
            && t.client == (if s.client.finished then s.client else s.client.(timeouts := s.client.timeouts + 1))
            && t.up == s.up +
                 if !s.client.finished && Fired(steps) < 10 && (port == f.port || port == 69)
                 then [Mail(request, m)] else []
  {
    hide Feasible, Inv, Fired, LastPort;
    var all := steps + [TimerFires];
    assert all[..|all| - 1] == steps;
    RunRemembers(f, c, steps);
    RunKeepsInv(f, c, steps);
    hide RunSys;
    var s := RunSys(f, c, steps);
    assert RunSys(f, c, all) == Next(f, s, TimerFires) by { LastStep(f, c, steps, TimerFires); }
    assert Inv(f, s);
    Acknowledges(f, s);
    assert s.up + [] == s.up;
  }

  lemma LastStep(f: File, c: Client, steps: seq<Step>, a: Step)
    ensures RunSys(f, c, steps + [a]) == Next(f, RunSys(f, c, steps), a)
  {
    assert (steps + [a])[..|steps|] == steps;
  }

  lemma Acknowledges(f: File, s: Sys)
    requires Inv(f, s)
    ensures s.client.mode != STATE_RRQ ==> s.client.block == |s.client.stored| % 65536
  {
  }

  /** The handler over every run: each datagram of the server that reaches an unfinished client
      is answered by exactly one acknowledgement, of the last block stored; the next block of
      the file is stored, and nothing else ever is. */
  lemma AnswerExactly(f: File, c: Client, steps: seq<Step>)
    requires FileOk(f) && Feasible(f, c, steps) && RunSys(f, c, steps).down != []
    ensures var s, t := RunSys(f, c, steps), RunSys(f, c, steps + [ClientReceives]);
            var m, n := |s.client.stored|, |t.client.stored|;
            && t.server == s.server && t.down == s.down[1..]
            && (s.client.finished ==> t.client == s.client && t.up == s.up)
            && (!s.client.finished ==>
                  && m <= |f.blocks| - 1
                  && t.client.stored == s.client.stored +
                       (if s.down[0] == m + 1 then [Stored(Wrap32((m + 1) % 65536 - 1), f.blocks[m])] else [])
                  && t.up == s.up + [Mail(Ack(n % 65536), n)])
  {
    hide Feasible, RunSys;
    RunKeepsInv(f, c, steps);
    LastStep(f, c, steps, ClientReceives);
    Answers(f, RunSys(f, c, steps));
  }

  lemma Answers(f: File, s: Sys)
    requires FileOk(f) && Inv(f, s) && s.down != []
    ensures var e, m := Handle(s.client, Datagram(f, s.down[0]), f.port), |s.client.stored|;
            if s.client.finished then e == Effect(s.client, None)
            else
              && m <= |f.blocks| - 1 && e.client.peer == f.port
              && e.client.stored == s.client.stored +
                   (if s.down[0] == m + 1 then [Stored(Wrap32((m + 1) % 65536 - 1), f.blocks[m])] else [])
              && e.sent == Some(Ack(|e.client.stored| % 65536))
  {
    hide UpOk;
    var c, h := s.client, s.down[0];
    var m := |c.stored|;
    assert Floor(f, m) <= h <= Rank(s.server) <= m + 1;
    NumbersDiffer(m);
    assert c.stored + [] == c.stored;
  }

  /** The block numbers passed to store_block count the file's blocks without a gap exactly
      as long as the 16-bit number does not wrap. */
  lemma NumberingExact(f: File, st: seq<Stored>)
    requires Prefix(f, st)
    ensures (forall i | 0 <= i < |st| :: st[i].block == i) <==> |st| < TWO16
  {
    if |st| >= TWO16 {
      assert st[TWO16 - 1].block == TWO32 - 1;
    } else {
      forall i | 0 <= i < |st| ensures st[i].block == i {
        assert Number(i + 1) == i + 1;
      }
    }
  }

  // ---------------------------------------------------------------- into flash

  /** Payloads store_block can take. */
  ghost predicate Takable(st: seq<Stored>) {
    forall i | 0 <= i < |st| :: ImageStore.HD_LEN <= |st[i].payload| <= ImageStore.PKT_MAX
  }

  /** The calls as store_block sees them. */
  ghost function Handed(st: seq<Stored>): seq<ImageStore.Call>
    requires Takable(st)
  {
    seq(|st|, i requires 0 <= i < |st| => ImageStore.Call(st[i].block, st[i].payload))
  }

  /** The first calls of a file that starts with a package are the package's calls. */
  lemma HandedPackage(f: File, st: seq<Stored>, p: ImageStore.Package)
    requires Prefix(f, st) && ImageStore.Packets(p) <= f.blocks
    requires |ImageStore.Packets(p)| <= |st| && |ImageStore.Packets(p)| < TWO16
    ensures var n := |ImageStore.Packets(p)|;
            Takable(st[..n]) && Handed(st[..n]) == ImageStore.Calls(ImageStore.Packets(p))
  {
    var pkts := ImageStore.Packets(p);
    var calls := st[..|pkts|];
    assert Prefix(f, calls);
    NumberingExact(f, calls);
    forall i | 0 <= i < |pkts|
      ensures calls[i].payload == pkts[i] && ImageStore.HD_LEN <= |calls[i].payload| <= ImageStore.PKT_MAX
    {
      assert f.blocks[i] == pkts[i];
    }
  }

  lemma PlacedBelow(p: ImageStore.Package, a: u32, size: nat)
    requires ImageStore.Placed(p, a, size)
    ensures |ImageStore.Packets(p)| < TWO16
  {
    hide ImageStore.Word;
  }

  /** Wire to flash, over every run of the protocol, finished or not: as soon as the packets
      of a package are stored its image is in flash, and its image header is committed exactly
      when its CRC agrees. The file may go on behind the package, as it must with an empty
      block when the last packet fills one. */
  lemma DownloadedPackage(f: File, c: Client, steps: seq<Step>,
                          step: (u32, byte) -> u32, st: ImageStore.Store, p: ImageStore.Package, a: u32, hd: u32)
    requires FileOk(f) && Feasible(f, c, steps)
    requires ImageStore.Packets(p) <= f.blocks
    requires |ImageStore.Packets(p)| <= |RunSys(f, c, steps).client.stored|
    requires NorFlash.Device(st.nor) && st.nor.log == []
    requires ImageStore.Framed(p) && ImageStore.Placed(p, a, |st.nor.cells|)
    requires ImageStore.Apart(p, a, hd, |st.nor.cells|)
    ensures var stored := RunSys(f, c, steps).client.stored[..|ImageStore.Packets(p)|];
            && Takable(stored)
            && ImageStore.Installed(step, st.nor, ImageStore.Run(step, st, Handed(stored)).nor, p, a, hd)
  {
    hide ImageStore.Framed, ImageStore.Placed, ImageStore.Apart, RunSys, Feasible, ImageStore.Packets, Prefix;
    hide ImageStore.Installed, ImageStore.Run, FileOk, NorFlash.Device;
    RunKeepsInv(f, c, steps);
    PlacedBelow(p, a, |st.nor.cells|);
    HandedPackage(f, RunSys(f, c, steps).client.stored, p);
    ImageStore.PackageStored(step, st, p, a, hd);
  }

  /** Which blocks of a finished download store_block cannot take, its lengths wrapping below
      24 bytes and its read-back buffer overflowing above 1048: in terms of the file alone,
      none if and only if the last block and, if there are others, the block size lie between
      the two. */
  lemma TakableExactly(f: File, c: Client, steps: seq<Step>)
    requires FileOk(f) && Feasible(f, c, steps) && RunSys(f, c, steps).client.finished
    ensures var stored, last := RunSys(f, c, steps).client.stored, |f.blocks| - 1;
            && ((exists i | 0 <= i < |stored| :: |stored[i].payload| < ImageStore.HD_LEN) <==>
                  |f.blocks[last]| < ImageStore.HD_LEN || (last > 0 && f.blkSize as int < ImageStore.HD_LEN))
            && (Takable(stored) <==>
                  && ImageStore.HD_LEN <= |f.blocks[last]| <= ImageStore.PKT_MAX
                  && (last > 0 ==> ImageStore.HD_LEN <= f.blkSize as int <= ImageStore.PKT_MAX))
  {
    hide RunSys, Feasible;
    RunKeepsInv(f, c, steps);
    var stored, last := RunSys(f, c, steps).client.stored, |f.blocks| - 1;
    assert |stored| == |f.blocks|;
    assert forall i | 0 <= i < |stored| :: stored[i].payload == f.blocks[i];
    assert stored[last].payload == f.blocks[last];
    if last > 0 {
      assert |stored[0].payload| == f.blkSize as int;
    }
  }
}
