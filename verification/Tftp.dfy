/** The TFTP client (RFC 1350, with OACK and blksize of RFC 2347 and RFC 2348) as an event
    handler, and the system it forms with a lockstep server over two FIFO channels that
    may lose and duplicate datagrams. */
module Tftp {
  import opened Bytes

  const WELL_KNOWN_PORT: nat := 69
  const TIMEOUT_COUNT: nat := 10
  const BLOCK_SIZE: u16 := 512     // TFTP_BLOCK_SIZE

  datatype Mode = STATE_RRQ | STATE_OACK | STATE_DATA

  /** A datagram as the handler's switch sees it. */
  datatype Packet =
    | OptionAck(blksize: Option<u16>)
    | Data(block: u16, payload: seq<byte>)
    | Other        // too short, RRQ, WRQ, ACK, ERROR or an unknown opcode

  datatype Message = ReadRequest | Ack(block: u16)

  /** One call store_block(block, payload). */
  datatype Stored = Stored(block: u32, payload: seq<byte>)

  /** The static variables of the client; `peer` is server_addr.sin_port, where the next
      datagram goes, `stored` the calls made to store_block. */
  datatype Client = Client(
    mode: Mode, serverPort: nat, peer: nat, block: u16, lastBlock: u16, blkSize: u16,
    timeouts: nat, stored: seq<Stored>, finished: bool)

  /** TftpStart. `c` is whatever an earlier transfer left behind. */
  function Start(c: Client): Client {
    c.(mode := STATE_RRQ, serverPort := WELL_KNOWN_PORT, peer := WELL_KNOWN_PORT, block := 0,
       blkSize := BLOCK_SIZE, timeouts := 0, stored := [], finished := false)
  }

  /** TftpSend */
  function Send(c: Client): Message {
    if c.mode == STATE_RRQ then ReadRequest else Ack(c.block)
  }

  datatype Effect = Effect(client: Client, sent: Option<Message>)

  /** TftpHandler behind recvfrom, which records the sender's address first. */
  function Handle(c0: Client, p: Packet, port: nat): Effect {
    if c0.finished then Effect(c0, None)
    else
      var c := c0.(peer := port);
      if c.mode != STATE_RRQ && port != c.serverPort then Effect(c, None)
      else
        match p
        case Other => Effect(c, None)
        case OptionAck(b) =>
          var d := c.(mode := STATE_OACK, serverPort := port,
                      blkSize := if b.Some? then b.value else c.blkSize);
          Effect(d, Some(Send(d)))
        case Data(n, payload) => HandleData(c.(block := n), payload, port)
  }

  function HandleData(c: Client, payload: seq<byte>, port: nat): Effect {
    var first := c.mode != STATE_DATA;
    var d := if first then c.(mode := STATE_DATA, serverPort := port, lastBlock := 0) else c;
    if first && d.block != 1 then Effect(d, None)
    else if d.block == d.lastBlock then Effect(d, Some(Send(d)))
    else
      var e := d.(lastBlock := d.block, stored := d.stored + [Stored(Wrap32(d.block - 1), payload)],
                  finished := |payload| < d.blkSize as int);
      Effect(e, Some(Send(e)))
  }

  /** TftpTimeout */
  function Timeout(c: Client): Effect {
    if c.finished then Effect(c, None)
    else
      var d := c.(timeouts := c.timeouts + 1);
      Effect(d, if d.timeouts > TIMEOUT_COUNT then None else Some(Send(d)))
  }

  /** Once the server's port is latched, a datagram from elsewhere is not answered and changes
      nothing but the address the next datagram goes to. */
  lemma ForeignPortIgnored(c: Client, p: Packet, port: nat)
    requires c.mode != STATE_RRQ && port != c.serverPort
    ensures Handle(c, p, port) == Effect(if c.finished then c else c.(peer := port), None)
  {
  }

  /** A client that waits for its first block, be it for the first time or after an OACK that
      came late, passes over every other block when it comes first, unanswered; but when that
      block comes again it is taken, block 0 only being acknowledged. */
  lemma FirstBlockTwice(c: Client, n: u16, payload: seq<byte>, port: nat)
    requires !c.finished && n != 1
    requires c.mode == STATE_RRQ || (c.mode == STATE_OACK && port == c.serverPort)
    ensures var first := Handle(c, Data(n, payload), port);
            var again := Handle(first.client, Data(n, payload), port);
            && first.sent == None && first.client.stored == c.stored && !first.client.finished
            && again.sent == Some(Ack(n))
            && again.client.stored == (if n == 0 then c.stored else c.stored + [Stored(n - 1, payload)])
            && (again.client.finished <==> n != 0 && |payload| < c.blkSize as int)
  {
  }

  /** Why the channel must keep its order: an OACK that comes during the data phase makes the
      client forget its last block, and the server's next two repetitions store it again. */
  lemma LateOptionsStoreTwice(c: Client, b: Option<u16>, payload: seq<byte>)
    requires !c.finished && c.mode == STATE_DATA && c.lastBlock > 1
    ensures var n, port := c.lastBlock, c.serverPort;
            var oack := Handle(c, OptionAck(b), port);
            var first := Handle(oack.client, Data(n, payload), port);
            var again := Handle(first.client, Data(n, payload), port);
            && oack.sent == Some(Ack(c.block)) && first.sent == None && first.client.stored == c.stored
            && again.client.stored == c.stored + [Stored(n - 1, payload)]
  {
    var oack := Handle(c, OptionAck(b), c.serverPort);
    FirstBlockTwice(oack.client, c.lastBlock, payload, c.serverPort);
  }

  // ---------------------------------------------------------------- the code

  class Downloader {
    var mode: Mode
    var serverPort: nat
    var peer: nat
    var block: u16
    var lastBlock: u16
    var blkSize: u16
    var timeouts: nat
    var stored: seq<Stored>
    var finished: bool

    function State(): Client
      reads this
    {
      Client(mode, serverPort, peer, block, lastBlock, blkSize, timeouts, stored, finished)
    }

    constructor ()
      ensures State() == Start(State())
      ensures mode == STATE_RRQ && serverPort == peer == 69 && block == 0 && blkSize == 512
      ensures timeouts == 0 && stored == [] && !finished
    {
      mode, serverPort, peer, block, lastBlock := STATE_RRQ, WELL_KNOWN_PORT, WELL_KNOWN_PORT, 0, 0;
      blkSize, timeouts, stored, finished := BLOCK_SIZE, 0, [], false;
    }

    method TftpSend() returns (m: Message)
      ensures m == Send(State())
    {
      match mode {
        case STATE_RRQ => m := ReadRequest;
        case _ => m := Ack(block);
      }
    }

    method TftpHandler(p: Packet, port: nat) returns (sent: Option<Message>)
      requires !finished
      modifies this
      ensures Effect(State(), sent) == Handle(old(State()), p, port)
    {
      sent := None;
      peer := port;
      if mode != STATE_RRQ && port != serverPort {
        return;
      }
      match p {
        case Other =>
        case OptionAck(b) =>
          mode := STATE_OACK;
          serverPort := port;
          if b.Some? {
            blkSize := b.value;
          }
          var m := TftpSend();
          sent := Some(m);
        case Data(n, payload) =>
          block := n;
          if mode == STATE_RRQ || mode == STATE_OACK {
            mode := STATE_DATA;
            serverPort := port;
            lastBlock := 0;
            if block != 1 {
              return;
            }
          }
          if block == lastBlock {
            var m := TftpSend();
            sent := Some(m);
            return;
          }
          lastBlock := block;
          stored := stored + [Stored(Wrap32(block - 1), payload)];
          var m := TftpSend();
          sent := Some(m);
          if |payload| < blkSize {
            finished := true;   // Tftp_Uninit
          }
      }
    }

    method TftpTimeout() returns (sent: Option<Message>)
      requires !finished
      modifies this
      ensures Effect(State(), sent) == Timeout(old(State()))
    {
      timeouts := timeouts + 1;
      sent := None;
      if timeouts <= TIMEOUT_COUNT {
        var m := TftpSend();
        sent := Some(m);
      }
    }
  }

  // ---------------------------------------------------------------- the system

  /** The file as the server cuts it: full blocks and one short one (possibly empty). */
  datatype File = File(blocks: seq<seq<byte>>, blkSize: u16, oack: bool, option: Option<u16>, port: nat)

  ghost predicate FileOk(f: File) {
    && f.blocks != []
    && (forall i | 0 <= i < |f.blocks| - 1 :: |f.blocks[i]| == f.blkSize as int)
    && |f.blocks[|f.blocks| - 1]| < f.blkSize as int
    && f.blkSize == (if f.oack && f.option.Some? then f.option.value else BLOCK_SIZE)
  }

  /** Idle, options acknowledged, or block `n` (from 1) in flight. */
  datatype Server = Idle | Options | Sending(n: nat)

  /** A client datagram under way, with the number of blocks stored when it was sent. */
  datatype Mail = Mail(msg: Message, ord: nat)

  /** `down` holds 0 for the OACK and `n` for data block `n`. */
  datatype Sys = Sys(client: Client, server: Server, down: seq<nat>, up: seq<Mail>)

  function Number(n: nat): u16 {
    n % TWO16
  }

  /** The datagram an entry of `down` stands for. */
  function Datagram(f: File, n: nat): Packet {
    if n == 0 then OptionAck(f.option)
    else if n <= |f.blocks| then Data(Number(n), f.blocks[n - 1])
    else Other
  }

  function Deliver(s: Sys, e: Effect, port: nat): Sys {
    var s' := s.(client := e.client);
    if e.sent.Some? && (e.client.peer == port || e.client.peer == WELL_KNOWN_PORT)
    then s'.(up := s.up + [Mail(e.sent.value, |e.client.stored|)])
    else s'
  }

  /** The lockstep server: it moves on only when the block in flight is acknowledged. */
  function Serve(f: File, s: Server, m: Message): (Server, seq<nat>) {
    match (s, m)
    case (Idle, ReadRequest) => if f.oack then (Options, [0]) else (Sending(1), [1])
    case (Options, Ack(k)) => if k == 0 then (Sending(1), [1]) else (s, [])
    case (Sending(n), Ack(k)) =>
      if k == Number(n) && n < |f.blocks| then (Sending(n + 1), [n + 1]) else (s, [])
    case _ => (s, [])
  }

  function Current(s: Server): seq<nat> {
    match s
    case Idle => []
    case Options => [0]
    case Sending(n) => [n]
  }

  datatype Step =
    | ClientReceives
    | ForeignDatagram(p: Packet, port: nat)
    | TimerFires
    | ServerReceives
    | ServerRepeats
    | LoseDown(i: nat)
    | DuplicateDown(i: nat)
    | LoseUp(i: nat)
    | DuplicateUp(i: nat)

  function Without<T>(s: seq<T>, i: nat): seq<T>
    requires i < |s|
  {
    s[..i] + s[i + 1..]
  }

  function Twice<T>(s: seq<T>, i: nat): seq<T>
    requires i < |s|
  {
    s[..i + 1] + s[i..]
  }

  ghost predicate Enabled(f: File, s: Sys, a: Step) {
    match a
    case ClientReceives => s.down != []
    case ForeignDatagram(_, port) => s.client.mode != STATE_RRQ && port != f.port
    case TimerFires => true
    case ServerReceives => s.up != []
    case ServerRepeats => true
    case LoseDown(i) => i < |s.down|
    case DuplicateDown(i) => i < |s.down|
    case LoseUp(i) => i < |s.up|
    case DuplicateUp(i) => i < |s.up|
  }

  function Next(f: File, s: Sys, a: Step): Sys {
    match a
    case ClientReceives =>
      if s.down == [] then s
      else Deliver(s.(down := s.down[1..]), Handle(s.client, Datagram(f, s.down[0]), f.port), f.port)
    case ForeignDatagram(p, port) => Deliver(s, Handle(s.client, p, port), f.port)
    case TimerFires => Deliver(s, Timeout(s.client), f.port)
    case ServerReceives =>
      if s.up == [] then s
      else
        var (server, out) := Serve(f, s.server, s.up[0].msg);
        s.(server := server, down := s.down + out, up := s.up[1..])
    case ServerRepeats => s.(down := s.down + Current(s.server))
    case LoseDown(i) => if i < |s.down| then s.(down := Without(s.down, i)) else s
    case DuplicateDown(i) => if i < |s.down| then s.(down := Twice(s.down, i)) else s
    case LoseUp(i) => if i < |s.up| then s.(up := Without(s.up, i)) else s
    case DuplicateUp(i) => if i < |s.up| then s.(up := Twice(s.up, i)) else s
  }

  function Boot(c: Client): Sys {
    Sys(Start(c), Idle, [], [])
  }

  function RunSys(f: File, c: Client, steps: seq<Step>): Sys
    decreases |steps|
  {
    if steps == [] then Boot(c) else Next(f, RunSys(f, c, steps[..|steps| - 1]), steps[|steps| - 1])
  }

  ghost predicate Feasible(f: File, c: Client, steps: seq<Step>)
    decreases |steps|
  {
    steps == [] ||
    (Feasible(f, c, steps[..|steps| - 1]) &&
     Enabled(f, RunSys(f, c, steps[..|steps| - 1]), steps[|steps| - 1]))
  }
}
