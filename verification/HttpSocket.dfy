/** How much a download takes from the socket and how it ends, as a function of the
    network's behaviour alone: the receive loop of HAL_TCP_Read and the do-while loop of
    httpclient_retrieve_content, counted in bytes. */
module HttpSocket {
  import opened Bytes

  const TCP_LEN_MAX: nat := 1460
  const ERROR_HTTP_CONN: int := -8
  const HTTP_RESP_CONTENT_LEN: nat := 1024

  /** One turn of the socket loop, chosen by the network and the clock. */
  datatype NetEvent =
    | TimeUp               // the deadline has passed
    | NotReady             // select returned, the socket is not in the set
    | SelectZero           // the socket is in the set but select returned 0
    | SelectFail
    | RecvBytes(n: nat)    // recv may return up to n bytes, and 0 once the peer has closed
    | RecvIntr             // EINTR
    | RecvFail

  datatype Outcome =
    | Success
    | MoreData             // HTTP_RETRIEVE_MORE_DATA
    | ConnError            // ERROR_HTTP_CONN
    | TooLarge             // NULL_VALUE_ERROR: body larger than the partition
    | BadHeader            // ERROR_HTTP
    | BadStatus            // ERROR_HTTP_UNRESOLVED_DNS
    | NotFound             // any status code but 200
    | Unmodelled           // chunked transfer or no Content-Length

  /** No fault: turns deliver, find nothing yet, or are interrupted. */
  ghost predicate Harmless(events: seq<NetEvent>) {
    forall e | e in events :: (e.RecvBytes? && e.n > 0) || e.NotReady? || e.RecvIntr?
  }

  ghost function Recvs(events: seq<NetEvent>): nat {
    if events == [] then 0 else Bit(events[0].RecvBytes?) + Recvs(events[1..])
  }

  /** No fault, and recv is reached often enough for `avail` bytes. */
  ghost predicate Delivers(events: seq<NetEvent>, avail: nat) {
    Harmless(events) && Recvs(events) >= avail
  }

  /** The recv turns left over once the peer's bytes are in. */
  ghost function Spare(events: seq<NetEvent>, avail: nat): int {
    Recvs(events) - avail
  }

  // ---------------------------------------------------------------- one read

  /** What recv returns, with `avail` bytes of the peer's stream left. */
  function Take(e: NetEvent, max: nat, avail: nat): nat {
    if e.RecvBytes? then Min(e.n, Min(max, avail)) else 0
  }

  /** The turns that end in a break. */
  predicate Leaves(e: NetEvent, k: nat) {
    (e.RecvBytes? && k == 0) || e.SelectZero? || e.SelectFail? || e.RecvFail?
  }

  function Code(e: NetEvent, k: nat): int {
    if e.RecvBytes? && k == 0 then -1 else if e.SelectFail? || e.RecvFail? then -2 else 0
  }

  datatype ReadResult = ReadResult(ret: int, avail: nat, events: seq<NetEvent>)

  /** HAL_TCP_Read from the state `got` == len_recv, `over` == data_over; `want` is
      http_total while a body is being read and 0 otherwise. */
  ghost function Reading(events: seq<NetEvent>, avail: nat, max: nat, want: nat, got: nat, over: bool): (x: ReadResult)
    requires 0 < max
    ensures x.avail <= avail
    ensures x.ret >= 0 ==> x.ret == got + avail - x.avail && |x.events| < |events|
  {
    if events == [] || events[0].TimeUp? then ReadResult(ERROR_HTTP_CONN, avail, events)
    else
      var e := events[0];
      var k := Take(e, max, avail);
      var over' := over || 0 < k < max;
      if Leaves(e, k) || !(got + k < want || (got + k < max && !over')) then
        ReadResult(if got + k != 0 then got + k else Code(e, k), avail - k, events[1..])
      else
        Reading(events[1..], avail - k, max, want, got + k, over')
  }

  /** The next turn of a network that still has something to deliver. */
  lemma NextTurn(events: seq<NetEvent>, max: nat, avail: nat)
    requires 0 < max && Harmless(events) && 0 < Recvs(events)
    ensures events != [] && !events[0].TimeUp? && Harmless(events[1..])
    ensures var e, k := events[0], Take(events[0], max, avail);
            && k <= avail && k <= max
            && (e.RecvBytes? ==> Recvs(events[1..]) == Recvs(events) - 1 && (k == 0 <==> avail == 0))
            && (!e.RecvBytes? ==> Recvs(events[1..]) == Recvs(events) && k == 0)
            && (Leaves(e, k) <==> e.RecvBytes? && avail == 0)
            && (Leaves(e, k) ==> Code(e, k) == -1)
  {
    assert events[0] in events;
  }

  /** A turn that ends in a break has received nothing. */
  lemma TurnSigns(e: NetEvent, max: nat, avail: nat)
    requires 0 < max
    ensures var k := Take(e, max, avail);
            && k <= avail && k <= max && Code(e, k) <= 0
            && (Leaves(e, k) ==> k == 0) && (Code(e, k) != 0 ==> Leaves(e, k))
  {
  }

  lemma ReadingOver(events: seq<NetEvent>, avail: nat, max: nat, want: nat, got: nat, over: bool)
    requires 0 < max && (events == [] || events[0].TimeUp?)
    ensures Reading(events, avail, max, want, got, over) == ReadResult(ERROR_HTTP_CONN, avail, events)
  {
  }

  lemma ReadingTurn(events: seq<NetEvent>, avail: nat, max: nat, want: nat, got: nat, over: bool)
    requires 0 < max && events != [] && !events[0].TimeUp?
    ensures var e, k := events[0], Take(events[0], max, avail);
            var over' := over || 0 < k < max;
            Reading(events, avail, max, want, got, over) ==
            if Leaves(e, k) || !(got + k < want || (got + k < max && !over')) then
              ReadResult(if got + k != 0 then got + k else Code(e, k), avail - k, events[1..])
            else Reading(events[1..], avail - k, max, want, got + k, over')
  {
  }

  /** A read stays below what it waits for plus two recv sizes. */
  lemma {:induction false} ReadingBound(events: seq<NetEvent>, avail: nat, max: nat, want: nat, got: nat, over: bool)
    requires 0 < max && (got < want || got < max)
    ensures Reading(events, avail, max, want, got, over).ret < want + 2 * max
  {
    hide Reading, Take, Leaves, Code;
    if events == [] || events[0].TimeUp? {
      ReadingOver(events, avail, max, want, got, over);
    } else {
      ReadingTurn(events, avail, max, want, got, over);
      TurnSigns(events[0], max, avail);
      var k := Take(events[0], max, avail);
      if got + k < want || got + k < max {
        ReadingBound(events[1..], avail - k, max, want, got + k, over || 0 < k < max);
      }
    }
  }

  /** A delivering network fills every read. */
  lemma {:induction false} ReadingDelivers(events: seq<NetEvent>, avail: nat, max: nat, want: nat, got: nat, over: bool)
    requires 0 < max && Delivers(events, avail) && 0 < avail && want <= got + avail
    requires got < want || (got < max && !over)
    ensures var x := Reading(events, avail, max, want, got, over);
            && x.ret > 0 && x.ret >= want
            && Delivers(x.events, x.avail) && Spare(x.events, x.avail) >= Spare(events, avail)
  {
    hide Reading, Harmless, Recvs, Take, Leaves, Code;
    NextTurn(events, max, avail);
    ReadingTurn(events, avail, max, want, got, over);
    var k := Take(events[0], max, avail);
    var over' := over || 0 < k < max;
    if got + k < want || (got + k < max && !over') {
      ReadingDelivers(events[1..], avail - k, max, want, got + k, over');
    }
  }

  /** A peer that closes before the caller has what it waits for: the read returns all
      that came, or the closing itself. */
  lemma {:induction false} ReadingCloses(events: seq<NetEvent>, avail: nat, max: nat, want: nat, got: nat, over: bool)
    requires 0 < max && Delivers(events, avail + 1) && got + avail < want
    ensures var x := Reading(events, avail, max, want, got, over);
            && x.ret == (if got + avail == 0 then -1 else got + avail)
            && x.avail == 0 && Harmless(x.events) && Recvs(x.events) >= Recvs(events) - avail - 1
  {
    hide Reading, Harmless, Recvs, Take, Leaves, Code;
    NextTurn(events, max, avail);
    ReadingTurn(events, avail, max, want, got, over);
    var k := Take(events[0], max, avail);
    if !Leaves(events[0], k) {
      ReadingCloses(events[1..], avail - k, max, want, got + k, over || 0 < k < max);
    }
  }

  /** Turns that neither deliver nor end anything, up to turn `k`. */
  ghost predicate IdleUntil(events: seq<NetEvent>, k: nat) {
    k < |events| && forall i | 0 <= i < k :: events[i].NotReady? || events[i].RecvIntr?
  }

  /** The first turn that does more than idle ends the read unless it delivers: bytes
      received before take precedence over the code of a failure, but not over the deadline. */
  lemma {:induction false} ReadingBreaks(events: seq<NetEvent>, avail: nat, max: nat, want: nat, got: nat, over: bool, k: nat)
    requires 0 < max && IdleUntil(events, k) && (got < want || (got < max && !over))
    ensures var x := Reading(events, avail, max, want, got, over);
            match events[k]
            case RecvFail => x == ReadResult(if got > 0 then got else -2, avail, events[k + 1..])
            case SelectFail => x == ReadResult(if got > 0 then got else -2, avail, events[k + 1..])
            case SelectZero => x == ReadResult(got, avail, events[k + 1..])
            case TimeUp => x == ReadResult(-8, avail, events[k..])
            case RecvBytes(n) =>
              n == 0 || avail == 0 ==> x == ReadResult(if got > 0 then got else -1, avail, events[k + 1..])
            case _ => true
    decreases k
  {
    hide Reading;
    if events[0].TimeUp? {
      ReadingOver(events, avail, max, want, got, over);
    } else {
      ReadingTurn(events, avail, max, want, got, over);
      if k > 0 {
        assert IdleUntil(events[1..], k - 1);
        ReadingBreaks(events[1..], avail, max, want, got, over, k - 1);
      }
    }
  }

  // ---------------------------------------------------------------- the body

  datatype Ending = Ending(outcome: Outcome, avail: nat, events: seq<NetEvent>)

  /** The size of the next read of the body; `room` is response_buf_len - 1. */
  function ReadSize(room: nat, count: nat, left: nat): (max: nat)
    requires count < room && 0 < left
    ensures 0 < max <= left && max <= 1460 && count + max <= room
    ensures max == left || max == 1460 || count + max == room
  {
    Min(Min(TCP_LEN_MAX, room - count), left)
  }

  /** The do-while loop: `readLen` bytes are still expected, of which `n` have just come
      in, and `count` have been counted towards the response buffer. */
  ghost function Receiving(room: nat, events: seq<NetEvent>, avail: nat, want: nat,
                           readLen: nat, n: nat, count: nat): (x: Ending)
    ensures x.avail <= avail
    decreases |events|
  {
    if count + Min(n, readLen) >= room then Ending(MoreData, avail, events)
    else if n >= readLen then Ending(Success, avail, events)
    else
      var x := Reading(events, avail, ReadSize(room, count + n, readLen - n), want, 0, false);
      if x.ret < 0 then Ending(ConnError, x.avail, x.events)
      else if x.ret == readLen - n then Ending(Success, x.avail, x.events)
      else Receiving(room, x.events, x.avail, want, readLen - n, x.ret, count + n)
  }

  /** The loops from the end of the headers on, `first` of `total` announced bytes having
      come along with them. */
  ghost function Fetching(room: nat, events: seq<NetEvent>, avail: nat, total: u32, first: nat): Ending {
    Receiving(room, events, avail, Wrap32(total - first), total, first, 0)
  }

  /** What an ending means for the bytes that arrived: Success is exactly the announced
      ones, or a surplus on fewer announced ones than the response buffer holds; MoreData
      is another number and both at least that, or a leftover of that size. */
  ghost predicate EndsWell(room: nat, outcome: Outcome, arrived: nat, total: nat, first: nat) {
    && (outcome.Success? || outcome.MoreData? || outcome.ConnError?)
    && (outcome.Success? ==>
          Min(first, total) < room && (arrived == total || (arrived > total && total < room)))
    && (outcome.MoreData? ==>
          Min(arrived, total) >= room && (arrived != total || Min(first, total) >= room))
    && (outcome.Success? && arrived > total ==> arrived < 3 * total || arrived == first)
  }

  lemma {:induction false} ReceivingEnds(room: nat, events: seq<NetEvent>, avail: nat, want: nat,
                                         readLen: nat, n: nat, count: nat, first: nat)
    requires n != readLen || count + n < room || Min(first, count + readLen) >= room
    requires n < readLen ==> want <= count + readLen
    requires n > readLen ==> count + n < 3 * (count + readLen) || count + n == first
    requires if count == 0 then n == first || first < room else first < room
    ensures var x := Receiving(room, events, avail, want, readLen, n, count);
            EndsWell(room, x.outcome, count + n + avail - x.avail, count + readLen, first)
    decreases |events|
  {
    hide Reading;
    if count + Min(n, readLen) < room && n < readLen {
      var max := ReadSize(room, count + n, readLen - n);
      var x := Reading(events, avail, max, want, 0, false);
      ReadingBound(events, avail, max, want, 0, false);
      if x.ret >= 0 && x.ret != readLen - n {
        ReceivingEnds(room, x.events, x.avail, want, readLen - n, x.ret, count + n, first);
      }
    }
  }

  /** For every response buffer and network: among the endings the caller takes for success,
      Success and MoreData are told apart by the number of bytes that arrived. */
  lemma OutcomeExact(room: nat, events: seq<NetEvent>, avail: nat, total: u32, first: nat)
    ensures var x := Fetching(room, events, avail, total, first);
            var arrived := first + avail - x.avail;
            && EndsWell(room, x.outcome, arrived, total, first)
            && (!x.outcome.ConnError? ==>
                  (x.outcome.MoreData? <==>
                     Min(arrived, total) >= room && (arrived != total || Min(first, total) >= room)))
            && (!x.outcome.ConnError? && first < room ==>
                  && (x.outcome.MoreData? <==> arrived != total && Min(arrived, total) >= room)
                  && (x.outcome.Success? <==> arrived == total || (arrived > total && total < room)))
  {
    hide Receiving;
    ReceivingEnds(room, events, avail, Wrap32(total - first), total, first, 0, first);
  }

  /** The outcome by lengths alone: complete, short of the response buffer's size, or cut
      off behind it, which is reported as MoreData; so is a leftover of that size. */
  ghost predicate ByLength(room: nat, r: Outcome, sent: nat, total: nat, first: nat) {
    r == if first >= room then MoreData
         else if sent == total then Success
         else if sent >= room then MoreData
         else ConnError
  }

  /** A server that sends no more than it announced and then closes, over a network
      without faults. */
  lemma ClosingServer(room: nat, events: seq<NetEvent>, avail: nat, total: u32, first: nat)
    requires first + avail <= total && Delivers(events, avail + 2)
    ensures var x := Fetching(room, events, avail, total, first);
            ByLength(room, x.outcome, first + avail, total, first) && (first < room ==> x.avail == 0)
  {
    hide Reading;
    var want := Wrap32(total - first);
    if first < room {
      if first + avail == total {
        CompleteSucceeds(room, events, avail, total, first);
      } else {
        var max := ReadSize(room, first, total - first);
        ReadingCloses(events, avail, max, want, 0, false);
        var x := Reading(events, avail, max, want, 0, false);
        if 0 < avail {
          if first + avail < room {
            ReadingCloses(x.events, 0, ReadSize(room, first + avail, total - first - avail), want, 0, false);
          }
          assert Fetching(room, events, avail, total, first) ==
                 Receiving(room, x.events, 0, want, total - first, avail, first);
        }
      }
    }
  }

  lemma CompleteSucceeds(room: nat, events: seq<NetEvent>, avail: nat, total: u32, first: nat)
    requires first < room && first + avail == total && Delivers(events, avail)
    ensures var x := Fetching(room, events, avail, total, first);
            x.outcome.Success? && x.avail == 0
  {
    hide Reading;
    if avail > 0 {
      ReadingDelivers(events, avail, ReadSize(room, first, avail), avail, 0, false);
    }
  }

  /** A download that still waits for bytes: a failing recv or select, or the deadline, ends
      it with a connection error before anything more is taken; a select of 0 ends the read
      with 0 and the download goes on as if it had not happened. */
  lemma FetchingBreaks(room: nat, events: seq<NetEvent>, avail: nat, total: u32, first: nat, k: nat)
    requires first < room && first < total && IdleUntil(events, k)
    ensures var x := Fetching(room, events, avail, total, first);
            match events[k]
            case RecvFail => x == Ending(ConnError, avail, events[k + 1..])
            case SelectFail => x == Ending(ConnError, avail, events[k + 1..])
            case TimeUp => x == Ending(ConnError, avail, events[k..])
            case SelectZero => x == Fetching(room, events[k + 1..], avail, total, first)
            case RecvBytes(n) => n == 0 || avail == 0 ==> x == Ending(ConnError, avail, events[k + 1..])
            case _ => true
  {
    hide Reading;
    ReadingBreaks(events, avail, ReadSize(room, first, total - first), Wrap32(total - first), 0, false, k);
    if events[k].SelectZero? {
      assert Fetching(room, events, avail, total, first) ==
             Receiving(room, events[k + 1..], avail, Wrap32(total - first), total - first, 0, first);
    }
  }

  /** With the caller's 1024-byte buffer: 2000 bytes announced, the connection closes after
      1500. */
  lemma EarlyCloseIsMoreData()
    ensures var events := [RecvBytes(1460), RecvBytes(1460), RecvBytes(1460)];
            Fetching(HTTP_RESP_CONTENT_LEN - 1, events, 1500, 2000, 0).outcome == MoreData
  {
    var events := [RecvBytes(1460), RecvBytes(1460), RecvBytes(1460)];
    assert events[1..] == [RecvBytes(1460), RecvBytes(1460)] && events[1..][1..] == [RecvBytes(1460)];
    assert Reading([RecvBytes(1460)], 0, 1023, 2000, 1500, true).ret == 1500;
    assert Reading(events[1..], 477, 1023, 2000, 1023, false).ret == 1500;
    assert Reading(events, 1500, 1023, 2000, 0, false).ret == 1500;
  }

  /** 1100 bytes announced and sent, with one byte behind them. */
  lemma ExtraByteIsMoreData()
    ensures var events := [RecvBytes(1460), RecvBytes(1460)];
            Fetching(HTTP_RESP_CONTENT_LEN - 1, events, 1101, 1100, 0) == Ending(MoreData, 0, [])
  {
    var events := [RecvBytes(1460), RecvBytes(1460)];
    assert events[1..] == [RecvBytes(1460)];
    assert Reading([RecvBytes(1460)], 78, 1023, 1100, 1023, false) == ReadResult(1101, 0, []);
    assert Reading(events, 1101, 1023, 1100, 0, false) == ReadResult(1101, 0, []);
  }
}
