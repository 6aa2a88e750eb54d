/** The HTTP download path in the source's own shape: the socket loop of HAL_TCP_Read,
    the staging buffer of http_wr_to_flash, the header loop of httpclient_response_parse
    and the Content-Length path of httpclient_retrieve_content, sharing one set of
    mutable fields. The methods are proved against HttpHeader.Parse and
    HttpFlash.Download, which know nothing of reads, timeouts or buffers, and against
    HttpSocket.Receiving, which knows nothing of bytes. */
module HttpClient {
  import opened Bytes
  import opened NorFlash
  import opened NorImage
  import opened HttpFlash
  import opened HttpHeader
  import opened HttpSocket

  const CHUNK_SIZE: nat := 256      // HTTPCLIENT_CHUNK_SIZE

  class Client {
    const pt: Partition
    const decode: seq<byte> -> Option<Field>
    const room: u32            // response_buf_len - 1

    // bk_http
    var nor: Nor
    const wrBuf: array<byte>
    var wrLastLen: nat
    var flashAddress: nat
    var doData: bool
    var httpTotal: u32

    // the response buffer of httpclient_recv_response and its fill level
    const data: array<byte>
    var len: nat

    // httpclient_data_t
    var head: Head

    // the peer's bytes not yet received, and the socket's future
    var stream: seq<byte>
    var events: seq<NetEvent>

    ghost predicate Valid()
      reads this, wrBuf, data
    {
      && wrBuf != data
      && wrBuf.Length == BLOCK && wrLastLen < BLOCK
      && data.Length == CHUNK_SIZE && len <= WINDOW && data[len] == 0
      && Device(nor)
    }

    ghost function Staged(): Writer
      requires Valid()
      reads this, wrBuf, data
    {
      Writer(nor, flashAddress, wrBuf[..wrLastLen])
    }

    constructor (pt: Partition, decode: seq<byte> -> Option<Field>, responseBufLen: u32,
                 nor: Nor, stream: seq<byte>, events: seq<NetEvent>)
      requires Device(nor)
      ensures Valid() && fresh(wrBuf) && fresh(data)
      ensures this.pt == pt && this.decode == decode && room == Wrap32(responseBufLen - 1) && this.nor == nor
      ensures this.stream == stream && this.events == events
      ensures !doData && len == 0
    {
      this.pt, this.decode, room, this.nor := pt, decode, Wrap32(responseBufLen - 1), nor;
      this.stream, this.events := stream, events;
      wrBuf := new byte[BLOCK];
      wrLastLen, flashAddress, doData, httpTotal := 0, 0, false, 0;
      data := new byte[CHUNK_SIZE](_ => 0);
      len := 0;
      head := Head(0, 0, false);
    }

    /** http_flash_wr */
    method WriteFlash(src: seq<byte>)
      requires Valid()
      modifies this`nor, this`flashAddress
      ensures Valid()
      ensures Staged() == FlashWr(pt, old(Staged()), src)
    {
      if flashAddress % SECTOR == 0 {
        nor := Erase(nor, flashAddress);
      }
      if flashAddress >= pt.start && flashAddress + |src| < pt.start + pt.length {
        nor := Program(nor, flashAddress, src);
        flashAddress := flashAddress + |src|;
      }
    }

    /** http_flash_init */
    method FlashInit()
      requires Valid()
      modifies this`wrLastLen, this`flashAddress
      ensures Valid()
      ensures Staged() == Init(pt, nor)
    {
      wrLastLen := 0;
      flashAddress := pt.start;
    }

    /** One turn of the loop of http_wr_to_flash. */
    method StageChunk(chunk: seq<byte>)
      requires Valid() && wrLastLen + |chunk| <= BLOCK
      modifies this`nor, this`flashAddress, this`wrLastLen, wrBuf
      ensures Valid()
      ensures Staged() == Stage(pt, old(Staged()), chunk)
    {
      ghost var full := wrBuf[..wrLastLen] + chunk;
      Copy(wrBuf, wrLastLen, chunk);
      assert wrBuf[..wrLastLen + |chunk|] == full;
      if wrLastLen + |chunk| >= BLOCK {
        assert wrBuf[..] == full;
        WriteFlash(wrBuf[..]);
        wrLastLen := 0;
      } else {
        wrLastLen := wrLastLen + |chunk|;
      }
    }

    /** http_wr_to_flash */
    method WrToFlash(page: seq<byte>)
      requires Valid()
      modifies this`nor, this`flashAddress, this`wrLastLen, wrBuf
      ensures Valid()
      ensures Staged() == Feed(pt, old(Staged()), page)
    {
      hide Stage;
      var i := 0;
      assert page[0..] == page;
      while i < |page|
        invariant 0 <= i <= |page| && Valid()
        invariant Feed(pt, Staged(), page[i..]) == Feed(pt, old(Staged()), page)
      {
        var n := Min(|page| - i, BLOCK - wrLastLen);
        assert page[i..][..n] == page[i..i + n] && page[i..][n..] == page[i + n..];
        StageChunk(page[i..i + n]);
        i := i + n;
      }
    }

    /** One turn of the loop of HAL_TCP_Read up to its condition: `got` is what recv
        returned, `leave` a break, `err` the code a break sets. */
    method NetTurn(max: nat) returns (got: seq<byte>, err: int, leave: bool)
      requires Valid() && 0 < max && events != []
      modifies this`nor, this`flashAddress, this`wrLastLen, wrBuf, this`stream, this`events
      ensures Valid() && events == old(events)[1..]
      ensures got <= old(stream) && stream == old(stream)[|got|..]
      ensures |got| == Take(old(events)[0], max, |old(stream)|) <= max
      ensures Staged() == if doData && got != [] then Feed(pt, old(Staged()), got) else old(Staged())
      ensures leave == Leaves(old(events)[0], |got|) && err == Code(old(events)[0], |got|)
    {
      var e := events[0];
      events := events[1..];
      got, err, leave := [], 0, false;
      match e {
        case RecvBytes(n) =>
          got := stream[..Min(n, Min(max, |stream|))];
          stream := stream[|got|..];
          if got == [] {
            err, leave := -1, true;
          } else if doData {
            WrToFlash(got);
          }
        case SelectZero => leave := true;
        case RecvFail => err, leave := -2, true;
        case SelectFail => err, leave := -2, true;
        case _ =>
      }
    }

    /** HAL_TCP_Read: `got` is what the caller's buffer holds afterwards. */
    method TcpRead(max: nat) returns (ret: int, got: seq<byte>)
      requires Valid() && 0 < max
      modifies this`nor, this`flashAddress, this`wrLastLen, wrBuf, this`stream, this`events
      ensures Valid()
      ensures Suffix(old(stream), stream)
      ensures Staged() == if doData then Feed(pt, old(Staged()), Taken(old(stream), stream)) else old(Staged())
      ensures ReadResult(ret, |stream|, events) ==
                Reading(old(events), |old(stream)|, max, if doData then httpTotal else 0, 0, false)
      ensures !doData && ret > 0 ==> got == Taken(old(stream), stream) && |got| <= max
      ensures !doData && ret <= 0 ==> stream == old(stream)
    {
      hide Feed, Device, Taken, Take, Leaves, Code, Reading;
      got := [];
      var lenRecv, err, dataOver, going := 0, 0, false, true;
      ghost var s0 := stream;
      ghost var want := if doData then httpTotal else 0;
      ghost var whole := Reading(events, |stream|, max, want, 0, false);
      TakenNone(s0);
      FeedNothing(pt, Staged());
      while going
        invariant Valid() && Suffix(s0, stream) && lenRecv == |s0| - |stream|
        invariant Staged() == if doData then Feed(pt, old(Staged()), Taken(s0, stream)) else old(Staged())
        invariant !doData ==> (going ==> lenRecv == 0) && (lenRecv > 0 ==> got == Taken(s0, stream) && |got| <= max)
        invariant dataOver || lenRecv == 0 || lenRecv >= max
        invariant going ==> whole == Reading(events, |stream|, max, want, lenRecv, dataOver)
        invariant !going ==> whole == ReadResult(if lenRecv != 0 then lenRecv else err, |stream|, events)
        invariant err <= 0
        decreases |events|, going
      {
        if |events| == 0 || events[0].TimeUp? {
          ReadingOver(events, |stream|, max, want, lenRecv, dataOver);
          return ERROR_HTTP_CONN, got;
        }
        ReadingTurn(events, |stream|, max, want, lenRecv, dataOver);
        TurnSigns(events[0], max, |stream|);
        ghost var before := stream;
        var bytes, e, leave := NetTurn(max);
        if bytes != [] {
          TakenMore(s0, before, bytes);
          FeedAppend(pt, old(Staged()), Taken(s0, before), bytes);
          got := bytes;
          dataOver := dataOver || |bytes| < max;
          lenRecv := lenRecv + |bytes|;
        }
        err := e;
        going := !leave && ((doData && lenRecv < httpTotal) || (lenRecv < max && !dataOver));
      }
      ret := if lenRecv != 0 then lenRecv else err;
    }

    /** memmove of the unread part to the front, with its terminating NUL. */
    method Shift(k: nat)
      requires Valid() && k <= len
      modifies this`len, data
      ensures Valid() && data[..len] == old(data[..len])[k..]
    {
      ghost var d := data[..len];
      Copy(data, 0, data[k..len + 1]);
      len := len - k;
      assert data[..len] == d[k..];
    }

    /** What httpclient_recv appends to the response buffer. */
    method Append(got: seq<byte>)
      requires Valid() && len + |got| <= WINDOW
      modifies this`len, data
      ensures Valid() && data[..len] == old(data[..len]) + got
    {
      ghost var d := data[..len];
      Copy(data, len, got + [0]);
      len := len + |got|;
      assert data[..len] == d + got;
    }

    /** httpclient_recv of up to the free part of the response buffer: bytes only move
        from the stream into the buffer. */
    method More() returns (ok: bool)
      requires Valid() && !doData && len < WINDOW
      modifies this`len, data, this`stream, this`events
      modifies this`nor, this`flashAddress, this`wrLastLen, wrBuf
      ensures Valid() && Staged() == old(Staged()) && Suffix(old(stream), stream)
      ensures ok ==> data[..len] + stream == old(data[..len] + stream) && |events| < |old(events)|
      ensures Delivers(old(events), |old(stream)|) && old(stream) != [] ==>
                ok && Delivers(events, |stream|) && Spare(events, |stream|) >= old(Spare(events, |stream|))
    {
      hide Taken, Reading, Harmless, Recvs;
      ghost var buf, before := data[..len], stream;
      if Delivers(events, |stream|) && stream != [] {
        ReadingDelivers(events, |stream|, WINDOW - len, 0, 0, false);
      }
      var ret, got := TcpRead(WINDOW - len);
      ok := ret >= 0;
      if ok {
        TakenAndLeft(before, stream);
        if ret == 0 {
          got := [];
        }
        assert got + stream == before;
        Append(got);
        Regroup(buf, got, stream, before);
      }
    }

    /** The header loop of httpclient_response_parse: for every way the stream is cut
        into reads the result is HttpHeader.Parse of the whole stream. */
    method ReadHeaders() returns (r: Outcome)
      requires Valid() && !doData
      modifies this`head, this`len, data, this`stream, this`events
      modifies this`nor, this`flashAddress, this`wrLastLen, wrBuf
      ensures Valid() && nor == old(nor) && Suffix(old(stream), stream)
      ensures r.Success? || r.BadHeader? || r.ConnError?
      ensures var p := Parse(decode, old(head), old(data[..len] + stream));
              && (r.Success? ==> p == Done(head, data[..len] + stream))
              && (r.BadHeader? ==> p == Bad)
              && (Delivers(old(events), |old(stream)|) && !p.Starved? ==>
                    !r.ConnError? && Delivers(events, |stream|) && Spare(events, |stream|) >= old(Spare(events, |stream|)))
    {
      hide Delivers, Spare, Apply;
      ghost var whole := Parse(decode, head, data[..len] + stream);
      while true
        invariant Valid() && Staged() == old(Staged()) && Suffix(old(stream), stream)
        invariant Parse(decode, head, data[..len] + stream) == whole
        invariant Delivers(old(events), |old(stream)|) && !whole.Starved? ==>
                    Delivers(events, |stream|) && Spare(events, |stream|) >= old(Spare(events, |stream|))
        decreases |events|, len
      {
        ghost var buf, before := data[..len], stream;
        var p := Crlf(data[..len], 0);
        if p >= 0 {
          LineInBuffer(decode, head, buf, stream, p);
          var line := data[..p];
          assert line == buf[..p];
          var f := decode(line);
          if p != 0 && f.None? { return BadHeader; }
          Shift(p + 2);
          assert data[..len] == buf[p + 2..];
          if p == 0 { return Success; }
          head := Apply(head, f.value);
        } else {
          NoLineInBuffer(decode, head, buf, stream);
          if len >= WINDOW { return BadHeader; }
          var ok := More();
          SuffixTrans(old(stream), before, stream);
          if !ok { return ConnError; }
        }
      }
    }

    /** One turn of the receive loop below, past its bookkeeping. */
    method ReadOn(max: nat, ghost w0: Writer, ghost s0: seq<byte>) returns (ret: int)
      requires Valid() && doData && 0 < max && |w0.pending| < BLOCK
      requires Suffix(s0, stream) && Staged() == Feed(pt, w0, Taken(s0, stream))
      modifies this`nor, this`flashAddress, this`wrLastLen, wrBuf, this`stream, this`events
      ensures Valid() && Suffix(s0, stream) && |stream| <= |old(stream)|
      ensures Staged() == Feed(pt, w0, Taken(s0, stream))
      ensures ReadResult(ret, |stream|, events) == Reading(old(events), |old(stream)|, max, httpTotal, 0, false)
    {
      hide Feed, Device, Taken, Reading;
      ghost var before := stream;
      ghost var got;
      ret, got := TcpRead(max);
      FeedAppend(pt, w0, Taken(s0, before), Taken(before, stream));
      TakenTwice(s0, before, stream);
      SuffixTrans(s0, before, stream);
    }

    /** The do-while loop of httpclient_retrieve_content: `total` bytes announced, `first`
        bytes of the body already written. */
    method ReceiveBody(total: u32, first: nat) returns (r: Outcome)
      requires Valid() && doData
      modifies this`nor, this`flashAddress, this`wrLastLen, wrBuf, this`stream, this`events
      ensures Valid() && Suffix(old(stream), stream)
      ensures Staged() == Feed(pt, old(Staged()), Taken(old(stream), stream))
      ensures Ending(r, |stream|, events) == Receiving(room, old(events), |old(stream)|, httpTotal, total, first, 0)
    {
      hide Feed, Device, Taken, Suffix, Reading;
      SuffixRefl(stream);
      var readLen, n, count := total, first, 0;
      ghost var s0, w0 := stream, Staged();
      ghost var whole := Receiving(room, events, |stream|, httpTotal, total, first, 0);
      TakenNone(s0);
      FeedNothing(pt, w0);
      while true
        invariant Valid() && Suffix(s0, stream) && 0 <= readLen && 0 <= n && 0 <= count
        invariant Staged() == Feed(pt, w0, Taken(s0, stream))
        invariant whole == Receiving(room, events, |stream|, httpTotal, readLen, n, count)
        decreases |events|
      {
        var t := Min(n, readLen);
        if count + t >= room {
          return MoreData;
        }
        count := count + t;
        if n > readLen {
          n, readLen := n - readLen, 0;
        } else {
          readLen := readLen - n;
        }
        if readLen == 0 { break; }
        n := ReadOn(Min(Min(TCP_LEN_MAX, room - count), readLen), w0, s0);
        if n < 0 {
          return ConnError;
        }
        if readLen == n { break; }
      }
      r := Success;
    }

    /** http_flash_init and the bytes that came along with the headers. */
    method BeginBody(total: u32)
      requires Valid()
      modifies this`nor, this`flashAddress, this`wrLastLen, wrBuf, this`doData, this`httpTotal
      ensures Valid() && doData && httpTotal == Wrap32(total - len)
      ensures Staged() == Feed(pt, Init(pt, old(nor)), data[..len])
    {
      FlashInit();
      WrToFlash(data[..len]);
      doData := true;
      httpTotal := Wrap32(total - len);
    }

    /** The closing http_flash_wr and http_flash_deinit. */
    method EndBody()
      requires Valid()
      modifies this`nor, this`flashAddress, this`wrLastLen, this`doData, this`httpTotal
      ensures Valid() && nor == Flush(pt, old(Staged())).nor
    {
      doData := false;
      WriteFlash(wrBuf[..wrLastLen]);
      wrLastLen, flashAddress, httpTotal := 0, 0, 0;
    }

    /** The Content-Length path of httpclient_retrieve_content. `head.retrieveLen` is the
        announced length, the response buffer holds what followed the headers. Whatever
        the network does, Success and MoreData are told apart by the number of bytes that
        came in, and flash is the download of exactly those bytes, without its closing
        write unless the result is Success. */
    method RetrieveContent() returns (r: Outcome)
      requires Valid() && !doData
      modifies this`nor, this`flashAddress, this`wrLastLen, wrBuf, this`stream, this`events
      modifies this`doData, this`httpTotal
      ensures Valid() && Suffix(old(stream), stream)
      ensures r.TooLarge? <==> Wrap32(head.retrieveLen) > pt.length
      ensures r.TooLarge? ==> nor == old(nor) && stream == old(stream)
      ensures var f := old(data[..len]) + Taken(old(stream), stream);
              && (!r.TooLarge? ==> EndsWell(room, r, |f|, Wrap32(head.retrieveLen), len))
              && (r.Success? ==> nor == Download(pt, old(nor), f).nor)
              && (r.MoreData? || r.ConnError? ==> nor == Feed(pt, Init(pt, old(nor)), f).nor)
      ensures r.Success? || r.MoreData? || r.ConnError? || r.TooLarge?
      ensures !r.TooLarge? ==>
                Ending(r, |stream|, events) == Fetching(room, old(events), |old(stream)|, Wrap32(head.retrieveLen), len)
    {
      hide Feed, Download, Device, Taken, FlashWr, Flush, Receiving;
      var readLen: u32 := Wrap32(head.retrieveLen);
      if readLen > pt.length {
        return TooLarge;
      }
      ghost var s0, left := stream, data[..len];
      OutcomeExact(room, events, |stream|, readLen, len);
      BeginBody(readLen);
      r := ReceiveBody(readLen, len);
      FeedAppend(pt, Init(pt, old(nor)), left, Taken(s0, stream));
      TakenSize(s0, stream);
      if r.Success? {
        DownloadUnfold(pt, old(nor), left + Taken(s0, stream));
        EndBody();
      }
    }

    /** httpclient_retrieve_content as called at the end of the headers. */
    method FetchBody() returns (r: Outcome)
      requires Valid() && !doData
      modifies this`nor, this`flashAddress, this`wrLastLen, wrBuf, this`stream, this`events
      modifies this`doData, this`httpTotal
      ensures Valid() && Suffix(old(stream), stream)
      ensures Settled(r, Some(200), Done(head, []), pt, true)
      ensures Safely(r, pt, old(nor), nor)
      ensures Ended(room, r, pt, old(nor), nor, old(data[..len] + stream), |stream|, Wrap32(head.retrieveLen))
      ensures Answered(room, r, old(events), |old(stream)|, |stream|, Done(head, old(data[..len] + stream)), pt)
    {
      hide Delivers, Spare, ByLength, Device, Fetched, BrokenOff, Taken, Feed, Download, Wrap32, EndsWell, Fetching;
      hide Safely, Init;
      ghost var left, s, n0, body := data[..len], stream, nor, data[..len] + stream;
      SafelySame(pt, n0);
      if head.chunked || head.contentLen == 0xFFFF_FFFF { return Unmodelled; }
      ghost var events0, announced := events, Wrap32(head.retrieveLen);
      r := RetrieveContent();
      TakenOfBody(left, s, stream);
      ghost var f := left + Taken(s, stream);
      SafelyOf(pt, n0, f);
      if r.Success? {
        FetchedOf(room, pt, n0, nor, f, announced, len);
      } else if r.MoreData? {
        BrokenOffOf(room, pt, n0, nor, body, f, announced, len);
      }
      if r != TooLarge {
        AnsweredOf(room, r, events0, s, |stream|, head, left, pt);
      }
    }

    /** httpclient_response_parse, the first read being in the response buffer, against the
        parser of HttpHeader. `status` is the status-line scanner. */
    method ParseAndFetch(status: seq<byte> -> Option<int>) returns (r: Outcome)
      requires Valid() && !doData
      modifies this, data, wrBuf
      ensures Valid() && Suffix(old(stream), stream)
      ensures var code := StatusLine(old(data[..len]), status);
              var p := Response(decode, old(head), old(data[..len]), old(stream));
              && (r.BadStatus? <==> code.None?)
              && (r.BadStatus? ==> nor == old(nor))
              && (r.BadHeader? ==> p == Bad)
              && (r.Success? || r.MoreData? ==> p.Done? && code == Some(200))
              && (p.Done? ==> Ended(room, r, pt, old(nor), nor, p.body, |stream|, Wrap32(p.head.retrieveLen)))
              && (p.Done? && code == Some(200) ==> Answered(room, r, old(events), |old(stream)|, |stream|, p, pt))
              && (p.Done? && code.Some? ==> Settled(r, code, p, pt, Delivers(old(events), |old(stream)|)))
      ensures Safely(r, pt, old(nor), nor)
    {
      hide Delivers, Spare, Announced, ByLength, Device, Parse, Crlf, Fetched, BrokenOff, Wrap32, Staged, Suffix;
      hide Safely;
      SuffixRefl(stream);
      SafelySame(pt, nor);
      ghost var buf, s0, n0 := data[..len], stream, nor;
      var p := Crlf(data[..len], 0);
      if p < 0 { return BadStatus; }
      assert data[..p] == buf[..p];
      var code := status(data[..p]);
      if code.None? { return BadStatus; }
      ghost var parsed := Response(decode, head, buf, stream);
      Shift(p + 2);
      head := Head(0xFFFF_FFFF, head.retrieveLen, false);
      assert parsed == Parse(decode, head, data[..len] + stream);
      r := ReadHeaders();
      hide Response, StatusLine;
      if !r.Success? { return; }
      if code.value != 200 { return NotFound; }
      ghost var s1 := stream;
      r := FetchBody();
      SuffixTrans(s0, s1, stream);
    }

    /** httpclient_response_parse from raw response to flash. However the response is cut into
        reads, Success puts the announced body into the partition, MoreData leaves its
        unfinished last block out, and a network without faults that ends with the body decides
        by its length alone which of the two it is. What is announced is what the header lines
        on the wire say: the number in the last Content-Length line. */
    method ResponseParse(status: seq<byte> -> Option<int>) returns (r: Outcome)
      requires Valid() && !doData
      modifies this, data, wrBuf
      ensures Valid() && Suffix(old(stream), stream)
      ensures var code := StatusLine(old(data[..len]), status);
              var p := Response(decode, old(head), old(data[..len]), old(stream));
              && (r.BadStatus? <==> code.None?)
              && (r.BadStatus? ==> nor == old(nor))
              && (r.BadHeader? ==> p == Bad)
              && (r.Success? || r.MoreData? ==> p.Done? && code == Some(200))
              && (p.Done? ==> Ended(room, r, pt, old(nor), nor, p.body, |stream|, Wrap32(p.head.retrieveLen)))
              && (p.Done? && code == Some(200) ==> Answered(room, r, old(events), |old(stream)|, |stream|, p, pt))
      ensures Safely(r, pt, old(nor), nor)
      ensures forall line, lines, body | Sent(decode, old(data[..len]), old(stream), line, lines, body) ::
                Understood(room, r, status(line), decode, lines, body, pt, old(nor), nor,
                           old(events), |old(stream)|, |stream|)
    {
      hide Sent, Understood, Response, StatusLine, Answered, Ended, Settled, Safely, Says, Delivers, Device, Suffix;
      ghost var buf, s0, h, n0, e0 := data[..len], stream, head, nor, events;
      r := ParseAndFetch(status);
      forall line, lines, body | Sent(decode, buf, s0, line, lines, body)
        ensures Understood(room, r, status(line), decode, lines, body, pt, n0, nor, e0, |s0|, |stream|)
      {
        ResponseOnWire(decode, status, h, buf, s0, line, lines, body);
        UnderstoodOf(room, r, status(line), decode, lines, body, pt, n0, nor, e0, |s0|, |stream|,
                     h.retrieveLen, Response(decode, h, buf, s0));
      }
    }
  }

  ghost predicate Suffix(s: seq<byte>, t: seq<byte>) {
    |t| <= |s| && t == s[|s| - |t|..]
  }

  /** What was received between two moments of one stream. */
  ghost function Taken(before: seq<byte>, after: seq<byte>): seq<byte>
  {
    if |after| <= |before| then before[..|before| - |after|] else []
  }

  lemma SuffixRefl(a: seq<byte>)
    ensures Suffix(a, a)
  {
  }

  lemma SuffixTrans(a: seq<byte>, b: seq<byte>, c: seq<byte>)
    requires Suffix(a, b) && Suffix(b, c)
    ensures Suffix(a, c)
  {
  }

  lemma TakenAndLeft(s: seq<byte>, t: seq<byte>)
    requires Suffix(s, t)
    ensures Taken(s, t) + t == s
    ensures |s| == |t| ==> s == t
  {
  }

  lemma Regroup(buf: seq<byte>, got: seq<byte>, stream: seq<byte>, before: seq<byte>)
    requires got + stream == before
    ensures (buf + got) + stream == buf + before
  {
    assert (buf + got) + stream == buf + (got + stream);
  }

  lemma TakenSize(s: seq<byte>, t: seq<byte>)
    requires Suffix(s, t)
    ensures |Taken(s, t)| == |s| - |t|
  {
  }

  lemma TakenTwice(s0: seq<byte>, s: seq<byte>, t: seq<byte>)
    requires Suffix(s0, s) && Suffix(s, t)
    ensures Taken(s0, s) + Taken(s, t) == Taken(s0, t)
  {
  }

  lemma DownloadUnfold(pt: Partition, n: Nor, f: seq<byte>)
    ensures Download(pt, n, f) == Flush(pt, Feed(pt, Init(pt, n), f))
  {
  }

  lemma TakenNone(s: seq<byte>)
    ensures Taken(s, s) == []
  {
  }

  lemma TakenMore(s0: seq<byte>, s: seq<byte>, got: seq<byte>)
    requires Suffix(s0, s) && got <= s
    ensures Suffix(s0, s[|got|..])
    ensures Taken(s0, s[|got|..]) == Taken(s0, s) + got
    ensures |s| == |s0| ==> Taken(s0, s[|got|..]) == got
  {
    var k := |got|;
    assert s0[..|s0| - |s| + k] == s0[..|s0| - |s|] + s[..k];
    if |s| == |s0| {
      assert s0[..0] + s[..k] == got;
    }
  }

  /** The status line scanned from the first read: None when it has no line end there or
      the scanner rejects it. */
  ghost function StatusLine(buf: seq<byte>, status: seq<byte> -> Option<int>): Option<int> {
    var p := Crlf(buf, 0);
    if p < 0 then None else status(buf[..p])
  }

  /** The header section behind the status line, parsed from the whole stream. */
  ghost function Response(decode: seq<byte> -> Option<Field>, h: Head, buf: seq<byte>, stream: seq<byte>): Parsed {
    var p := Crlf(buf, 0);
    Parse(decode, Head(0xFFFF_FFFF, h.retrieveLen, false), (if p < 0 then [] else buf[p + 2..]) + stream)
  }

  /** A response with a Content-Length that fits the partition. */
  ghost predicate Announced(p: Parsed, pt: Partition) {
    && p.Done? && !p.head.chunked && p.head.contentLen != 0xFFFF_FFFF
    && Wrap32(p.head.retrieveLen) <= pt.length
  }

  /** How a network without faults decides the outcome: a complete body is fetched, and
      if the peer closes behind at most the announced bytes, their number decides. */
  ghost predicate Answered(room: nat, r: Outcome, events: seq<NetEvent>, avail: nat, rest: nat, p: Parsed, pt: Partition) {
    Announced(p, pt) && WINDOW < room ==> ByBody(room, r, events, avail, rest, |p.body|, Wrap32(p.head.retrieveLen))
  }

  ghost predicate ByBody(room: nat, r: Outcome, events: seq<NetEvent>, avail: nat, rest: nat, size: nat, announced: nat) {
    && (Delivers(events, avail) && size == announced ==> r.Success? && rest == 0)
    && (Delivers(events, avail) && Spare(events, avail) >= 2 && size <= announced ==>
          ByLength(room, r, size, announced, 0) && rest == 0)
  }

  /** How the status code and the header fields settle what is fetched at all; without a
      `steady` network any of it may end in a connection error. */
  ghost predicate Settled(r: Outcome, code: Option<int>, p: Parsed, pt: Partition, steady: bool)
    requires p.Done?
  {
    || (r.ConnError? && !steady)
    || (if code != Some(200) then r.NotFound?
        else if p.head.chunked || p.head.contentLen == 0xFFFF_FFFF then r.Unmodelled?
        else if Wrap32(p.head.retrieveLen) > pt.length then r.TooLarge?
        else r.Success? || r.MoreData? || r.ConnError?)
  }

  /** A response as it travels: status line, header lines, body; the first read holds the
      status line. */
  ghost predicate Sent(decode: seq<byte> -> Option<Field>, buf: seq<byte>, stream: seq<byte>,
                       line: seq<byte>, lines: seq<seq<byte>>, body: seq<byte>) {
    && buf + stream == line + [13, 10] + Wire(lines, body)
    && |line| + 2 <= |buf| && (forall i | 0 <= i < |line| :: line[i] != 0 && line[i] != 13)
    && Readable(decode, lines)
  }

  lemma ResponseOnWire(decode: seq<byte> -> Option<Field>, status: seq<byte> -> Option<int>, h: Head,
                       buf: seq<byte>, stream: seq<byte>, line: seq<byte>, lines: seq<seq<byte>>, body: seq<byte>)
    requires Sent(decode, buf, stream, line, lines, body)
    ensures StatusLine(buf, status) == status(line)
    ensures var p := Response(decode, h, buf, stream);
            p.Done? && p.body == body && Says(decode, Head(0xFFFF_FFFF, h.retrieveLen, false), lines, p.head)
  {
    hide Parse, Says, Crlf;
    var whole, rest := buf + stream, Wire(lines, body);
    assert whole == line + [CR, LF] + rest;
    CrlfAfter(line, rest, 0);
    CrlfPrefix(buf, whole, 0);
    assert buf[..|line|] == whole[..|line|] == line;
    assert buf[|line| + 2..] + stream == whole[|line| + 2..] == rest;
    HeaderSays(decode, Head(0xFFFF_FFFF, h.retrieveLen, false), lines, body);
  }

  /** The last line to settle the lengths is Content-Length: `v`, and no line says chunked. */
  ghost predicate Declares(decode: seq<byte> -> Option<Field>, lines: seq<seq<byte>>, k: nat, v: int) {
    LastWord(decode, lines, k) && decode(lines[k]) == Some(ContentLength(Some(v))) && !Mentions(decode, lines, Chunked)
  }

  /** What becomes of a response, in terms of what travelled: its status code, its header
      lines and its body. */
  ghost predicate Understood(room: nat, r: Outcome, code: Option<int>, decode: seq<byte> -> Option<Field>,
                             lines: seq<seq<byte>>, body: seq<byte>, pt: Partition, n0: Nor, n: Nor,
                             events: seq<NetEvent>, avail: nat, rest: nat) {
    var steady := Delivers(events, avail);
    && (r.BadStatus? <==> code.None?)
    && (code.Some? && code != Some(200) ==> r.NotFound? || (!steady && r.ConnError?))
    && (code == Some(200) && (Mentions(decode, lines, Chunked) || forall i | 0 <= i < |lines| :: !Settles(decode(lines[i])))
        ==> r.Unmodelled? || (!steady && r.ConnError?))
    && (forall k: nat, v: int :: code == Some(200) && Declares(decode, lines, k, v) ==>
          if (v + 1) % 0x1_0000_0000 == 0 then r.Unmodelled? || (!steady && r.ConnError?)
          else Fetches(room, r, v % 0x1_0000_0000, body, pt, n0, n, events, avail, rest))
  }

  /** The download of a body announced with `announced` bytes. */
  ghost predicate Fetches(room: nat, r: Outcome, announced: nat, body: seq<byte>, pt: Partition, n0: Nor, n: Nor,
                          events: seq<NetEvent>, avail: nat, rest: nat) {
    && (announced > pt.length ==> r.TooLarge? || (r.ConnError? && !Delivers(events, avail)))
    && (announced <= pt.length ==> r.Success? || r.MoreData? || r.ConnError?)
    && Ended(room, r, pt, n0, n, body, rest, announced)
    && (announced <= pt.length && WINDOW < room ==> ByBody(room, r, events, avail, rest, |body|, announced))
  }

  lemma UnderstoodOf(room: nat, r: Outcome, code: Option<int>, decode: seq<byte> -> Option<Field>,
                     lines: seq<seq<byte>>, body: seq<byte>, pt: Partition, n0: Nor, n: Nor,
                     events: seq<NetEvent>, avail: nat, rest: nat, left: int, p: Parsed)
    requires p.Done? && p.body == body && Says(decode, Head(0xFFFF_FFFF, left, false), lines, p.head)
    requires r.BadStatus? <==> code.None?
    requires code.Some? ==> Settled(r, code, p, pt, Delivers(events, avail))
    requires Ended(room, r, pt, n0, n, body, rest, Wrap32(p.head.retrieveLen))
    requires code == Some(200) ==> Answered(room, r, events, avail, rest, p, pt)
    ensures Understood(room, r, code, decode, lines, body, pt, n0, n, events, avail, rest)
  {
    hide Ended, ByBody, Delivers, Says, Mentions, Declares, Wrap32;
    hide Settles;
    if Mentions(decode, lines, Chunked) || forall i | 0 <= i < |lines| :: !Settles(decode(lines[i])) {
      Undeclared(decode, left, lines, p.head);
    }
    forall k: nat, v: int | code == Some(200) && Declares(decode, lines, k, v)
      ensures if (v + 1) % 0x1_0000_0000 == 0 then r.Unmodelled? || (!Delivers(events, avail) && r.ConnError?)
              else Fetches(room, r, v % 0x1_0000_0000, body, pt, n0, n, events, avail, rest)
    {
      Declared(decode, left, lines, p.head, k, v);
    }
  }

  lemma Undeclared(decode: seq<byte> -> Option<Field>, left: int, lines: seq<seq<byte>>, x: Head)
    requires Says(decode, Head(0xFFFF_FFFF, left, false), lines, x)
    requires Mentions(decode, lines, Chunked) || forall i | 0 <= i < |lines| :: !Settles(decode(lines[i]))
    ensures x.chunked || x.contentLen == 0xFFFF_FFFF
  {
    hide Settles, Mentions, LastWord;
  }

  lemma Declared(decode: seq<byte> -> Option<Field>, left: int, lines: seq<seq<byte>>, x: Head, k: nat, v: int)
    requires Says(decode, Head(0xFFFF_FFFF, left, false), lines, x) && Declares(decode, lines, k, v)
    ensures !x.chunked && x.contentLen == v % 0x1_0000_0000 == Wrap32(x.retrieveLen)
    ensures (v + 1) % 0x1_0000_0000 == 0 <==> x.contentLen == 0xFFFF_FFFF
  {
    hide Settles, Mentions;
    assert SettledBy(decode(lines[k]).value, x);
  }

  lemma AnsweredOf(room: nat, r: Outcome, events: seq<NetEvent>, s: seq<byte>, rest: nat, head: Head,
                   left: seq<byte>, pt: Partition)
    requires |left| <= WINDOW
    requires var x := Fetching(room, events, |s|, Wrap32(head.retrieveLen), |left|); r == x.outcome && rest == x.avail
    ensures Answered(room, r, events, |s|, rest, Done(head, left + s), pt)
  {
    hide Fetching, Wrap32, Harmless, Recvs;
    var total := Wrap32(head.retrieveLen);
    if WINDOW < room && Delivers(events, |s|) && |left + s| == total {
      CompleteSucceeds(room, events, |s|, total, |left|);
    }
    if WINDOW < room && Delivers(events, |s|) && Spare(events, |s|) >= 2 && |left + s| <= total {
      ClosingServer(room, events, |s|, total, |left|);
    }
  }

  /** What Success and MoreData say about flash: `rest` bytes of `body` have not been
      received. */
  ghost predicate Ended(room: nat, r: Outcome, pt: Partition, n0: Nor, n: Nor, body: seq<byte>, rest: nat, announced: nat) {
    r.Success? || r.MoreData? ==>
      && rest <= |body|
      && (r.Success? ==> Fetched(room, pt, n0, n, body[..|body| - rest], announced))
      && (r.MoreData? ==> BrokenOff(room, pt, n0, n, body, body[..|body| - rest], announced))
  }

  /** Whatever the outcome, only the partition's sectors change. */
  ghost predicate Safely(r: Outcome, pt: Partition, n0: Nor, n: Nor) {
    PartitionOk(pt, n0) && n0.log == [] && !r.Unmodelled? ==> n == n0 || Contained(pt, n0, n)
  }

  ghost predicate Contained(pt: Partition, n0: Nor, n: Nor) {
    && Confined(n.log, pt.start, pt.start + pt.length)
    && SameOutside(n0, n, pt.start, pt.start + Ceil(pt.length))
  }

  lemma SafelySame(pt: Partition, n: Nor)
    ensures forall r: Outcome :: Safely(r, pt, n, n)
  {
  }

  lemma SafelyOf(pt: Partition, n0: Nor, f: seq<byte>)
    ensures forall r: Outcome :: Safely(r, pt, n0, Download(pt, n0, f).nor)
    ensures forall r: Outcome :: Safely(r, pt, n0, Feed(pt, Init(pt, n0), f).nor)
  {
    hide Download, Feed, Confined, SameOutside;
    if PartitionOk(pt, n0) && n0.log == [] {
      DownloadSafe(pt, n0, f);
    }
  }

  /** Announced lengths for which no surplus can reach the partition's end. */
  predicate Sure(room: nat, pt: Partition, announced: nat) {
    announced < pt.length && (room <= announced || (3 * announced <= pt.length && WINDOW < pt.length))
  }

  /** What a successful download of `f` promises: the exact condition for the announced body
      to be in flash, and that it is there whenever the announced length makes sure of it. */
  ghost predicate Fetched(room: nat, pt: Partition, n0: Nor, n: Nor, f: seq<byte>, announced: nat) {
    && announced <= |f| && (|f| == announced || announced < room)
    && n == Download(pt, n0, f).nor
    && (PartitionOk(pt, n0) && n0.log == [] && announced <= pt.length ==>
          && (Holds(n, pt.start, f[..announced]) <==>
                |f| < pt.length || forall i | Cap(pt) <= i < announced :: f[i] == Tail(pt, f, i))
          && (Sure(room, pt, announced) ==> Written(pt.start, n0, n, f) && Holds(n, pt.start, f[..announced])))
  }

  lemma FetchedOf(room: nat, pt: Partition, n0: Nor, n: Nor, f: seq<byte>, announced: nat, first: nat)
    requires EndsWell(room, Success, |f|, announced, first) && first <= WINDOW && n == Download(pt, n0, f).nor
    ensures Fetched(room, pt, n0, n, f, announced)
  {
    hide Download, Written, Holds, Cap, Tail, Device;
    if PartitionOk(pt, n0) && n0.log == [] && announced <= pt.length {
      DownloadExactly(pt, n0, f, f[..announced]);
      if Sure(room, pt, announced) {
        DownloadWritten(pt, n0, f);
      }
    }
  }

  /** What MoreData leaves behind, `f` having been received of `body`: never exactly the
      announced bytes, unless the response buffer is no larger than the header window, and
      in flash without their unfinished last block. */
  ghost predicate BrokenOff(room: nat, pt: Partition, n0: Nor, n: Nor, body: seq<byte>, f: seq<byte>, announced: nat) {
    && Min(|f|, announced) >= room && (|f| != announced || room <= WINDOW)
    && n == Feed(pt, Init(pt, n0), f).nor
    && (PartitionOk(pt, n0) && n0.log == [] && announced <= Min(|body|, pt.length) ==>
          (Holds(n, pt.start, body[..announced]) <==>
             forall i | Kept(pt, f) <= i < announced :: body[i] == Remains(pt, n0, f, i)))
  }

  lemma BrokenOffOf(room: nat, pt: Partition, n0: Nor, n: Nor, body: seq<byte>, f: seq<byte>, announced: nat, first: nat)
    requires EndsWell(room, MoreData, |f|, announced, first) && first <= WINDOW
    requires n == Feed(pt, Init(pt, n0), f).nor && f <= body
    ensures BrokenOff(room, pt, n0, n, body, f, announced)
  {
    hide Feed, Remains, Kept, Holds;
    if PartitionOk(pt, n0) && n0.log == [] && announced <= Min(|body|, pt.length) {
      BrokenOffExactly(pt, n0, f, body[..announced]);
    }
  }

  /** 1100 announced bytes arrive with one more behind them: the result is MoreData, which
      the caller takes for success, and the last 76 bytes are not in flash. */
  lemma MoreDataWithoutImage()
    ensures var pt, n := Partition(0, 2 * SECTOR), Nor(seq(2 * SECTOR, _ => 0xFF), []);
            var sent: seq<byte> := seq(1101, _ => 0);
            && Fetching(HTTP_RESP_CONTENT_LEN - 1, [RecvBytes(1460), RecvBytes(1460)], |sent|, 1100, 0) ==
                 Ending(MoreData, 0, [])
            && PartitionOk(pt, n)
            && !Holds(Feed(pt, Init(pt, n), sent).nor, pt.start, sent[..1100])
  {
    hide Fetching, Feed, Holds;
    var pt, n := Partition(0, 2 * SECTOR), Nor(seq(2 * SECTOR, _ => 0xFF), []);
    var sent: seq<byte> := seq(1101, _ => 0);
    ExtraByteIsMoreData();
    BrokenOffExactly(pt, n, sent, sent[..1100]);
    assert Kept(pt, sent) == 1024 && Ceil(1024) == SECTOR;
    assert sent[..1100][1024] != Remains(pt, n, sent, 1024);
  }

  lemma TakenOfBody(left: seq<byte>, s: seq<byte>, t: seq<byte>)
    requires Suffix(s, t)
    ensures var body := left + s; left + Taken(s, t) == body[..|body| - |t|]
  {
  }
}
