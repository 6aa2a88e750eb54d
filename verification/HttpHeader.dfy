/** The header section of an HTTP response as a function of the byte stream, free of
    any notion of reads: lines end at CRLF (sections 5 and 6.2 of RFC 9112), a line with
    its CRLF must fit the 255 usable bytes of the receive buffer, and each line goes
    through the same handler. */
module HttpHeader {
  import opened Bytes

  const WINDOW: nat := 255   // HTTPCLIENT_CHUNK_SIZE - 1
  const CR: byte := 13
  const LF: byte := 10

  /** What the line grammar recognises; how sscanf splits a line is a parameter. */
  datatype Field =
    | ContentLength(number: Option<int>)   // None: the value holds no number
    | Chunked
    | OtherField

  /** response_content_len, retrieve_len and is_chunked of httpclient_data_t. */
  datatype Head = Head(contentLen: u32, retrieveLen: int, chunked: bool)

  function Apply(h: Head, f: Field): Head {
    match f
    case ContentLength(Some(v)) => h.(contentLen := Wrap32(v), retrieveLen := Signed32(Wrap32(v)))
    case ContentLength(None) => h.(retrieveLen := Signed32(h.contentLen))
    case Chunked => Head(0, 0, true)
    case OtherField => h
  }

  /** strstr(s, "\r\n") on a NUL-terminated copy of `s`, from `i` on; -1 for NULL. */
  function Crlf(s: seq<byte>, i: nat): (p: int)
    ensures p == -1 || (i <= p && p + 2 <= |s| && s[p] == CR && s[p + 1] == LF)
    decreases |s| - i
  {
    if i + 2 > |s| || s[i] == 0 then -1
    else if s[i] == CR && s[i + 1] == LF then i
    else Crlf(s, i + 1)
  }

  /** `p` is the first line end from `i` on, with no NUL in front of it. */
  ghost predicate LineEndAt(s: seq<byte>, i: nat, p: int) {
    && i <= p && p + 2 <= |s| && s[p] == 13 && s[p + 1] == 10
    && forall j | i <= j < p :: s[j] != 0 && !(s[j] == 13 && s[j + 1] == 10)
  }

  /** The search finds exactly that, and fails exactly if there is none. */
  lemma {:induction false} CrlfExactly(s: seq<byte>, i: nat)
    ensures forall p: nat :: Crlf(s, i) == p <==> LineEndAt(s, i, p)
    ensures Crlf(s, i) == -1 <==> forall p: nat :: !LineEndAt(s, i, p)
    decreases |s| - i
  {
    if i + 2 <= |s| && s[i] != 0 && !(s[i] == CR && s[i + 1] == LF) {
      CrlfExactly(s, i + 1);
      assert forall p: nat :: LineEndAt(s, i, p) <==> LineEndAt(s, i + 1, p);
    }
    if Crlf(s, i) >= 0 {
      var p: nat := Crlf(s, i);
      assert LineEndAt(s, i, p);
    }
  }

  /** Seeing more of the stream never moves a line end, and never hides one. */
  lemma {:induction false} CrlfPrefix(s: seq<byte>, t: seq<byte>, i: nat)
    requires s <= t
    ensures Crlf(s, i) >= 0 ==> Crlf(t, i) == Crlf(s, i)
    ensures Crlf(t, i) >= 0 && Crlf(t, i) + 2 <= |s| ==> Crlf(s, i) == Crlf(t, i)
    decreases |t| - i
  {
    if i + 2 <= |t| && t[i] != 0 && !(t[i] == CR && t[i + 1] == LF) {
      CrlfPrefix(s, t, i + 1);
    }
  }

  datatype Parsed =
    | Done(head: Head, body: seq<byte>)
    | Bad          // a line too long or one the grammar rejects
    | Starved      // the stream ends before the header section does

  /** The reference: one line at a time over the whole stream. */
  function Parse(decode: seq<byte> -> Option<Field>, h: Head, s: seq<byte>): Parsed
    decreases |s|
  {
    var p := Crlf(s[..Min(|s|, WINDOW)], 0);
    if p < 0 then if |s| < WINDOW then Starved else Bad
    else if p == 0 then Done(h, s[2..])
    else
      match decode(s[..p])
      case None => Bad
      case Some(f) => Parse(decode, Apply(h, f), s[p + 2..])
  }

  /** A line end found in what the buffer holds is the one the reference finds. */
  lemma LineInBuffer(decode: seq<byte> -> Option<Field>, h: Head, buf: seq<byte>, rest: seq<byte>, p: nat)
    requires |buf| <= WINDOW && Crlf(buf, 0) == p
    ensures Parse(decode, h, buf + rest) ==
              if p == 0 then Done(h, buf[2..] + rest)
              else match decode(buf[..p])
                   case None => Bad
                   case Some(f) => Parse(decode, Apply(h, f), buf[p + 2..] + rest)
  {
    var s := buf + rest;
    CrlfPrefix(buf, s[..Min(|s|, WINDOW)], 0);
    assert s[..p] == buf[..p] && s[p + 2..] == buf[p + 2..] + rest;
  }

  /** A full buffer without a line end is a header line that does not fit; with
      nothing left to come it is a header section cut short. */
  lemma NoLineInBuffer(decode: seq<byte> -> Option<Field>, h: Head, buf: seq<byte>, rest: seq<byte>)
    requires |buf| <= WINDOW && Crlf(buf, 0) < 0
    ensures |buf| == WINDOW ==> Parse(decode, h, buf + rest) == Bad
    ensures |buf| < WINDOW && rest == [] ==> Parse(decode, h, buf + rest) == Starved
  {
    var s := buf + rest;
    if |buf| == WINDOW {
      assert s[..WINDOW] == buf;
    } else if rest == [] {
      assert s == buf && s[..|s|] == buf;
    }
  }

  // ---------------------------------------------------------------- what the reference accepts

  /** One header line as it travels. */
  ghost predicate PlainLine(line: seq<byte>) {
    line != [] && forall i | 0 <= i < |line| :: line[i] != 0 && line[i] != CR
  }

  function Wire(lines: seq<seq<byte>>, body: seq<byte>): seq<byte> {
    if lines == [] then [CR, LF] + body else lines[0] + [CR, LF] + Wire(lines[1..], body)
  }

  /** The fold of the line handler over the lines. */
  function Fold(decode: seq<byte> -> Option<Field>, h: Head, lines: seq<seq<byte>>): Option<Head>
    decreases |lines|
  {
    if lines == [] then Some(h)
    else match decode(lines[0])
         case None => None
         case Some(f) => Fold(decode, Apply(h, f), lines[1..])
  }

  lemma {:induction false} CrlfAfter(line: seq<byte>, rest: seq<byte>, i: nat)
    requires i <= |line| && forall j | 0 <= j < |line| :: line[j] != 0 && line[j] != CR
    ensures Crlf(line + [CR, LF] + rest, i) == |line|
    decreases |line| - i
  {
    var s := line + [CR, LF] + rest;
    if i < |line| {
      assert s[i] == line[i];
      CrlfAfter(line, rest, i + 1);
    } else {
      assert s[i] == CR && s[i + 1] == LF;
    }
  }

  /** The reference line by line: a plain line takes part exactly when it fits. */
  lemma ParseLine(decode: seq<byte> -> Option<Field>, h: Head, line: seq<byte>, rest: seq<byte>)
    requires PlainLine(line)
    ensures var s := line + [CR, LF] + rest;
            Parse(decode, h, s) ==
              if |line| + 2 > WINDOW then Bad
              else match decode(line)
                   case None => Bad
                   case Some(f) => Parse(decode, Apply(h, f), rest)
  {
    var s := line + [CR, LF] + rest;
    var w := s[..Min(|s|, WINDOW)];
    CrlfAfter(line, rest, 0);
    CrlfPrefix(w, s, 0);
    if |line| + 2 <= WINDOW {
      assert s[..|line|] == line && s[|line| + 2..] == rest;
    }
  }

  /** On every well-formed header section the reference is the fold over its lines, and
      what follows the empty line is the body; one line too long refuses the response. */
  lemma {:induction false} ParseWire(decode: seq<byte> -> Option<Field>, h: Head, lines: seq<seq<byte>>, body: seq<byte>)
    requires forall i | 0 <= i < |lines| :: PlainLine(lines[i])
    ensures (forall i | 0 <= i < |lines| :: |lines[i]| + 2 <= WINDOW) ==>
              Parse(decode, h, Wire(lines, body)) ==
                match Fold(decode, h, lines)
                case Some(h') => Done(h', body)
                case None => Bad
    ensures (exists i | 0 <= i < |lines| :: |lines[i]| + 2 > WINDOW) ==>
              Parse(decode, h, Wire(lines, body)) == Bad
    decreases |lines|
  {
    var s := Wire(lines, body);
    if lines == [] {
      CrlfAfter([], body, 0);
      assert [] + [CR, LF] + body == s;
      CrlfPrefix(s[..Min(|s|, WINDOW)], s, 0);
      assert s[2..] == body;
    } else {
      ParseLine(decode, h, lines[0], Wire(lines[1..], body));
      if |lines[0]| + 2 <= WINDOW && decode(lines[0]).Some? {
        ParseWire(decode, Apply(h, decode(lines[0]).value), lines[1..], body);
        assert (exists i | 0 <= i < |lines| :: |lines[i]| + 2 > WINDOW) ==>
            exists i | 0 <= i < |lines[1..]| :: |lines[1..][i]| + 2 > WINDOW by {
          if i :| 0 <= i < |lines| && |lines[i]| + 2 > WINDOW {
            assert lines[1..][i - 1] == lines[i];
          }
        }
      }
    }
  }

  // ---------------------------------------------------------------- what the lines say

  /** Lines the parser gets through: plain, with their CRLF within 255 bytes, and accepted. */
  ghost predicate Readable(decode: seq<byte> -> Option<Field>, lines: seq<seq<byte>>) {
    forall i | 0 <= i < |lines| :: PlainLine(lines[i]) && |lines[i]| + 2 <= 255 && decode(lines[i]).Some?
  }

  /** A line that settles both lengths: Content-Length with a number, or chunked encoding. */
  predicate Settles(f: Option<Field>) {
    f.Some? && (f.value.Chunked? || (f.value.ContentLength? && f.value.number.Some?))
  }

  /** Line `k` settles the lengths and none behind it does. */
  ghost predicate LastWord(decode: seq<byte> -> Option<Field>, lines: seq<seq<byte>>, k: nat) {
    k < |lines| && Settles(decode(lines[k])) && forall i | k < i < |lines| :: !Settles(decode(lines[i]))
  }

  ghost predicate Mentions(decode: seq<byte> -> Option<Field>, lines: seq<seq<byte>>, f: Field) {
    exists i | 0 <= i < |lines| :: decode(lines[i]) == Some(f)
  }

  /** `n` is the 32-bit signed integer with the bits of `v`. */
  ghost predicate SameBits(n: int, v: int) {
    -0x8000_0000 <= n < 0x8000_0000 && n % 0x1_0000_0000 == v % 0x1_0000_0000
  }

  /** The lengths a settling line leaves: those of its number, or 0 for a chunked body. */
  ghost predicate SettledBy(f: Field, x: Head) {
    match f
    case ContentLength(Some(v)) =>
      && x.contentLen == v % 0x1_0000_0000 && SameBits(x.retrieveLen, v)
      && (0 <= v < 0x8000_0000 ==> x.contentLen == x.retrieveLen == v)
    case _ => x.contentLen == x.retrieveLen == 0
  }

  /** What the header lines make of the initial head `h`, each field by itself: the lengths
      are those of the last line that settles them; without one, a Content-Length without a
      number copies the initial length; one chunked line makes the body chunked. */
  ghost predicate Says(decode: seq<byte> -> Option<Field>, h: Head, lines: seq<seq<byte>>, x: Head) {
    && (x.chunked <==> h.chunked || Mentions(decode, lines, Chunked))
    && (forall k: nat :: LastWord(decode, lines, k) ==> SettledBy(decode(lines[k]).value, x))
    && ((forall i | 0 <= i < |lines| :: !Settles(decode(lines[i]))) ==>
          && x.contentLen == h.contentLen
          && (if Mentions(decode, lines, ContentLength(None)) then SameBits(x.retrieveLen, h.contentLen)
              else x.retrieveLen == h.retrieveLen))
  }

  lemma ApplyBits(h: Head, f: Field)
    ensures f.ContentLength? && f.number.Some? ==> SettledBy(f, Apply(h, f))
    ensures f.Chunked? ==> SettledBy(f, Apply(h, f))
    ensures f == ContentLength(None) ==> SameBits(Apply(h, f).retrieveLen, h.contentLen)
  {
    hide Signed32;
    if f.ContentLength? {
      var u := if f.number.Some? then Wrap32(f.number.value) else h.contentLen;
      SignedBits(u);
    }
  }

  lemma SignedBits(u: u32)
    ensures SameBits(Signed32(u), u) && (u < 0x8000_0000 ==> Signed32(u) == u)
  {
  }

  /** A front line in front of lines that are understood. */
  lemma SaysMore(decode: seq<byte> -> Option<Field>, h: Head, lines: seq<seq<byte>>, x: Head)
    requires lines != [] && decode(lines[0]).Some?
    requires Says(decode, Apply(h, decode(lines[0]).value), lines[1..], x)
    ensures Says(decode, h, lines, x)
  {
    var rest, f := lines[1..], decode(lines[0]).value;
    ApplyBits(h, f);
    hide SettledBy, SameBits, Wrap32, Signed32;
    assert forall i | 0 < i < |lines| :: lines[i] == rest[i - 1];
    forall g: Field ensures Mentions(decode, lines, g) <==> f == g || Mentions(decode, rest, g) {
      if Mentions(decode, rest, g) {
        var i :| 0 <= i < |rest| && decode(rest[i]) == Some(g);
        assert decode(lines[i + 1]) == Some(g);
      }
    }
    forall k: nat | LastWord(decode, lines, k) ensures SettledBy(decode(lines[k]).value, x) {
      if k > 0 {
        assert LastWord(decode, rest, k - 1);
      } else {
        SettledAndKept(decode, h, f, rest, x);
      }
    }
  }

  /** Lines that settle nothing leave settled lengths alone. */
  lemma SettledAndKept(decode: seq<byte> -> Option<Field>, h: Head, f: Field, rest: seq<seq<byte>>, x: Head)
    requires Settles(Some(f)) && Says(decode, Apply(h, f), rest, x)
    requires forall i | 0 <= i < |rest| :: !Settles(decode(rest[i]))
    ensures SettledBy(f, x)
  {
    ApplyBits(h, f);
  }

  lemma {:induction false} FoldSays(decode: seq<byte> -> Option<Field>, h: Head, lines: seq<seq<byte>>)
    requires forall i | 0 <= i < |lines| :: decode(lines[i]).Some?
    ensures Fold(decode, h, lines).Some? && Says(decode, h, lines, Fold(decode, h, lines).value)
    decreases |lines|
  {
    hide Apply, SettledBy, SameBits;
    if lines != [] {
      hide Says;
      assert forall i | 0 <= i < |lines[1..]| :: lines[1..][i] == lines[i + 1];
      FoldSays(decode, Apply(h, decode(lines[0]).value), lines[1..]);
      SaysMore(decode, h, lines, Fold(decode, h, lines).value);
    }
  }

  /** A header section of plain lines, as it travels, is accepted if and only if every line
      fits and is accepted; then the last line that settles the lengths settles them. */
  lemma HeaderSays(decode: seq<byte> -> Option<Field>, h: Head, lines: seq<seq<byte>>, body: seq<byte>)
    requires forall i | 0 <= i < |lines| :: PlainLine(lines[i])
    ensures var p := Parse(decode, h, Wire(lines, body));
            && (p.Done? <==> Readable(decode, lines)) && (!p.Done? ==> p == Bad)
            && (p.Done? ==> p.body == body && Says(decode, h, lines, p.head))
  {
    hide Parse, Says, Fold, PlainLine;
    ParseWire(decode, h, lines, body);
    if Readable(decode, lines) {
      FoldSays(decode, h, lines);
    } else if forall i | 0 <= i < |lines| :: |lines[i]| + 2 <= WINDOW {
      FoldRejects(decode, h, lines);
    }
  }

  lemma {:induction false} FoldRejects(decode: seq<byte> -> Option<Field>, h: Head, lines: seq<seq<byte>>)
    requires exists i | 0 <= i < |lines| :: decode(lines[i]).None?
    ensures Fold(decode, h, lines).None?
    decreases |lines|
  {
    hide Apply;
    if decode(lines[0]).Some? {
      var i :| 0 <= i < |lines| && decode(lines[i]).None?;
      assert lines[1..][i - 1] == lines[i];
      FoldRejects(decode, Apply(h, decode(lines[0]).value), lines[1..]);
    }
  }
}
