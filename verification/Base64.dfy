/** The Base64 encoder behind HTTP basic authentication, against section 4 of RFC 4648. */
module Base64 {
  import opened Bytes

  const PAD: byte := 61       // '='
  const NEWLINE: byte := 10
  const COLON: byte := 58
  const AUTHB_SIZE: nat := 128

  type Digit = d: int | 0 <= d < 64

  /** The table code[]: A-Z, a-z, 0-9, '+' and '/'. */
  function Char(d: Digit): (c: byte)
    ensures c != PAD && c != 0
  {
    if d < 26 then 65 + d
    else if d < 52 then 97 + (d - 26)
    else if d < 62 then 48 + (d - 52)
    else if d == 62 then 43
    else 47
  }

  // ---------------------------------------------------------------- the standard

  /** The four digits of three octets. */
  function Group(x: byte, y: byte, z: byte): (r: seq<byte>)
    ensures |r| == 4
  {
    [Char(x / 4), Char(x % 4 * 16 + y / 16), Char(y % 16 * 4 + z / 64), Char(z % 64)]
  }

  /** Octets in groups of three; one or two left over are zero-filled and padded. */
  function Encode(s: seq<byte>): seq<byte> {
    if |s| == 0 then []
    else if |s| == 1 then Group(s[0], 0, 0)[..2] + [PAD, PAD]
    else if |s| == 2 then Group(s[0], s[1], 0)[..3] + [PAD]
    else Group(s[0], s[1], s[2]) + Encode(s[3..])
  }

  /** The value of a digit's character, by its position in the alphabet. */
  function Value(c: byte): int {
    if 65 <= c <= 90 then c - 65
    else if 97 <= c <= 122 then c - 71
    else if 48 <= c <= 57 then c + 4
    else if c == 43 then 62
    else if c == 47 then 63
    else 0
  }

  /** The decoder of section 4 of RFC 4648 on well-formed text. */
  function Decode(t: seq<byte>): seq<byte> {
    if |t| < 4 then []
    else
      var a, b, c, d := Value(t[0]), Value(t[1]), Value(t[2]), Value(t[3]);
      var x, y, z := ToByte(a * 4 + b / 16), ToByte(b % 16 * 16 + c / 4), ToByte(c % 4 * 64 + d);
      if t[2] == PAD then [x]
      else if t[3] == PAD then [x, y]
      else [x, y, z] + Decode(t[4..])
  }

  lemma ValueOfChar(d: Digit)
    ensures Value(Char(d)) == d
  {
  }

  /** Table 1 of RFC 4648. */
  lemma Alphabet(d: Digit)
    ensures Char(d) as char ==
              if d < 26 then 'A' + d as char
              else if d < 52 then 'a' + (d - 26) as char
              else if d < 62 then '0' + (d - 52) as char
              else if d == 62 then '+' else '/'
  {
  }

  /** The test vectors for "f", "fo" and "foo" in section 10 of RFC 4648. */
  lemma TestVectors()
    ensures Encode([102]) == [90, 103, 61, 61]              // "Zg=="
    ensures Encode([102, 111]) == [90, 109, 56, 61]         // "Zm8="
    ensures Encode([102, 111, 111]) == [90, 109, 57, 118]   // "Zm9v"
  {
    assert [102, 111, 111][3..] == [];
  }

  lemma GroupValues(x: byte, y: byte, z: byte)
    ensures var a, b, c, d := x / 4, x % 4 * 16 + y / 16, y % 16 * 4 + z / 64, z % 64;
            && ToByte(a * 4 + b / 16) == x
            && ToByte(b % 16 * 16 + c / 4) == y
            && ToByte(c % 4 * 64 + d) == z
  {
    var b, c := x % 4 * 16 + y / 16, y % 16 * 4 + z / 64;
    assert b / 16 == x % 4 && b % 16 == y / 16;
    assert c / 4 == y % 16 && c % 4 == z / 64;
  }

  /** The three values a group of digits decodes to. */
  lemma GroupDecodes(x: byte, y: byte, z: byte)
    ensures var g := Group(x, y, z);
            var a, b, c, d := Value(g[0]), Value(g[1]), Value(g[2]), Value(g[3]);
            && ToByte(a * 4 + b / 16) == x
            && ToByte(b % 16 * 16 + c / 4) == y
            && ToByte(c % 4 * 64 + d) == z
            && g[2] != PAD && g[3] != PAD
  {
    hide Char, Value, ToByte;
    ValueOfChar(x / 4);
    ValueOfChar(x % 4 * 16 + y / 16);
    ValueOfChar(y % 16 * 4 + z / 64);
    ValueOfChar(z % 64);
    GroupValues(x, y, z);
  }

  /** Decoding inverts encoding on every octet string. */
  lemma {:induction false} DecodeEncode(s: seq<byte>)
    ensures Decode(Encode(s)) == s
    decreases |s|
  {
    hide Group, Value, ToByte;
    if |s| == 1 {
      GroupDecodes(s[0], 0, 0);
      assert Encode(s)[..2] == Group(s[0], 0, 0)[..2];
    } else if |s| == 2 {
      GroupDecodes(s[0], s[1], 0);
      assert Encode(s)[..3] == Group(s[0], s[1], 0)[..3];
    } else if |s| > 2 {
      GroupDecodes(s[0], s[1], s[2]);
      DecodeEncode(s[3..]);
      assert Encode(s)[..4] == Group(s[0], s[1], s[2]) && Encode(s)[4..] == Encode(s[3..]);
      assert s == [s[0], s[1], s[2]] + s[3..];
    }
  }

  /** Four digits for every group of three octets, begun or complete. */
  lemma {:induction false} EncodeLength(s: seq<byte>)
    ensures |Encode(s)| == 4 * ((|s| + 2) / 3)
    decreases |s|
  {
    hide Group;
    if |s| > 2 {
      EncodeLength(s[3..]);
    }
  }

  lemma {:induction false} EncodeAppend(a: seq<byte>, b: seq<byte>)
    requires |a| % 3 == 0
    ensures Encode(a + b) == Encode(a) + Encode(b)
    decreases |a|
  {
    hide Group, Encode;
    if a == [] {
      assert a + b == b;
      assert Encode([]) == [] by { EncodeShort([]); }
    } else {
      EncodeAppend(a[3..], b);
      assert (a + b)[3..] == a[3..] + b;
      EncodeCut(a);
      EncodeCut(a + b);
      assert Group(a[0], a[1], a[2]) + (Encode(a[3..]) + Encode(b)) ==
             (Group(a[0], a[1], a[2]) + Encode(a[3..])) + Encode(b);
    }
  }

  lemma EncodeCut(s: seq<byte>)
    requires |s| >= 3
    ensures Encode(s) == Group(s[0], s[1], s[2]) + Encode(s[3..])
  {
  }

  // ---------------------------------------------------------------- the encoder's loop

  /** What the inner loop puts out for accumulator `x` with `l` bits pending. */
  function Emit(x: nat, l: nat): seq<byte> {
    if l < 6 then [] else [Char(x / Pow2(l - 6) % 64)] + Emit(x, l - 6)
  }

  /** Output and pending bits after whole groups `done` and an unfinished one. */
  ghost predicate Pending(done: seq<byte>, tail: seq<byte>, out: seq<byte>, x: nat, l: nat) {
    && |done| % 3 == 0 && |tail| < 3
    && l == 2 * |tail|
    && (tail == [] ==> out == Encode(done))
    && (|tail| == 1 ==> x % 4 == tail[0] % 4 && out == Encode(done) + Group(tail[0], 0, 0)[..1])
    && (|tail| == 2 ==> x % 16 == tail[1] % 16 && out == Encode(done) + Group(tail[0], tail[1], 0)[..2])
  }

  /** The accumulator after one more octet; only its low bits matter, the top wraps. */
  function Shift(x: u32, b: byte): u32 {
    Wrap32(x * 256 + b)
  }

  lemma LowBits(x: u32, b: byte)
    ensures var y := Shift(x, b);
            && y / 4 % 64 == b / 4 && y % 4 == b % 4
            && y / 16 % 64 == x % 4 * 16 + b / 16 && y % 16 == b % 16
            && y / 64 % 64 == x % 16 * 4 + b / 64 && y % 64 == b % 64
  {
    var h := x % 0x100_0000;
    ShiftValue(x, b);
    hide Shift;
    LowFour(h, b);
    LowSixteen(h, b);
    LowSixtyFour(h, b);
    ModOfMultiple(x, 0x40_0000, 4);
    ModOfMultiple(x, 0x10_0000, 16);
  }

  lemma ShiftValue(x: u32, b: byte)
    ensures Shift(x, b) == x % 0x100_0000 * 256 + b
  {
    var h := x % 0x100_0000;
    ModUnique(x * 256 + b, TWO32, x / 0x100_0000, h * 256 + b);
  }

  lemma LowFour(h: nat, b: byte)
    ensures var y := h * 256 + b; y / 4 % 64 == b / 4 && y % 4 == b % 4
  {
    ModUnique(h * 256 + b, 4, h * 64 + b / 4, b % 4);
    ModUnique(h * 64 + b / 4, 64, h, b / 4);
  }

  lemma LowSixteen(h: nat, b: byte)
    ensures var y := h * 256 + b; y / 16 % 64 == h % 4 * 16 + b / 16 && y % 16 == b % 16
  {
    ModUnique(h * 256 + b, 16, h * 16 + b / 16, b % 16);
    FourBits(h, b / 16);
  }

  lemma LowSixtyFour(h: nat, b: byte)
    ensures var y := h * 256 + b; y / 64 % 64 == h % 16 * 4 + b / 64 && y % 64 == b % 64
  {
    ModUnique(h * 256 + b, 64, h * 4 + b / 64, b % 64);
    SixBits(h, b / 64);
  }

  lemma FourBits(h: nat, c: nat)
    requires c < 16
    ensures (h * 16 + c) % 64 == h % 4 * 16 + c
  {
    ModUnique(h * 16 + c, 64, h / 4, h % 4 * 16 + c);
  }

  lemma SixBits(h: nat, c: nat)
    requires c < 4
    ensures (h * 4 + c) % 64 == h % 16 * 4 + c
  {
    ModUnique(h * 4 + c, 64, h / 16, h % 16 * 4 + c);
  }

  lemma EmitValues(x: nat)
    ensures Emit(x, 8) == [Char(x / 4 % 64)]
    ensures Emit(x, 10) == [Char(x / 16 % 64)]
    ensures Emit(x, 12) == [Char(x / 64 % 64), Char(x % 64)]
  {
    assert Pow2(0) == 1 && Pow2(2) == 4 && Pow2(4) == 16 && Pow2(6) == 64;
    assert Emit(x, 2) == [] && Emit(x, 4) == [] && Emit(x, 0) == [];
    assert Emit(x, 6) == [Char(x / 1 % 64)] + Emit(x, 0);
  }

  /** One octet through the outer loop, at each of the three places in a group. */
  lemma FirstOctet(done: seq<byte>, b: byte, out: seq<byte>, x: u32)
    requires Pending(done, [], out, x, 0)
    ensures Pending(done, [b], out + Emit(Shift(x, b), 8), Shift(x, b), 2)
  {
    hide Encode, Emit, Char, Shift;
    LowBits(x, b);
    EmitValues(Shift(x, b));
    assert Group(b, 0, 0)[..1] == [Char(b / 4)];
  }

  lemma SecondOctet(done: seq<byte>, a: byte, b: byte, out: seq<byte>, x: u32)
    requires Pending(done, [a], out, x, 2)
    ensures Pending(done, [a, b], out + Emit(Shift(x, b), 10), Shift(x, b), 4)
  {
    hide Encode, Emit, Char, Shift;
    LowBits(x, b);
    EmitValues(Shift(x, b));
    assert Group(a, b, 0)[..2] == Group(a, 0, 0)[..1] + [Char(a % 4 * 16 + b / 16)];
  }

  lemma ThirdOctet(done: seq<byte>, a: byte, b: byte, c: byte, out: seq<byte>, x: u32)
    requires Pending(done, [a, b], out, x, 4)
    ensures Pending(done + [a, b, c], [], out + Emit(Shift(x, c), 12), Shift(x, c), 0)
  {
    hide Encode, Emit, Char, Shift;
    LowBits(x, c);
    EmitValues(Shift(x, c));
    EncodeAppend(done, [a, b, c]);
    EncodeThree(a, b, c);
    assert Group(a, b, c) == Group(a, b, 0)[..2] + [Char(b % 16 * 4 + c / 64), Char(c % 64)];
  }

  lemma PendingStep(done: seq<byte>, tail: seq<byte>, b: byte, out: seq<byte>, x: u32, l: nat)
      returns (done': seq<byte>, tail': seq<byte>)
    requires Pending(done, tail, out, x, l)
    ensures done' + tail' == done + tail + [b]
    ensures Pending(done', tail', out + Emit(Shift(x, b), l + 8), Shift(x, b), (l + 8) % 6)
  {
    hide Emit, Shift, Encode, Group;
    if tail == [] {
      FirstOctet(done, b, out, x);
      done', tail' := done, [b];
    } else if |tail| == 1 {
      assert tail == [tail[0]];
      SecondOctet(done, tail[0], b, out, x);
      done', tail' := done, [tail[0], b];
    } else {
      assert tail == [tail[0], tail[1]];
      ThirdOctet(done, tail[0], tail[1], b, out, x);
      done', tail' := done + [tail[0], tail[1], b], [];
    }
  }

  lemma EncodeThree(x: byte, y: byte, z: byte)
    ensures Encode([x, y, z]) == Group(x, y, z)
  {
    hide Group;
    assert [x, y, z][3..] == [];
  }

  /** The last digit, filled up with zero bits, when bits are pending. */
  function LastDigit(x: u32, l: nat): seq<byte> {
    if l == 0 || l > 6 then [] else [Char(Wrap32(x * Pow2(6 - l)) % 64)]
  }

  /** Padding after the last digit, by the number of bits pending before it. */
  function Pads(l: nat): seq<byte> {
    if l == 2 then [PAD, PAD] else if l == 4 then [PAD] else []
  }

  /** What is still to come when the input ends. */
  lemma PendingEnd(done: seq<byte>, tail: seq<byte>, out: seq<byte>, x: u32, l: nat)
    requires Pending(done, tail, out, x, l)
    ensures l == 0 || l == 2 || l == 4
    ensures Encode(done + tail) == out + LastDigit(x, l) + Pads(l)
    ensures |out| % 4 == l / 2
  {
    hide Encode, Group, LastDigit, Pads;
    if tail == [] {
      EndNone(done, out, x);
    } else if |tail| == 1 {
      assert tail == [tail[0]];
      EndOne(done, tail[0], out, x);
    } else {
      assert tail == [tail[0], tail[1]];
      EndTwo(done, tail[0], tail[1], out, x);
    }
  }

  lemma WholeGroups(done: seq<byte>)
    requires |done| % 3 == 0
    ensures |Encode(done)| % 4 == 0
  {
    hide Encode;
    EncodeLength(done);
    ModUnique(|Encode(done)|, 4, (|done| + 2) / 3, 0);
  }

  lemma EndNone(done: seq<byte>, out: seq<byte>, x: u32)
    requires Pending(done, [], out, x, 0)
    ensures Encode(done + []) == out + LastDigit(x, 0) + Pads(0) && |out| % 4 == 0
  {
    hide Encode;
    WholeGroups(done);
    assert done + [] == done;
  }

  lemma EndOne(done: seq<byte>, a: byte, out: seq<byte>, x: u32)
    requires Pending(done, [a], out, x, 2)
    ensures Encode(done + [a]) == out + LastDigit(x, 2) + Pads(2) && |out| % 4 == 1
  {
    hide Encode, Group;
    WholeGroups(done);
    EncodeAppend(done, [a]);
    EncodeShort([a]);
    DigitOf(x);
    LastOfOne(x, a);
  }

  lemma EndTwo(done: seq<byte>, a: byte, b: byte, out: seq<byte>, x: u32)
    requires Pending(done, [a, b], out, x, 4)
    ensures Encode(done + [a, b]) == out + LastDigit(x, 4) + Pads(4) && |out| % 4 == 2
  {
    hide Encode, Group;
    WholeGroups(done);
    EncodeAppend(done, [a, b]);
    EncodeShort([a, b]);
    DigitOf(x);
    LastOfTwo(x, a, b);
  }

  lemma DigitOf(x: u32)
    ensures LastDigit(x, 0) == []
    ensures LastDigit(x, 2) == [Char(Wrap32(x * 16) % 64)]
    ensures LastDigit(x, 4) == [Char(Wrap32(x * 4) % 64)]
  {
    assert Pow2(2) == 4 && Pow2(4) == 16;
  }

  lemma LastOfOne(x: u32, a: byte)
    requires x % 4 == a % 4
    ensures Group(a, 0, 0)[..2] == Group(a, 0, 0)[..1] + [Char(Wrap32(x * 16) % 64)]
  {
    hide Char, Wrap32;
    ModUnique(x * 16, 64, x / 4, x % 4 * 16);
    WrapThen64(x * 16);
  }

  lemma LastOfTwo(x: u32, a: byte, b: byte)
    requires x % 16 == b % 16
    ensures Group(a, b, 0)[..3] == Group(a, b, 0)[..2] + [Char(Wrap32(x * 4) % 64)]
  {
    hide Char, Wrap32;
    ModUnique(x * 4, 64, x / 16, x % 16 * 4);
    WrapThen64(x * 4);
  }

  lemma EncodeShort(t: seq<byte>)
    requires |t| < 3
    ensures |t| == 1 ==> Encode(t) == Group(t[0], 0, 0)[..2] + [PAD, PAD]
    ensures |t| == 2 ==> Encode(t) == Group(t[0], t[1], 0)[..3] + [PAD]
    ensures |t| == 0 ==> Encode(t) == []
  {
  }

  lemma WrapThen64(x: nat)
    ensures Wrap32(x) % 64 == x % 64
  {
    ModOfMultiple(x, 0x400_0000, 64);
  }

  lemma PendingStart()
    ensures Pending([], [], [], 0, 0)
  {
    EncodeShort([]);
  }

  /** The digits so far never outgrow the final length. */
  lemma PendingFits(text: seq<byte>, k: nat, done: seq<byte>, tail: seq<byte>, out: seq<byte>, x: u32, l: nat)
    requires k <= |text| && done + tail == text[..k] && Pending(done, tail, out, x, l)
    ensures |out| <= 4 * ((|text| + 2) / 3)
  {
    hide Encode, Pending, LastDigit;
    PendingEnd(done, tail, out, x, l);
    EncodeLength(done + tail);
    assert |done| + |tail| == k;
  }

  lemma EmitOne(x: nat, l: nat)
    ensures l >= 6 ==> Emit(x, l) == [Char(x / Pow2(l - 6) % 64)] + Emit(x, l - 6)
    ensures l < 6 ==> Emit(x, l) == []
  {
  }

  lemma Regroup(a: seq<byte>, c: byte, b: seq<byte>)
    ensures a + ([c] + b) == (a + [c]) + b
  {
  }

  /** The inner loop of httpclient_base64enc. */
  method EmitDigits(out: array<byte>, at: nat, x: u32, bits: nat) returns (i: nat, l: nat)
    requires at + |Emit(x, bits)| <= out.Length
    modifies out
    ensures i == at + |Emit(x, bits)| && l == bits % 6
    ensures out[..i] == old(out[..at]) + Emit(x, bits)
  {
    hide Emit, Char, Pow2;
    i, l := at, bits;
    ghost var q := 0;
    ghost var total := out[..at] + Emit(x, bits);
    while l >= 6
      invariant bits == q * 6 + l && i + |Emit(x, l)| == |total| && out[..i] + Emit(x, l) == total
    {
      EmitOne(x, l);
      ghost var before := out[..i];
      out[i] := Char(x / Pow2(l - 6) % 64);
      i, l, q := i + 1, l - 6, q + 1;
      assert out[..i] == before + [out[i - 1]];
      Regroup(before, out[i - 1], Emit(x, l));
    }
    EmitOne(x, l);
    ModUnique(bits, 6, q, l);
  }

  /** The end of httpclient_base64enc: last digit, padding, terminator. */
  method Finish(out: array<byte>, at: nat, x0: u32, l: nat) returns (i: nat)
    requires (l == 0 || l == 2 || l == 4) && at % 4 == l / 2
    requires at + |LastDigit(x0, l)| + |Pads(l)| < out.Length
    modifies out
    ensures i < out.Length && out[i] == 0
    ensures out[..i] == old(out[..at]) + LastDigit(x0, l) + Pads(l)
  {
    i := PutLast(out, at, x0, l);
    hide LastDigit;
    i := Pad(out, i, l);
    out[i] := 0;
  }

  /** The last digit, if bits are pending. */
  method PutLast(out: array<byte>, at: nat, x0: u32, l: nat) returns (i: nat)
    requires l <= 6 && at + |LastDigit(x0, l)| <= out.Length
    modifies out
    ensures i == at + |LastDigit(x0, l)| && out[..i] == old(out[..at]) + LastDigit(x0, l)
  {
    hide Char, Wrap32, Pow2;
    i := at;
    if l > 0 {
      out[i] := Char(Wrap32(x0 * Pow2(6 - l)) % 64);
      i := i + 1;
    }
  }

  /** The padding loop. */
  method Pad(out: array<byte>, start: nat, l: nat) returns (i: nat)
    requires start + |Pads(l)| <= out.Length && (start + |Pads(l)|) % 4 == 0
    modifies out
    ensures i == start + |Pads(l)| && out[..i] == old(out[..start]) + Pads(l)
  {
    i := start;
    while i % 4 != 0
      invariant start <= i <= start + |Pads(l)| && out[..i] == old(out[..start]) + Pads(l)[..i - start]
      decreases start + |Pads(l)| - i
    {
      ghost var b := out[..i];
      out[i] := PAD;
      i := i + 1;
      assert out[..i] == b + [PAD];
    }
  }

  /** The outer loop of httpclient_base64enc. */
  method EncodeBits(out: array<byte>, text: seq<byte>) returns (i: nat, x: u32, l: nat)
    requires 4 * ((|text| + 2) / 3) < out.Length
    modifies out
    ensures (l == 0 || l == 2 || l == 4) && i <= out.Length && i % 4 == l / 2
    ensures Encode(text) == out[..i] + LastDigit(x, l) + Pads(l)
  {
    hide Encode, Pending, Emit, LastDigit, Shift, Pads;
    i, x, l := 0, 0, 0;
    ghost var done, tail := [], [];
    PendingStart();
    assert text[..0] == [] && out[..0] == [];
    for k := 0 to |text|
      invariant i <= out.Length && done + tail == text[..k] && Pending(done, tail, out[..i], x, l)
    {
      done, tail := PendingStep(done, tail, text[k], out[..i], x, l);
      assert text[..k] + [text[k]] == text[..k + 1];
      x := Shift(x, text[k]);
      PendingFits(text, k + 1, done, tail, out[..i] + Emit(x, l + 8), x, (l + 8) % 6);
      i, l := EmitDigits(out, i, x, l + 8);
    }
    assert text[..|text|] == text;
    PendingEnd(done, tail, out[..i], x, l);
  }

  /** httpclient_base64enc: the output is exactly the RFC's, NUL-terminated. */
  method Base64Enc(out: array<byte>, text: seq<byte>) returns (i: nat)
    requires 4 * ((|text| + 2) / 3) < out.Length
    modifies out
    ensures i == 4 * ((|text| + 2) / 3) && out[..i] == Encode(text) && out[i] == 0
  {
    hide Encode, LastDigit, Pads;
    var x, l;
    i, x, l := EncodeBits(out, text);
    EncodeLength(text);
    i := Finish(out, i, x, l);
  }

  // ---------------------------------------------------------------- basic authentication

  /** httpclient_basic_auth and httpclient_send_auth: the pairs accepted are those whose
      lengths add up to less than 128, and for every one of them both stack buffers hold
      the text, its encoding, the newline and the terminators. */
  method SendAuth(user: seq<byte>, password: seq<byte>) returns (ok: bool, header: seq<byte>)
    ensures ok <==> |user| + |password| < 128
    ensures ok ==> header == Encode(user + [58] + password) + [10]   // ':' and '\n'
  {
    ok, header := |user| + |password| < AUTHB_SIZE, [];
    if ok {
      var plain := new byte[AUTHB_SIZE + 3];                    // base64buff
      var coded := new byte[(AUTHB_SIZE + 3) * 4 / 3 + 1];      // b_auth
      var text := user + [COLON] + password;
      Copy(plain, 0, text + [0]);
      var n := Base64Enc(coded, text);
      ghost var e := coded[..n];
      coded[n + 1] := 0;
      coded[n] := NEWLINE;
      assert coded[..n + 1] == e + [NEWLINE];
      header := coded[..n + 1];
    }
  }
}
