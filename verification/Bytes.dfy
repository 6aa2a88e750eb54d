/** Machine-level vocabulary shared by every component: bytes, 32-bit wrap-around,
    little-endian words, masks of a power of two and memory copies. */
module Bytes {

  type byte = x: int | 0 <= x < 256

  const TWO16 := 0x1_0000
  const TWO32 := 0x1_0000_0000

  type u16 = x: int | 0 <= x < TWO16
  type u32 = x: int | 0 <= x < TWO32
  type i32 = x: int | -0x8000_0000 <= x < 0x8000_0000

  datatype Option<+T> = None | Some(value: T)

  function Min(x: int, y: int): int {
    if x < y then x else y
  }

  function Bit(b: bool): nat {
    if b then 1 else 0
  }

  /** Unsigned 32-bit result of a C expression whose exact value is `x`. */
  function Wrap32(x: int): u32 {
    x % TWO32
  }

  /** The same 32 bits read as a signed integer. */
  function Signed32(x: u32): i32 {
    if x < 0x8000_0000 then x else x - TWO32
  }

  function Pow2(k: nat): (p: nat)
    ensures p > 0
  {
    if k == 0 then 1 else 2 * Pow2(k - 1)
  }

  ghost predicate IsPow2(n: int) {
    exists k: nat :: n == Pow2(k)
  }

  /** C's `&` on unsigned operands, bit by bit. */
  function BitAnd(x: nat, y: nat): nat
    decreases x
  {
    if x == 0 || y == 0 then 0
    else 2 * BitAnd(x / 2, y / 2) + (x % 2) * (y % 2)
  }

  lemma {:induction false} BitAndBelow(x: nat, y: nat)
    ensures BitAnd(x, y) <= x
    decreases x
  {
    if x != 0 && y != 0 { BitAndBelow(x / 2, y / 2); }
  }

  /** C's `&` on two bytes. */
  function AndByte(x: byte, y: byte): byte {
    BitAndBelow(x, y);
    BitAnd(x, y)
  }

  lemma AndOnes(x: byte)
    ensures AndByte(x, 0xFF) == x
  {
    hide BitAnd;
    BitAndMask(x, 8);
    assert Pow2(8) == 256;
  }

  /** Masking with 2^k - 1 is reduction modulo 2^k. */
  lemma {:induction false} BitAndMask(x: nat, k: nat)
    ensures BitAnd(x, Pow2(k) - 1) == x % Pow2(k)
    decreases k
  {
    var p := Pow2(k);
    if k == 0 {
      assert p == 1;
    } else if x == 0 {
    } else {
      var h := Pow2(k - 1);
      BitAndMask(x / 2, k - 1);
      assert p == 2 * h;
      assert (p - 1) / 2 == h - 1 && (p - 1) % 2 == 1;
      assert x % (2 * h) == 2 * (x / 2 % h) + x % 2 by { HalveMod(x, h); }
      if p == 1 { assert false; }
    }
  }

  lemma HalveMod(x: nat, h: nat)
    requires h > 0
    ensures x % (2 * h) == 2 * (x / 2 % h) + x % 2
  {
    var q := x / 2 / h;
    var r := x / 2 % h;
    assert x / 2 == q * h + r;
    var s := 2 * r + x % 2;
    assert x == q * (2 * h) + s by {
      assert x == 2 * (x / 2) + x % 2;
      assert 2 * (q * h) == q * (2 * h);
    }
    ModUnique(x, 2 * h, q, s);
  }

  lemma ModUnique(x: int, m: int, q: int, r: int)
    requires 0 <= r < m && x == q * m + r
    ensures x % m == r && x / m == q
  {
    var q', r' := x / m, x % m;
    assert x == q' * m + r';
    var d := q - q';
    assert d * m == r' - r;
    assert d >= 1 ==> d * m >= m;
    assert d <= -1 ==> d * m <= -m;
  }

  lemma {:induction false} Pow2Monotone(j: nat, k: nat)
    requires j <= k
    ensures Pow2(j) <= Pow2(k)
    decreases k
  {
    if j < k { Pow2Monotone(j, k - 1); }
  }

  lemma {:induction false} Pow2Divides(j: nat, k: nat)
    requires j <= k
    ensures Pow2(k) % Pow2(j) == 0
    decreases k
  {
    var pj, pk := Pow2(j), Pow2(k);
    if j == k {
      ModUnique(pk, pj, 1, 0);
    } else {
      Pow2Divides(j, k - 1);
      var q := Pow2(k - 1) / pj;
      assert Pow2(k - 1) == q * pj;
      assert pk == (2 * q) * pj;
      ModUnique(pk, pj, 2 * q, 0);
    }
  }

  lemma Pow2Of32()
    ensures Pow2(32) == TWO32
  {
    assert Pow2(8) == 256;
    assert Pow2(16) == 65536;
    assert Pow2(24) == 65536 * 256;
  }

  /** A power of two that fits in 32 bits divides 2^32. */
  lemma Pow2Fits(n: int) returns (k: nat, q: nat)
    requires IsPow2(n) && n <= TWO32
    ensures k <= 32 && n == Pow2(k)
    ensures TWO32 == q * n
  {
    k :| n == Pow2(k);
    Pow2Of32();
    if k > 32 {
      Pow2Monotone(33, k);
      assert false;
    }
    Pow2Divides(k, 32);
    q := TWO32 / n;
  }

  lemma ModOfMultiple(x: int, q: nat, n: nat)
    requires n > 0 && q * n > 0
    ensures x % (q * n) % n == x % n
  {
    var m := q * n;
    var a, r := x / m, x % m;
    var b, s := r / n, r % n;
    assert a * m == (a * q) * n;
    assert x == (a * q) * n + (b * n + s);
    assert x == (a * q + b) * n + s;
    ModUnique(x, n, a * q + b, s);
  }

  /** Wrapping at 32 bits first does not disturb a later reduction modulo a power of two. */
  lemma WrapThenMod(x: int, n: int)
    requires IsPow2(n) && n <= TWO32
    ensures Wrap32(x) % n == x % n
  {
    var k, q := Pow2Fits(n);
    ModOfMultiple(x, q, n);
  }

  // ---------------------------------------------------------------- words

  function Le16(s: seq<byte>): (v: u16)
    requires |s| == 2
  {
    s[0] as int + 256 * (s[1] as int)
  }

  function Le32(s: seq<byte>): (v: u32)
    requires |s| == 4
  {
    s[0] as int + 256 * (s[1] as int) + 65536 * (s[2] as int) + 16777216 * (s[3] as int)
  }

  function ToByte(x: int): byte {
    x % 256
  }

  function EncLe32(v: u32): (s: seq<byte>)
    ensures |s| == 4 && Le32(s) == v
  {
    FourDigits(v);
    [ToByte(v), ToByte(v / 256), ToByte(v / 65536), ToByte(v / 16777216)]
  }

  lemma FourDigits(v: u32)
    ensures v == v % 256 + 256 * (v / 256 % 256) + 65536 * (v / 65536 % 256) + 16777216 * (v / 16777216 % 256)
  {
    var a, b := v / 256, v / 65536;
    assert a / 256 == b && b / 256 == v / 16777216;
    assert v == 256 * a + v % 256;
    assert a == 256 * b + a % 256;
    assert b == 256 * (b / 256) + b % 256;
    assert b / 256 < 256;
  }

  /** Least significant byte first: the bytes of a word by division, and encoding them
      again gives the bytes back. */
  lemma LittleEndian(s: seq<byte>)
    requires |s| == 4
    ensures var v := Le32(s);
            && v % 256 == s[0] && v / 256 % 256 == s[1] && v / 65536 % 256 == s[2] && v / 16777216 == s[3]
            && EncLe32(v) == s
  {
    var v, x := Le32(s), s[2] as int + 256 * (s[3] as int);
    var w := s[1] as int + 256 * x;
    ModUnique(v, 256, w, s[0]);
    ModUnique(w, 256, x, s[1]);
    ModUnique(x, 256, s[3], s[2]);
    assert v / 65536 == x && v / 16777216 == s[3];
    assert EncLe32(v) == s;
  }

  // ---------------------------------------------------------------- sequences of buffers

  function Flatten(parts: seq<seq<byte>>): seq<byte> {
    if parts == [] then [] else parts[0] + Flatten(parts[1..])
  }

  lemma {:induction false} FlattenAppend(a: seq<seq<byte>>, b: seq<seq<byte>>)
    ensures Flatten(a + b) == Flatten(a) + Flatten(b)
  {
    if a == [] {
      assert a + b == b;
    } else {
      FlattenAppend(a[1..], b);
      assert (a + b)[0] == a[0] && (a + b)[1..] == a[1..] + b;
    }
  }

  lemma FlattenSnoc(a: seq<seq<byte>>, x: seq<byte>)
    ensures Flatten(a + [x]) == Flatten(a) + x
  {
    FlattenAppend(a, [x]);
    assert Flatten([x]) == x + Flatten([]);
  }

  /** A part of a part. */
  lemma SubSlice(mem: seq<byte>, lo: nat, body: seq<byte>, o: nat, n: nat)
    requires lo + |body| <= |mem| && mem[lo..lo + |body|] == body && o + n <= |body|
    ensures mem[lo + o..lo + o + n] == body[o..o + n]
  {
    var x, y := mem[lo + o..lo + o + n], body[o..o + n];
    forall k | 0 <= k < n ensures x[k] == y[k] {
      assert mem[lo..lo + |body|][o + k] == mem[lo + o + k];
    }
  }

  // ---------------------------------------------------------------- memory

  function Overlay(buf: seq<byte>, at: nat, src: seq<byte>): (r: seq<byte>)
    requires at + |src| <= |buf|
    ensures |r| == |buf|
  {
    buf[..at] + src + buf[at + |src|..]
  }

  /** os_memcpy / os_memmove of a value into a buffer. */
  method Copy(dst: array<byte>, at: nat, src: seq<byte>)
    requires at + |src| <= dst.Length
    modifies dst
    ensures dst[..] == Overlay(old(dst[..]), at, src)
  {
    ghost var r := Overlay(dst[..], at, src);
    for i := 0 to |src|
      invariant forall j | 0 <= j < at + i :: dst[j] == r[j]
      invariant forall j | at + i <= j < dst.Length :: dst[j] == old(dst[j])
    {
      dst[at + i] := src[i];
    }
    assert dst[..] == r;
  }
}
