/** Bytes, 32-bit words and their big-endian encoding. */
module Bytes {

  type byte = b: int | 0 <= b < 0x100
  type bytes = seq<byte>
  type u32 = x: int | 0 <= x < 0x1_0000_0000

  const INT_MAX := 0x7FFF_FFFF
  const TWO_32 := 0x1_0000_0000

  /** Conversion to a 32-bit unsigned integer, with wrap-around. */
  function U32(x: int): u32 {
    x % TWO_32
  }

  lemma U32Id(x: int)
    requires 0 <= x < TWO_32
    ensures U32(x) == x
  {
  }

  /** The wrapping test for a + b: it fails exactly when the sum reaches INT_MAX. */
  lemma SumTest(a: u32, b: nat)
    requires b <= INT_MAX
    ensures INT_MAX <= U32(a + b) || U32(a + b) < b <==> a + b >= INT_MAX
  {
  }

  /** The number of 4-byte cells that hold n bytes. */
  function Cells(n: int): (r: nat)
    ensures 4 * r - 4 < n || r == 0
    ensures n <= 4 * r
  {
    if n <= 0 then 0 else 1 + Cells(n - 4)
  }

  /** Rounds up to a multiple of the tag size. */
  function Align4(n: int): nat {
    4 * Cells(n)
  }

  lemma {:induction false} AlignPlus(c: nat, n: nat)
    ensures Align4(4 * c + n) == 4 * c + Align4(n)
  {
    if c > 0 {
      AlignPlus(c - 1, n);
    }
  }

  /** The n bytes of m from off on. */
  function Block(m: bytes, off: int, n: int): (r: bytes)
    requires 0 <= off && 0 <= n && off + n <= |m|
    ensures |r| == n
  {
    m[off..off + n]
  }

  function Min(a: int, b: int): int {
    if a < b then a else b
  }

  /** The last n base-256 digits of v, most significant first. */
  function EncDigits(v: nat, n: nat): (r: bytes)
    ensures |r| == n
  {
    if n == 0 then [] else EncDigits(v / 0x100, n - 1) + [v % 0x100]
  }

  function Enc32(v: u32): (r: bytes)
    ensures |r| == 4
  {
    EncDigits(v, 4)
  }

  function Dec32(s: bytes, i: int): u32
    requires 0 <= i && i + 4 <= |s|
  {
    s[i] as int * 0x100_0000 + s[i + 1] as int * 0x1_0000 + s[i + 2] as int * 0x100 + s[i + 3] as int
  }

  /** Appending a base-256 digit and taking it off again. */
  lemma LastDigit(q: int, d: byte)
    ensures (q * 0x100 + d) / 0x100 == q && (q * 0x100 + d) % 0x100 == d
  {
  }

  /** The four base-256 digits of a word are unique. */
  lemma Digits(v: u32, a: byte, b: byte, c: byte, d: byte)
    ensures v == a as int * 0x100_0000 + b as int * 0x1_0000 + c as int * 0x100 + d as int <==> Enc32(v) == [a, b, c, d]
  {
    var w := v / 0x100;
    var x := w / 0x100;
    var t := x / 0x100;
    assert t / 0x100 == 0 && t % 0x100 == t;
    assert EncDigits(t, 1) == [t];
    assert EncDigits(x, 2) == [t, x % 0x100];
    assert EncDigits(w, 3) == [t, x % 0x100, w % 0x100];
    assert Enc32(v) == [t, x % 0x100, w % 0x100, v % 0x100];
    var y := a as int * 0x100 + b as int;
    var z := y * 0x100 + c as int;
    if v == z * 0x100 + d as int {
      LastDigit(z, d);
      LastDigit(y, c);
      LastDigit(a, b);
    }
  }

  lemma DecAt(s: bytes, i: int, v: u32)
    requires 0 <= i && i + 4 <= |s|
    ensures s[i..i + 4] == Enc32(v) <==> Dec32(s, i) == v
  {
    Digits(v, s[i], s[i + 1], s[i + 2], s[i + 3]);
    assert s[i..i + 4] == [s[i], s[i + 1], s[i + 2], s[i + 3]];
  }
}
