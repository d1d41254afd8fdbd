/** Little-endian packing of 32-bit words, the encoding both sides of the
    link use for WRITE_PAGE addresses and for the data words of a page. */
module Bytes {
  import opened Protocol

  /** The word whose little-endian bytes are b0 (least significant) to b3.
      The firmware writes this as b0 | b1 << 8 | b2 << 16 | b3 << 24; the four
      shifted bytes occupy disjoint bits, so the OR is this sum. */
  function Le32(b0: byte, b1: byte, b2: byte, b3: byte): Word
  {
    b0 + 0x100 * b1 + 0x1_0000 * b2 + 0x100_0000 * b3
  }

  /** The word stored little-endian at s[i..i+4]. */
  function Le32At(s: seq<byte>, i: nat): Word
    requires i + 4 <= |s|
  {
    Le32(s[i], s[i + 1], s[i + 2], s[i + 3])
  }

  /** The four bytes (a >> 0) & 0xFF, (a >> 8) & 0xFF, (a >> 16) & 0xFF,
      (a >> 24) & 0xFF of a non-negative integer, least significant first. */
  function LeBytes(a: nat): (r: seq<byte>)
    ensures |r| == 4
  {
    Digits(a, 4)
  }

  /** The n least significant base-256 digits of a, least significant first. */
  function Digits(a: nat, n: nat): (r: seq<byte>)
    ensures |r| == n
  {
    if n == 0 then [] else [a % 0x100] + Digits(a / 0x100, n - 1)
  }

  /** The four bytes of LeBytes written out, as shifts and masks compute them. */
  lemma LeBytesShifts(a: nat)
    ensures LeBytes(a) == [a % 0x100, (a / 0x100) % 0x100, (a / 0x1_0000) % 0x100, (a / 0x100_0000) % 0x100]
  {
    var a1 := a / 0x100;
    var a2 := a1 / 0x100;
    var a3 := a2 / 0x100;
    assert Digits(a3, 1) == [a3 % 0x100];
    assert Digits(a2, 2) == [a2 % 0x100, a3 % 0x100];
    assert Digits(a1, 3) == [a1 % 0x100, a2 % 0x100, a3 % 0x100];
    DivUnique(a, 0x1_0000, a2, 0x100 * (a1 % 0x100) + a % 0x100);
    DivUnique(a, 0x100_0000, a3, 0x1_0000 * (a2 % 0x100) + 0x100 * (a1 % 0x100) + a % 0x100);
  }

  /** Division by a positive divisor has a unique quotient and remainder. */
  lemma DivUnique(x: int, d: int, q: int, r: int)
    requires d > 0 && x == q * d + r && 0 <= r < d
    ensures x / d == q && x % d == r
  {
    var q' := x / d;
    var r' := x % d;
    assert x == q' * d + r';
    assert (q' - q) * d == r - r';
    if q' > q {
      MulNonneg(q' - q - 1, d);
    } else if q' < q {
      MulNonneg(q - q' - 1, d);
    }
  }

  /** The nonlinear step of DivUnique, isolated so the solver sees it alone. */
  lemma MulNonneg(a: int, b: int)
    requires a >= 0 && b >= 0
    ensures a * b >= 0
  {
  }

  /** Decoding the four bytes of an integer gives it back modulo 2^32: the
      encoding keeps the low 32 bits and nothing else. */
  lemma DecodeEncode(a: nat)
    ensures Le32At(LeBytes(a), 0) == a % WORD_MODULUS
    ensures a < WORD_MODULUS ==> Le32At(LeBytes(a), 0) == a
  {
    var a1 := a / 0x100;
    var a2 := a1 / 0x100;
    var a3 := a2 / 0x100;
    var a4 := a3 / 0x100;
    DivUnique(a, 0x1_0000, a2, 0x100 * (a1 % 0x100) + a % 0x100);
    DivUnique(a, 0x100_0000, a3, 0x1_0000 * (a2 % 0x100) + 0x100 * (a1 % 0x100) + a % 0x100);
    var low := Le32(a % 0x100, a1 % 0x100, a2 % 0x100, a3 % 0x100);
    assert a == WORD_MODULUS * a4 + low;
    DivUnique(a, WORD_MODULUS, a4, low);
    LeBytesShifts(a);
  }

  /** Encoding a decoded word gives back its four bytes. */
  lemma EncodeDecode(s: seq<byte>, i: nat)
    requires i + 4 <= |s|
    ensures LeBytes(Le32At(s, i)) == s[i..i + 4]
  {
    var b0: int, b1: int, b2: int, b3: int := s[i], s[i + 1], s[i + 2], s[i + 3];
    var w := Le32(b0, b1, b2, b3);
    DivUnique(w, 0x100, b1 + 0x100 * b2 + 0x1_0000 * b3, b0);
    DivUnique(w, 0x1_0000, b2 + 0x100 * b3, b0 + 0x100 * b1);
    DivUnique(w, 0x100_0000, b3, b0 + 0x100 * b1 + 0x1_0000 * b2);
    DivUnique(b1 + 0x100 * b2 + 0x1_0000 * b3, 0x100, b2 + 0x100 * b3, b1);
    DivUnique(b2 + 0x100 * b3, 0x100, b3, b2);
    LeBytesShifts(w);
  }

  /** Two byte strings with the same word decode to the same bytes: the
      decoding is injective. */
  lemma Le32Injective(s: seq<byte>, i: nat, t: seq<byte>, j: nat)
    requires i + 4 <= |s| && j + 4 <= |t|
    requires Le32At(s, i) == Le32At(t, j)
    ensures s[i..i + 4] == t[j..j + 4]
  {
    EncodeDecode(s, i);
    EncodeDecode(t, j);
  }
}
