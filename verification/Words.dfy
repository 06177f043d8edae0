/** Bytes, 32-bit words, and the two- and four-word UMP layouts of
    src/midi2_msg.h. A word is its four bytes, most significant first; the
    builders of the source OR shifted bytes into zeroed words, and are proved to
    produce exactly these layouts. */
module Words {

  type byte = b: int | 0 <= b < 0x100
  type bytes = seq<byte>
  type nibble = n: int | 0 <= n < 0x10
  type word = w: int | 0 <= w < 0x1_0000_0000

  function Min(a: int, b: int): int {
    if a <= b then a else b
  }

  /** The data bytes of a SysEx payload are 7-bit. */
  predicate Is7Bit(data: bytes) {
    forall i :: 0 <= i < |data| ==> data[i] < 0x80
  }

  /** A C string is the bytes before its NUL. */
  predicate NulFree(s: bytes) {
    forall i :: 0 <= i < |s| ==> s[i] != 0
  }

  // ---- Bitwise OR ----------------------------------------------------------

  function Or(a: nat, b: nat): nat {
    if a == 0 then b
    else if b == 0 then a
    else 2 * Or(a / 2, b / 2) + (if a % 2 == 1 || b % 2 == 1 then 1 else 0)
  }

  lemma OrZero(a: nat)
    ensures Or(a, 0) == a == Or(0, a)
  {
  }

  lemma OrStep(a: nat, b: nat, i: nat, j: nat)
    requires i < 2 && j < 2
    ensures Or(2 * a + i, 2 * b + j) == 2 * Or(a, b) + Or(i, j)
  {
    assert (2 * a + i) / 2 == a && (2 * b + j) / 2 == b;
  }

  lemma OrBit(i: nat, j: nat)
    requires i < 2 && j < 2
    ensures Or(i, j) < 2
  {
  }

  // OR works digit by digit: base 4, base 16, then base 256.

  lemma OrBase4(a: nat, b: nat, c: nat, d: nat)
    requires c < 4 && d < 4
    ensures Or(c, d) < 4
    ensures Or(4 * a + c, 4 * b + d) == 4 * Or(a, b) + Or(c, d)
  {
    hide Or;
    OrBit(c / 2, d / 2);
    OrBit(c % 2, d % 2);
    OrStep(2 * a + c / 2, 2 * b + d / 2, c % 2, d % 2);
    OrStep(a, b, c / 2, d / 2);
    OrStep(c / 2, d / 2, c % 2, d % 2);
  }

  lemma OrBase16(a: nat, b: nat, c: nat, d: nat)
    requires c < 16 && d < 16
    ensures Or(c, d) < 16
    ensures Or(16 * a + c, 16 * b + d) == 16 * Or(a, b) + Or(c, d)
  {
    hide Or;
    OrBase4(4 * a + c / 4, 4 * b + d / 4, c % 4, d % 4);
    OrBase4(a, b, c / 4, d / 4);
    OrBase4(c / 4, d / 4, c % 4, d % 4);
  }

  lemma OrByte(a: nat, b: nat, c: byte, d: byte)
    ensures Or(c, d) < 0x100
    ensures Or(0x100 * a + c, 0x100 * b + d) == 0x100 * Or(a, b) + Or(c, d)
  {
    hide Or;
    OrBase16(16 * a + c / 16, 16 * b + d / 16, c % 16, d % 16);
    OrBase16(a, b, c / 16, d / 16);
    OrBase16(c / 16, d / 16, c % 16, d % 16);
  }

  // ---- Words as bytes ------------------------------------------------------

  function Be(b0: byte, b1: byte, b2: byte, b3: byte): word {
    0x100 * (0x100 * (0x100 * b0 + b1) + b2) + b3
  }

  /** The source's (w >> (24 - 8 * j)) & 0xFF. */
  function ByteAt(w: word, j: nat): byte
    requires j < 4
  {
    if j == 0 then w / 0x100_0000
    else if j == 1 then w / 0x1_0000 % 0x100
    else if j == 2 then w / 0x100 % 0x100
    else w % 0x100
  }

  lemma BytesOfBe(b0: byte, b1: byte, b2: byte, b3: byte)
    ensures var w := Be(b0, b1, b2, b3);
            ByteAt(w, 0) == b0 && ByteAt(w, 1) == b1 && ByteAt(w, 2) == b2 && ByteAt(w, 3) == b3
  {
    var w := Be(b0, b1, b2, b3);
    assert w / 0x100 == 0x100 * (0x100 * b0 + b1) + b2;
    assert w / 0x1_0000 == 0x100 * b0 + b1;
  }

  lemma OrBe(a0: byte, a1: byte, a2: byte, a3: byte, b0: byte, b1: byte, b2: byte, b3: byte)
    ensures Or(a0, b0) < 0x100 && Or(a1, b1) < 0x100 && Or(a2, b2) < 0x100 && Or(a3, b3) < 0x100
    ensures Or(Be(a0, a1, a2, a3), Be(b0, b1, b2, b3))
            == Be(Or(a0, b0), Or(a1, b1), Or(a2, b2), Or(a3, b3))
  {
    hide Or;
    assert Or(0, 0) == 0 by { OrZero(0); }
    OrByte(0, 0, a0, b0);
    OrByte(a0, b0, a1, b1);
    OrByte(0x100 * a0 + a1, 0x100 * b0 + b1, a2, b2);
    OrByte(0x100 * (0x100 * a0 + a1) + a2, 0x100 * (0x100 * b0 + b1) + b2, a3, b3);
  }

  lemma BeOfBytes(w: word)
    ensures w == Be(ByteAt(w, 0), ByteAt(w, 1), ByteAt(w, 2), ByteAt(w, 3))
  {
    assert w / 0x1_0000 == w / 0x100 / 0x100;
    assert w / 0x100_0000 == w / 0x1_0000 / 0x100;
  }

  /** The source's (uint32_t)v << sh for the byte shifts it uses. */
  function Shl(v: byte, sh: nat): word
    requires sh in {0, 8, 16, 24}
  {
    if sh == 24 then Be(v, 0, 0, 0)
    else if sh == 16 then Be(0, v, 0, 0)
    else if sh == 8 then Be(0, 0, v, 0)
    else Be(0, 0, 0, v)
  }

  /** w | v, as a word. */
  function OrWord(w: word, v: word): (r: word) {
    OrWordBound(w, v);
    Or(w, v)
  }

  lemma OrWordBound(w: word, v: word)
    ensures Or(w, v) < 0x1_0000_0000
  {
    hide Or, ByteAt;
    BeOfBytes(w);
    BeOfBytes(v);
    OrBe(ByteAt(w, 0), ByteAt(w, 1), ByteAt(w, 2), ByteAt(w, 3),
         ByteAt(v, 0), ByteAt(v, 1), ByteAt(v, 2), ByteAt(v, 3));
  }
}
