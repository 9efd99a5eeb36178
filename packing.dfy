/** Bytes and bits as the JavaScript code handles them (a `Uint8Array` element
    is an integer from 0 to 255, and `>>`, `&`, `|`, `<<` act on its binary
    digits), and the packing of one-bit pixels into bytes, most significant bit
    first: the layout both the OTB picture and the bitmap's pixel rows use.
    Nothing here depends on a particular picture. */
module Packing {
  type Byte = x: int | 0 <= x < 256

  type Bit = x: int | x == 0 || x == 1

  function Pow2(s: nat): (r: nat)
    ensures r >= 1
  {
    if s == 0 then 1 else 2 * Pow2(s - 1)
  }

  /** `(b >> pos) & 1`: binary digit number pos, 0 the least significant;
      each `>> 1` halves, rounding down. */
  function BitAt(b: nat, pos: nat): Bit {
    if pos == 0 then b % 2 else BitAt(b / 2, pos - 1)
  }

  /** `bit << s`. */
  function ShiftLeft(bit: Bit, s: nat): nat {
    if bit == 0 then 0 else Pow2(s)
  }

  /** `a | b` on non-negative integers, one binary digit at a time from the
      least significant. */
  function Or(a: nat, b: nat): nat
    decreases a + b
  {
    if a == 0 && b == 0 then 0
    else 2 * Or(a / 2, b / 2) + (if a % 2 == 1 || b % 2 == 1 then 1 else 0)
  }

  /** Every binary digit of `a | b` is set exactly when it is set in a or in b. */
  lemma {:induction false} OrBits(a: nat, b: nat, pos: nat)
    ensures BitAt(Or(a, b), pos) == if BitAt(a, pos) == 1 || BitAt(b, pos) == 1 then 1 else 0
    decreases pos
  {
    if pos > 0 && (a != 0 || b != 0) {
      OrBits(a / 2, b / 2, pos - 1);
    } else if pos > 0 {
      ZeroBit(pos);
    }
  }

  lemma {:induction false} ZeroBit(pos: nat)
    ensures BitAt(0, pos) == 0
    decreases pos
  {
    if pos > 0 {
      ZeroBit(pos - 1);
    }
  }

  lemma {:induction false} OrZero(a: nat)
    ensures Or(a, 0) == a
    decreases a
  {
    if a != 0 {
      OrZero(a / 2);
    }
  }

  /** Or-ing in a power of two whose digit is still clear adds it. */
  lemma {:induction false} OrIsAdd(a: nat, s: nat)
    requires BitAt(a, s) == 0
    ensures Or(a, Pow2(s)) == a + Pow2(s)
    decreases s
  {
    if s == 0 {
      OrZero(a / 2);
    } else {
      OrIsAdd(a / 2, s - 1);
    }
  }

  /** Bits packed into one number, the first one the most significant. */
  function PackBits(bits: seq<Bit>): (r: nat)
    ensures r < Pow2(|bits|)
    decreases |bits|
  {
    if |bits| == 0 then 0 else 2 * PackBits(bits[..|bits| - 1]) + bits[|bits| - 1]
  }

  /** Eight bits in one byte. */
  function Pack(bits: seq<Bit>): Byte
    requires |bits| == 8
  {
    PackBits(bits)
  }

  /** Digit |bits|-1-j of the packed number is the j-th bit. */
  lemma {:induction false} BitOfPack(bits: seq<Bit>, j: nat)
    requires j < |bits|
    ensures BitAt(PackBits(bits), |bits| - 1 - j) == bits[j]
    decreases |bits|
  {
    var front := bits[..|bits| - 1];
    if j < |bits| - 1 {
      BitOfPack(front, j);
      assert front[j] == bits[j];
    }
  }

  /** Setting a clear bit adds its weight to the packed number. */
  lemma {:induction false} SetBit(bits: seq<Bit>, j: nat, b: Bit)
    requires j < |bits| && bits[j] == 0
    ensures PackBits(bits[j := b]) == PackBits(bits) + ShiftLeft(b, |bits| - 1 - j)
    decreases |bits|
  {
    var front := bits[..|bits| - 1];
    if j == |bits| - 1 {
      assert bits[j := b][..|bits| - 1] == front;
    } else {
      SetBit(front, j, b);
      assert bits[j := b][..|bits| - 1] == front[j := b];
    }
  }

  /** All-zero bits pack to zero. */
  lemma {:induction false} PackZeros(bits: seq<Bit>)
    requires forall i :: 0 <= i < |bits| ==> bits[i] == 0
    ensures PackBits(bits) == 0
    decreases |bits|
  {
    if |bits| > 0 {
      PackZeros(bits[..|bits| - 1]);
    }
  }

  /** The first n of the eight bits of byte k of a row, zeros elsewhere and
      past the end of the row. */
  function Window(row: seq<Bit>, k: nat, n: nat): (bits: seq<Bit>)
    ensures |bits| == 8
  {
    seq(8, j requires 0 <= j < 8 => if j < n && 8 * k + j < |row| then row[8 * k + j] else 0)
  }

  /** A bit accumulator holding the first n bits of byte k of a row. */
  function PartialByte(row: seq<Bit>, k: nat, n: nat): Byte {
    Pack(Window(row, k, n))
  }

  /** Byte k of a packed row: bits 8k to 8k+7, zero past the end of the row. */
  function RowByte(row: seq<Bit>, k: nat): Byte {
    PartialByte(row, k, 8)
  }

  /** A row of bits packed into `stride` bytes. */
  function PackRow(row: seq<Bit>, stride: nat): (s: seq<Byte>)
    ensures |s| == stride
    decreases stride
  {
    if stride == 0 then [] else PackRow(row, stride - 1) + [RowByte(row, stride - 1)]
  }

  lemma {:induction false} PackRowAt(row: seq<Bit>, stride: nat, k: nat)
    requires k < stride
    ensures PackRow(row, stride)[k] == RowByte(row, k)
    decreases stride
  {
    if k < stride - 1 {
      PackRowAt(row, stride - 1, k);
    }
  }

  /** The first n bytes of a packed row do not depend on its stride. */
  lemma {:induction false} PackRowPrefix(row: seq<Bit>, stride: nat, n: nat)
    requires n <= stride
    ensures PackRow(row, stride)[..n] == PackRow(row, n)
    decreases stride
  {
    if n < stride {
      PackRowPrefix(row, stride - 1, n);
      assert PackRow(row, stride)[..n] == PackRow(row, stride - 1)[..n];
    }
  }

  /** An empty accumulator is zero. */
  lemma EmptyByte(row: seq<Bit>, k: nat)
    ensures PartialByte(row, k, 0) == 0
  {
    PackZeros(Window(row, k, 0));
  }

  /** Taking in bit 8k+n: `acc |= bit << (7 - n)`. */
  lemma PartialByteNext(row: seq<Bit>, k: nat, n: nat)
    requires n < 8 && 8 * k + n < |row|
    ensures PartialByte(row, k, n + 1) == Or(PartialByte(row, k, n), ShiftLeft(row[8 * k + n], 7 - n))
  {
    var bits := Window(row, k, n);
    var b := row[8 * k + n];
    assert Window(row, k, n + 1) == bits[n := b];
    SetBit(bits, n, b);
    if b == 0 {
      OrZero(PackBits(bits));
    } else {
      BitOfPack(bits, n);
      OrIsAdd(PackBits(bits), 7 - n);
    }
  }

  /** Once the byte is full or the row has ended, the accumulator is the
      packed byte. */
  lemma PartialByteDone(row: seq<Bit>, k: nat, n: nat)
    requires n <= 8 && (n == 8 || 8 * k + n >= |row|)
    ensures PartialByte(row, k, n) == RowByte(row, k)
  {
    assert Window(row, k, n) == Window(row, k, 8);
  }

  /** Bit 7-j of byte k of a packed row is bit 8k+j of the row, or zero past
      the row's end. */
  lemma RowByteBit(row: seq<Bit>, k: nat, j: nat)
    requires j < 8
    ensures BitAt(RowByte(row, k), 7 - j) == if 8 * k + j < |row| then row[8 * k + j] else 0
  {
    BitOfPack(Window(row, k, 8), j);
  }

  /** Bit x of a packed row sits at position 7 - x%8 of byte x/8; every bit
      past the row's end is zero. */
  lemma PackRowBit(row: seq<Bit>, stride: nat, x: nat)
    requires x < 8 * stride
    ensures x / 8 < stride
    ensures BitAt(PackRow(row, stride)[x / 8], 7 - x % 8) == if x < |row| then row[x] else 0
  {
    var k, j := x / 8, x % 8;
    assert 8 * k + j == x;
    PackRowAt(row, stride, k);
    RowByteBit(row, k, j);
  }
}
