/** Little-endian integer fields as `DataView.setUint16`, `setUint32` and
    `setInt32` store them with `littleEndian` set: the value is reduced modulo
    2^16 or 2^32 (two's complement for negative values) and its bytes are
    written from the least significant one. U16At, U32At and I32At read a
    field back from a byte offset, as the matching `DataView` getters do. */
module LittleEndian {
  import opened Packing

  /** Byte i of u, counting from the least significant one. */
  function Digit(u: nat, i: nat): Byte
    decreases i
  {
    if i == 0 then u % 0x100 else Digit(u / 0x100, i - 1)
  }

  function Le16(v: int): (s: seq<Byte>)
    ensures |s| == 2
  {
    var u := v % 0x1_0000;
    [Digit(u, 0), Digit(u, 1)]
  }

  function Le32(v: int): (s: seq<Byte>)
    ensures |s| == 4
  {
    var u := v % 0x1_0000_0000;
    [Digit(u, 0), Digit(u, 1), Digit(u, 2), Digit(u, 3)]
  }

  /** The unsigned 16-bit field at byte offset `off`. */
  function U16At(s: seq<Byte>, off: nat): nat
    requires off + 2 <= |s|
  {
    s[off] as int + 0x100 * s[off + 1] as int
  }

  /** The unsigned 32-bit field at byte offset `off`. */
  function U32At(s: seq<Byte>, off: nat): nat
    requires off + 4 <= |s|
  {
    s[off] as int + 0x100 * s[off + 1] as int + 0x1_0000 * s[off + 2] as int + 0x100_0000 * s[off + 3] as int
  }

  /** The signed (two's complement) 32-bit field at byte offset `off`. */
  function I32At(s: seq<Byte>, off: nat): int
    requires off + 4 <= |s|
  {
    if U32At(s, off) < 0x8000_0000 then U32At(s, off) else U32At(s, off) - 0x1_0000_0000
  }

  /** The four digits of a value below 2^32 put it back together. */
  lemma Recompose32(u: nat)
    requires u < 0x1_0000_0000
    ensures u == Digit(u, 0) + 0x100 * Digit(u, 1) + 0x1_0000 * Digit(u, 2) + 0x100_0000 * Digit(u, 3)
  {
    var q1 := u / 0x100;
    var q2 := q1 / 0x100;
    var q3 := q2 / 0x100;
    assert Digit(u, 1) == q1 % 0x100 by { assert Digit(u, 1) == Digit(q1, 0); }
    assert Digit(u, 2) == q2 % 0x100 by { assert Digit(u, 2) == Digit(q1, 1) == Digit(q2, 0); }
    assert Digit(u, 3) == q3 % 0x100 by { assert Digit(u, 3) == Digit(q1, 2) == Digit(q2, 1) == Digit(q3, 0); }
    assert u == u % 0x100 + 0x100 * q1;
    assert q1 == q1 % 0x100 + 0x100 * q2;
    assert q2 == q2 % 0x100 + 0x100 * q3;
    assert q3 < 0x100;
  }

  /** An unsigned 16-bit field reads back as the value modulo 2^16. */
  lemma Le16RoundTrip(v: int)
    ensures U16At(Le16(v), 0) == v % 0x1_0000
  {
    var u: nat := v % 0x1_0000;
    assert u == u % 0x100 + 0x100 * (u / 0x100);
    assert Digit(u, 1) == Digit(u / 0x100, 0);
  }

  /** An unsigned 32-bit field reads back as the value modulo 2^32. */
  lemma Le32RoundTrip(v: int)
    ensures U32At(Le32(v), 0) == v % 0x1_0000_0000
  {
    Recompose32(v % 0x1_0000_0000);
  }

  /** A signed 32-bit field reads back as the value written. */
  lemma I32RoundTrip(v: int)
    requires -0x8000_0000 <= v < 0x8000_0000
    ensures I32At(Le32(v), 0) == v
  {
    Le32RoundTrip(v);
    if v < 0 {
      assert v % 0x1_0000_0000 == v + 0x1_0000_0000;
    } else {
      assert v % 0x1_0000_0000 == v;
    }
  }

  /** A field read at offset `off` of a sequence holding `t` there reads as in `t`. */
  lemma ReadAt(s: seq<Byte>, off: nat, t: seq<Byte>)
    requires |t| == 4 && off + 4 <= |s|
    requires s[off] == t[0] && s[off + 1] == t[1] && s[off + 2] == t[2] && s[off + 3] == t[3]
    ensures U32At(s, off) == U32At(t, 0) && I32At(s, off) == I32At(t, 0)
  {
  }
}
