/** Bytes, byte positions inside a buffer, and big-endian integers. */
module Bytes {
  type Byte = x: int | 0 <= x < 256

  /** The bytes `part` stand in `data` at position `pos`. */
  ghost predicate At(data: seq<Byte>, pos: nat, part: seq<Byte>) {
    pos + |part| <= |data| && data[pos..pos + |part|] == part
  }

  lemma AtConcat(data: seq<Byte>, pos: nat, a: seq<Byte>, b: seq<Byte>)
    ensures At(data, pos, a + b) <==> At(data, pos, a) && At(data, pos + |a|, b)
  {
    if At(data, pos, a + b) {
      assert data[pos..pos + |a|] == data[pos..pos + |a + b|][..|a|];
      assert data[pos + |a|..pos + |a| + |b|] == data[pos..pos + |a + b|][|a|..];
    }
    if At(data, pos, a) && At(data, pos + |a|, b) {
      assert data[pos..pos + |a + b|] == data[pos..pos + |a|] + data[pos + |a|..pos + |a| + |b|];
    }
  }

  lemma AtIndex(data: seq<Byte>, pos: nat, part: seq<Byte>, i: nat)
    requires At(data, pos, part) && i < |part|
    ensures pos + i < |data| && data[pos + i] == part[i]
  {
    assert data[pos..pos + |part|][i] == data[pos + i];
  }

  /** A value and the position after it, or a raised error. */
  datatype Read<+T> = Got(value: T, pos: nat) | Fail

  function Min(a: int, b: int): int {
    if a < b then a else b
  }

  /** A slice silently stops at the end of the buffer, yet the position moves by the whole length. */
  function Slice(d: seq<Byte>, p: nat, n: nat): seq<Byte> {
    d[Min(p, |d|)..Min(p + n, |d|)]
  }

  lemma SliceAt(d: seq<Byte>, p: nat, b: seq<Byte>)
    requires At(d, p, b)
    ensures Slice(d, p, |b|) == b
  {
  }

  /** Big-endian value of a byte string; the empty string is worth 0. */
  function BigEndian(b: seq<Byte>): (v: nat)
  {
    if b == [] then 0 else BigEndian(b[..|b| - 1]) * 256 + b[|b| - 1]
  }

  function U16(v: int): (b: seq<Byte>)
    ensures |b| == 2
  {
    [v / 256 % 256, v % 256]
  }

  function U32(v: int): (b: seq<Byte>)
    ensures |b| == 4
  {
    [v / 0x100_0000 % 256, v / 0x1_0000 % 256, v / 256 % 256, v % 256]
  }

  lemma U16Value(v: int)
    ensures BigEndian(U16(v)) == v % 0x1_0000
  {
    var b := U16(v);
    assert b[..1] == [b[0]] && b[..1][..0] == [];
    assert BigEndian(b[..1]) == b[0];
  }

  lemma U32Digits(v: int)
    ensures v % 0x1_0000_0000
            == v / 0x100_0000 % 256 * 0x100_0000 + v / 0x1_0000 % 256 * 0x1_0000 + v / 256 % 256 * 256 + v % 256
  {
    var w1, w2, w3 := v / 256, v / 0x1_0000, v / 0x100_0000;
    assert w2 == w1 / 256 && w3 == w2 / 256;
    assert v == w1 * 256 + v % 256;
    assert w1 == w2 * 256 + w1 % 256;
    assert w2 == w3 * 256 + w2 % 256;
    assert w3 == w3 / 256 * 256 + w3 % 256;
  }

  lemma U32Value(v: int)
    ensures BigEndian(U32(v)) == v % 0x1_0000_0000
  {
    var b := U32(v);
    assert b[..3][..2] == b[..2] && b[..2][..1] == b[..1] && b[..1][..0] == [];
    var b0: int, b1: int, b2: int := b[0], b[1], b[2];
    assert BigEndian(b[..1]) == b0;
    assert BigEndian(b[..2]) == b0 * 256 + b1;
    assert BigEndian(b[..3]) == (b0 * 256 + b1) * 256 + b2;
    U32Digits(v);
  }

  /** Little-endian value of a byte string. */
  function LittleEndian(b: seq<Byte>): nat {
    if b == [] then 0 else b[0] + 256 * LittleEndian(b[1..])
  }

  /** The `n` low bytes of a number, lowest first. */
  function LittleBytes(v: nat, n: nat): (b: seq<Byte>)
    ensures |b| == n
    decreases n
  {
    if n == 0 then [] else [v % 256] + LittleBytes(v / 256, n - 1)
  }

  /** `c` times 256^(n - 1). */
  function Scaled(c: nat, n: nat): nat
    requires n > 0
  {
    if n == 1 then c else 256 * Scaled(c, n - 1)
  }

  /** A number below c * 256^(n - 1) is what its n low bytes are worth, and its top byte is below c. */
  lemma {:induction false} LittleBytesValue(v: nat, n: nat, c: nat)
    requires n > 0 && c <= 256 && v < Scaled(c, n)
    ensures LittleEndian(LittleBytes(v, n)) == v
    ensures LittleBytes(v, n)[n - 1] < c
    decreases n
  {
    var rest := LittleBytes(v / 256, n - 1);
    assert LittleBytes(v, n)[1..] == rest;
    if n > 1 {
      LittleBytesValue(v / 256, n - 1, c);
    } else {
      assert rest == [];
    }
  }

  /** Concatenation of a list of byte strings. */
  function Concat(parts: seq<seq<Byte>>): seq<Byte> {
    if parts == [] then [] else parts[0] + Concat(parts[1..])
  }

  lemma {:induction false} ConcatAppend(a: seq<seq<Byte>>, b: seq<seq<Byte>>)
    ensures Concat(a + b) == Concat(a) + Concat(b)
  {
    if a == [] {
      assert a + b == b;
    } else {
      assert (a + b)[1..] == a[1..] + b;
      ConcatAppend(a[1..], b);
    }
  }
}
