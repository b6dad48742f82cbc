/**
 Little-endian integers in byte arrays (dm/e.go:31-48, 151-169).
 */
module LittleEndian {
  import opened Bytes

  /** Go's signed 32-bit and 16-bit conversions. */
  function Int32(v: int): int {
    var u := v % 0x1_0000_0000;
    if u >= 0x8000_0000 then u - 0x1_0000_0000 else u
  }

  function Int16(v: int): int {
    var u := v % 0x1_0000;
    if u >= 0x8000 then u - 0x1_0000 else u
  }

  predicate FitsInt32(v: int) { -0x8000_0000 <= v < 0x8000_0000 }

  predicate FitsInt16(v: int) { -0x8000 <= v < 0x8000 }

  /** The four bytes of `int32(v)`, lowest first; Go's right shift rounds down, as
      does division here. */
  function PutInt32(v: int): (b: seq<Byte>)
    ensures |b| == 4
  {
    [ToByte(v), ToByte(v / 0x100), ToByte(v / 0x1_0000), ToByte(v / 0x100_0000)]
  }

  function GetInt32(b: seq<Byte>, at: nat): int
    requires at + 4 <= |b|
  {
    var b0: int, b1: int, b2: int, b3: int := b[at], b[at + 1], b[at + 2], b[at + 3];
    Int32(b0 + b1 * 0x100 + b2 * 0x1_0000 + b3 * 0x100_0000)
  }

  function PutInt16(v: int): (b: seq<Byte>)
    ensures |b| == 2
  {
    [ToByte(v), ToByte(v / 0x100)]
  }

  function GetInt16(b: seq<Byte>, at: nat): int
    requires at + 2 <= |b|
  {
    var b0: int, b1: int := b[at], b[at + 1];
    Int16(b0 + b1 * 0x100)
  }

  /** The low byte comes first: byte i counts 256 to the i-th, modulo the width. */
  lemma LowByteFirst(v: int)
    ensures var b := PutInt32(v);
      b[0] as int + 0x100 * b[1] as int + 0x1_0000 * b[2] as int + 0x100_0000 * b[3] as int == v % 0x1_0000_0000
    ensures PutInt16(v)[0] as int + 0x100 * PutInt16(v)[1] as int == v % 0x1_0000
  {
    var q1, q2, q3 := v / 0x100, v / 0x1_0000, v / 0x100_0000;
    assert q2 == q1 / 0x100 && q3 == q2 / 0x100;
    var sum := v % 0x100 + q1 % 0x100 * 0x100 + q2 % 0x100 * 0x1_0000 + q3 % 0x100 * 0x100_0000;
    assert sum == v - q3 / 0x100 * 0x1_0000_0000;
    assert 0 <= sum < 0x1_0000_0000;
    assert v % 0x1_0000 == v % 0x100 + q1 % 0x100 * 0x100;
  }

  lemma Int32RoundTrip(v: int)
    requires FitsInt32(v)
    ensures GetInt32(PutInt32(v), 0) == v
  {
    var q1, q2, q3 := v / 0x100, v / 0x1_0000, v / 0x100_0000;
    assert q2 == q1 / 0x100;
    assert q3 == q2 / 0x100;
    var sum := v % 0x100 + q1 % 0x100 * 0x100 + q2 % 0x100 * 0x1_0000 + q3 % 0x100 * 0x100_0000;
    assert sum == v - q3 / 0x100 * 0x1_0000_0000;
    assert q3 / 0x100 == if v < 0 then -1 else 0;
  }

  lemma Int16RoundTrip(v: int)
    requires FitsInt16(v)
    ensures GetInt16(PutInt16(v), 0) == v
  {
    var q := v / 0x100;
    assert v % 0x100 + q % 0x100 * 0x100 == v - q / 0x100 * 0x1_0000;
  }

  /** Reading a field out of the middle of a message. */
  lemma GetInt32At(b: seq<Byte>, at: nat, v: int)
    requires at + 4 <= |b| && b[at..at + 4] == PutInt32(v) && FitsInt32(v)
    ensures GetInt32(b, at) == v
  {
    Int32RoundTrip(v);
    var p := b[at..at + 4];
    assert p[0] == b[at] && p[1] == b[at + 1] && p[2] == b[at + 2] && p[3] == b[at + 3];
  }

  lemma GetInt16At(b: seq<Byte>, at: nat, v: int)
    requires at + 2 <= |b| && b[at..at + 2] == PutInt16(v) && FitsInt16(v)
    ensures GetInt16(b, at) == v
  {
    Int16RoundTrip(v);
    var p := b[at..at + 2];
    assert p[0] == b[at] && p[1] == b[at + 1];
  }
}
