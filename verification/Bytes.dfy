/**
  Bytes, machine integers and the cursor-threaded readers of the producer.

  A C++ `std::vector<uint8_t>` and a `std::string` are both sequences of bytes; a byte is a
  character below 256, so that the texts cut out of a packet are strings without conversion.
 */
module Bytes {

  type byte = c: char | c as int < 256
  type bytes = seq<byte>

  /** A byte string that can be sent with a terminating NUL. */
  type Name = b: bytes | '\0' !in b

  type uint16 = x: int | 0 <= x < 0x1_0000
  type uint32 = x: int | 0 <= x < 0x1_0000_0000
  type uint64 = x: int | 0 <= x < 0x1_0000_0000_0000_0000
  type int32 = x: int | -0x8000_0000 <= x < 0x8000_0000
  type int64 = x: int | -0x8000_0000_0000_0000 <= x < 0x8000_0000_0000_0000

  datatype Option<+T> = None | Some(value: T)

  /** What a reader returns: the value and the cursor behind it, or an exception. */
  datatype Read<+T> = Ok(value: T, next: nat) | Underflow

  function Byte(n: nat): byte
    requires n < 256
  {
    n as char
  }

  // ----- Network byte order, as the server writes it -----

  function Be16(v: uint16): bytes {
    [Byte(v / 256), Byte(v % 256)]
  }

  function Be32(v: uint32): bytes {
    Be16(v / 0x1_0000) + Be16(v % 0x1_0000)
  }

  function Be64(v: uint64): bytes {
    Be32(v / 0x1_0000_0000) + Be32(v % 0x1_0000_0000)
  }

  /** The independent meaning of a byte string: its digits to base 256. */
  function Base256(b: bytes): nat {
    if b == [] then 0 else Base256(b[..|b| - 1]) * 256 + b[|b| - 1] as int
  }

  // ----- Readers -----

  function ReadUint8(data: bytes, offset: nat): Read<byte> {
    if offset >= |data| then Underflow else Ok(data[offset], offset + 1)
  }

  function ReadUint16(data: bytes, offset: nat): Read<uint16> {
    if offset + 2 > |data| then Underflow
    else Ok(data[offset] as int * 256 + data[offset + 1] as int, offset + 2)
  }

  function ReadUint32(data: bytes, offset: nat): Read<uint32> {
    if offset + 4 > |data| then Underflow
    else
      Ok(((data[offset] as int * 256 + data[offset + 1] as int) * 256 + data[offset + 2] as int) * 256
         + data[offset + 3] as int, offset + 4)
  }

  /** Two 32-bit reads, the first shifted into the high half. */
  function ReadUint64(data: bytes, offset: nat): Read<uint64> {
    if offset + 8 > |data| then Underflow
    else
      var high := ReadUint32(data, offset);
      var low := ReadUint32(data, high.next);
      Ok(Lsn(high.value, low.value), low.next)
  }

  function Lsn(high: uint32, low: uint32): uint64 {
    high * 0x1_0000_0000 + low
  }

  /** Reinterprets an unsigned word as two's complement. */
  function ToInt32(v: uint32): int32 {
    if v < 0x8000_0000 then v else v - 0x1_0000_0000
  }

  function FromInt32(v: int32): uint32 {
    if v >= 0 then v else v + 0x1_0000_0000
  }

  /** All eight bytes are swapped at once and the result is read as signed. */
  function ReadInt64(data: bytes, offset: nat): Read<int64> {
    if offset + 8 > |data| then Underflow
    else
      var v := Base256(data[offset..offset + 8]);
      Base256Bound(data[offset..offset + 8]);
      Ok(if v < 0x8000_0000_0000_0000 then v else v - 0x1_0000_0000_0000_0000, offset + 8)
  }

  /** Up to the next NUL, which is consumed; an exception when there is none. */
  function ReadString(data: bytes, offset: nat): Read<Name>
    decreases |data| - offset
  {
    if offset >= |data| then Underflow
    else if data[offset] == '\0' then Ok([], offset + 1)
    else
      match ReadString(data, offset + 1)
      case Underflow => Underflow
      case Ok(tail, next) => Ok([data[offset]] + tail, next)
  }

  function Power256(n: nat): nat {
    if n == 0 then 1 else 256 * Power256(n - 1)
  }

  lemma {:induction false} Base256Below(b: bytes)
    ensures Base256(b) < Power256(|b|)
  {
    if b != [] {
      Base256Below(b[..|b| - 1]);
    }
  }

  lemma Base256Bound(b: bytes)
    requires |b| == 8
    ensures Base256(b) < 0x1_0000_0000_0000_0000
  {
    Base256Below(b);
    assert Power256(8) == 256 * Power256(7) == 65536 * Power256(6) == 0x100_0000 * Power256(5);
    assert Power256(5) == 256 * Power256(4) == 65536 * Power256(3) == 0x100_0000 * Power256(2);
    assert Power256(2) == 256 * Power256(1) == 65536 * Power256(0);
  }

  // ----- Where a byte string stands in a buffer -----

  /** `part` stands in `data` at `offset`, whatever precedes and follows it. */
  ghost predicate At(data: bytes, offset: nat, part: bytes) {
    offset + |part| <= |data| && forall i: nat {:trigger part[i]} | i < |part| :: data[offset + i] == part[i]
  }

  lemma AtConcat(data: bytes, offset: nat, a: bytes, b: bytes)
    ensures At(data, offset, a + b) <==> At(data, offset, a) && At(data, offset + |a|, b)
  {
    if At(data, offset, a + b) {
      forall i: nat | i < |a| ensures data[offset + i] == a[i] { assert (a + b)[i] == a[i]; }
      forall i: nat | i < |b| ensures data[offset + |a| + i] == b[i] { assert (a + b)[|a| + i] == b[i]; }
    }
  }

  lemma AtIndex(data: bytes, offset: nat, part: bytes, i: nat)
    requires At(data, offset, part) && i < |part|
    ensures data[offset + i] == part[i]
  {
  }

  lemma AtSlice(data: bytes, offset: nat, part: bytes)
    ensures At(data, offset, part) <==> offset + |part| <= |data| && data[offset..offset + |part|] == part
  {
    if At(data, offset, part) {
      assert data[offset..offset + |part|] == part;
    } else if offset + |part| <= |data| {
      var i: nat :| i < |part| && data[offset + i] != part[i];
      assert data[offset..offset + |part|][i] != part[i];
    }
  }

  // ----- Readers undo the server's encoding -----

  lemma ReadUint8At(data: bytes, offset: nat, b: byte)
    requires At(data, offset, [b])
    ensures ReadUint8(data, offset) == Ok(b, offset + 1)
  {
    AtIndex(data, offset, [b], 0);
  }

  lemma ReadUint16At(data: bytes, offset: nat, v: uint16)
    requires At(data, offset, Be16(v))
    ensures ReadUint16(data, offset) == Ok(v, offset + 2)
  {
    AtIndex(data, offset, Be16(v), 0);
    AtIndex(data, offset, Be16(v), 1);
  }

  lemma ReadUint32At(data: bytes, offset: nat, v: uint32)
    requires At(data, offset, Be32(v))
    ensures ReadUint32(data, offset) == Ok(v, offset + 4)
  {
    AtConcat(data, offset, Be16(v / 0x1_0000), Be16(v % 0x1_0000));
    ReadUint16At(data, offset, v / 0x1_0000);
    ReadUint16At(data, offset + 2, v % 0x1_0000);
  }

  lemma ReadUint64At(data: bytes, offset: nat, v: uint64)
    requires At(data, offset, Be64(v))
    ensures ReadUint64(data, offset) == Ok(v, offset + 8)
  {
    AtConcat(data, offset, Be32(v / 0x1_0000_0000), Be32(v % 0x1_0000_0000));
    ReadUint32At(data, offset, v / 0x1_0000_0000);
    ReadUint32At(data, offset + 4, v % 0x1_0000_0000);
  }

  function EncodeString(s: Name): bytes {
    s + ['\0']
  }

  lemma {:induction false} ReadStringAt(data: bytes, offset: nat, s: Name)
    requires At(data, offset, EncodeString(s))
    ensures ReadString(data, offset) == Ok(s, offset + |s| + 1)
    decreases |s|
  {
    AtIndex(data, offset, EncodeString(s), 0);
    if s != [] {
      assert EncodeString(s) == [s[0]] + EncodeString(s[1..]);
      AtConcat(data, offset, [s[0]], EncodeString(s[1..]));
      ReadStringAt(data, offset + 1, s[1..]);
      assert [s[0]] + s[1..] == s;
    }
  }

  // ----- The composed 64-bit read -----

  lemma Base256Step(b: bytes, i: nat)
    requires i < |b|
    ensures Base256(b[..i + 1]) == Base256(b[..i]) * 256 + b[i] as int
  {
    assert b[..i + 1][..i] == b[..i];
  }

  /**
    `read_uint64` is the base-256 value of its eight bytes, although it is put together from
    two words, and `read_int64` is the same number modulo 2^64.
   */
  lemma ReadUint64IsBase256(data: bytes, offset: nat)
    requires offset + 8 <= |data|
    ensures ReadUint64(data, offset) == Ok(Base256(data[offset..offset + 8]), offset + 8)
    ensures ReadInt64(data, offset).Ok?
    ensures (ReadInt64(data, offset).value - ReadUint64(data, offset).value) % 0x1_0000_0000_0000_0000 == 0
  {
    var b := data[offset..offset + 8];
    Base256Step(b, 0); Base256Step(b, 1); Base256Step(b, 2); Base256Step(b, 3);
    Base256Step(b, 4); Base256Step(b, 5); Base256Step(b, 6); Base256Step(b, 7);
    assert b[..8] == b;
    var high := ReadUint32(data, offset).value;
    var low := ReadUint32(data, offset + 4).value;
    assert high == Base256(b[..4]);
    assert Base256(b) == Lsn(high, low);
  }

  lemma Be64Halves(high: uint32, low: uint32)
    ensures Be64(Lsn(high, low)) == Be32(high) + Be32(low)
  {
    assert Lsn(high, low) / 0x1_0000_0000 == high && Lsn(high, low) % 0x1_0000_0000 == low;
  }

  /** Positions are ordered as their halves are, the high one first. */
  lemma LsnOrder(high: uint32, low: uint32, high': uint32, low': uint32)
    ensures Lsn(high, low) <= Lsn(high', low') <==> high < high' || (high == high' && low <= low')
  {
  }
}
