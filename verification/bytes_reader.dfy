/** The big-endian byte cursor used to decode clip-info and playlist files
    (`BytesReaderUtilities`). Every reader takes the buffer and the cursor
    position and yields the value read together with the advanced position;
    an out-of-range read is the exception the source throws. */
module BytesReader {
  import opened Wrappers

  type byte = b: int | 0 <= b < 256

  /** A value read and the cursor position after it. */
  datatype Read<T> = Read(value: T, pos: int)

  const IndexOutOfRange: string := "Index was outside the bounds of the array."
  const ArgumentOutOfRange: string := "Specified argument was out of the range of valid values."

  const TwoTo16: int := 0x1_0000
  const TwoTo31: int := 0x8000_0000
  const TwoTo32: int := 0x1_0000_0000

  /** The bytes `data[pos..pos + width)` exist. */
  predicate InBounds(data: seq<byte>, pos: int, width: nat) {
    0 <= pos && pos + width <= |data|
  }

  /** ASCII decoding of one byte: bytes above 0x7F become '?'. */
  function AsciiChar(b: byte): char {
    if b < 0x80 then b as char else '?'
  }

  /** `ReadString`: `count` ASCII characters starting at `pos`. */
  function ReadString(data: seq<byte>, count: int, pos: int): (r: Result<Read<string>>)
    ensures r.Success? <==> count >= 0 && InBounds(data, pos, count)
    ensures r.Success? ==> |r.value.value| == count && r.value.pos == pos + count
    ensures r.Success? ==>
      forall i :: 0 <= i < count ==> r.value.value[i] == AsciiChar(data[pos + i])
    ensures r.Failure? ==> r.error == ArgumentOutOfRange
  {
    if count < 0 || !InBounds(data, pos, count) then Failure(ArgumentOutOfRange)
    else Success(Read(seq(count, i requires 0 <= i < count => AsciiChar(data[pos + i])), pos + count))
  }

  /** The big-endian unsigned value of `data[pos..pos + 4)`. */
  function Unsigned32(data: seq<byte>, pos: int): int
    requires InBounds(data, pos, 4)
  {
    data[pos] as int * 0x100_0000 + data[pos + 1] as int * 0x1_0000 + data[pos + 2] as int * 0x100 + data[pos + 3] as int
  }

  /** C#'s unchecked `int` reading of a 32-bit pattern (two's complement). */
  function ToInt32(u: int): (r: int)
    requires 0 <= u < TwoTo32
    ensures -TwoTo31 <= r < TwoTo31
    ensures (r - u) % TwoTo32 == 0
  {
    if u < TwoTo31 then u else u - TwoTo32
  }

  /** `ReadInt32`: four big-endian bytes in unchecked 32-bit arithmetic. */
  function ReadInt32(data: seq<byte>, pos: int): (r: Result<Read<int>>)
    ensures r.Success? <==> InBounds(data, pos, 4)
    ensures r.Success? ==> r.value.pos == pos + 4
    ensures r.Success? ==> -TwoTo31 <= r.value.value < TwoTo31
    ensures r.Success? ==> (r.value.value < 0 <==> data[pos] >= 0x80)
    ensures r.Success? ==> (r.value.value - Unsigned32(data, pos)) % TwoTo32 == 0
    ensures r.Failure? ==> r.error == IndexOutOfRange
  {
    if !InBounds(data, pos, 4) then Failure(IndexOutOfRange)
    else Success(Read(ToInt32(Unsigned32(data, pos)), pos + 4))
  }

  /** `ReadInt16`: two big-endian bytes, never negative. */
  function ReadInt16(data: seq<byte>, pos: int): (r: Result<Read<int>>)
    ensures r.Success? <==> InBounds(data, pos, 2)
    ensures r.Success? ==> r.value.pos == pos + 2
    ensures r.Success? ==> 0 <= r.value.value < TwoTo16
    ensures r.Success? ==> r.value.value == 256 * (data[pos] as int) + data[pos + 1] as int
    ensures r.Failure? ==> r.error == IndexOutOfRange
  {
    if !InBounds(data, pos, 2) then Failure(IndexOutOfRange)
    else Success(Read(data[pos] as int * 0x100 + data[pos + 1] as int, pos + 2))
  }

  /** `ReadByte`: the byte at the cursor. */
  function ReadByte(data: seq<byte>, pos: int): (r: Result<Read<byte>>)
    ensures r.Success? <==> InBounds(data, pos, 1)
    ensures r.Success? ==> r.value.value == data[pos] && r.value.pos == pos + 1
    ensures r.Failure? ==> r.error == IndexOutOfRange
  {
    if !InBounds(data, pos, 1) then Failure(IndexOutOfRange)
    else Success(Read(data[pos], pos + 1))
  }

  // Writers: the encodings the readers invert.

  function WriteInt16(v: int): (r: seq<byte>)
    requires 0 <= v < TwoTo16
    ensures |r| == 2
  {
    [v / 0x100, v % 0x100]
  }

  function WriteInt32(v: int): (r: seq<byte>)
    requires -TwoTo31 <= v < TwoTo31
    ensures |r| == 4
  {
    var u := if v < 0 then v + TwoTo32 else v;
    [u / 0x100_0000, (u / 0x1_0000) % 0x100, (u / 0x100) % 0x100, u % 0x100]
  }

  function EncodeAscii(s: string): (r: seq<byte>)
    requires forall i :: 0 <= i < |s| ==> s[i] as int < 0x80
    ensures |r| == |s|
  {
    seq(|s|, i requires 0 <= i < |s| => s[i] as int)
  }

  /** Reading back a 16-bit value written big-endian at any offset yields it. */
  lemma ReadInt16RoundTrip(prefix: seq<byte>, v: int, suffix: seq<byte>)
    requires 0 <= v < TwoTo16
    ensures ReadInt16(prefix + WriteInt16(v) + suffix, |prefix|) == Success(Read(v, |prefix| + 2))
  {
    var data := prefix + WriteInt16(v) + suffix;
    assert data[|prefix|] == v / 0x100 && data[|prefix| + 1] == v % 0x100;
  }

  /** Conversely, the bytes a 16-bit read consumed are the encoding of its value. */
  lemma ReadInt16Encodes(data: seq<byte>, pos: int)
    requires InBounds(data, pos, 2)
    ensures WriteInt16(ReadInt16(data, pos).value.value) == data[pos..pos + 2]
  {
  }

  /** The four base-256 digits of a 32-bit pattern recompose it. */
  lemma Base256Digits(u: int)
    requires 0 <= u < TwoTo32
    ensures (u / 0x100_0000) * 0x100_0000 + ((u / 0x1_0000) % 0x100) * 0x1_0000 + ((u / 0x100) % 0x100) * 0x100 + u % 0x100 == u
  {
    var a := u / 0x100;
    var b := a / 0x100;
    assert u == a * 0x100 + u % 0x100;
    assert a == b * 0x100 + a % 0x100;
    assert b == (b / 0x100) * 0x100 + b % 0x100;
    assert u / 0x1_0000 == b;
    assert u / 0x100_0000 == b / 0x100;
  }

  /** Reading back a 32-bit value written big-endian yields it, sign included. */
  lemma ReadInt32RoundTrip(prefix: seq<byte>, v: int, suffix: seq<byte>)
    requires -TwoTo31 <= v < TwoTo31
    ensures ReadInt32(prefix + WriteInt32(v) + suffix, |prefix|) == Success(Read(v, |prefix| + 4))
  {
    var data := prefix + WriteInt32(v) + suffix;
    var w := WriteInt32(v);
    var p := |prefix|;
    assert data[p] == w[0] && data[p + 1] == w[1] && data[p + 2] == w[2] && data[p + 3] == w[3];
    var u := if v < 0 then v + TwoTo32 else v;
    Base256Digits(u);
    assert Unsigned32(data, p) == u;
  }

  /** With the top bit clear, a 32-bit read is two 16-bit reads composed:
      high word times 65536 plus low word, ending at the same position. */
  lemma ReadInt32AsTwoInt16(data: seq<byte>, pos: int)
    requires InBounds(data, pos, 4) && data[pos] < 0x80
    ensures var hi := ReadInt16(data, pos).value;
            var lo := ReadInt16(data, hi.pos).value;
            ReadInt32(data, pos) == Success(Read(hi.value * TwoTo16 + lo.value, lo.pos))
  {
  }

  /** A 16-bit read is two byte reads composed: high byte times 256 plus low
      byte, ending where the second byte read ends; both fail together past
      the end of the buffer. */
  lemma ReadInt16AsTwoBytes(data: seq<byte>, pos: int)
    ensures ReadInt16(data, pos).Success? <==> ReadByte(data, pos).Success? && ReadByte(data, pos + 1).Success?
    ensures ReadInt16(data, pos).Success? ==>
      var hi := ReadByte(data, pos).value;
      var lo := ReadByte(data, hi.pos).value;
      ReadInt16(data, pos) == Success(Read(hi.value * 256 + lo.value, lo.pos))
  {
  }

  /** A string of 7-bit characters is read back unchanged. */
  lemma ReadStringRoundTrip(prefix: seq<byte>, s: string, suffix: seq<byte>)
    requires forall i :: 0 <= i < |s| ==> s[i] as int < 0x80
    ensures ReadString(prefix + EncodeAscii(s) + suffix, |s|, |prefix|) == Success(Read(s, |prefix| + |s|))
  {
    var data := prefix + EncodeAscii(s) + suffix;
    var r := ReadString(data, |s|, |prefix|).value.value;
    assert forall i :: 0 <= i < |s| ==> data[|prefix| + i] == s[i] as int;
    assert r == s;
  }
}
