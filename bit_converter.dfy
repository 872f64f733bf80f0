/** Big-endian integer encoding (BitConverterHelper). `BitConverter.GetBytes`
    yields the bytes in host order; the helper reverses them exactly when the
    host is little-endian. */
module BitConverterHelper {
  import opened Wire

  /** The endianness of the host the rest of the model runs on. Which value it
      has does not matter: see `EndiannessIrrelevant16/32`. */
  const HostIsLittleEndian: bool := true

  function Reverse<T>(s: seq<T>): (r: seq<T>)
    ensures |r| == |s|
    ensures forall i :: 0 <= i < |s| ==> r[i] == s[|s| - 1 - i]
  {
    if s == [] then [] else Reverse(s[1..]) + [s[0]]
  }

  /** `BitConverter.GetBytes(ushort)`: the two bytes of `v` in host order. */
  function HostBytes16(v: uint16, isLittleEndian: bool): seq<byte>
  {
    if isLittleEndian then [v % 0x100, v / 0x100] else [v / 0x100, v % 0x100]
  }

  /** `BitConverter.GetBytes(uint)`: the four bytes of `v` in host order. */
  function HostBytes32(v: uint32, isLittleEndian: bool): seq<byte>
  {
    var be := [v / 0x100_0000, (v / 0x1_0000) % 0x100, (v / 0x100) % 0x100, v % 0x100];
    if isLittleEndian then [be[3], be[2], be[1], be[0]] else be
  }

  /** `GetBytesWithBigEdianness(ushort)`: two bytes; `BigEndianBytes16` says
      which. */
  function GetBytesWithBigEndianness16(v: uint16, isLittleEndian: bool): (r: seq<byte>)
    ensures |r| == 2
  {
    if isLittleEndian then Reverse(HostBytes16(v, isLittleEndian)) else HostBytes16(v, isLittleEndian)
  }

  /** `GetBytesWithBigEdianness(uint)`: four bytes; `BigEndianBytes32` says
      which. */
  function GetBytesWithBigEndianness32(v: uint32, isLittleEndian: bool): (r: seq<byte>)
    ensures |r| == 4
  {
    if isLittleEndian then Reverse(HostBytes32(v, isLittleEndian)) else HostBytes32(v, isLittleEndian)
  }

  /** The two bytes are the base-256 digits of `v`, most significant first,
      whatever the host's byte order. */
  lemma BigEndianBytes16(v: uint16, isLittleEndian: bool)
    ensures GetBytesWithBigEndianness16(v, isLittleEndian) == [v / 0x100, v % 0x100]
  {
  }

  /** The four bytes are the base-256 digits of `v`, most significant first,
      whatever the host's byte order. */
  lemma BigEndianBytes32(v: uint32, isLittleEndian: bool)
    ensures GetBytesWithBigEndianness32(v, isLittleEndian)
         == [v / 0x100_0000, (v / 0x1_0000) % 0x100, (v / 0x100) % 0x100, v % 0x100]
  {
  }

  /** The parser's `(b0 << 8) | b1`; for bytes the shift-or is a multiply-add. */
  function FromBigEndian16(b0: byte, b1: byte): (v: uint16)
  {
    b0 * 0x100 + b1
  }

  /** The parser's `(uint)((b0 << 24) | (b1 << 16) | (b2 << 8) | b3)`. */
  function FromBigEndian32(b0: byte, b1: byte, b2: byte, b3: byte): (v: uint32)
  {
    ((b0 * 0x100 + b1) * 0x100 + b2) * 0x100 + b3
  }

  /** The two host orders give the same big-endian bytes. */
  lemma EndiannessIrrelevant16(v: uint16)
    ensures GetBytesWithBigEndianness16(v, true) == GetBytesWithBigEndianness16(v, false)
  {
  }

  lemma EndiannessIrrelevant32(v: uint32)
    ensures GetBytesWithBigEndianness32(v, true) == GetBytesWithBigEndianness32(v, false)
  {
  }

  /** Reading back the two encoded bytes with the parser's decoding recovers the value,
      and the first byte is the most significant. */
  lemma RoundTrip16(v: uint16, isLittleEndian: bool)
    ensures var r := GetBytesWithBigEndianness16(v, isLittleEndian);
      FromBigEndian16(r[0], r[1]) == v && r[0] == v / 0x100
  {
    BigEndianBytes16(v, isLittleEndian);
  }

  /** Reading back the four encoded bytes with the parser's decoding recovers the value,
      most significant byte first. */
  lemma RoundTrip32(v: uint32, isLittleEndian: bool)
    ensures var r := GetBytesWithBigEndianness32(v, isLittleEndian);
      FromBigEndian32(r[0], r[1], r[2], r[3]) == v && r[0] == v / 0x100_0000 && r[3] == v % 0x100
  {
    BigEndianBytes32(v, isLittleEndian);
    var q1 := v / 0x100;
    var q2 := v / 0x1_0000;
    assert v == q1 * 0x100 + v % 0x100;
    assert q1 == q2 * 0x100 + q1 % 0x100 && q1 % 0x100 == (v / 0x100) % 0x100;
    assert q2 == (v / 0x100_0000) * 0x100 + q2 % 0x100;
  }

  /** The big-endian bytes of two values are equal only if the values are. */
  lemma Injective16(v: uint16, w: uint16, isLittleEndian: bool)
    requires GetBytesWithBigEndianness16(v, isLittleEndian) == GetBytesWithBigEndianness16(w, isLittleEndian)
    ensures v == w
  {
    RoundTrip16(v, isLittleEndian);
    RoundTrip16(w, isLittleEndian);
  }
}
