/** `ResourceRecord` and its serialisation: name, type, class, TTL, the data
    length and the data, as laid out in section 4.1.3 of RFC 1035. The data
    length is always derived from the data. */
module ResourceRecords {
  import opened Wire
  import opened BitConverterHelper
  import DnsTypes
  import DnsClasses
  import Names

  /** An IPv4 or IPv6 address, given by its address bytes. */
  datatype IPAddress = IPAddress(addressBytes: seq<byte>)

  datatype ResourceRecord = ResourceRecord(
    name: seq<byte>,
    rrType: DnsTypes.DnsType,
    rrClass: DnsClasses.DnsClass,
    ttl: uint32,
    data: seq<byte>)
  {
    /** `DataLength`: the length of the data as a `ushort`, never a stored value. */
    function DataLength(): (n: uint16)
      ensures |data| < 0x1_0000 ==> n == |data|
      ensures n <= |data|
      ensures (|data| - n) % 0x1_0000 == 0
    {
      |data| % 0x1_0000
    }

    /** `ToBytes`: the encoded name, then type, class, TTL and data length
        big-endian, then the data. Read back field by field, each field holds
        the record's value. */
    function ToBytes(): (r: seq<byte>)
      ensures var k := |Names.EncodeName(name)|;
        && |r| == k + 10 + |data|
        && r[..k] == Names.EncodeName(name)
        && FromBigEndian16(r[k], r[k + 1]) == rrType
        && FromBigEndian16(r[k + 2], r[k + 3]) == rrClass.value
        && FromBigEndian32(r[k + 4], r[k + 5], r[k + 6], r[k + 7]) == ttl
        && FromBigEndian16(r[k + 8], r[k + 9]) == DataLength()
        && r[k + 10..] == data
    {
      RoundTrip16(rrType, HostIsLittleEndian);
      RoundTrip16(rrClass.value, HostIsLittleEndian);
      RoundTrip32(ttl, HostIsLittleEndian);
      RoundTrip16(DataLength(), HostIsLittleEndian);
      Names.EncodeName(name)
        + GetBytesWithBigEndianness16(rrType, HostIsLittleEndian)
        + GetBytesWithBigEndianness16(rrClass.value, HostIsLittleEndian)
        + GetBytesWithBigEndianness32(ttl, HostIsLittleEndian)
        + GetBytesWithBigEndianness16(DataLength(), HostIsLittleEndian)
        + data
    }
  }

  /** The constructor taking the type and class as `ushort`s: both numbers are
      kept as they are. */
  function FromNumbers(name: seq<byte>, rrType: uint16, rrClass: uint16, ttl: uint32, data: seq<byte>)
    : (r: ResourceRecord)
    ensures r.rrType == rrType && r.rrClass.value == rrClass
    ensures r.name == name && r.ttl == ttl && r.data == data
  {
    ResourceRecord(name, rrType, DnsClasses.FromUInt16(rrClass), ttl, data)
  }

  /** `GetAData`: the address bytes as they stand, four of them for IPv4, in
      network order with no length prefix. */
  function GetAData(ipAddress: IPAddress): (r: seq<byte>)
    ensures r == ipAddress.addressBytes
  {
    ipAddress.addressBytes
  }

  /** `GetHostData`: the encoded host name, read back by the name decoder. */
  function GetHostData(hostName: seq<byte>): (r: seq<byte>)
    ensures r == Names.EncodeName(hostName)
    ensures Names.WellFormedName(hostName) ==>
      Names.ReadNameSpec(r, 0) == Ok(Cursor(hostName, |r|))
  {
    Names.EncodedNameReadsBack(hostName);
    Names.EncodeName(hostName)
  }

  /** `GetSRVData`: the SRV RDATA of section 3 of RFC 2782: priority, weight
      and port (cut to 16 bits) big-endian, then the encoded target. */
  function GetSRVData(priority: uint16, weight: uint16, port: uint32, target: seq<byte>): (r: seq<byte>)
    ensures |r| == 6 + |Names.EncodeName(target)|
    ensures FromBigEndian16(r[0], r[1]) == priority
    ensures FromBigEndian16(r[2], r[3]) == weight
    ensures FromBigEndian16(r[4], r[5]) == port % 0x1_0000
    ensures r[6..] == Names.EncodeName(target)
  {
    RoundTrip16(priority, HostIsLittleEndian);
    RoundTrip16(weight, HostIsLittleEndian);
    RoundTrip16(port % 0x1_0000, HostIsLittleEndian);
    GetBytesWithBigEndianness16(priority, HostIsLittleEndian)
      + GetBytesWithBigEndianness16(weight, HostIsLittleEndian)
      + GetBytesWithBigEndianness16(port % 0x1_0000, HostIsLittleEndian)
      + Names.EncodeName(target)
  }
}
