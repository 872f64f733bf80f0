/** `Advertisement`: a DNS-SD service announcement (RFC 6763) serialised as a
    response header followed by a PTR, an SRV and an A record. */
module Advertisements {
  import opened Wire
  import opened BitConverterHelper
  import DnsTypes
  import DnsClasses
  import Names
  import opened ResourceRecords

  datatype Advertisement = Advertisement(
    serviceType: seq<byte>,
    serviceName: seq<byte>,
    hostName: seq<byte>,
    ipAddress: IPAddress,
    port: uint16,
    ttl: uint16,
    txtRecords: map<string, string>)

  /** The constructor: the TTL defaults to 120 seconds and a missing TXT
      dictionary becomes an empty one. */
  function MakeAdvertisement(serviceType: seq<byte>, serviceName: seq<byte>, hostName: seq<byte>,
                             ipAddress: IPAddress, port: uint16, ttl: uint16 := 120,
                             txtRecords: Option<map<string, string>> := None): (ad: Advertisement)
    ensures ad.serviceType == serviceType && ad.serviceName == serviceName
    ensures ad.hostName == hostName && ad.ipAddress == ipAddress && ad.port == port
    ensures ad.ttl == ttl
    ensures txtRecords.None? ==> ad.txtRecords == map[]
    ensures txtRecords.Some? ==> ad.txtRecords == txtRecords.value
  {
    Advertisement(serviceType, serviceName, hostName, ipAddress, port, ttl,
                  if txtRecords.Some? then txtRecords.value else map[])
  }

  /** Constructed with only the five required arguments, an advertisement has
      the TTL 120 and no TXT entries. */
  lemma ConstructorDefaults(serviceType: seq<byte>, serviceName: seq<byte>, hostName: seq<byte>,
                            ipAddress: IPAddress, port: uint16)
    ensures MakeAdvertisement(serviceType, serviceName, hostName, ipAddress, port).ttl == 120
    ensures MakeAdvertisement(serviceType, serviceName, hostName, ipAddress, port).txtRecords == map[]
  {
  }

  /** The bytes `Header.ToBytes` writes for the advertisement's header, which
      is built with id 0, QR = response and the counts QDCOUNT 0, ANCOUNT 1,
      NSCOUNT 0, ARCOUNT 2. `Header.ToBytes` is not part of this model: the
      header is taken to be twelve bytes holding those counts big-endian in
      bytes 4..11, as section 4.1.1 of RFC 1035 lays them out, and its flag
      bytes are left open. */
  predicate DeclaresAdvertisementCounts(header: seq<byte>)
  {
    |header| == 12 && header[4..] == [0x00, 0x00, 0x00, 0x01, 0x00, 0x00, 0x00, 0x02]
  }

  /** "ServiceName.ServiceType", the service instance name. */
  function ServiceInstance(ad: Advertisement): (s: seq<byte>)
    ensures |s| == |ad.serviceName| + 1 + |ad.serviceType|
    ensures s[..|ad.serviceName|] == ad.serviceName
    ensures s[|ad.serviceName|] == Names.Dot
    ensures s[|ad.serviceName| + 1..] == ad.serviceType
  {
    ad.serviceName + [Names.Dot] + ad.serviceType
  }

  /** The PTR record: owner ServiceType, pointing at the service instance. Its
      data reads back as the instance name. */
  function PtrRecord(ad: Advertisement): (r: ResourceRecord)
    ensures r.name == ad.serviceType && r.rrType == DnsTypes.PTR && r.rrClass == DnsClasses.IN
    ensures r.ttl == ad.ttl
    ensures r.data == Names.EncodeName(ServiceInstance(ad))
    ensures Names.WellFormedName(ServiceInstance(ad)) ==>
      Names.ReadNameSpec(r.data, 0) == Ok(Cursor(ServiceInstance(ad), |r.data|))
  {
    ResourceRecord(ad.serviceType, DnsTypes.PTR, DnsClasses.IN, ad.ttl, GetHostData(ServiceInstance(ad)))
  }

  /** The SRV record: owner the service instance; data priority 0, weight 0,
      the port, and the encoded host name. */
  function SrvRecord(ad: Advertisement): (r: ResourceRecord)
    ensures r.name == ServiceInstance(ad) && r.rrType == DnsTypes.SRV && r.rrClass == DnsClasses.IN
    ensures r.ttl == ad.ttl
    ensures |r.data| >= 6
    ensures FromBigEndian16(r.data[0], r.data[1]) == 0 && FromBigEndian16(r.data[2], r.data[3]) == 0
    ensures FromBigEndian16(r.data[4], r.data[5]) == ad.port
    ensures r.data[6..] == Names.EncodeName(ad.hostName)
  {
    var data := GetSRVData(0, 0, ad.port, ad.hostName);
    SmallPort(ad.port);
    ResourceRecord(ServiceInstance(ad), DnsTypes.SRV, DnsClasses.IN, ad.ttl, data)
  }

  /** A 16-bit port is unchanged by the 16-bit cut. Stated apart, the fact
      stays out of the arithmetic of the record it is used in. */
  lemma SmallPort(port: uint16)
    ensures port % 0x1_0000 == port
  {
  }

  /** The A record: owner the host name, data the address bytes. */
  function ARecord(ad: Advertisement): (r: ResourceRecord)
    ensures r.name == ad.hostName && r.rrType == DnsTypes.A && r.rrClass == DnsClasses.IN
    ensures r.ttl == ad.ttl && r.data == ad.ipAddress.addressBytes
  {
    ResourceRecord(ad.hostName, DnsTypes.A, DnsClasses.IN, ad.ttl, GetAData(ad.ipAddress))
  }

  /** `ToBytes`: the header bytes, then the PTR, SRV and A records in that
      order, and nothing else. */
  function ToBytes(ad: Advertisement, header: seq<byte>): (r: seq<byte>)
    ensures LaidOut(r, header, PtrRecord(ad).ToBytes(), SrvRecord(ad).ToBytes(), ARecord(ad).ToBytes())
  {
    ConcatParts(header, PtrRecord(ad).ToBytes(), SrvRecord(ad).ToBytes(), ARecord(ad).ToBytes());
    header + PtrRecord(ad).ToBytes() + SrvRecord(ad).ToBytes() + ARecord(ad).ToBytes()
  }

  /** The TXT entries never reach the wire: advertisements that differ only in
      them serialise alike. */
  lemma TxtRecordsIgnored(ad: Advertisement, txt: map<string, string>, header: seq<byte>)
    ensures ToBytes(ad.(txtRecords := txt), header) == ToBytes(ad, header)
  {
  }

  /** After the header come the PTR record, then the SRV and A records. */
  lemma RecordsAfterHeader(ad: Advertisement, header: seq<byte>)
    ensures ToBytes(ad, header)
         == header + PtrRecord(ad).ToBytes() + (SrvRecord(ad).ToBytes() + ARecord(ad).ToBytes())
  {
    var p, s, a := PtrRecord(ad).ToBytes(), SrvRecord(ad).ToBytes(), ARecord(ad).ToBytes();
    assert header + p + s + a == header + p + (s + a);
  }

  /** `r` is `h`, `p`, `s` and `a` one after the other and nothing else: each
      part is found at its offset. */
  predicate LaidOut(r: seq<byte>, h: seq<byte>, p: seq<byte>, s: seq<byte>, a: seq<byte>)
  {
    && |r| == |h| + |p| + |s| + |a|
    && r[..|h|] == h
    && r[|h|..|h| + |p|] == p
    && r[|h| + |p|..|h| + |p| + |s|] == s
    && r[|h| + |p| + |s|..] == a
  }

  /** The four parts of a concatenation are found at their offsets. */
  lemma ConcatParts(h: seq<byte>, p: seq<byte>, s: seq<byte>, a: seq<byte>)
    ensures LaidOut(h + p + s + a, h, p, s, a)
  {
  }

  /** The serialised advertisement declares one answer and two additional
      records, no question and no authority record, while three records
      follow the header: the SRV and A records count as additional records. */
  lemma DeclaredCounts(ad: Advertisement, header: seq<byte>)
    requires DeclaresAdvertisementCounts(header)
    ensures var r := ToBytes(ad, header);
      && FromBigEndian16(r[4], r[5]) == 0
      && FromBigEndian16(r[6], r[7]) == 1
      && FromBigEndian16(r[8], r[9]) == 0
      && FromBigEndian16(r[10], r[11]) == 2
      && |r| == 12 + |PtrRecord(ad).ToBytes()| + |SrvRecord(ad).ToBytes()| + |ARecord(ad).ToBytes()|
  {
    var r := ToBytes(ad, header);
    assert r[..12] == header;
    assert r[4] == header[4] && r[5] == header[5] && r[6] == header[6] && r[7] == header[7];
    assert r[8] == header[8] && r[9] == header[9] && r[10] == header[10] && r[11] == header[11];
  }
}
