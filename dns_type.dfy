/** The record-type numbers of `DnsType`. A cast from `ushort` keeps any
    number, so a record type is carried as its `uint16` value. */
module DnsTypes {
  import opened Wire

  type DnsType = uint16

  const A: DnsType := 0x0001
  const AAAA: DnsType := 0x001c
  const CNAME: DnsType := 0x0005
  const MX: DnsType := 0x000f
  const NS: DnsType := 0x0002
  const PTR: DnsType := 0x000c
  const SRV: DnsType := 0x0021
  const TXT: DnsType := 0x0010
  const SOA: DnsType := 0x0006
  const NAPTR: DnsType := 0x0023
  const SPF: DnsType := 0x0063
  const CAA: DnsType := 0x0101
  const ANY: DnsType := 0x00ff
  const OPT: DnsType := 0x0029
  const AXFR: DnsType := 0x00fc
  const IXFR: DnsType := 0x00fd
  const TLSA: DnsType := 0x0034
}
