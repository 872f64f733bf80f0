/** `DnsClass`: a wrapped 16-bit class value with the mnemonic names of
    sections 3.2.4 and 3.2.5 of RFC 1035. Any number may be wrapped. */
module DnsClasses {
  import opened Wire

  datatype DnsClass = DnsClass(value: uint16)
  {
    /** The mnemonic of a known class; every other value is shown as "QCLASS". */
    function ToString(): (s: string)
      ensures value == 0x0001 <==> s == "IN"
      ensures value == 0x0002 <==> s == "CS"
      ensures value == 0x0003 <==> s == "CH"
      ensures value == 0x0004 <==> s == "HS"
      ensures value == 0x00ff <==> s == "ANY"
      ensures value !in KnownValues <==> s == "QCLASS"
    {
      match value
      case 0x0001 => "IN"
      case 0x0002 => "CS"
      case 0x0003 => "CH"
      case 0x0004 => "HS"
      case 0x00ff => "ANY"
      case _ => "QCLASS"
    }
  }

  const KnownValues: set<uint16> := {0x0001, 0x0002, 0x0003, 0x0004, 0x00ff}
  const KnownNames: set<string> := {"IN", "CS", "CH", "HS", "ANY"}

  /** The implicit conversion from `ushort`: keeps the number as it is. */
  function FromUInt16(v: uint16): (c: DnsClass)
    ensures c.value == v
  {
    DnsClass(v)
  }

  /** The implicit conversion from `string`: a known mnemonic gives its value,
      any other string gives IN. */
  function FromString(s: string): (c: DnsClass)
    ensures s !in KnownNames ==> c == IN
    ensures c.value in KnownValues
  {
    match s
    case "IN" => DnsClass(0x0001)
    case "CS" => DnsClass(0x0002)
    case "CH" => DnsClass(0x0003)
    case "HS" => DnsClass(0x0004)
    case "ANY" => DnsClass(0x00ff)
    case _ => DnsClass(0x0001)
  }

  const IN: DnsClass := FromUInt16(0x0001)
  const CS: DnsClass := FromUInt16(0x0002)
  const CH: DnsClass := FromUInt16(0x0003)
  const HS: DnsClass := FromUInt16(0x0004)
  const ANY: DnsClass := FromUInt16(0x00ff)

  /** The static members hold the values of RFC 1035 and show their own names. */
  lemma StaticMembers()
    ensures IN.value == 1 && CS.value == 2 && CH.value == 3 && HS.value == 4 && ANY.value == 0xff
    ensures IN.ToString() == "IN" && CS.ToString() == "CS" && CH.ToString() == "CH"
    ensures HS.ToString() == "HS" && ANY.ToString() == "ANY"
  {
  }

  /** Every known mnemonic survives a conversion to a class and back. */
  lemma NameRoundTrip(s: string)
    requires s in KnownNames
    ensures FromString(s).ToString() == s
  {
  }

  /** Every known value survives a conversion to its mnemonic and back. */
  lemma ValueRoundTrip(v: uint16)
    requires v in KnownValues
    ensures FromString(DnsClass(v).ToString()) == DnsClass(v)
  {
  }

  /** An unknown value survives the `ushort` conversion, but its name "QCLASS"
      converts back to IN, not to the value. */
  lemma UnknownValueLostByName(v: uint16)
    requires v !in KnownValues
    ensures FromUInt16(v).value == v
    ensures FromString(FromUInt16(v).ToString()) == IN != FromUInt16(v)
  {
  }
}
