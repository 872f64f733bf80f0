/** The decoded message records: `Question`, `Answer`, `Packet` and the
    client's `Response`. Type and class numbers are kept as read. */
module Messages {
  import opened Wire
  import opened BitConverterHelper
  import DnsTypes
  import DnsClasses
  import Headers

  datatype Question = Question(name: seq<byte>, qType: DnsTypes.DnsType, qClass: DnsClasses.DnsClass)

  datatype Answer = Answer(
    name: seq<byte>,
    aType: DnsTypes.DnsType,
    aClass: DnsClasses.DnsClass,
    ttl: uint32,
    dataLength: uint16,
    data: seq<byte>)

  datatype Packet = Packet(header: Headers.Header, questions: seq<Question>, answers: seq<Answer>)

  /** The client's result. The source hands the integer flags to a field
      declared as a `Header`; here the field holds the flags as read. */
  datatype Response = Response(
    id: uint16,
    flags: uint16,
    questionCount: uint16,
    answerCount: uint16,
    offset: nat,
    answers: seq<Answer>)

  /** The big-endian 16-bit value at `i`: `(m[i] << 8) | m[i + 1]`. */
  function U16At(m: seq<byte>, i: nat): uint16
    requires i + 2 <= |m|
  {
    FromBigEndian16(m[i], m[i + 1])
  }
}
