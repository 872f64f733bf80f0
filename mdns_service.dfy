/** `MdnsService`: the packet decoder of the listening service, the
    string-built query and advertisement datagrams, and the order in which a
    received datagram raises its notifications.

    The source's `ParsePacket` hands all 12 header bytes to a `Header.Parse`
    that takes only the two flag bytes, and reads question and answer counts
    that `Header` does not have. Here the flags are parsed from bytes 2..3 and
    the counts read big-endian from bytes 4..7, as the client does. */
module MdnsService {
  import opened Wire
  import opened BitConverterHelper
  import DnsTypes
  import DnsClasses
  import Headers
  import Names
  import opened Messages

  // ---------------------------------------------------------------------------
  // Questions

  /** What `ParseQuestion` computes. Only the total length of the buffer is
      checked up front; reading past its end after the name is IndexOutOfRange. */
  function ParseQuestionSpec(span: seq<byte>, offset: nat): Result<Cursor<Question>>
  {
    if |span| < 5 then Err(InvalidQuestion)
    else
      match Names.ReadNameSpec(span, offset)
      case Err(e) => Err(e)
      case Ok(c) =>
        if c.next + 4 > |span| then Err(IndexOutOfRange)
        else Ok(Cursor(Question(c.value, U16At(span, c.next), DnsClasses.DnsClass(U16At(span, c.next + 2))),
                       c.next + 4))
  }

  /** `ParseQuestion`: the name, then type and class big-endian; the cursor
      moves 4 bytes past the name. */
  method ParseQuestion(span: seq<byte>, offset: nat) returns (r: Result<Cursor<Question>>)
    ensures r == ParseQuestionSpec(span, offset)
  {
    if |span| < 5 {
      return Err(InvalidQuestion);
    }
    var rn := Names.ReadName(span, offset);
    if rn.Err? {
      return Err(rn.error);
    }
    var off := rn.value.next;
    if off + 4 > |span| {
      return Err(IndexOutOfRange);
    }
    var qType := FromBigEndian16(span[off], span[off + 1]);
    var qClass := FromBigEndian16(span[off + 2], span[off + 3]);
    off := off + 4;
    return Ok(Cursor(Question(rn.value.value, qType, DnsClasses.DnsClass(qClass)), off));
  }

  /** A parsed question is a name, then exactly the four bytes of its type
      and class. */
  lemma QuestionLayout(span: seq<byte>, offset: nat)
    requires ParseQuestionSpec(span, offset).Ok?
    ensures var q := ParseQuestionSpec(span, offset).value;
      && Names.ReadNameSpec(span, offset) == Ok(Cursor(q.value.name, q.next - 4))
      && q.value.qType == FromBigEndian16(span[q.next - 4], span[q.next - 3])
      && q.value.qClass.value == FromBigEndian16(span[q.next - 2], span[q.next - 1])
      && q.next <= |span|
  {
  }

  /** The guard looks at the whole buffer, not at what is left after the
      cursor: InvalidQuestion comes exactly from a buffer under five bytes,
      wherever the cursor is, and a longer buffer with the cursor at or past
      its end passes the guard and fails while reading. */
  lemma QuestionGuardIsTotalLength(span: seq<byte>, offset: nat)
    ensures ParseQuestionSpec(span, offset) == Err(InvalidQuestion) <==> |span| < 5
    ensures |span| >= 5 && offset >= |span| ==> ParseQuestionSpec(span, offset) == Err(IndexOutOfRange)
  {
    Names.ReadLabelsNeverInvalid(span, offset);
  }

  // ---------------------------------------------------------------------------
  // Answers

  /** What `ParseAnswer` computes: name, type, class, TTL, data length, then
      exactly that many data bytes. Reading a field past the end is
      IndexOutOfRange; data running past the end is ArgumentOutOfRange. */
  function ParseAnswerSpec(response: seq<byte>, offset: nat): Result<Cursor<Answer>>
  {
    match Names.ReadNameSpec(response, offset)
    case Err(e) => Err(e)
    case Ok(c) =>
      var o := c.next;
      if o + 10 > |response| then Err(IndexOutOfRange)
      else
        var dataLength := U16At(response, o + 8);
        if o + 10 + dataLength > |response| then Err(ArgumentOutOfRange)
        else
          var ttl := FromBigEndian32(response[o + 4], response[o + 5], response[o + 6], response[o + 7]);
          Ok(Cursor(Answer(c.value, U16At(response, o), DnsClasses.DnsClass(U16At(response, o + 2)),
                           ttl, dataLength, response[o + 10..o + 10 + dataLength]),
                    o + 10 + dataLength))
  }

  /** `ParseAnswer`: advances the cursor field by field, then copies the data. */
  method ParseAnswer(response: seq<byte>, offset: nat) returns (r: Result<Cursor<Answer>>)
    ensures r == ParseAnswerSpec(response, offset)
  {
    var rn := Names.ReadName(response, offset);
    if rn.Err? {
      return Err(rn.error);
    }
    var off := rn.value.next;
    if off + 10 > |response| {
      return Err(IndexOutOfRange);
    }
    var aType := FromBigEndian16(response[off], response[off + 1]);
    off := off + 2;
    var aClass := FromBigEndian16(response[off], response[off + 1]);
    off := off + 2;
    var ttl := FromBigEndian32(response[off], response[off + 1], response[off + 2], response[off + 3]);
    off := off + 4;
    var dataLength := FromBigEndian16(response[off], response[off + 1]);
    off := off + 2;
    if off + dataLength > |response| {
      return Err(ArgumentOutOfRange);
    }
    var data := response[off..off + dataLength];
    off := off + dataLength;
    return Ok(Cursor(Answer(rn.value.value, aType, DnsClasses.DnsClass(aClass), ttl, dataLength, data), off));
  }

  /** A parsed answer spans its name, ten fixed bytes and its data; the data
      is copied and its length is the declared data length. */
  lemma AnswerLayout(response: seq<byte>, offset: nat)
    requires ParseAnswerSpec(response, offset).Ok?
    ensures var a := ParseAnswerSpec(response, offset).value;
      var nameEnd := Names.ReadNameSpec(response, offset).value.next;
      && a.next == nameEnd + 10 + a.value.dataLength <= |response|
      && |a.value.data| == a.value.dataLength
      && a.value.data == response[nameEnd + 10..a.next]
      && a.value.dataLength == FromBigEndian16(response[nameEnd + 8], response[nameEnd + 9])
  {
  }

  /** An answer parses exactly when its name does and the ten fixed bytes and
      the declared data all lie inside the buffer; a failing name read fails
      the answer with the name's error. */
  lemma AnswerSucceedsIff(response: seq<byte>, offset: nat)
    ensures var rn := Names.ReadNameSpec(response, offset);
      ParseAnswerSpec(response, offset).Ok? <==>
        && rn.Ok?
        && rn.value.next + 10 <= |response|
        && rn.value.next + 10 + U16At(response, rn.value.next + 8) <= |response|
    ensures Names.ReadNameSpec(response, offset).Err? ==>
      ParseAnswerSpec(response, offset) == Err(Names.ReadNameSpec(response, offset).error)
  {
  }

  // ---------------------------------------------------------------------------
  // Packets

  /** What `ParsePacket` computes: no packet for fewer than 12 bytes; else the
      flags of bytes 2..3, then QDCOUNT questions and ANCOUNT answers read in
      turn from offset 12. A failing question or answer fails the whole parse. */
  function ParsePacketSpec(response: seq<byte>): Result<Option<Packet>>
  {
    if |response| < 12 then Ok(None)
    else
      var header := Headers.Parse(response[2..4]).value;
      match Repeat(ParseQuestionSpec, response, 12, U16At(response, 4))
      case Err(e) => Err(e)
      case Ok(qs) =>
        match Repeat(ParseAnswerSpec, response, qs.next, U16At(response, 6))
        case Err(e) => Err(e)
        case Ok(ans) => Ok(Some(Packet(header, qs.value, ans.value)))
  }

  /** `ParsePacket`: reads the header, then fills the question list and the
      answer list in two counted loops that share one cursor. */
  method ParsePacket(response: seq<byte>) returns (r: Result<Option<Packet>>)
    ensures r == ParsePacketSpec(response)
  {
    if |response| < 12 {
      return Ok(None);
    }
    var header := Headers.Parse(response[2..4]).value;
    var qdCount := FromBigEndian16(response[4], response[5]);
    var anCount := FromBigEndian16(response[6], response[7]);
    var qs := ParseQuestions(response, 12, qdCount);
    if qs.Err? {
      return Err(qs.error);
    }
    var ans := ParseAnswers(response, qs.value.next, anCount);
    if ans.Err? {
      return Err(ans.error);
    }
    return Ok(Some(Packet(header, qs.value.value, ans.value.value)));
  }

  /** The question loop of `ParsePacket`: `count` questions from `offset`. */
  method ParseQuestions(response: seq<byte>, offset: nat, count: nat) returns (r: Result<Cursor<seq<Question>>>)
    ensures r == Repeat(ParseQuestionSpec, response, offset, count)
  {
    ghost var whole := Repeat(ParseQuestionSpec, response, offset, count);
    var off := offset;
    var questions: seq<Question> := [];
    PrependNothing(whole);
    for i := 0 to count
      invariant whole == Prepend(questions, Repeat(ParseQuestionSpec, response, off, count - i))
    {
      var q := ParseQuestion(response, off);
      RepeatStep(ParseQuestionSpec, response, whole, questions, off, count - i, q);
      if q.Err? {
        return Err(q.error);
      }
      questions := questions + [q.value.value];
      off := q.value.next;
    }
    assert questions + [] == questions;
    return Ok(Cursor(questions, off));
  }

  /** The answer loop of `ParsePacket`: `count` answers from `offset`. */
  method ParseAnswers(response: seq<byte>, offset: nat, count: nat) returns (r: Result<Cursor<seq<Answer>>>)
    ensures r == Repeat(ParseAnswerSpec, response, offset, count)
  {
    ghost var whole := Repeat(ParseAnswerSpec, response, offset, count);
    var off := offset;
    var answers: seq<Answer> := [];
    PrependNothing(whole);
    for i := 0 to count
      invariant whole == Prepend(answers, Repeat(ParseAnswerSpec, response, off, count - i))
    {
      var a := ParseAnswer(response, off);
      RepeatStep(ParseAnswerSpec, response, whole, answers, off, count - i, a);
      if a.Err? {
        return Err(a.error);
      }
      answers := answers + [a.value.value];
      off := a.value.next;
    }
    assert answers + [] == answers;
    return Ok(Cursor(answers, off));
  }

  /** A buffer under 12 bytes yields no packet; a parsed packet holds exactly
      QDCOUNT questions and ANCOUNT answers, and its flags are those of bytes
      2..3. */
  lemma PacketCounts(response: seq<byte>)
    ensures |response| < 12 <==> ParsePacketSpec(response) == Ok(None)
    ensures ParsePacketSpec(response).Ok? && ParsePacketSpec(response).value.Some? ==>
      var p := ParsePacketSpec(response).value.value;
      && |p.questions| == U16At(response, 4)
      && |p.answers| == U16At(response, 6)
      && Headers.Parse(response[2..4]) == Ok(p.header)
  {
  }

  // ---------------------------------------------------------------------------
  // Receive dispatch

  /** The notifications of one received datagram. */
  datatype Event = DataReceived | PacketReceiving | QueryReceived | ResponseReceived | PacketReceived

  /** The work `ReceiveMdnsAsync` does with one datagram: raise data-received,
      parse, and for a packet raise packet-receiving, then query-received or
      response-received by the QR flag, then packet-received. A parse failure
      is not caught: it ends the receive loop, reported here as `fault`. */
  method HandleDatagram(buffer: seq<byte>) returns (events: seq<Event>, fault: Option<Error>)
    ensures |events| >= 1 && events[0] == DataReceived
    ensures fault.Some? <==> ParsePacketSpec(buffer).Err?
    ensures fault.Some? ==> fault.value == ParsePacketSpec(buffer).error
    ensures |events| == 1 <==> !(ParsePacketSpec(buffer).Ok? && ParsePacketSpec(buffer).value.Some?)
    ensures ParsePacketSpec(buffer).Ok? && ParsePacketSpec(buffer).value.Some? ==>
      var p := ParsePacketSpec(buffer).value.value;
      && |events| == 4
      && events[1] == PacketReceiving
      && events[2] == (if p.header.queryResponse == Headers.Request then QueryReceived else ResponseReceived)
      && events[3] == PacketReceived
  {
    events := [DataReceived];
    fault := None;
    var parsed := ParsePacket(buffer);
    if parsed.Err? {
      fault := Some(parsed.error);
      return;
    }
    if parsed.value.None? {
      return;
    }
    var packet := parsed.value.value;
    events := events + [PacketReceiving];
    match packet.header.queryResponse {
      case Request => events := events + [QueryReceived];
      case Response => events := events + [ResponseReceived];
    }
    events := events + [PacketReceived];
  }

  /** Of query-received and response-received, a datagram raises exactly one
      when it parses to a packet and neither otherwise. */
  lemma ExactlyOneClassification(events: seq<Event>, buffer: seq<byte>)
    requires |events| >= 1 && events[0] == DataReceived
    requires |events| == 1 <==> !(ParsePacketSpec(buffer).Ok? && ParsePacketSpec(buffer).value.Some?)
    requires ParsePacketSpec(buffer).Ok? && ParsePacketSpec(buffer).value.Some? ==>
      var p := ParsePacketSpec(buffer).value.value;
      && |events| == 4 && events[1] == PacketReceiving && events[3] == PacketReceived
      && events[2] == (if p.header.queryResponse == Headers.Request then QueryReceived else ResponseReceived)
    ensures (QueryReceived in events) != (ResponseReceived in events) <==>
      (ParsePacketSpec(buffer).Ok? && ParsePacketSpec(buffer).value.Some?)
  {
  }

  // ---------------------------------------------------------------------------
  // String-built datagrams

  /** `Encoding.ASCII` on one UTF-16 code unit: above 0x7F it becomes '?'. */
  function AsciiByte(c: uint16): byte
  {
    if c < 0x80 then c else 0x3F
  }

  /** `Encoding.ASCII.GetBytes`, code unit by code unit. */
  function AsciiBytes(s: seq<uint16>): (r: seq<byte>)
    ensures |r| == |s|
  {
    seq(|s|, i requires 0 <= i < |s| => AsciiByte(s[i]))
  }

  lemma AsciiConcat(a: seq<uint16>, b: seq<uint16>)
    ensures AsciiBytes(a + b) == AsciiBytes(a) + AsciiBytes(b)
  {
  }

  const QueryTail: seq<uint16> := [0, 0, 0x01, 0, 0x01, 0, 0, 0, 0, 0, 0, 0]
  const SrvTail: seq<uint16> := [0, 0, 0x21, 0, 0x01, 0, 0, 0, 0x78, 0]
  const AddressTail: seq<uint16> := [0, 0, 0x1c, 0, 0x01, 0, 0, 0, 0x78, 0, 0x04]

  /** `BuildMdnsQuery`: the service name's ASCII bytes, then twelve fixed bytes.
      No header comes first. */
  function BuildMdnsQuery(serviceName: seq<uint16>): (r: seq<byte>)
    ensures |r| == |serviceName| + 12
    ensures r[..|serviceName|] == AsciiBytes(serviceName)
    ensures r[|serviceName|..] == [0, 0, 0x01, 0, 0x01, 0, 0, 0, 0, 0, 0, 0]
  {
    AsciiConcat(serviceName, QueryTail);
    AsciiBytes(serviceName + QueryTail)
  }

  /** `(char)x` of an `int`: its low 16 bits. */
  function ToChar(x: int): uint16
  {
    x % 0x1_0000
  }

  /** `BuildMdnsAdvertisement`: the service name, fixed bytes, the host name's
      length as one character, the host name, fixed bytes, and the port's two
      bytes as characters, all through the ASCII encoding. */
  function BuildMdnsAdvertisement(serviceName: seq<uint16>, hostName: seq<uint16>, port: int32): (r: seq<byte>)
    ensures |r| == |serviceName| + |hostName| + 24
    ensures r[..|serviceName|] == AsciiBytes(serviceName)
    ensures r[|serviceName|..|serviceName| + 10] == [0, 0, 0x21, 0, 0x01, 0, 0, 0, 0x78, 0]
    ensures r[|serviceName| + 10] == AsciiByte(ToChar(|hostName|))
    ensures r[|serviceName| + 11..|serviceName| + 11 + |hostName|] == AsciiBytes(hostName)
    ensures r[|serviceName| + 11 + |hostName|..|r| - 2] == [0, 0, 0x1c, 0, 0x01, 0, 0, 0, 0x78, 0, 0x04]
    ensures r[|r| - 2] == AsciiByte(ToChar(port / 0x100))
    ensures r[|r| - 1] == AsciiByte(ToChar(port % 0x100))
  {
    var chars := serviceName + SrvTail + [ToChar(|hostName|)] + hostName + AddressTail
                 + [ToChar(port / 0x100)] + [ToChar(port % 0x100)];
    AsciiConcat(serviceName + SrvTail + [ToChar(|hostName|)] + hostName + AddressTail + [ToChar(port / 0x100)], [ToChar(port % 0x100)]);
    AsciiConcat(serviceName + SrvTail + [ToChar(|hostName|)] + hostName + AddressTail, [ToChar(port / 0x100)]);
    AsciiConcat(serviceName + SrvTail + [ToChar(|hostName|)] + hostName, AddressTail);
    AsciiConcat(serviceName + SrvTail + [ToChar(|hostName|)], hostName);
    AsciiConcat(serviceName + SrvTail, [ToChar(|hostName|)]);
    AsciiConcat(serviceName, SrvTail);
    AsciiBytes(chars)
  }

  /** The port's two bytes come out as `port >> 8` and `port & 0xff` only when
      both are below 0x80; a byte of 0x80 or more is sent as '?'. */
  lemma AdvertisedPort(serviceName: seq<uint16>, hostName: seq<uint16>, port: int32)
    requires 0 <= port < 0x1_0000
    ensures var r := BuildMdnsAdvertisement(serviceName, hostName, port);
      (r[|r| - 2] == port / 0x100 && r[|r| - 1] == port % 0x100)
        <==> (port / 0x100 < 0x80 && port % 0x100 < 0x80)
  {
  }

  /** The datagram starts with the service name, not with a DNS header: for
      "test.local" its first byte is 't', where a header's id byte would be 0. */
  lemma QueryNotHeaderFirst()
    ensures BuildMdnsQuery([0x74, 0x65, 0x73, 0x74, 0x2E, 0x6C, 0x6F, 0x63, 0x61, 0x6C])[0] == 0x74
  {
  }
}
