/** `MdnsClient`: the older response decoder. It reads the header fields
    without a length guard, skips questions by their length bytes, and parses
    answers without copying their data. */
module MdnsClient {
  import opened Wire
  import opened BitConverterHelper
  import DnsClasses
  import Names
  import opened Messages
  import MdnsService

  // ---------------------------------------------------------------------------
  // Skipping questions

  /** What `SkipQuestion` computes: jump over length-prefixed labels up to a
      zero byte, then over that byte, QTYPE and QCLASS. Only the length bytes
      are indexed, so only reading one past the end fails. */
  function SkipLabels(m: seq<byte>, off: nat): Result<nat>
    decreases |m| - off
  {
    if off >= |m| then Err(IndexOutOfRange)
    else if m[off] == 0 then Ok(off + 5)
    else SkipLabels(m, off + m[off] + 1)
  }

  /** `SkipQuestion`: the loop over the length bytes. */
  method SkipQuestion(response: seq<byte>, offset: nat) returns (r: Result<nat>)
    ensures r == SkipLabels(response, offset)
  {
    var off := offset;
    while true
      invariant SkipLabels(response, offset) == SkipLabels(response, off)
      decreases |response| - off
    {
      if off >= |response| {
        return Err(IndexOutOfRange);
      }
      if response[off] == 0 {
        break;
      }
      off := off + response[off] + 1;
    }
    return Ok(off + 5);
  }

  /** Skipping a question lands exactly where the name decoder's cursor does,
      plus QTYPE and QCLASS: start + the labels' size + 5. Where the decoder
      fails, skipping fails too. */
  lemma {:induction false} SkipMatchesReadName(m: seq<byte>, off: nat)
    ensures SkipLabels(m, off) ==
      match Names.ReadLabels(m, off)
      case Ok(c) => Ok(c.next + 4)
      case Err(_) => Err(IndexOutOfRange)
    decreases |m| - off
  {
    if off < |m| && m[off] != 0 {
      SkipMatchesReadName(m, off + m[off] + 1);
    }
  }

  /** What the loop of `ParseMdnsResponse` does with its questions. */
  function SkipQuestions(m: seq<byte>, off: nat, n: nat): Result<nat>
    decreases n
  {
    if n == 0 then Ok(off)
    else
      match SkipLabels(m, off)
      case Err(e) => Err(e)
      case Ok(next) => SkipQuestions(m, next, n - 1)
  }

  // ---------------------------------------------------------------------------
  // Answers

  /** What the client's `ParseAnswer` computes: the fields as the service reads
      them, but the data is a fresh zero-filled array of the declared length
      and nothing checks that the data lies inside the buffer. */
  function ParseAnswerSpec(response: seq<byte>, offset: nat): Result<Cursor<Answer>>
  {
    match Names.ReadNameSpec(response, offset)
    case Err(e) => Err(e)
    case Ok(c) =>
      var o := c.next;
      if o + 10 > |response| then Err(IndexOutOfRange)
      else
        var dataLength := U16At(response, o + 8);
        var ttl := FromBigEndian32(response[o + 4], response[o + 5], response[o + 6], response[o + 7]);
        Ok(Cursor(Answer(c.value, U16At(response, o), DnsClasses.DnsClass(U16At(response, o + 2)),
                         ttl, dataLength, seq(dataLength, _ => 0)),
                  o + 10 + dataLength))
  }

  /** The client's `ParseAnswer`. */
  method ParseAnswer(response: seq<byte>, offset: nat) returns (r: Result<Cursor<Answer>>)
    ensures r == ParseAnswerSpec(response, offset)
  {
    var rn := Names.ReadName(response, offset);
    if rn.Err? {
      return Err(rn.error);
    }
    var off := rn.value.next;
    if off + 10 > |response| {
      return Err(IndexOutOfRange);
    }
    var aType := FromBigEndian16(response[off], response[off + 1]);
    off := off + 2;
    var aClass := FromBigEndian16(response[off], response[off + 1]);
    off := off + 2;
    var ttl := FromBigEndian32(response[off], response[off + 1], response[off + 2], response[off + 3]);
    off := off + 4;
    var dataLength := FromBigEndian16(response[off], response[off + 1]);
    off := off + 2;
    var data := new byte[dataLength](_ => 0);
    off := off + dataLength;
    assert data[..] == seq(dataLength, _ => 0);
    return Ok(Cursor(Answer(rn.value.value, aType, DnsClasses.DnsClass(aClass), ttl, dataLength, data[..]), off));
  }

  /** Where the service's parser succeeds, the client's reads the same name,
      type, class, TTL and length and moves the cursor equally far, but its data
      is all zeros: the payload is not copied. */
  lemma PayloadNotCopied(response: seq<byte>, offset: nat)
    requires MdnsService.ParseAnswerSpec(response, offset).Ok?
    ensures var s := MdnsService.ParseAnswerSpec(response, offset).value;
      var c := ParseAnswerSpec(response, offset);
      && c.Ok? && c.value.next == s.next
      && c.value.value == s.value.(data := seq(s.value.dataLength, _ => 0))
  {
  }

  /** The client's parser does not check the data against the buffer: an
      answer whose data runs past the end parses, with the cursor past the end,
      where the service's parser fails. */
  lemma DataPastEndAccepted()
    ensures var m: seq<byte> := [0, 0, 1, 0, 1, 0, 0, 0, 0x78, 0, 4];
      && ParseAnswerSpec(m, 0).Ok?
      && ParseAnswerSpec(m, 0).value.next == 15 > |m|
      && MdnsService.ParseAnswerSpec(m, 0) == Err(ArgumentOutOfRange)
  {
  }

  // ---------------------------------------------------------------------------
  // Responses

  /** What `ParseMdnsResponse` computes: id, flags and the two counts from
      bytes 0..7 (fewer than 8 bytes fail), the questions skipped from offset
      12, then the answers parsed, and the cursor after the last answer. */
  function ParseMdnsResponseSpec(response: seq<byte>): Result<Response>
  {
    if |response| < 8 then Err(IndexOutOfRange)
    else
      var questionCount := U16At(response, 4);
      var answerCount := U16At(response, 6);
      match SkipQuestions(response, 12, questionCount)
      case Err(e) => Err(e)
      case Ok(off) =>
        match Repeat(ParseAnswerSpec, response, off, answerCount)
        case Err(e) => Err(e)
        case Ok(c) =>
          Ok(Response(U16At(response, 0), U16At(response, 2), questionCount, answerCount, c.next, c.value))
  }

  /** `ParseMdnsResponse`: a loop skipping questions, then a loop appending
      answers, over one cursor. */
  method ParseMdnsResponse(response: seq<byte>) returns (r: Result<Response>)
    ensures r == ParseMdnsResponseSpec(response)
  {
    if |response| < 8 {
      return Err(IndexOutOfRange);
    }
    var id := FromBigEndian16(response[0], response[1]);
    var flags := FromBigEndian16(response[2], response[3]);
    var questionCount := FromBigEndian16(response[4], response[5]);
    var answerCount := FromBigEndian16(response[6], response[7]);

    var offset := 12;
    for i := 0 to questionCount
      invariant SkipQuestions(response, 12, questionCount) == SkipQuestions(response, offset, questionCount - i)
    {
      var skipped := SkipQuestion(response, offset);
      if skipped.Err? {
        return Err(skipped.error);
      }
      offset := skipped.value;
    }

    var answers: seq<Answer> := [];
    ghost var answersFrom := offset;
    PrependNothing(Repeat(ParseAnswerSpec, response, answersFrom, answerCount));
    for i := 0 to answerCount
      invariant Repeat(ParseAnswerSpec, response, answersFrom, answerCount)
             == Prepend(answers, Repeat(ParseAnswerSpec, response, offset, answerCount - i))
    {
      var a := ParseAnswer(response, offset);
      if a.Err? {
        return Err(a.error);
      }
      PrependPrepend(answers, [a.value.value], Repeat(ParseAnswerSpec, response, a.value.next, answerCount - i - 1));
      answers := answers + [a.value.value];
      offset := a.value.next;
    }
    assert answers + [] == answers;
    return Ok(Response(id, flags, questionCount, answerCount, offset, answers));
  }

  /** A parsed response carries the big-endian values of bytes 0..7 and
      exactly as many answers as its answer count. */
  lemma ResponseFields(response: seq<byte>)
    requires ParseMdnsResponseSpec(response).Ok?
    ensures var r := ParseMdnsResponseSpec(response).value;
      && |response| >= 8
      && r.id == response[0] as int * 0x100 + response[1]
      && r.flags == response[2] as int * 0x100 + response[3]
      && r.questionCount == response[4] as int * 0x100 + response[5]
      && r.answerCount == response[6] as int * 0x100 + response[7]
      && |r.answers| == r.answerCount
  {
  }

  /** There is no length guard: fewer than 8 bytes fail while reading the
      header, and 8 to 11 bytes with zero counts give a response whose offset
      is past the end of the buffer. */
  lemma NoLengthGuard(response: seq<byte>)
    ensures |response| < 8 ==> ParseMdnsResponseSpec(response) == Err(IndexOutOfRange)
    ensures 8 <= |response| < 12 && response[4..8] == [0, 0, 0, 0] ==>
      ParseMdnsResponseSpec(response).Ok? && ParseMdnsResponseSpec(response).value.offset == 12 > |response|
  {
  }
}
