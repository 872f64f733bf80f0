/** `Header.Parse`: decodes the two DNS flag bytes by bit masking. The bit
    positions are the source's own, which differ from section 4.1.1 of RFC 1035
    (there bits 2..0 of the first byte are AA, TC and RD, and RA is bit 7 of the
    second byte). */
module Headers {
  import opened Wire

  /** The QR bit: 0 is a request (query), 1 a response. */
  datatype QueryResponse = Request | Response

  /** The decoded flags. The operation code is kept as its number 0..15. */
  datatype Header = Header(
    queryResponse: QueryResponse,
    operationCode: int,
    truncatedMessage: bool,
    recursionDesired: bool,
    recursionAvailable: bool,
    authenticatedData: bool,
    checkingDisabled: bool,
    responseCode: int)

  /** Parses the two flag bytes. More than two bytes are rejected; fewer fail
      while indexing. `FieldsFromBits` states what each field holds. */
  function Parse(data: seq<byte>): (r: Result<Header>)
    ensures |data| > 2 <==> r == Err(HeaderTooLong)
    ensures |data| < 2 <==> r == Err(IndexOutOfRange)
    ensures |data| == 2 <==> r.Ok?
  {
    if |data| > 2 then Err(HeaderTooLong)
    else if |data| < 1 then Err(IndexOutOfRange)
    else
      var flags := data[0] as bv8;
      var queryResponse := if (flags & 0x80) >> 7 == 1 then Response else Request;
      var operationCode := ((flags & 0x78) >> 3) as int;
      var truncatedMessage := flags & 0x04 != 0;
      var recursionDesired := flags & 0x02 != 0;
      var recursionAvailable := flags & 0x01 != 0;
      if |data| < 2 then Err(IndexOutOfRange)
      else
        var flags2 := data[1] as bv8;
        var authenticatedData := flags2 & 0x80 != 0;
        var checkingDisabled := flags2 & 0x40 != 0;
        var responseCode := (flags2 & 0x0f) as int;
        Ok(Header(queryResponse, operationCode, truncatedMessage, recursionDesired,
                  recursionAvailable, authenticatedData, checkingDisabled, responseCode))
  }

  /** Each field of a parsed header is the arithmetic value of the bits it is
      masked from: QR bit 7, opcode bits 6..3, TC bit 2, RD bit 1 and RA bit 0 of
      the first byte; AD bit 7, CD bit 6 and the response code bits 3..0 of the
      second. */
  lemma FieldsFromBits(b0: byte, b1: byte)
    ensures Parse([b0, b1]).Ok?
    ensures var h := Parse([b0, b1]).value;
      && h.queryResponse == (if b0 >= 0x80 then Response else Request)
      && h.operationCode == (b0 / 8) % 16
      && h.truncatedMessage == ((b0 / 4) % 2 == 1)
      && h.recursionDesired == ((b0 / 2) % 2 == 1)
      && h.recursionAvailable == (b0 % 2 == 1)
      && h.authenticatedData == (b1 >= 0x80)
      && h.checkingDisabled == ((b1 / 0x40) % 2 == 1)
      && h.responseCode == b1 % 16
  {
    ByteAsBits(b0);
    ByteAsBits(b1);
    OperationCodeBits(b0 as bv8);
    LowNibble(b1 as bv8);
  }

  lemma OperationCodeBits(x: bv8)
    ensures ((x & 0x78) >> 3) as int == ((x as int) / 8) % 16
  {
    assert (x & 0x78) >> 3 == (x / 8) % 16;
  }

  lemma LowNibble(x: bv8)
    ensures (x & 0x0f) as int == (x as int) % 16
  {
  }

  lemma ByteAsBits(b: byte)
    ensures (b as bv8) as int == b
  {
    // The solver settles the conversion faster one quarter of the range at a time.
    if b < 0x80 {
      if b < 0x40 { } else { }
    } else {
      if b < 0xC0 { } else { }
    }
  }

  /** The operation code and the response code are 4-bit values. */
  lemma CodesAreFourBits(data: seq<byte>)
    requires Parse(data).Ok?
    ensures 0 <= Parse(data).value.operationCode < 16
    ensures 0 <= Parse(data).value.responseCode < 16
  {
    FieldsFromBits(data[0], data[1]);
  }

  /** Bits 5 and 4 of the second byte are never read: two inputs that differ
      only there parse to the same header. */
  lemma IgnoredBits(b0: byte, b1: byte, c1: byte)
    requires b1 / 0x40 == c1 / 0x40 && b1 % 16 == c1 % 16
    ensures Parse([b0, b1]) == Parse([b0, c1])
  {
    FieldsFromBits(b0, b1);
    FieldsFromBits(b0, c1);
  }

  /** The header test parses a 12-byte header carrying the id and the four
      counts; `Parse` rejects any input longer than two bytes. */
  lemma TwelveByteHeaderRejected()
    ensures Parse([0x12, 0x34, 0x01, 0x00, 0x00, 0x01, 0x00, 0x00, 0x00, 0x00, 0x00, 0x00])
         == Err(HeaderTooLong)
  {
  }

  /** 0x84 is the first flag byte of an authoritative response in the layout of
      section 4.1.1 of RFC 1035 (QR and AA set). This parser reads bit 2 as TC,
      so such a response reads as truncated, and AA is not decoded at all. */
  lemma AuthoritativeResponseReadAsTruncated()
    ensures Parse([0x84, 0x00]) == Ok(Header(Response, 0, true, false, false, false, false, 0))
  {
    FieldsFromBits(0x84, 0x00);
  }
}
