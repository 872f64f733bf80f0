# Medoz.MDns wire codec in Dafny

This project models the DNS/mDNS wire codec of Medoz.MDns, a C# multicast DNS
library, and proves properties of it. It covers:

- the name decoder (`ReadName`) and the service's packet, question and answer
  parsers (`ParsePacket`, `ParseQuestion`, `ParseAnswer`);
- the client's older response decoder (`ParseMdnsResponse`, `SkipQuestion`,
  its own `ParseAnswer`);
- the array-filling query encoder `CreateMDnsQuery`;
- the string-built `BuildMdnsQuery` and `BuildMdnsAdvertisement`;
- `ResourceRecord` serialisation with its SRV, host and address payloads;
- the `Advertisement` PTR/SRV/A triplet;
- the flag decoder `Header.Parse`;
- the `DnsClass` name and value mapping;
- the big-endian integer helper;
- the order of the notifications raised for one received datagram.

Modules follow the source files:

| module | file | source |
|---|---|---|
| `Wire` | wire.dfy | byte and integer widths, the exceptions as `Error` values, the `Cursor` result of a reader that advances a `ref int offset`, and `Repeat`, the meaning of a counted read loop |
| `BitConverterHelper` | bit_converter.dfy | src/BitConverterExtension.cs |
| `DnsTypes`, `DnsClasses` | dns_type.dfy, dns_class.dfy | src/DnsType.cs, src/DnsClass.cs |
| `Headers` | header.dfy | src/Header.cs |
| `Messages` | messages.dfy | src/Question.cs, src/Answer.cs, src/Packet.cs, src/Response.cs |
| `Names` | names.dfy | the name loops of src/MdnsService.cs, src/MdnsClient.cs and src/MDnsService.cs |
| `MDnsService` | mdns_query_builder.dfy | src/MDnsService.cs |
| `MdnsService` | mdns_service.dfy | src/MdnsService.cs |
| `MdnsClient` | mdns_client.dfy | src/MdnsClient.cs |
| `ResourceRecords` | resource_record.dfy | src/ResourceRecord.cs |
| `Advertisements` | advertisement.dfy | src/Advertisement.cs |
| `RoundTrips` | round_trips.dfy | lemmas that relate encoders in one file to decoders in another |

## How the model is built

- Each parser that advances a cursor is a `method` with the source's loop or
  field-by-field reads. It is proved equal to a specification function
  (`ReadNameSpec`, `ParseAnswerSpec`, `ParsePacketSpec`, …). The lemmas about
  the source's promises are proved about those functions.
- An exception becomes an `Err` value that the callers pass on:
  - an array index past the end is `IndexOutOfRange`;
  - `Encoding.GetString` or a range slice past the end is `ArgumentOutOfRange`;
  - the explicit guards give `InvalidQuestion` and `HeaderTooLong`;
  - `Array.CopyTo` into too little room is `ArgumentError`.
- `CreateMDnsQuery` writes into a 512-element `array<byte>` through a moving
  position, as the source does. Its helpers model the header writes, the
  label `foreach`, `CopyTo` and the final `Array.Copy`.
- Names are carried as the bytes of their UTF-8 text, so the UTF-8
  conversions on both sides are the identity. The string-built datagrams work
  on UTF-16 code units. The ASCII encoding's replacement of every unit above
  0x7F by `?` is written out.
- The host's endianness is a parameter of the big-endian helper and is proved
  not to matter. The rest of the model fixes it with `HostIsLittleEndian`.

Where the program's files disagree with each other, the model does the following:

- **Packet header.** `ParsePacket` passes twelve bytes to a `Header.Parse`
  that rejects more than two. It also reads `QdCount`/`AnCount`, which
  `Header` does not have. The model parses the flags from bytes 2..3 and reads
  the counts big-endian from bytes 4..7, as the client does.
  `Header.Parse` rejects any input longer than two bytes, so the header test's
  twelve-byte input is rejected (`TwelveByteHeaderRejected`).
- **`EncodeName`.** `ResourceRecord` and the `MdnsService` test call
  `MdnsService.EncodeName`, which `MdnsService` does not declare.
  `Names.EncodeName` is the label loop of src/MDnsService.cs:55-65, which
  yields the bytes that test expects.
- **Advertisement records.** `Advertisement.ToBytes` builds `Answer`s and
  serialises them, but `Answer` has no `ToBytes` or `GetHostData`. The records
  are modelled with `ResourceRecord`, whose data length is derived from the
  data, so the explicit 0 is ignored.
- **Advertisement header.** `Header` declares neither `ToBytes` nor the
  fourteen-argument constructor that `Advertisement.ToBytes` calls. The header
  bytes are therefore a parameter of `Advertisements.ToBytes`. The lemmas that
  decode an advertisement take them to be twelve bytes that hold the declared
  counts QDCOUNT 0, ANCOUNT 1, NSCOUNT 0 and ARCOUNT 2 big-endian in bytes
  4..11, as section 4.1.1 of RFC 1035 lays them out
  (`DeclaresAdvertisementCounts`). Their flag bytes are left open.
- **`Response` flags.** The client passes its integer flags where `Response`
  declares a `Header`. The model's `Response` keeps the flags as read.
- **`QueryResponse` values.** `QueryResponse` is declared outside the
  modelled files. The model assumes flag bit value 0 means `Request` and 1
  means `Response`.

The code differs from an RFC 1035 codec in these places, and the model follows
the code:

- no name-compression pointers: a length byte of 0xC0 or more is a plain label
  length (`PointerByteIsLength`);
- no trailing-dot stripping (`TrailingDotEmptyLabel`);
- a two-byte header decoder with its own bit positions (`FieldsFromBits`), so
  an authoritative response reads as truncated
  (`AuthoritativeResponseReadAsTruncated`);
- a question guard on the buffer's total length (`QuestionGuardIsTotalLength`);
- no per-record isolation: a failing answer fails the whole packet, and the
  failure leaves the receive loop (`HandleDatagram`);
- advertisement counts that declare one answer for three records
  (`DeclaredCounts`, `AdvertisementDecodesToPtrOnly`).

## Model

| member | source | states |
|---|---|---|
| Wire.Repeat | src/MdnsService.cs:161-174 | a counted read loop that succeeds returns exactly as many items as its count |
| BitConverterHelper.GetBytesWithBigEndianness16 | src/BitConverterExtension.cs:12-15 | the ushort overload returns two bytes |
| BitConverterHelper.GetBytesWithBigEndianness32 | src/BitConverterExtension.cs:7-10 | the uint overload returns four bytes |
| BitConverterHelper.BigEndianBytes16 | src/BitConverterExtension.cs:12-15 | the two bytes are the base-256 digits of the value, most significant first, on either host order |
| BitConverterHelper.BigEndianBytes32 | src/BitConverterExtension.cs:7-10 | the four bytes are the base-256 digits of the value, most significant first, on either host order |
| BitConverterHelper.EndiannessIrrelevant16 | src/BitConverterExtension.cs:14 | little- and big-endian hosts produce the same two bytes |
| BitConverterHelper.EndiannessIrrelevant32 | src/BitConverterExtension.cs:9 | little- and big-endian hosts produce the same four bytes |
| BitConverterHelper.RoundTrip16 | src/BitConverterExtension.cs:12-15 | the parser's `(b0 << 8) \| b1` on the two bytes recovers the ushort |
| BitConverterHelper.RoundTrip32 | src/BitConverterExtension.cs:7-10 | the parser's four-byte shift-or on the four bytes recovers the uint |
| BitConverterHelper.Injective16 | src/BitConverterExtension.cs:12-15 | distinct values give distinct byte pairs |
| DnsClasses.DnsClass.ToString | src/DnsClass.cs:12-23 | 1, 2, 3, 4 and 0xFF show as IN, CS, CH, HS and ANY (each in both directions); every other value shows as QCLASS |
| DnsClasses.FromUInt16 | src/DnsClass.cs:25 | the ushort conversion keeps the number |
| DnsClasses.FromString | src/DnsClass.cs:27-44 | an unknown string gives IN; every result is one of the five known values |
| DnsClasses.StaticMembers | src/DnsClass.cs:46-50 | IN, CS, CH, HS and ANY are 1, 2, 3, 4 and 0xFF and show their own names |
| DnsClasses.NameRoundTrip | src/DnsClass.cs:27-44 | each known name converts to a class that shows that name |
| DnsClasses.ValueRoundTrip | src/DnsClass.cs:12-23 | each known value's name converts back to that value |
| DnsClasses.UnknownValueLostByName | src/DnsClass.cs:12-44 | an unknown value survives the ushort conversion, but its name QCLASS converts back to IN |
| Headers.Parse | src/Header.cs:14-40 | more than two bytes is HeaderTooLong, fewer than two is IndexOutOfRange, exactly two parse |
| Headers.FieldsFromBits | src/Header.cs:21-30 | QR is bit 7, the opcode bits 6..3, TC bit 2, RD bit 1 and RA bit 0 of byte 0; AD is bit 7, CD bit 6 and the response code bits 3..0 of byte 1 |
| Headers.CodesAreFourBits | src/Header.cs:23-30 | the opcode and the response code are in 0..15 |
| Headers.IgnoredBits | src/Header.cs:27-30 | flag bytes that differ only in bits 5..4 of byte 1 parse alike |
| Headers.AuthoritativeResponseReadAsTruncated | src/Header.cs:21-26 | flag bytes 84 00 (QR and AA in RFC 1035) parse as a truncated response, with AA not decoded |
| Headers.TwelveByteHeaderRejected | test/Header.test.cs:13-23 | the test's twelve-byte header is rejected with HeaderTooLong |
| Names.Split | src/MDnsService.cs:55 | `Split('.')` yields at least one piece and no piece holds a dot |
| Names.JoinSplit | src/MDnsService.cs:55 | the pieces joined with dots give the text back |
| Names.SplitJoin | src/MDnsService.cs:55 | splitting dot-free labels joined with dots gives the labels back |
| Names.EncodeName | src/MDnsService.cs:55-65 | the encoding is two bytes longer than the text (a length byte per dot, one more, and the terminator) and ends in the zero terminator |
| Names.EncodeLabels | src/MDnsService.cs:56-62 | the label bytes take one length byte plus the label per label |
| Names.ReadLabels | src/MdnsService.cs:210-221 | a successful read ends at start + Σ(len + 1) + 1, inside the buffer |
| Names.ReadLabelsIsEncoding | src/MdnsService.cs:210-221 | what the decoder accepts is exactly the encoding of the labels it returns: non-empty labels under 256 bytes, then a zero byte |
| Names.ReadEncodedLabels | src/MdnsService.cs:210-221 | the encoding of non-empty labels under 256 bytes decodes to those labels, cursor after the terminator |
| Names.ReadName | src/MdnsService.cs:208-223 | the loop's name and cursor are those of `ReadNameSpec`: the labels joined with dots, or the error of the first read past the end (the client's `ReadName` is the same loop) |
| Names.NameRoundTrip | src/MdnsService.cs:208-223 | a well-formed name encoded anywhere in a buffer reads back, cursor after its encoding |
| Names.TrailingDotEmptyLabel | src/MDnsService.cs:55-59 | a trailing dot leaves an empty last label, so a zero length byte precedes the terminator |
| Names.LongLabelLengthWraps | src/MDnsService.cs:59 | a 256-byte label gets length byte 0, and the decoder reads the empty name |
| Names.TestLocalEncoding | test/MdnsService.test.cs:11-30 | "test.local" encodes to 04 74 65 73 74 05 6C 6F 63 61 6C 00 |
| Names.PointerByteIsLength | src/MdnsService.cs:211-220 | `C0 0C` is read as a 192-byte label and fails instead of being followed as a pointer |
| MDnsService.CreateMDnsQuery | src/MDnsService.cs:28-79 | the query succeeds exactly when it fits 512 bytes, and is then header ++ encoded name ++ type A ++ class IN; a failure is an index or copy error |
| MDnsService.WriteHeader | src/MDnsService.cs:31-52 | the first twelve bytes are 00 00 00 00 00 01 00 00 00 00 00 00 |
| MDnsService.WriteLabels | src/MDnsService.cs:55-62 | after the header, each label's length byte and bytes; fails exactly when they pass the 512 bytes |
| MDnsService.WriteByte | src/MDnsService.cs:59 | `message[pos++] = b` appends one byte to the written prefix |
| MDnsService.CopyTo | src/MDnsService.cs:60 | the label bytes land at `pos` and the prefix is kept |
| MDnsService.CopyPrefix | src/MDnsService.cs:76-78 | the returned array is exactly the written prefix |
| MdnsService.ParseQuestion | src/MdnsService.cs:179-191 | the method computes `ParseQuestionSpec` |
| MdnsService.QuestionLayout | src/MdnsService.cs:186-190 | a question is the name, then big-endian type and class, and the cursor moves exactly four past the name |
| MdnsService.QuestionGuardIsTotalLength | src/MdnsService.cs:181-184 | for every buffer and offset, InvalidQuestion exactly when the buffer holds under 5 bytes; a longer buffer with the cursor at or past its end passes the guard and fails with IndexOutOfRange |
| MdnsService.ParseAnswer | src/MdnsService.cs:193-203 | the method computes `ParseAnswerSpec` |
| MdnsService.AnswerLayout | src/MdnsService.cs:195-202 | an answer spans its name, ten fixed bytes and exactly data-length data bytes, copied from the buffer |
| MdnsService.AnswerSucceedsIff | src/MdnsService.cs:195-201 | an answer parses exactly when its name does and its fixed bytes and data lie in the buffer; a name failure passes through |
| MdnsService.ParsePacket | src/MdnsService.cs:150-177 | the method computes `ParsePacketSpec` |
| MdnsService.ParseQuestions | src/MdnsService.cs:161-167 | the question loop reads `count` questions in turn from the cursor |
| MdnsService.ParseAnswers | src/MdnsService.cs:169-174 | the answer loop reads `count` answers in turn from the cursor |
| MdnsService.PacketCounts | src/MdnsService.cs:152-176 | no packet exactly for under 12 bytes; a packet holds QDCOUNT questions and ANCOUNT answers and the flags of bytes 2..3 |
| MdnsService.HandleDatagram | src/MdnsService.cs:111-145 | data-received first; for a packet then packet-receiving, query- or response-received by QR, packet-received; otherwise nothing more; a parse error is the fault |
| MdnsService.ExactlyOneClassification | src/MdnsService.cs:132-143 | exactly one of query-received and response-received is raised when a packet parses, neither otherwise |
| MdnsService.AsciiBytes | src/MdnsService.cs:91 | the ASCII encoding gives one byte per code unit |
| MdnsService.BuildMdnsQuery | src/MdnsService.cs:85-92 | the name's ASCII bytes, then 00 00 01 00 01 00 00 00 00 00 00 00 |
| MdnsService.QueryNotHeaderFirst | test/MdnsService.test.cs:36-45 | the query for "test.local" starts with 't', not with the header's zero id byte |
| MdnsService.BuildMdnsAdvertisement | src/MdnsService.cs:237-249 | service name, fixed bytes, host-name length as one ASCII byte, host name, fixed bytes, then the port's two bytes, each unit above 0x7F sent as '?' |
| MdnsService.AdvertisedPort | src/MdnsService.cs:245-248 | the last two bytes equal port >> 8 and port & 0xff exactly when both are below 0x80 |
| MdnsClient.SkipQuestion | src/MdnsClient.cs:119-128 | the loop computes `SkipLabels` |
| MdnsClient.SkipMatchesReadName | src/MdnsClient.cs:119-128 | skipping lands four bytes past where the label decoder stops, and fails with IndexOutOfRange exactly where that decoder fails |
| MdnsClient.ParseAnswer | src/MdnsClient.cs:130-140 | the method computes the client's `ParseAnswerSpec` |
| MdnsClient.PayloadNotCopied | src/MdnsClient.cs:136-139 | where the service's parser succeeds, the client's agrees on every field and cursor, but its data is all zeros |
| MdnsClient.DataPastEndAccepted | src/MdnsClient.cs:137-138 | data running past the end is accepted with the cursor past the end, where the service's parser fails |
| MdnsClient.ParseMdnsResponse | src/MdnsClient.cs:94-117 | the method computes `ParseMdnsResponseSpec` |
| MdnsClient.ResponseFields | src/MdnsClient.cs:97-100 | id, flags and both counts are the big-endian values of bytes 0..7, and the answer list has the answer count |
| MdnsClient.NoLengthGuard | src/MdnsClient.cs:97-104 | under 8 bytes is IndexOutOfRange; 8 to 11 bytes with zero counts parse, with the offset past the end |
| ResourceRecords.ResourceRecord.DataLength | src/ResourceRecord.cs:13 | the data length is the data's length cut to 16 bits: equal to it under 64 KiB, never above it, and differing from it by a multiple of 65536 |
| ResourceRecords.ResourceRecord.ToBytes | src/ResourceRecord.cs:16-42 | encoded name, then type, class, TTL and data length big-endian, then the data; length k + 10 + \|data\| |
| ResourceRecords.FromNumbers | src/ResourceRecord.cs:14 | the ushort constructor keeps the type and class numbers |
| ResourceRecords.GetAData | src/ResourceRecord.cs:49-52 | the A data is the address's own bytes, unchanged |
| ResourceRecords.GetHostData | src/ResourceRecord.cs:54-57 | the encoded name, which the decoder reads back for a well-formed name |
| ResourceRecords.GetSRVData | src/ResourceRecord.cs:59-71 | priority, weight and the port cut to 16 bits, big-endian, then the encoded target |
| Advertisements.MakeAdvertisement | src/Advertisement.cs:18-27 | the constructor keeps its arguments; no TXT dictionary gives an empty one |
| Advertisements.ConstructorDefaults | src/Advertisement.cs:18-26 | the TTL defaults to 120 and the TXT entries to none |
| Advertisements.ServiceInstance | src/Advertisement.cs:48 | the instance name is the service name, one dot, then the service type |
| Advertisements.PtrRecord | src/Advertisement.cs:48-58 | owner ServiceType, type PTR, class IN, the TTL, data exactly the encoding of the service instance name, which reads back as that name when it is well formed |
| Advertisements.SrvRecord | src/Advertisement.cs:59-66 | owner the service instance, type SRV, class IN, data priority 0, weight 0, the port, the encoded host name |
| Advertisements.ARecord | src/Advertisement.cs:67-74 | owner the host name, type A, class IN, data exactly the address's bytes as `GetAData` gives them |
| Advertisements.TxtRecordsIgnored | src/Advertisement.cs:76-82 | the TXT entries never reach the wire |
| Advertisements.ToBytes | src/Advertisement.cs:29-83 | the bytes are the header, then the PTR, SRV and A records, in that order and nothing else |
| Advertisements.DeclaredCounts | src/Advertisement.cs:31-46 | the bytes declare QDCOUNT 0, ANCOUNT 1, NSCOUNT 0, ARCOUNT 2, while three records follow the twelve header bytes |
| RoundTrips.RecordRoundTrip | src/MdnsService.cs:193-203 | a record serialised anywhere in a buffer is read back by `ParseAnswer` with its name, type, class, TTL and data, the cursor just after it |
| RoundTrips.QueryRoundTrip | src/MDnsService.cs:55-73 | the query's name reads back at offset 12 with the cursor on the type field, and its question reads as type A, class IN |
| RoundTrips.QueryParsesAsPacket | src/MdnsService.cs:150-177 | the whole query parses as a packet with zero flags, its one question and no answer |
| RoundTrips.SingleAnswerPacket | src/MdnsService.cs:169-176 | a header declaring one answer, then a record, decodes to exactly that record |
| RoundTrips.AdvertisementDecodesToPtrOnly | src/Advertisement.cs:31-82 | for any header bytes that declare those counts, decoding the advertisement recovers only the PTR record, with the flags of header bytes 2..3 |

## Left out

- Sockets and I/O are not modelled: `UdpClient` construction, the multicast join, `Bind`, `Send`, `Receive`/`ReceiveAsync` and `Close`. `SendMdnsQuery`, `SendMDnsQuery`, `AdvertiseService` and `ListenForResponses` are only socket calls around the modelled builders. The client's `ReceiveMdnsResponses` loop is not modelled either: it passes each datagram to the modelled `ParseMdnsResponse` and raises `ResponseReceived` with the result.
- The running flag, the lock, `StartAsync`/`StopAsync`/`Dispose` and cancellation are not modelled. They exist for concurrency with the hosting runtime.
- `ReceiveMdnsAsync` is modelled for one datagram (`HandleDatagram`), not as the loop around the socket. The event handlers and their arguments become a trace of event tags.
- Logging and console output are not modelled, including the warning for an empty buffer. An empty buffer parses to no packet like any buffer under 12 bytes.
- The dependency-injection extension, the sample programs and the EventArgs classes are not modelled. They hold no codec logic.
- The client's `BuildMdnsQuery` and `BuildMdnsAdvertisement` are the same text as the service's and are modelled once.
- `GetAData(string)` is not modelled, because `IPAddress.Parse` is a library parser. An address is given by its bytes.
- `ResourceRecord.ToBytes` has a `Data is not null` check that the model does not need, because the data is never null.
- Names.ReadName: the UTF-8 decoding of each label is the identity on bytes. The replacement of invalid UTF-8 sequences by U+FFFD is not modelled.
- MDnsService.CreateMDnsQuery: the UTF-8 encoding of each label is the identity on bytes. Multi-byte characters are represented by their bytes.
- MdnsService.AsciiBytes: each UTF-16 code unit above 0x7F becomes one '?'. .NET's treatment of a surrogate pair as a single unknown character is not modelled.
- Cursor arithmetic is unbounded. The source's `int` offset could overflow only for buffers of about 2 GiB.
- `DnsClass.Value` has a public setter, but nothing in the modelled code uses it, so a class is an immutable value.
- `Header.ToString` and `Question.ToString` are not modelled. They are only used for logging.
- The service's `StartAsync` is not modelled beyond the receive step: it creates the socket, joins the group and starts the loop.
