/** Round trips across the encoders and decoders: a serialised record read
    back by the answer parser, the query's name and question read back by the
    service's parsers, and what a decoder recovers from an advertisement. */
module RoundTrips {
  import opened Wire
  import opened BitConverterHelper
  import DnsTypes
  import DnsClasses
  import Headers
  import Names
  import opened Messages
  import opened ResourceRecords
  import MdnsService
  import MDnsService
  import Advertisements

  /** The answer a record reads back as: its own name, type, class, TTL and
      data, with the derived data length. */
  function AsAnswer(rec: ResourceRecord): (a: Answer)
    ensures a.name == rec.name && a.aType == rec.rrType && a.aClass == rec.rrClass
    ensures a.ttl == rec.ttl && a.data == rec.data && a.dataLength == rec.DataLength()
  {
    Answer(rec.name, rec.rrType, rec.rrClass, rec.ttl, rec.DataLength(), rec.data)
  }

  /** Round trip: wherever a serialised record sits in a buffer, the service's
      answer parser reads back the record's name, type, class, TTL and data,
      and leaves the cursor just after it. This needs a name of non-empty
      labels that fit their length byte, and data the 16-bit length can
      describe. */
  lemma RecordRoundTrip(prefix: seq<byte>, rec: ResourceRecord, suffix: seq<byte>)
    requires Names.WellFormedName(rec.name)
    requires |rec.data| < 0x1_0000
    ensures var m := prefix + rec.ToBytes() + suffix;
      MdnsService.ParseAnswerSpec(m, |prefix|) == Ok(Cursor(AsAnswer(rec), |prefix| + |rec.ToBytes()|))
  {
    var b := rec.ToBytes();
    var m := prefix + b + suffix;
    var off := |prefix|;
    var k := |Names.EncodeName(rec.name)|;
    var o := off + k;
    var n := |rec.data|;
    RecordInBuffer(prefix, b, suffix, k, o, n);
    Names.NameRoundTrip(m, off, rec.name);
    FixedFieldsAt(m, o, b[k..k + 10]);
    ParseAnswerAt(m, off, rec.name, o, rec.data);
  }

  /** The slices of a record placed between a prefix and a suffix: its name
      at `|prefix|`, its fixed fields at `o` and its `n` data bytes after
      them. */
  lemma RecordInBuffer(prefix: seq<byte>, b: seq<byte>, suffix: seq<byte>, k: nat, o: nat, n: nat)
    requires k + 10 + n == |b| && o == |prefix| + k
    ensures var m := prefix + b + suffix;
      && o + 10 + n == |prefix| + |b| <= |m|
      && m[|prefix|..o] == b[..k]
      && m[o..o + 10] == b[k..k + 10]
      && m[o + 10..o + 10 + n] == b[k + 10..]
  {
  }

  /** The ten fixed bytes of a record at `o`, read as the parser reads them. */
  lemma FixedFieldsAt(m: seq<byte>, o: nat, f: seq<byte>)
    requires |f| == 10 && o + 10 <= |m| && m[o..o + 10] == f
    ensures U16At(m, o) == FromBigEndian16(f[0], f[1])
    ensures U16At(m, o + 2) == FromBigEndian16(f[2], f[3])
    ensures FromBigEndian32(m[o + 4], m[o + 5], m[o + 6], m[o + 7]) == FromBigEndian32(f[4], f[5], f[6], f[7])
    ensures U16At(m, o + 8) == FromBigEndian16(f[8], f[9])
  {
    assert m[o] == f[0] && m[o + 1] == f[1] && m[o + 2] == f[2] && m[o + 3] == f[3];
    assert m[o + 4] == f[4] && m[o + 5] == f[5] && m[o + 6] == f[6] && m[o + 7] == f[7];
    assert m[o + 8] == f[8] && m[o + 9] == f[9];
  }

  /** What the service's answer parser returns at `off` when a name read
      there ends at `o` and the ten fixed bytes and the data follow. */
  lemma ParseAnswerAt(m: seq<byte>, off: nat, name: seq<byte>, o: nat, data: seq<byte>)
    requires Names.ReadNameSpec(m, off) == Ok(Cursor(name, o))
    requires o + 10 + |data| <= |m|
    requires U16At(m, o + 8) == |data|
    requires m[o + 10..o + 10 + |data|] == data
    ensures MdnsService.ParseAnswerSpec(m, off)
         == Ok(Cursor(Answer(name, U16At(m, o), DnsClasses.DnsClass(U16At(m, o + 2)),
                             FromBigEndian32(m[o + 4], m[o + 5], m[o + 6], m[o + 7]),
                             |data|, data),
                      o + 10 + |data|))
  {
  }

  /** The name written by `CreateMDnsQuery` is read back at offset 12 by the
      name decoder, with the cursor on the type field; the question parser
      then reads type A and class IN and stops at the end of the query. */
  lemma QueryRoundTrip(hostname: seq<byte>)
    requires Names.WellFormedName(hostname)
    ensures var q := MDnsService.QueryBytes(hostname);
      && Names.ReadNameSpec(q, 12) == Ok(Cursor(hostname, |q| - 4))
      && MdnsService.ParseQuestionSpec(q, 12)
         == Ok(Cursor(Question(hostname, DnsTypes.A, DnsClasses.IN), |q|))
  {
    var q := MDnsService.QueryBytes(hostname);
    var e := Names.EncodeName(hostname);
    assert q[12..12 + |e|] == e;
    Names.NameRoundTrip(q, 12, hostname);
    assert q[12 + |e|..] == MDnsService.TypeAClassIn;
  }

  /** The whole query parses as a packet with flags 0, the one question for
      the host name's A record, and no answer. */
  lemma QueryParsesAsPacket(hostname: seq<byte>)
    requires Names.WellFormedName(hostname)
    ensures MdnsService.ParsePacketSpec(MDnsService.QueryBytes(hostname))
         == Ok(Some(Packet(Headers.Parse([0, 0]).value, [Question(hostname, DnsTypes.A, DnsClasses.IN)], [])))
  {
    var q := MDnsService.QueryBytes(hostname);
    QueryRoundTrip(hostname);
    assert q[..12] == MDnsService.QueryHeader;
    assert q[2..4] == [0, 0];
    assert U16At(q, 4) == 1 && U16At(q, 6) == 0;
    var question := Question(hostname, DnsTypes.A, DnsClasses.IN);
    RepeatOnce(MdnsService.ParseQuestionSpec, q, 12, Cursor(question, |q|));
  }

  /** A packet whose header declares no question and one answer, followed by
      one serialised record and anything else: the decoder returns exactly that
      record as its answer, and stops right after it. */
  lemma SingleAnswerPacket(h: seq<byte>, rec: ResourceRecord, rest: seq<byte>)
    requires |h| == 12 && U16At(h, 4) == 0 && U16At(h, 6) == 1
    requires Names.WellFormedName(rec.name)
    requires |rec.data| < 0x1_0000
    ensures var r := h + rec.ToBytes() + rest;
      && Repeat(MdnsService.ParseAnswerSpec, r, 12, 1) == Ok(Cursor([AsAnswer(rec)], 12 + |rec.ToBytes()|))
      && r[12 + |rec.ToBytes()|..] == rest
      && MdnsService.ParsePacketSpec(r) == Ok(Some(Packet(Headers.Parse(h[2..4]).value, [], [AsAnswer(rec)])))
  {
    var r := h + rec.ToBytes() + rest;
    RecordRoundTrip(h, rec, rest);
    RepeatOnce(MdnsService.ParseAnswerSpec, r, 12, Cursor(AsAnswer(rec), 12 + |rec.ToBytes()|));
    assert r[..12] == h;
    assert r[2..4] == h[2..4];
    assert U16At(r, 4) == U16At(h, 4) && U16At(r, 6) == U16At(h, 6);
  }

  /** A decoder that reads ANCOUNT answers recovers only the PTR record of an
      advertisement: the declared count is 1, so the SRV and A records after
      it are never read. The flags are whatever the header's bytes 2..3 hold. */
  lemma AdvertisementDecodesToPtrOnly(ad: Advertisements.Advertisement, header: seq<byte>)
    requires Advertisements.DeclaresAdvertisementCounts(header)
    requires Names.WellFormedName(ad.serviceType)
    requires |Advertisements.PtrRecord(ad).data| < 0x1_0000
    ensures MdnsService.ParsePacketSpec(Advertisements.ToBytes(ad, header))
         == Ok(Some(Packet(Headers.Parse(header[2..4]).value, [],
                           [AsAnswer(Advertisements.PtrRecord(ad))])))
  {
    var ptr := Advertisements.PtrRecord(ad);
    var unread := Advertisements.SrvRecord(ad).ToBytes() + Advertisements.ARecord(ad).ToBytes();
    Advertisements.RecordsAfterHeader(ad, header);
    AdvertisementHeaderCounts(header);
    SingleAnswerPacket(header, ptr, unread);
  }

  /** The advertisement header declares no question and one answer. */
  lemma AdvertisementHeaderCounts(header: seq<byte>)
    requires Advertisements.DeclaresAdvertisementCounts(header)
    ensures U16At(header, 4) == 0 && U16At(header, 6) == 1
  {
    assert header[4] == 0 && header[5] == 0 && header[6] == 0 && header[7] == 1 by {
      assert header[4..][..4] == [0, 0, 0, 1];
    }
  }
}
