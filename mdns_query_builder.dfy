/** `MDnsService.CreateMDnsQuery`: writes a standard query for a host name's A
    record into a 512-byte scratch array through a moving position, then copies
    out the written prefix. */
module MDnsService {
  import opened Wire
  import Names

  /** Id 0, flags 0, QDCOUNT 1, ANCOUNT, NSCOUNT and ARCOUNT 0. */
  const QueryHeader: seq<byte> := [0, 0, 0, 0, 0, 1, 0, 0, 0, 0, 0, 0]
  /** Type A (1) and class IN (1). */
  const TypeAClassIn: seq<byte> := [0, 1, 0, 1]
  const ScratchSize: nat := 512

  /** The bytes of a query for `hostname`, had the scratch array no limit. */
  function QueryBytes(hostname: seq<byte>): (r: seq<byte>)
  {
    QueryHeader + Names.EncodeName(hostname) + TypeAClassIn
  }

  /** The returned query is the header, the encoded name and type A, class IN,
      exactly the written prefix of the scratch array. Any write past its 512
      bytes fails. */
  method CreateMDnsQuery(hostname: seq<byte>) returns (r: Result<seq<byte>>)
    ensures r.Ok? <==> |QueryBytes(hostname)| <= ScratchSize
    ensures r.Ok? ==> r.value == QueryBytes(hostname)
    ensures r.Err? ==> r.error == IndexOutOfRange || r.error == ArgumentError
  {
    var message := new byte[ScratchSize];
    var pos := WriteHeader(message);
    var labels := Names.Split(hostname);
    var written := WriteLabels(message, pos, labels);
    if written.Err? {
      return Err(written.error);
    }
    pos := written.value;
    if pos + 5 > ScratchSize {
      return Err(IndexOutOfRange);
    }
    // Terminator, type A, class IN
    pos := WriteByte(message, pos, 0);
    pos := WriteByte(message, pos, 0);
    pos := WriteByte(message, pos, 1);
    pos := WriteByte(message, pos, 0);
    pos := WriteByte(message, pos, 1);
    assert message[..pos] == QueryBytes(hostname);

    var query := CopyPrefix(message, pos);
    return Ok(query);
  }

  /** The twelve header writes at the start of the scratch array. */
  method WriteHeader(message: array<byte>) returns (pos: nat)
    requires message.Length == ScratchSize
    modifies message
    ensures pos == 12 && message[..pos] == QueryHeader
  {
    pos := 0;
    // Id
    message[pos] := 0; pos := pos + 1;
    message[pos] := 0; pos := pos + 1;
    // Flags: a standard query
    message[pos] := 0; pos := pos + 1;
    message[pos] := 0; pos := pos + 1;
    // One question
    message[pos] := 0; pos := pos + 1;
    message[pos] := 1; pos := pos + 1;
    // No answer, authority or additional records
    message[pos] := 0; pos := pos + 1;
    message[pos] := 0; pos := pos + 1;
    message[pos] := 0; pos := pos + 1;
    message[pos] := 0; pos := pos + 1;
    message[pos] := 0; pos := pos + 1;
    message[pos] := 0; pos := pos + 1;
  }

  /** The `foreach` over the labels: each label's length byte and bytes go
      after the header. It fails exactly when the labels do not fit. */
  method WriteLabels(message: array<byte>, start: nat, labels: seq<seq<byte>>) returns (r: Result<nat>)
    requires start == 12 && message.Length == ScratchSize
    requires message[..start] == QueryHeader
    modifies message
    ensures r.Ok? <==> start + Names.LabelsSize(labels) <= ScratchSize
    ensures r.Ok? ==> r.value == start + Names.LabelsSize(labels)
    ensures r.Ok? ==> message[..r.value] == QueryHeader + Names.EncodeLabels(labels)
    ensures r.Err? ==> r.error == IndexOutOfRange || r.error == ArgumentError
  {
    var pos := start;
    for i := 0 to |labels|
      invariant pos == start + Names.LabelsSize(labels[..i]) <= ScratchSize
      invariant message[..pos] == QueryHeader + Names.EncodeLabels(labels[..i])
    {
      var labelBytes := labels[i];
      ghost var before := QueryHeader + Names.EncodeLabels(labels[..i]);
      LabelStep(labels, i);
      if pos >= ScratchSize {
        return Err(IndexOutOfRange);
      }
      pos := WriteByte(message, pos, |labelBytes| % 0x100);
      if pos + |labelBytes| > ScratchSize {
        return Err(ArgumentError);
      }
      CopyTo(labelBytes, message, pos);
      pos := pos + |labelBytes|;
      assert message[..pos] == before + [|labelBytes| % 0x100] + labelBytes;
      assert before + [|labelBytes| % 0x100] + labelBytes == QueryHeader + Names.EncodeLabels(labels[..i + 1]);
    }
    assert labels[..|labels|] == labels;
    return Ok(pos);
  }

  /** `message[pos++] = b`. */
  method WriteByte(message: array<byte>, pos: nat, b: byte) returns (next: nat)
    requires pos < message.Length
    modifies message
    ensures next == pos + 1
    ensures message[..next] == old(message[..pos]) + [b]
  {
    message[pos] := b;
    next := pos + 1;
    assert message[..next] == message[..pos] + [b];
  }

  /** One more label: its length byte and bytes extend the encoding, and the
      whole label list is at least that long. */
  lemma LabelStep(labels: seq<seq<byte>>, i: nat)
    requires i < |labels|
    ensures Names.LabelsSize(labels[..i + 1]) == Names.LabelsSize(labels[..i]) + |labels[i]| + 1
    ensures Names.LabelsSize(labels) >= Names.LabelsSize(labels[..i + 1])
    ensures Names.EncodeLabels(labels[..i + 1])
         == Names.EncodeLabels(labels[..i]) + [|labels[i]| % 0x100] + labels[i]
  {
    assert labels[..i + 1] == labels[..i] + [labels[i]];
    Names.EncodeLabelsSnoc(labels[..i], labels[i]);
    Names.LabelsSizeSplit(labels, i + 1);
    Names.LabelsSizeSplit(labels[..i + 1], i);
    assert labels[..i + 1][..i] == labels[..i];
    assert labels[..i + 1][i..] == [labels[i]];
  }

  /** `labelBytes.CopyTo(message, pos)`: the bytes land at `pos`, and what was
      written before `pos` is kept. */
  method CopyTo(labelBytes: seq<byte>, message: array<byte>, pos: nat)
    requires pos + |labelBytes| <= message.Length
    modifies message
    ensures message[..pos + |labelBytes|] == old(message[..pos]) + labelBytes
  {
    ghost var written := message[..pos];
    for j := 0 to |labelBytes|
      invariant message[..pos + j] == written + labelBytes[..j]
    {
      message[pos + j] := labelBytes[j];
      assert message[..pos + j + 1] == message[..pos + j] + [labelBytes[j]];
      assert labelBytes[..j + 1] == labelBytes[..j] + [labelBytes[j]];
    }
  }

  /** `Array.Copy(message, query, pos)` into a fresh array of `pos` bytes. */
  method CopyPrefix(message: array<byte>, pos: nat) returns (query: seq<byte>)
    requires pos <= message.Length
    ensures query == message[..pos]
  {
    var copy := new byte[pos];
    for k := 0 to pos
      invariant copy[..k] == message[..k]
    {
      copy[k] := message[k];
      assert copy[..k + 1] == copy[..k] + [message[k]];
    }
    query := copy[..];
  }
}
