/** The name codec. A name is carried as the bytes of its UTF-8 text, so the
    `Encoding.UTF8` conversions on either side are the identity here.

    Encoding splits the text on '.' and writes each label as a length byte
    followed by its bytes, then a zero byte (section 3.1 of RFC 1035). Nothing
    strips a trailing dot and the length byte is the label length cut to 8 bits.

    Decoding reads length-prefixed labels up to a zero byte and joins them with
    '.'. A length byte of 0xC0 or more is read as an ordinary label length: no
    compression pointer (section 4.1.4 of RFC 1035) is followed. */
module Names {
  import opened Wire

  const Dot: byte := 0x2E

  /** Joins labels with '.': no leading or trailing dot. */
  function Join(ls: seq<seq<byte>>): (r: seq<byte>)
  {
    if |ls| == 0 then []
    else if |ls| == 1 then ls[0]
    else Join(ls[..|ls| - 1]) + [Dot] + ls[|ls| - 1]
  }

  /** `string.Split('.')`: at least one piece, empty pieces kept, no piece
      holding a '.'; `JoinSplit` shows that the pieces make up the text. */
  function Split(s: seq<byte>): (r: seq<seq<byte>>)
    ensures |r| >= 1
    ensures forall i :: 0 <= i < |r| ==> Dot !in r[i]
  {
    if |s| == 0 then [[]]
    else
      var p := Split(s[..|s| - 1]);
      var c := s[|s| - 1];
      if c == Dot then p + [[]]
      else p[..|p| - 1] + [p[|p| - 1] + [c]]
  }

  /** The pieces of the split joined back with '.' give the text again. */
  lemma {:induction false} JoinSplit(s: seq<byte>)
    ensures Join(Split(s)) == s
  {
    if |s| > 0 {
      var init, c := s[..|s| - 1], s[|s| - 1];
      JoinSplit(init);
      var p := Split(init);
      var front, last := p[..|p| - 1], p[|p| - 1];
      assert p == front + [last];
      assert s == init + [c];
      if c == Dot {
        JoinSnoc(p, []);
      } else if |p| == 1 {
        assert Split(s) == [last + [c]];
      } else {
        assert Split(s) == front + [last + [c]];
        JoinExtendLast(front, last, c);
      }
    }
  }

  /** A byte appended to the last label is appended to the joined text. */
  lemma JoinExtendLast(front: seq<seq<byte>>, last: seq<byte>, c: byte)
    requires |front| > 0
    ensures Join(front + [last + [c]]) == Join(front + [last]) + [c]
  {
    JoinSnoc(front, last + [c]);
    JoinSnoc(front, last);
    var j := Join(front) + [Dot];
    assert j + (last + [c]) == (j + last) + [c];
  }

  /** Number of bytes the label section of `ls` occupies: a length byte plus
      the label, for each label. */
  function LabelsSize(ls: seq<seq<byte>>): nat
  {
    if ls == [] then 0 else |ls[0]| + 1 + LabelsSize(ls[1..])
  }

  /** The label loop: each label as `(byte)length` followed by its bytes. */
  function EncodeLabels(ls: seq<seq<byte>>): (r: seq<byte>)
    ensures |r| == LabelsSize(ls)
  {
    if ls == [] then [] else [|ls[0]| % 0x100] + ls[0] + EncodeLabels(ls[1..])
  }

  /** `EncodeName`: the labels of the '.'-split text, then a zero byte. Each
      dot of the text becomes a length byte, and one more length byte and the
      terminator are added, so the encoding is two bytes longer than the text. */
  function EncodeName(name: seq<byte>): (r: seq<byte>)
    ensures |r| == |name| + 2
    ensures r[|r| - 1] == 0
  {
    JoinSplit(name);
    JoinLength(Split(name));
    EncodeLabels(Split(name)) + [0]
  }

  /** The joined text is one byte shorter than the label section: a dot
      between labels where the encoding has a length byte before each. */
  lemma {:induction false} JoinLength(ls: seq<seq<byte>>)
    requires |ls| > 0
    ensures |Join(ls)| + 1 == LabelsSize(ls)
  {
    if |ls| == 1 {
      assert ls[1..] == [];
    } else {
      var init := ls[..|ls| - 1];
      JoinLength(init);
      LabelsSizeSplit(ls, |ls| - 1);
      assert ls[|ls| - 1..] == [ls[|ls| - 1]];
      assert ls[|ls| - 1..][1..] == [];
    }
  }

  /** A name the codec carries faithfully: every '.'-separated label is
      non-empty and fits its length byte. */
  predicate WellFormedName(name: seq<byte>)
  {
    var ls := Split(name);
    forall i :: 0 <= i < |ls| ==> 0 < |ls[i]| < 0x100
  }

  /** The labels the decoding loop reads from `off`, and the offset after the
      terminating zero byte. An index past the end is IndexOutOfRange; a label
      that runs past the end is ArgumentOutOfRange (from `Encoding.GetString`).
      The cursor moves by one length byte per label, the label bytes and the
      terminator. */
  function ReadLabels(m: seq<byte>, off: nat): (r: Result<Cursor<seq<seq<byte>>>>)
    ensures r.Ok? ==>
      && off < r.value.next <= |m|
      && r.value.next == off + LabelsSize(r.value.value) + 1
    decreases |m| - off
  {
    if off >= |m| then Err(IndexOutOfRange)
    else if m[off] == 0 then Ok(Cursor([], off + 1))
    else if off + 1 + m[off] > |m| then Err(ArgumentOutOfRange)
    else
      var lab := m[off + 1..off + 1 + m[off]];
      var rest := ReadLabels(m, off + 1 + m[off]);
      assert rest.Ok? ==> ([lab] + rest.value.value)[1..] == rest.value.value;
      Prepend([lab], rest)
  }

  /** What the decoder accepts is exactly an encoding of the labels it returns:
      non-empty labels that fit their length bytes, then a zero byte. */
  lemma ReadLabelsIsEncoding(m: seq<byte>, off: nat)
    requires ReadLabels(m, off).Ok?
    ensures var c := ReadLabels(m, off).value;
      && (forall i :: 0 <= i < |c.value| ==> 0 < |c.value[i]| < 0x100)
      && m[off..c.next] == EncodeLabels(c.value) + [0]
  {
    ReadLabelsBounds(m, off);
    ReadLabelsEncoded(m, off);
  }

  lemma {:induction false} ReadLabelsBounds(m: seq<byte>, off: nat)
    requires ReadLabels(m, off).Ok?
    ensures var c := ReadLabels(m, off).value;
      forall i :: 0 <= i < |c.value| ==> 0 < |c.value[i]| < 0x100
    decreases |m| - off
  {
    if m[off] != 0 {
      var n := m[off];
      var next := off + 1 + n;
      var lab := m[off + 1..next];
      ReadLabelsBounds(m, next);
      var rest := ReadLabels(m, next).value;
      var ls := [lab] + rest.value;
      forall i | 0 < i < |ls|
        ensures 0 < |ls[i]| < 0x100
      {
        assert ls[i] == rest.value[i - 1];
      }
    }
  }

  lemma {:induction false} ReadLabelsEncoded(m: seq<byte>, off: nat)
    requires ReadLabels(m, off).Ok?
    ensures var c := ReadLabels(m, off).value;
      m[off..c.next] == EncodeLabels(c.value) + [0]
    decreases |m| - off
  {
    if m[off] != 0 {
      var n := m[off];
      var next := off + 1 + n;
      var lab := m[off + 1..next];
      ReadLabelsEncoded(m, next);
      var rest := ReadLabels(m, next).value;
      var ls := [lab] + rest.value;
      assert ReadLabels(m, off).value == Cursor(ls, rest.next);
      assert ls[0] == lab && ls[1..] == rest.value;
      assert EncodeLabels(ls) == [n] + lab + EncodeLabels(rest.value);
      assert ([n] + lab + EncodeLabels(rest.value)) + [0] == ([n] + lab) + (EncodeLabels(rest.value) + [0]);
      SliceConcat(m, off, next, rest.next);
      SliceConcat(m, off, off + 1, next);
      assert m[off..off + 1] == [n];
    }
  }

  /** A slice is the slices it is cut into. */
  lemma SliceConcat<T>(m: seq<T>, a: nat, b: nat, c: nat)
    requires a <= b <= c <= |m|
    ensures m[a..c] == m[a..b] + m[b..c]
  {
  }

  /** What `ReadName` computes: the joined labels and the cursor after them. */
  function ReadNameSpec(m: seq<byte>, off: nat): Result<Cursor<seq<byte>>>
  {
    match ReadLabels(m, off)
    case Ok(c) => Ok(Cursor(Join(c.value), c.next))
    case Err(e) => Err(e)
  }

  lemma JoinSnoc(ls: seq<seq<byte>>, l: seq<byte>)
    requires |ls| > 0
    ensures Join(ls + [l]) == Join(ls) + [Dot] + l
  {
    assert (ls + [l])[..|ls|] == ls;
  }

  /** Appending a label to the name read so far: a '.' first unless the name
      is still empty. */
  lemma JoinAppend(labels: seq<seq<byte>>, lab: seq<byte>)
    ensures Join(labels + [lab]) == (if |labels| > 0 then Join(labels) + [Dot] else []) + lab
  {
    if |labels| > 0 {
      JoinSnoc(labels, lab);
    } else {
      assert labels + [lab] == [lab];
    }
  }

  /** One more label, whose length byte is at `p` and whose bytes start at
      `off`, joins the labels read before it. */
  lemma ReadLabelsStep(m: seq<byte>, offset: nat, p: nat, off: nat, labels: seq<seq<byte>>)
    requires p < |m| && m[p] != 0 && off == p + 1
    requires ReadLabels(m, offset) == Prepend(labels, ReadLabels(m, p))
    ensures off + m[p] > |m| ==> ReadLabels(m, offset) == Err(ArgumentOutOfRange)
    ensures off + m[p] <= |m| ==>
      ReadLabels(m, offset) == Prepend(labels + [m[off..off + m[p]]], ReadLabels(m, off + m[p]))
  {
    if off + m[p] <= |m| {
      var next := off + m[p];
      assert ReadLabels(m, p) == Prepend([m[off..next]], ReadLabels(m, next));
      PrependPrepend(labels, [m[off..next]], ReadLabels(m, next));
    }
  }

  /** `ReadName`: advances the cursor over length-prefixed labels up to a zero
      byte, appending each label to the name with a '.' between labels. */
  method ReadName(message: seq<byte>, offset: nat) returns (r: Result<Cursor<seq<byte>>>)
    ensures r == ReadNameSpec(message, offset)
  {
    var name: seq<byte> := [];
    ghost var labels: seq<seq<byte>> := [];
    var off := offset;
    PrependNothing(ReadLabels(message, offset));
    if off >= |message| {
      return Err(IndexOutOfRange);
    }
    var length := message[off];
    ghost var pos := off;
    off := off + 1;
    while length != 0
      invariant pos < |message| && off == pos + 1
      invariant length == message[pos]
      invariant ReadLabels(message, offset) == Prepend(labels, ReadLabels(message, pos))
      invariant name == Join(labels)
      invariant |name| > 0 <==> |labels| > 0
      decreases |message| - off
    {
      ReadLabelsStep(message, offset, pos, off, labels);
      if |name| > 0 {
        name := name + [Dot];
      }
      if off + length > |message| {
        return Err(ArgumentOutOfRange);
      }
      var lab := message[off..off + length];
      JoinAppend(labels, lab);
      name := name + lab;
      labels := labels + [lab];
      off := off + length;
      if off >= |message| {
        return Err(IndexOutOfRange);
      }
      length := message[off];
      pos := off;
      off := off + 1;
    }
    assert ReadLabels(message, pos) == Ok(Cursor([], off));
    assert labels + [] == labels;
    return Ok(Cursor(name, off));
  }

  /** Decoding an encoding of non-empty labels that fit their length bytes reads
      back those labels, with the cursor just after the terminator. */
  lemma {:induction false} ReadEncodedLabels(m: seq<byte>, off: nat, ls: seq<seq<byte>>)
    requires forall i :: 0 <= i < |ls| ==> 0 < |ls[i]| < 0x100
    requires off + LabelsSize(ls) + 1 <= |m|
    requires m[off..off + LabelsSize(ls) + 1] == EncodeLabels(ls) + [0]
    ensures ReadLabels(m, off) == Ok(Cursor(ls, off + LabelsSize(ls) + 1))
    decreases ls
  {
    if ls == [] {
      assert m[off] == 0;
    } else {
      var l := ls[0];
      var n := |l|;
      var tail := EncodeLabels(ls[1..]) + [0];
      assert EncodeLabels(ls) == [n] + l + EncodeLabels(ls[1..]);
      assert ([n] + l + EncodeLabels(ls[1..])) + [0] == ([n] + l) + (EncodeLabels(ls[1..]) + [0]);
      SliceParts(m, off, n, l, tail);
      var next := off + 1 + n;
      ReadEncodedLabels(m, next, ls[1..]);
      assert ReadLabels(m, off) == Prepend([l], ReadLabels(m, next));
      assert [l] + ls[1..] == ls;
    }
  }

  lemma SliceParts(m: seq<byte>, off: nat, n: byte, l: seq<byte>, tail: seq<byte>)
    requires off + 1 + |l| + |tail| <= |m|
    requires m[off..off + 1 + |l| + |tail|] == [n] + l + tail
    ensures m[off] == n
    ensures m[off + 1..off + 1 + |l|] == l
    ensures m[off + 1 + |l|..off + 1 + |l| + |tail|] == tail
  {
    var w := m[off..off + 1 + |l| + |tail|];
    assert m[off] == w[0];
    assert w[1..1 + |l|] == l;
    assert w[1 + |l|..] == tail;
    var a, b := m[off + 1..off + 1 + |l|], w[1..1 + |l|];
    forall i | 0 <= i < |l|
      ensures a[i] == b[i]
    {
      assert w[1 + i] == m[off + 1 + i];
    }
    assert a == b;
    assert m[off + 1 + |l|..off + 1 + |l| + |tail|] == w[1 + |l|..];
  }

  /** Round trip: the name encoded at `off` is read back, and the cursor lands
      on the byte after the encoding. */
  lemma NameRoundTrip(m: seq<byte>, off: nat, name: seq<byte>)
    requires WellFormedName(name)
    requires off + |EncodeName(name)| <= |m|
    requires m[off..off + |EncodeName(name)|] == EncodeName(name)
    ensures ReadNameSpec(m, off) == Ok(Cursor(name, off + |EncodeName(name)|))
  {
    ReadEncodedLabels(m, off, Split(name));
    JoinSplit(name);
  }

  /** The encoding of a well-formed name, on its own, reads back as that name
      and the whole encoding is consumed. */
  lemma EncodedNameReadsBack(name: seq<byte>)
    ensures WellFormedName(name) ==>
      ReadNameSpec(EncodeName(name), 0) == Ok(Cursor(name, |EncodeName(name)|))
  {
    if WellFormedName(name) {
      var r := EncodeName(name);
      assert r[0..|r|] == r;
      NameRoundTrip(r, 0, name);
    }
  }

  /** The label decoder fails only by reading past the end of the buffer:
      never with InvalidQuestion. */
  lemma {:induction false} ReadLabelsNeverInvalid(m: seq<byte>, off: nat)
    ensures ReadLabels(m, off) != Err(InvalidQuestion)
    decreases |m| - off
  {
    if off < |m| && m[off] != 0 && off + 1 + m[off] <= |m| {
      ReadLabelsNeverInvalid(m, off + 1 + m[off]);
    }
  }

  /** Splitting joined labels that hold no dot gives the labels back. */
  lemma {:induction false} SplitJoin(ls: seq<seq<byte>>)
    requires |ls| > 0
    requires forall i :: 0 <= i < |ls| ==> Dot !in ls[i]
    ensures Split(Join(ls)) == ls
  {
    if |ls| == 1 {
      SplitNoDot(ls[0]);
    } else {
      var init := ls[..|ls| - 1];
      var l := ls[|ls| - 1];
      assert init + [l] == ls;
      SplitJoin(init);
      JoinSnoc(init, l);
      SplitAfterDot(Join(init), l);
    }
  }

  lemma {:induction false} SplitNoDot(l: seq<byte>)
    requires Dot !in l
    ensures Split(l) == [l]
  {
    if |l| > 0 {
      var init, c := l[..|l| - 1], l[|l| - 1];
      SplitNoDot(init);
      assert c in l;
      assert l == init + [c];
    }
  }

  lemma {:induction false} SplitAfterDot(s: seq<byte>, l: seq<byte>)
    requires Dot !in l
    ensures Split(s + [Dot] + l) == Split(s) + [l]
  {
    if |l| == 0 {
      SplitDotEnd(s);
      assert s + [Dot] + l == s + [Dot];
    } else {
      var init, c := l[..|l| - 1], l[|l| - 1];
      SplitAfterDot(s, init);
      SplitSnoc(s + [Dot] + init, c);
      assert s + [Dot] + init + [c] == s + [Dot] + l;
      var p := Split(s) + [init];
      assert p[..|p| - 1] == Split(s);
      assert p[|p| - 1] + [c] == l;
    }
  }

  lemma SplitDotEnd(s: seq<byte>)
    ensures Split(s + [Dot]) == Split(s) + [[]]
  {
    assert (s + [Dot])[..|s|] == s;
  }

  lemma SplitSnoc(s: seq<byte>, c: byte)
    requires c != Dot
    ensures var p := Split(s);
      Split(s + [c]) == p[..|p| - 1] + [p[|p| - 1] + [c]]
  {
    assert (s + [c])[..|s|] == s;
  }

  /** A trailing dot is not stripped: the split keeps an empty last label, and
      its zero length byte lands before the terminator. */
  lemma TrailingDotEmptyLabel(name: seq<byte>)
    requires |name| > 0 && name[|name| - 1] == Dot
    ensures var enc := EncodeName(name);
      |enc| >= 2 && enc[|enc| - 2] == 0 && enc[|enc| - 1] == 0
  {
    var p := Split(name[..|name| - 1]);
    assert Split(name) == p + [[]];
    EncodeLabelsSnoc(p, []);
  }

  lemma {:induction false} EncodeLabelsSnoc(ls: seq<seq<byte>>, l: seq<byte>)
    ensures EncodeLabels(ls + [l]) == EncodeLabels(ls) + [|l| % 0x100] + l
  {
    if ls == [] {
      assert [l][1..] == [];
    } else {
      EncodeLabelsSnoc(ls[1..], l);
      assert (ls + [l])[1..] == ls[1..] + [l];
    }
  }

  /** A label of 256 bytes gets the length byte 0, so the decoder stops at once
      and reads the empty name. */
  lemma LongLabelLengthWraps(name: seq<byte>)
    requires |Split(name)[0]| == 0x100
    ensures EncodeName(name)[0] == 0
    ensures ReadNameSpec(EncodeName(name), 0) == Ok(Cursor([], 1))
  {
  }

  /** The example of the source's test: "test.local" encodes to
      04 't' 'e' 's' 't' 05 'l' 'o' 'c' 'a' 'l' 00. */
  lemma TestLocalEncoding()
    ensures EncodeName([0x74, 0x65, 0x73, 0x74, Dot, 0x6C, 0x6F, 0x63, 0x61, 0x6C])
         == [0x04, 0x74, 0x65, 0x73, 0x74, 0x05, 0x6C, 0x6F, 0x63, 0x61, 0x6C, 0x00]
  {
    var test, local := TestLocalLabels();
    JoinSnoc([test], local);
    SplitJoin([test, local]);
    EncodeTwoLabels(test, local);
  }

  /** The two labels of "test.local", and the text and its encoding in terms
      of them. */
  lemma TestLocalLabels() returns (test: seq<byte>, local: seq<byte>)
    ensures test == [0x74, 0x65, 0x73, 0x74] && local == [0x6C, 0x6F, 0x63, 0x61, 0x6C]
    ensures [0x74, 0x65, 0x73, 0x74, Dot, 0x6C, 0x6F, 0x63, 0x61, 0x6C] == test + [Dot] + local
    ensures [0x04, 0x74, 0x65, 0x73, 0x74, 0x05, 0x6C, 0x6F, 0x63, 0x61, 0x6C, 0x00]
         == [|test| % 0x100] + test + [|local| % 0x100] + local + [0]
  {
    test, local := [0x74, 0x65, 0x73, 0x74], [0x6C, 0x6F, 0x63, 0x61, 0x6C];
  }

  lemma EncodeTwoLabels(a: seq<byte>, b: seq<byte>)
    ensures EncodeLabels([a, b]) == [|a| % 0x100] + a + [|b| % 0x100] + b
  {
    assert [a, b][1..] == [b];
    assert EncodeLabels([b]) == [|b| % 0x100] + b;
  }

  /** A byte of 0xC0 or more is a plain label length: `C0 0C`, a compression
      pointer to offset 12 in a real DNS message, asks for 192 label bytes
      and fails. */
  lemma PointerByteIsLength()
    ensures ReadNameSpec([0xC0, 0x0C], 0) == Err(ArgumentOutOfRange)
  {
  }

  /** The size of a label list is the size of a prefix plus that of the rest. */
  lemma {:induction false} LabelsSizeSplit(ls: seq<seq<byte>>, i: nat)
    requires i <= |ls|
    ensures LabelsSize(ls) == LabelsSize(ls[..i]) + LabelsSize(ls[i..])
  {
    if i > 0 {
      LabelsSizeSplit(ls[1..], i - 1);
      assert ls[1..][..i - 1] == ls[..i][1..];
      assert ls[1..][i - 1..] == ls[i..];
    }
  }
}
