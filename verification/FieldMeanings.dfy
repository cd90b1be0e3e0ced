/** The fields of TopicMessage in numbers (data/topicMessage.pb.go): which bytes are a field, which
    number and wire type its tag carries, which part of the message it replaces and with what, and
    which tags are refused with which error. Numbers are taken from the bytes by arithmetic alone. */
module FieldMeanings {
  import opened Wrappers
  import opened Varint
  import opened TopicMessage
  import opened TopicMessageLaws
  import opened UnknownFields
  import opened DecodedFields
  import opened WordNumbers

  // ---------- varints, tags and numbers ----------

  /** One to ten bytes, the last one below 128 and only that. */
  predicate PlainVarint(s: seq<Byte>) {
    EndsAt(s, 0, |s|)
  }

  /** The 64-bit number of a varint. */
  function Plain(s: seq<Byte>): nat {
    Numeral(s) % 0x1_0000_0000_0000_0000
  }

  /** The field number in a tag. */
  function TagNumber(tag: seq<Byte>): nat {
    Plain(tag) / 8 % 0x1_0000_0000
  }

  /** The wire type in a tag. */
  function TagType(tag: seq<Byte>): nat {
    Plain(tag) % 8
  }

  lemma VarintIff(s: seq<Byte>)
    ensures IsVarint(s) <==> PlainVarint(s)
    ensures IsVarint(s) ==> IntOf(Value(s)) == Plain(s)
  {
    hide ReadVarint, IntOf, Numeral;
    ReadExactly(s, 0);
    if PlainVarint(s) {
      ReadWhereEnds(s, 0, |s|);
    }
    assert s[0..|s|] == s;
  }

  lemma SmallInts()
    ensures IntOf(0) == 0 && IntOf(1) == 1 && IntOf(2) == 2 && IntOf(3) == 3 && IntOf(4) == 4 && IntOf(5) == 5
  {
    SmallHalves();
    hide Half, BitOf;
    IntOfHalf(1);
    IntOfHalf(2);
    IntOfHalf(3);
    IntOfHalf(4);
    IntOfHalf(5);
  }

  lemma SmallHalves()
    ensures Half(1) == 0 && Half(2) == 1 && Half(3) == 1 && Half(4) == 2 && Half(5) == 2
    ensures BitOf(1) == 1 && BitOf(2) == 0 && BitOf(3) == 1 && BitOf(4) == 0 && BitOf(5) == 1
  {
  }

  /** A word up to five is known by its number. */
  lemma SmallWord(w: bv64, k: bv64)
    requires k <= 5
    ensures w == k <==> IntOf(w) == IntOf(k)
  {
    hide IntOf;
    if IntOf(w) == IntOf(k) {
      SameBits(w, k);
    }
  }

  lemma WideSmall(f: bv32)
    ensures (f == 1 <==> Wide(f) == 1) && (f == 2 <==> Wide(f) == 2) && (f == 3 <==> Wide(f) == 3)
    ensures (f == 4 <==> Wide(f) == 4) && (f == 5 <==> Wide(f) == 5)
  {
  }

  lemma WireTypeIs(w: bv64, n: nat)
    requires IntOf(w) == n
    ensures (w == 0 <==> n == 0) && (w == 1 <==> n == 1) && (w == 2 <==> n == 2)
    ensures (w == 3 <==> n == 3) && (w == 4 <==> n == 4) && (w == 5 <==> n == 5)
  {
    hide IntOf;
    SmallInts();
    SmallWord(w, 0);
    SmallWord(w, 1);
    SmallWord(w, 2);
    SmallWord(w, 3);
    SmallWord(w, 4);
    SmallWord(w, 5);
  }

  lemma FieldNumberIs5(f: bv32, n: nat)
    requires IntOf(Wide(f)) == n
    ensures (f == 1 <==> n == 1) && (f == 2 <==> n == 2) && (f == 3 <==> n == 3) && (f == 4 <==> n == 4)
    ensures f == 5 <==> n == 5
    ensures IllegalField(f) <==> n == 0 || n >= 0x8000_0000
  {
    hide IntOf, Wide, IllegalField;
    WideSmall(f);
    WireTypeIs(Wide(f), n);
    IllegalNumber(f);
  }

  /** The tag of a field, as the code sees it and as numbers. */
  lemma TagMeans(tag: seq<Byte>)
    requires IsVarint(tag)
    ensures var f, t, n, k := FieldNumber(Value(tag)), WireType(Value(tag)), TagNumber(tag), TagType(tag);
            && (f == 1 <==> n == 1) && (f == 2 <==> n == 2) && (f == 3 <==> n == 3) && (f == 4 <==> n == 4)
            && (f == 5 <==> n == 5) && (IllegalField(f) <==> n == 0 || n >= 0x8000_0000)
            && (t == 0 <==> k == 0) && (t == 1 <==> k == 1) && (t == 2 <==> k == 2) && (t == 3 <==> k == 3)
            && (t == 4 <==> k == 4) && (t == 5 <==> k == 5)
  {
    hide IsVarint, IntOf, FieldNumber, WireType, IllegalField, Wide, Numeral;
    VarintIff(tag);
    TagNumbers(Value(tag));
    WireTypeIs(WireType(Value(tag)), TagType(tag));
    FieldNumberIs5(FieldNumber(Value(tag)), TagNumber(tag));
  }

  lemma TagIff(s: seq<Byte>, t: bv64, k: nat)
    requires (t == 0 && k == 0) || (t == 1 && k == 1) || (t == 2 && k == 2) || (t == 3 && k == 3)
          || (t == 4 && k == 4) || (t == 5 && k == 5)
    ensures IsTag(s, t) <==> PlainVarint(s) && TagType(s) == k
  {
    hide IsVarint, PlainVarint, FieldNumber, WireType, IllegalField, TagNumber, TagType;
    VarintIff(s);
    if IsVarint(s) {
      TagMeans(s);
    }
  }

  /** A length is a number below 2^63. */
  lemma LengthIff(s: seq<Byte>, n: nat)
    requires IsVarint(s)
    ensures !IsNegative(Value(s)) && IntOf(Value(s)) == n <==> Plain(s) == n && n < INT_LIMIT
  {
    hide IsVarint, IntOf, IsNegative, Numeral;
    VarintIff(s);
    WordRange(Value(s));
  }

  /** Which bytes are a field. */
  lemma WellFormedIff(f: Field)
    ensures WellFormed(f) <==>
            PlainVarint(f.tag) &&
            match f
            case VarintField(tag, body) => TagType(tag) == 0 && PlainVarint(body)
            case Fixed64(tag, body) => TagType(tag) == 1 && |body| == 8
            case Delimited(tag, length, body) =>
              TagType(tag) == 2 && PlainVarint(length) && Plain(length) == |body| && |body| < 0x8000_0000_0000_0000
            case Group(tag, fields, end) =>
              TagType(tag) == 3 && AllWellFormed(fields) && PlainVarint(end) && TagType(end) == 4
            case Fixed32(tag, body) => TagType(tag) == 5 && |body| == 4
  {
    hide IsTag, IsVarint, PlainVarint, Plain, TagType, IsNegative, IntOf;
    match f
    case VarintField(tag, body) =>
      TagIff(tag, 0, 0);
      VarintIff(body);
    case Fixed64(tag, body) => TagIff(tag, 1, 1);
    case Delimited(tag, length, body) =>
      TagIff(tag, 2, 2);
      VarintIff(length);
      if IsVarint(length) {
        LengthIff(length, |body|);
      }
    case Group(tag, fields, end) =>
      TagIff(tag, 3, 3);
      TagIff(end, 4, 4);
    case Fixed32(tag, body) => TagIff(tag, 5, 5);
  }

  // ---------- fields ----------

  /** Which fields the decoder takes: numbers 1 and 3 are varints, 2, 4 and 5 are length-delimited, and
      every other number from 6 to 2^31 - 1 may be anything. */
  lemma AcceptedIff(f: Field)
    ensures Accepted(f) <==>
            && WellFormed(f)
            && 1 <= TagNumber(f.tag) < 0x8000_0000
            && (TagNumber(f.tag) == 1 || TagNumber(f.tag) == 3 ==> f.VarintField?)
            && (TagNumber(f.tag) == 2 || TagNumber(f.tag) == 4 || TagNumber(f.tag) == 5 ==> f.Delimited?)
  {
    hide WellFormed, FieldNumber, WireType, IllegalField, TagNumber, TagType, IsVarint;
    if WellFormed(f) {
      TagIsVarint(f);
      TagMeans(f.tag);
    }
  }

  /** Which fields are unknown. */
  lemma UnknownIff(f: Field)
    requires WellFormed(f)
    ensures IsUnknown(f) <==> 6 <= TagNumber(f.tag) < 0x8000_0000
  {
    hide WellFormed, FieldNumber, WireType, IllegalField, TagNumber, TagType, IsVarint;
    TagIsVarint(f);
    TagMeans(f.tag);
    if !IllegalField(FieldNumber(Value(f.tag))) {
      KnownNumber(FieldNumber(Value(f.tag)));
    }
  }

  /** The bytes of a field behind its tag and length; a group has none of its own. */
  function Body(f: Field): seq<Byte> {
    if f.Group? then [] else f.body
  }

  /** The decoded message after one more field: field 1 sets the version to the number of its body
      modulo 2^32, field 3 the timestamp to that number modulo 2^64, fields 2, 4 and 5 the payload, the
      key and the signature to their bodies. Any other field changes nothing. */
  lemma FieldMeaning(m: Message, f: Field)
    requires Accepted(f) && |Bytes(f)| < INT_LIMIT
    ensures Decode(m, Bytes(f)).err == None
    ensures var m', n := Decode(m, Bytes(f)).msg, TagNumber(f.tag);
            if n == 1 then
              m' == m.(version := m'.version) && IntOf(Wide(m'.version)) == Numeral(Body(f)) % 0x1_0000_0000
            else if n == 2 then m' == m.(payload := Body(f))
            else if n == 3 then
              m' == m.(timestamp := m'.timestamp) && IntOf(m'.timestamp) == Numeral(Body(f)) % 0x1_0000_0000_0000_0000
            else if n == 4 then m' == m.(pk := Body(f))
            else if n == 5 then m' == m.(signatureOnPid := Body(f))
            else m' == m
  {
    hide Decode, Bytes, FieldNumber, TagNumber, IllegalField, WireType, TagType, IntOf, Low32, Wide, Numeral, IsVarint;
    FieldDecodes(m, f);
    AcceptedIff(f);
    TagIsVarint(f);
    TagMeans(f.tag);
    if f.VarintField? {
      VarintIff(f.body);
      Low32Modulo(Value(f.body));
      Narrow(Numeral(f.body));
    }
  }

  lemma Narrow(n: nat)
    ensures n % 0x1_0000_0000_0000_0000 % 0x1_0000_0000 == n % 0x1_0000_0000
  {
  }

  /** Which tags are refused, with which error and before anything is changed: first the end of a group,
      then an illegal number, then a known field of the wrong type. */
  lemma RefusedTags(m: Message, d: seq<Byte>, tag: seq<Byte>)
    requires PlainVarint(tag) && At(d, 0, tag)
    ensures var n, k := TagNumber(tag), TagType(tag);
            && (k == 4 ==> Decode(m, d) == Outcome(m, Some(EndGroupForNonGroup)))
            && (k != 4 && (n == 0 || n >= 0x8000_0000) ==> Decode(m, d) == Outcome(m, Some(IllegalTag)))
            && (k != 4 && k != 0 && (n == 1 || n == 3) ==> Decode(m, d) == Outcome(m, Some(WrongWireType)))
            && (k != 4 && k != 2 && (n == 2 || n == 4 || n == 5) ==> Decode(m, d) == Outcome(m, Some(WrongWireType)))
  {
    hide ReadVarint, FieldNumber, TagNumber, IllegalField, WireType, TagType,
         DecodeVersion, DecodeTimestamp, DecodeBytes, DecodeUnknown;
    VarintIff(tag);
    ReadAt(d, 0, tag);
    TagMeans(tag);
  }

  /** Which lengths of a payload, key or signature are refused: those that are negative or lead beyond
      the greatest Go int, and else those that lead beyond the buffer. Nothing is changed. */
  lemma RefusedLengths(m: Message, d: seq<Byte>, tag: seq<Byte>, length: seq<Byte>)
    requires PlainVarint(tag) && PlainVarint(length) && At(d, 0, tag + length)
    requires TagType(tag) == 2 && (TagNumber(tag) == 2 || TagNumber(tag) == 4 || TagNumber(tag) == 5)
    ensures var n, end := Plain(length), |tag| + |length| + Plain(length);
            && (n >= 0x8000_0000_0000_0000 || end >= 0x8000_0000_0000_0000 ==>
                  Decode(m, d) == Outcome(m, Some(InvalidLength)))
            && (n < 0x8000_0000_0000_0000 && |d| < end < 0x8000_0000_0000_0000 ==>
                  Decode(m, d) == Outcome(m, Some(UnexpectedEOF)))
  {
    hide ReadVarint, FieldNumber, TagNumber, IllegalField, WireType, TagType,
         IntOf, IsNegative, IsVarint, PlainVarint, Numeral;
    VarintIff(tag);
    VarintIff(length);
    AtSplit(d, 0, tag, length);
    ReadAt(d, 0, tag);
    ReadAt(d, |tag|, length);
    TagMeans(tag);
    WordRange(Value(length));
  }

  /** A field whose varint does not end: the error of the buffer, and for the version and the timestamp
      the number gathered so far. */
  lemma Unfinished(m: Message, d: seq<Byte>, tag: seq<Byte>)
    requires PlainVarint(tag) && At(d, 0, tag) && TagType(tag) == 0 && (TagNumber(tag) == 1 || TagNumber(tag) == 3)
    requires forall k :: |tag| <= k < |d| && k < |tag| + 10 ==> d[k] >= 0x80
    ensures var end := if |tag| + 10 <= |d| then |tag| + 10 else |d|;
            var x := Decode(m, d);
            && x.err == Some(if |tag| + 10 <= |d| then IntOverflow else UnexpectedEOF)
            && if TagNumber(tag) == 1 then
                 && x.msg == m.(version := x.msg.version)
                 && IntOf(Wide(x.msg.version)) == Numeral(d[|tag|..end]) % 0x1_0000_0000
               else
                 && x.msg == m.(timestamp := x.msg.timestamp)
                 && IntOf(x.msg.timestamp) == Numeral(d[|tag|..end]) % 0x1_0000_0000_0000_0000
  {
    hide ReadVarint, FieldNumber, TagNumber, IllegalField, WireType, TagType,
         IntOf, IsVarint, PlainVarint, Numeral, Low32, Wide;
    VarintIff(tag);
    ReadAt(d, 0, tag);
    TagMeans(tag);
    ReadExactly(d, |tag|);
    match ReadVarint(d, |tag|)
    case Done(w, n) =>
      assert false;
    case Stop(e, p) =>
      Low32Modulo(p);
      Narrow(Numeral(d[|tag|..if |tag| + 10 <= |d| then |tag| + 10 else |d|]));
  }

  /** What skipTopicMessage refuses at its first tag, and with which error. */
  lemma RefusedSkips(d: seq<Byte>, tag: seq<Byte>)
    requires PlainVarint(tag) && At(d, 0, tag)
    ensures Skip([]) == Err(UnexpectedEOF)
    ensures TagType(tag) == 4 ==> Skip(d) == Err(UnexpectedEndOfGroup)
    ensures TagType(tag) >= 6 ==> Skip(d) == Err(IllegalWireType)
    ensures TagType(tag) == 3 && d == tag ==> Skip(d) == Err(UnexpectedEOF)
    ensures forall length :: TagType(tag) == 2 && PlainVarint(length) && At(d, |tag|, length) &&
              (Plain(length) >= 0x8000_0000_0000_0000 || |tag| + |length| + Plain(length) >= 0x8000_0000_0000_0000)
              ==> Skip(d) == Err(InvalidLength)
  {
    hide ReadVarint, TagNumber, WireType, TagType, IntOf, IsNegative, IsVarint, PlainVarint, Numeral,
         FieldNumber, IllegalField;
    TagNotEmpty(tag);
    VarintIff(tag);
    ReadAt(d, 0, tag);
    TagMeans(tag);
    TagTypeRange(tag);
    assert SkipFrom(d, |d|, 1) == Err(UnexpectedEOF);
    forall length | TagType(tag) == 2 && PlainVarint(length) && At(d, |tag|, length) &&
        (Plain(length) >= 0x8000_0000_0000_0000 || |tag| + |length| + Plain(length) >= 0x8000_0000_0000_0000)
      ensures Skip(d) == Err(InvalidLength)
    {
      VarintIff(length);
      ReadAt(d, |tag|, length);
      WordRange(Value(length));
    }
  }

  lemma TagNotEmpty(tag: seq<Byte>)
    requires PlainVarint(tag)
    ensures tag != []
  {
  }

  lemma TagTypeRange(tag: seq<Byte>)
    ensures 0 <= TagType(tag) <= 7
  {
  }
}
