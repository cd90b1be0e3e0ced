/** What Unmarshal of data/topicMessage.pb.go accepts, said without its loops: exactly the
    concatenations of well-formed fields whose known ones have the right wire type, and the message
    is the fold of these fields. */
module DecodedFields {
  import opened Wrappers
  import opened Varint
  import opened TopicMessage
  import opened TopicMessageLaws
  import opened UnknownFields

  /** A field that the decoder takes: its number is legal, and fields 1 to 5 have their type. */
  predicate Accepted(f: Field) {
    WellFormed(f) &&
    var number := FieldNumber(Value(f.tag));
    && !IllegalField(number)
    && (number == 1 || number == 3 ==> f.VarintField?)
    && (number == 2 || number == 4 || number == 5 ==> f.Delimited?)
  }

  predicate AllAccepted(fs: Fields) {
    match fs
    case Nil => true
    case Cons(f, rest) => Accepted(f) && AllAccepted(rest)
  }

  /** The message after one more field. */
  function WithField(m: Message, f: Field): Message
    requires Accepted(f)
  {
    var number := FieldNumber(Value(f.tag));
    if number == 1 then m.(version := Low32(Value(f.body)))
    else if number == 3 then m.(timestamp := Value(f.body))
    else if number == 2 || number == 4 || number == 5 then SetBytes(m, number, f.body)
    else m
  }

  function Fold(m: Message, fs: Fields): Message
    requires AllAccepted(fs)
    decreases fs
  {
    match fs
    case Nil => m
    case Cons(f, rest) => Fold(WithField(m, f), rest)
  }

  // ---------- fields decode to their fold ----------

  lemma KnownNumber(number: bv32)
    requires !IllegalField(number)
    ensures number == 1 || number == 2 || number == 3 || number == 4 || number == 5 || number > 5
  {
  }

  lemma VarintFieldTurn(m: Message, f: Field)
    requires Accepted(f) && f.VarintField?
    requires FieldNumber(Value(f.tag)) == 1 || FieldNumber(Value(f.tag)) == 3
    ensures Bytes(f) != [] && DecodeField(m, Bytes(f), 0) == Next(WithField(m, f), |Bytes(f)|)
  {
    hide ReadVarint, FieldNumber, WireType;
    var d := Bytes(f);
    ReadNonEmpty(f);
    AtSplit(d, 0, f.tag, f.body);
    assert At(d, 0, d);
    ReadAt(d, 0, f.tag);
    ReadAt(d, |f.tag|, f.body);
  }

  lemma BytesFieldTurn(m: Message, f: Field)
    requires Accepted(f) && f.Delimited? && |Bytes(f)| < INT_LIMIT
    requires FieldNumber(Value(f.tag)) == 2 || FieldNumber(Value(f.tag)) == 4 || FieldNumber(Value(f.tag)) == 5
    ensures Bytes(f) != [] && DecodeField(m, Bytes(f), 0) == Next(WithField(m, f), |Bytes(f)|)
  {
    hide ReadVarint, FieldNumber, WireType, IntOf, IsNegative;
    var d := Bytes(f);
    ReadNonEmpty(f);
    assert At(d, 0, d);
    AtSplit(d, 0, f.tag, f.length + f.body);
    AtSplit(d, |f.tag|, f.length, f.body);
    ReadAt(d, 0, f.tag);
    ReadAt(d, |f.tag|, f.length);
    assert ReadBytes(d, |f.tag|) == Chunk(f.body, |d|);
  }

  /** One accepted field decodes to the message with it. */
  lemma FieldDecodes(m: Message, f: Field)
    requires Accepted(f) && |Bytes(f)| < INT_LIMIT
    ensures Decode(m, Bytes(f)) == Outcome(WithField(m, f), None)
  {
    hide DecodeField;
    var number := FieldNumber(Value(f.tag));
    KnownNumber(number);
    if number == 1 || number == 3 {
      VarintFieldTurn(m, f);
      DecodeOne(m, Bytes(f), WithField(m, f));
    } else if number == 2 || number == 4 || number == 5 {
      BytesFieldTurn(m, f);
      DecodeOne(m, Bytes(f), WithField(m, f));
    } else {
      UnknownAlone(m, f);
    }
  }

  lemma {:induction false} FieldsDecode(m: Message, fs: Fields)
    requires AllAccepted(fs) && |AllBytes(fs)| < INT_LIMIT
    ensures Decode(m, AllBytes(fs)) == Outcome(Fold(m, fs), None)
    decreases fs
  {
    hide DecodeFrom, Bytes, FailingEnd, Accepted, WithField;
    match fs
    case Nil => DecodeNothing(m);
    case Cons(f, rest) =>
      FieldDecodes(m, f);
      FieldsDecode(WithField(m, f), rest);
      DecodeConcat(m, Bytes(f), AllBytes(rest));
  }

  lemma DecodeNothing(m: Message)
    ensures Decode(m, []) == Outcome(m, None)
  {
  }

  // ---------- what decodes is made of fields ----------

  /** A successful turn has passed one accepted field. */
  lemma FieldOf(m: Message, d: seq<Byte>) returns (f: Field)
    requires d != [] && DecodeField(m, d, 0).Next?
    ensures var t := DecodeField(m, d, 0);
            Accepted(f) && At(d, 0, Bytes(f)) && |Bytes(f)| == t.next && WithField(m, f) == t.msg
  {
    hide ReadVarint, FieldNumber, WireType, IntOf, IsNegative;
    var tag := ReadCut(d, 0);
    var number := FieldNumber(Value(tag));
    KnownNumber(number);
    if number == 1 || number == 3 {
      f := VarintOf(m, d, tag);
    } else if number == 2 || number == 4 || number == 5 {
      f := DelimitedOf(m, d, tag);
    } else {
      f := UnknownOf(m, d, tag);
    }
  }

  lemma VarintOf(m: Message, d: seq<Byte>, tag: seq<Byte>) returns (f: Field)
    requires d != [] && DecodeField(m, d, 0).Next?
    requires IsVarint(tag) && At(d, 0, tag) && ReadVarint(d, 0) == Done(Value(tag), |tag|)
    requires FieldNumber(Value(tag)) == 1 || FieldNumber(Value(tag)) == 3
    ensures var t := DecodeField(m, d, 0);
            Accepted(f) && At(d, 0, Bytes(f)) && |Bytes(f)| == t.next && WithField(m, f) == t.msg
  {
    hide FieldNumber, WireType, ScanVarint;
    var body := ReadCut(d, |tag|);
    f := VarintField(tag, body);
    AtSplit(d, 0, tag, body);
  }

  lemma DelimitedOf(m: Message, d: seq<Byte>, tag: seq<Byte>) returns (f: Field)
    requires d != [] && DecodeField(m, d, 0).Next?
    requires IsVarint(tag) && At(d, 0, tag) && ReadVarint(d, 0) == Done(Value(tag), |tag|)
    requires FieldNumber(Value(tag)) == 2 || FieldNumber(Value(tag)) == 4 || FieldNumber(Value(tag)) == 5
    ensures var t := DecodeField(m, d, 0);
            Accepted(f) && At(d, 0, Bytes(f)) && |Bytes(f)| == t.next && WithField(m, f) == t.msg
  {
    hide FieldNumber, WireType, ScanVarint, IntOf, IsNegative;
    var length := ReadCut(d, |tag|);
    var k, n := |tag| + |length|, DecodeField(m, d, 0).next;
    f := Delimited(tag, length, d[k..n]);
    AtSplit(d, |tag|, length, d[k..n]);
    AtSplit(d, 0, tag, length + d[k..n]);
  }

  lemma UnknownOf(m: Message, d: seq<Byte>, tag: seq<Byte>) returns (f: Field)
    requires d != [] && DecodeField(m, d, 0).Next?
    requires IsVarint(tag) && At(d, 0, tag) && ReadVarint(d, 0) == Done(Value(tag), |tag|)
    requires !IllegalField(FieldNumber(Value(tag))) && FieldNumber(Value(tag)) > 5
    ensures var t := DecodeField(m, d, 0);
            Accepted(f) && At(d, 0, Bytes(f)) && |Bytes(f)| == t.next && WithField(m, f) == t.msg
  {
    hide FieldNumber, WireType, ReadVarint, SkipFrom;
    assert d[0..] == d;
    f := SkippedIsField(d);
    TagFirst(d, f);
    ReadAt(d, 0, f.tag);
  }

  lemma TagFirst(d: seq<Byte>, f: Field)
    requires WellFormed(f) && |Bytes(f)| <= |d| && Bytes(f) == d[..|Bytes(f)|]
    ensures At(d, 0, Bytes(f)) && At(d, 0, f.tag) && IsVarint(f.tag)
  {
    hide ReadVarint, WireType, IsVarint;
    var rest := if f.Delimited? then f.length + f.body else if f.Group? then AllBytes(f.fields) + f.end else f.body;
    assert Bytes(f) == f.tag + rest;
    AtSplit(d, 0, f.tag, rest);
    assert IsVarint(f.tag) by {
      TagIsVarint(f);
    }
  }

  lemma TagIsVarint(f: Field)
    requires WellFormed(f)
    ensures IsVarint(f.tag)
  {
  }

  lemma {:induction false} FieldsOf(m: Message, d: seq<Byte>) returns (fs: Fields)
    requires |d| < INT_LIMIT && Decode(m, d).err == None
    ensures AllAccepted(fs) && AllBytes(fs) == d && Fold(m, fs) == Decode(m, d).msg
    decreases |d|
  {
    hide DecodeField, Accepted, WithField, Bytes;
    if d == [] {
      fs := Nil;
    } else {
      var t := DecodeField(m, d, 0);
      var f := FieldOf(m, d);
      var rest := d[t.next..];
      assert d == d[..t.next] + rest && Bytes(f) == d[..t.next];
      DecodeShifted(t.msg, d[..t.next], rest, 0);
      var more := FieldsOf(t.msg, rest);
      fs := Cons(f, more);
    }
  }

  /** Unmarshal succeeds with m' exactly on the buffers that consist of accepted fields which fold
      to m'. */
  lemma DecodesIffFields(m: Message, d: seq<Byte>, m': Message)
    requires |d| < INT_LIMIT
    ensures Decode(m, d) == Outcome(m', None) <==>
            exists fs: Fields :: AllAccepted(fs) && AllBytes(fs) == d && Fold(m, fs) == m'
  {
    hide Decode, Accepted, Bytes, WithField;
    if Decode(m, d) == Outcome(m', None) {
      var fs := FieldsOf(m, d);
    }
    forall fs: Fields | AllAccepted(fs) && AllBytes(fs) == d && Fold(m, fs) == m'
      ensures Decode(m, d) == Outcome(m', None)
    {
      FieldsDecode(m, fs);
    }
  }
}
