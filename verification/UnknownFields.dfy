/** Unknown fields, with groups nested to any depth (the Protocol Buffers Encoding guide, sections
    "Length-Delimited Records" and "Groups"): skipTopicMessage accepts exactly their encodings, and
    they never change what a message decodes to. */
module UnknownFields {
  import opened Wrappers
  import opened Varint
  import opened TopicMessage
  import opened TopicMessageLaws

  /** A field as a tree. Tags and lengths are kept as the bytes on the wire, which need not be the
      shortest ones. */
  datatype Field =
    | VarintField(tag: seq<Byte>, body: seq<Byte>)
    | Fixed64(tag: seq<Byte>, body: seq<Byte>)
    | Delimited(tag: seq<Byte>, length: seq<Byte>, body: seq<Byte>)
    | Group(tag: seq<Byte>, fields: Fields, end: seq<Byte>)
    | Fixed32(tag: seq<Byte>, body: seq<Byte>)

  datatype Fields = Nil | Cons(head: Field, tail: Fields)

  /** s is one varint. */
  predicate IsVarint(s: seq<Byte>) {
    ReadVarint(s, 0).Done? && ReadVarint(s, 0).next == |s|
  }

  function Value(s: seq<Byte>): bv64
    requires IsVarint(s)
  {
    ReadVarint(s, 0).value
  }

  predicate IsTag(s: seq<Byte>, wireType: bv64) {
    IsVarint(s) && WireType(Value(s)) == wireType
  }

  predicate WellFormed(f: Field) {
    match f
    case VarintField(tag, body) => IsTag(tag, 0) && IsVarint(body)
    case Fixed64(tag, body) => IsTag(tag, 1) && |body| == 8
    case Delimited(tag, length, body) =>
      IsTag(tag, 2) && IsVarint(length) && !IsNegative(Value(length)) && IntOf(Value(length)) == |body|
    case Group(tag, fields, end) => IsTag(tag, 3) && AllWellFormed(fields) && IsTag(end, 4)
    case Fixed32(tag, body) => IsTag(tag, 5) && |body| == 4
  }

  predicate AllWellFormed(fs: Fields) {
    match fs
    case Nil => true
    case Cons(f, rest) => WellFormed(f) && AllWellFormed(rest)
  }

  function Bytes(f: Field): seq<Byte> {
    match f
    case Delimited(tag, length, body) => tag + (length + body)
    case Group(tag, fields, end) => tag + (AllBytes(fields) + end)
    case VarintField(tag, body) => tag + body
    case Fixed64(tag, body) => tag + body
    case Fixed32(tag, body) => tag + body
  }

  function AllBytes(fs: Fields): seq<Byte> {
    match fs
    case Nil => []
    case Cons(f, rest) => Bytes(f) + AllBytes(rest)
  }

  // ---------- a varint inside a buffer ----------

  /** s stands in d at index i. */
  predicate At(d: seq<Byte>, i: nat, s: seq<Byte>) {
    i + |s| <= |d| && d[i..i + |s|] == s
  }

  lemma AtSplit(d: seq<Byte>, i: nat, a: seq<Byte>, b: seq<Byte>)
    ensures At(d, i, a + b) <==> At(d, i, a) && At(d, i + |a|, b)
  {
    if At(d, i, a + b) {
      assert d[i..i + |a|] == (a + b)[..|a|];
      assert d[i + |a|..i + |a| + |b|] == (a + b)[|a|..];
    }
    if At(d, i, a) && At(d, i + |a|, b) {
      assert d[i..i + |a + b|] == d[i..i + |a|] + d[i + |a|..i + |a| + |b|];
    }
  }

  lemma ReadAt(d: seq<Byte>, i: nat, s: seq<Byte>)
    requires IsVarint(s) && At(d, i, s)
    ensures ReadVarint(d, i) == Done(Value(s), i + |s|)
  {
    var rest := d[i + |s|..];
    ScanExtended(s, rest, 0, 0, 0);
    ScanShifted(d[..i], s + rest, 0, 0, 0);
    assert d == d[..i] + (s + rest);
  }

  lemma {:induction false} ScanCut(d: seq<Byte>, i: nat, s: bv64, acc: bv64)
    requires ScanVarint(d, i, s, acc).Done?
    ensures var r := ScanVarint(d, i, s, acc); ScanVarint(d[..r.next], i, s, acc) == r
    decreases |d| - i
  {
    if d[i] >= 0x80 {
      ScanCut(d, i + 1, s + 7, Lay(acc, d[i], s));
    }
  }

  lemma ReadCut(d: seq<Byte>, i: nat) returns (s: seq<Byte>)
    requires ReadVarint(d, i).Done?
    ensures IsVarint(s) && At(d, i, s)
    ensures ReadVarint(d, i) == Done(Value(s), i + |s|)
  {
    var j := ReadVarint(d, i).next;
    s := d[i..j];
    ScanCut(d, i, 0, 0);
    ScanShifted(d[..i], s, 0, 0, 0);
    assert d[..j] == d[..i] + s;
  }

  // ---------- every tree is skipped ----------

  lemma LeafHop(d: seq<Byte>, i: nat, f: Field, depth: nat)
    requires WellFormed(f) && !f.Group? && At(d, i, Bytes(f)) && |d| < INT_LIMIT
    ensures SkipOne(d, i, depth) == Hop(i + |Bytes(f)|, depth)
  {
    hide ScanVarint, IntOf, IsNegative;
    AtSplit(d, i, f.tag, if f.Delimited? then f.length + f.body else f.body);
    ReadAt(d, i, f.tag);
    if f.VarintField? {
      ReadAt(d, i + |f.tag|, f.body);
    } else if f.Delimited? {
      AtSplit(d, i + |f.tag|, f.length, f.body);
      ReadAt(d, i + |f.tag|, f.length);
    }
  }

  lemma TagHop(d: seq<Byte>, i: nat, tag: seq<Byte>, depth: nat)
    requires At(d, i, tag)
    ensures IsTag(tag, 3) ==> i < |d| && SkipOne(d, i, depth) == Hop(i + |tag|, depth + 1)
    ensures IsTag(tag, 4) && depth > 0 ==> i < |d| && SkipOne(d, i, depth) == Hop(i + |tag|, depth - 1)
  {
    if IsVarint(tag) {
      ReadAt(d, i, tag);
    }
  }

  lemma HopRun(d: seq<Byte>, i: nat, depth: nat, h: Hop)
    requires i < |d| && SkipOne(d, i, depth) == h && h.Hop?
    ensures SkipFrom(d, i, depth) == if h.depth == 0 then Ok(h.next) else SkipFrom(d, h.next, h.depth)
  {
  }

  /** The skip loop, standing before a field, arrives behind it at the same depth. */
  lemma {:induction false} FieldRun(d: seq<Byte>, i: nat, f: Field, depth: nat)
    requires WellFormed(f) && At(d, i, Bytes(f)) && |d| < INT_LIMIT
    ensures SkipFrom(d, i, depth) ==
            if depth == 0 then Ok(i + |Bytes(f)|) else SkipFrom(d, i + |Bytes(f)|, depth)
    decreases f
  {
    hide SkipOne, SkipFrom, IsTag, IsVarint;
    if f.Group? {
      var j := i + |f.tag|;
      var k := j + |AllBytes(f.fields)|;
      AtSplit(d, i, f.tag, AllBytes(f.fields) + f.end);
      AtSplit(d, j, AllBytes(f.fields), f.end);
      TagHop(d, i, f.tag, depth);
      HopRun(d, i, depth, Hop(j, depth + 1));
      FieldsRun(d, j, f.fields, depth + 1);
      TagHop(d, k, f.end, depth + 1);
      HopRun(d, k, depth + 1, Hop(k + |f.end|, depth));
    } else {
      ReadNonEmpty(f);
      LeafHop(d, i, f, depth);
      HopRun(d, i, depth, Hop(i + |Bytes(f)|, depth));
    }
  }

  lemma ReadNonEmpty(f: Field)
    requires WellFormed(f)
    ensures Bytes(f) != []
  {
  }

  lemma {:induction false} FieldsRun(d: seq<Byte>, i: nat, fs: Fields, depth: nat)
    requires AllWellFormed(fs) && At(d, i, AllBytes(fs)) && |d| < INT_LIMIT && depth > 0
    ensures SkipFrom(d, i, depth) == SkipFrom(d, i + |AllBytes(fs)|, depth)
    decreases fs
  {
    hide SkipFrom, WellFormed;
    match fs
    case Nil =>
    case Cons(f, rest) =>
      AtSplit(d, i, Bytes(f), AllBytes(rest));
      FieldRun(d, i, f, depth);
      FieldsRun(d, i + |Bytes(f)|, rest, depth);
  }

  /** skipTopicMessage on a well-formed field, whatever follows, returns the field's length. */
  lemma SkipField(f: Field, rest: seq<Byte>)
    requires WellFormed(f) && |Bytes(f)| + |rest| < INT_LIMIT
    ensures Skip(Bytes(f) + rest) == Ok(|Bytes(f)|)
  {
    FieldRun(Bytes(f) + rest, 0, f, 0);
  }

  // ---------- only trees are skipped ----------

  lemma LeafOf(d: seq<Byte>, i: nat, depth: nat) returns (f: Field)
    requires SkipOne(d, i, depth).Hop? && SkipOne(d, i, depth).next <= |d|
    requires SkipOne(d, i, depth).depth == depth
    ensures WellFormed(f) && At(d, i, Bytes(f)) && i + |Bytes(f)| == SkipOne(d, i, depth).next
  {
    hide ScanVarint, IntOf, IsNegative;
    var tag := ReadCut(d, i);
    var j, n := i + |tag|, SkipOne(d, i, depth).next;
    var w := WireType(Value(tag));
    if w == 0 {
      var body := ReadCut(d, j);
      f := VarintField(tag, body);
      AtSplit(d, i, tag, body);
    } else if w == 1 {
      f := Fixed64(tag, d[j..n]);
      AtSplit(d, i, tag, d[j..n]);
    } else if w == 2 {
      var length := ReadCut(d, j);
      var k := j + |length|;
      f := Delimited(tag, length, d[k..n]);
      AtSplit(d, j, length, d[k..n]);
      AtSplit(d, i, tag, length + d[k..n]);
    } else {
      f := Fixed32(tag, d[j..n]);
      AtSplit(d, i, tag, d[j..n]);
    }
  }

  lemma HopOf(d: seq<Byte>, i: nat, depth: nat, n: nat)
    requires SkipFrom(d, i, depth) == Ok(n)
    ensures SkipOne(d, i, depth).Hop?
    ensures var h := SkipOne(d, i, depth);
            && i < h.next <= n
            && (h.depth == depth || h.depth == depth + 1 || h.depth == depth - 1)
            && (if h.depth == 0 then h.next == n else SkipFrom(d, h.next, h.depth) == Ok(n))
  {
  }

  lemma TagOf(d: seq<Byte>, i: nat, depth: nat) returns (tag: seq<Byte>)
    requires SkipOne(d, i, depth).Hop? && SkipOne(d, i, depth).depth != depth
    ensures IsTag(tag, if SkipOne(d, i, depth).depth > depth then 3 else 4)
    ensures At(d, i, tag) && i + |tag| == SkipOne(d, i, depth).next
  {
    tag := ReadCut(d, i);
  }

  /** Inside a group, a skip that succeeds and does not end the group now passes one field. */
  lemma {:induction false} MemberOf(d: seq<Byte>, i: nat, depth: nat, n: nat) returns (f: Field)
    requires depth > 0 && SkipFrom(d, i, depth) == Ok(n) && n <= |d|
    requires SkipOne(d, i, depth).Hop? && SkipOne(d, i, depth).depth >= depth
    ensures WellFormed(f) && At(d, i, Bytes(f)) && |Bytes(f)| > 0
    ensures SkipFrom(d, i + |Bytes(f)|, depth) == Ok(n)
    decreases |d| - i, 0
  {
    hide SkipOne, SkipFrom, IsTag, IsVarint;
    HopOf(d, i, depth, n);
    var h := SkipOne(d, i, depth);
    if h.depth == depth {
      f := LeafOf(d, i, depth);
    } else {
      var tag := TagOf(d, i, depth);
      var inner, stop := GroupOf(d, h.next, depth + 1, n);
      f := Group(tag, inner, stop);
      AtSplit(d, i, tag, AllBytes(inner) + stop);
    }
  }

  /** Inside a group, a skip that succeeds passes the fields of that group and its end tag. */
  lemma {:induction false} GroupOf(d: seq<Byte>, i: nat, depth: nat, n: nat) returns (fs: Fields, end: seq<Byte>)
    requires depth > 0 && SkipFrom(d, i, depth) == Ok(n) && n <= |d|
    ensures AllWellFormed(fs) && IsTag(end, 4) && At(d, i, AllBytes(fs) + end)
    ensures var j := i + |AllBytes(fs) + end|;
            if depth == 1 then j == n else SkipFrom(d, j, depth - 1) == Ok(n)
    decreases |d| - i, 1
  {
    hide SkipOne, SkipFrom, IsTag, IsVarint, WellFormed;
    HopOf(d, i, depth, n);
    if SkipOne(d, i, depth).depth >= depth {
      var f := MemberOf(d, i, depth, n);
      var rest;
      rest, end := GroupOf(d, i + |Bytes(f)|, depth, n);
      fs := Cons(f, rest);
      AtSplit(d, i, Bytes(f), AllBytes(rest) + end);
      assert Bytes(f) + (AllBytes(rest) + end) == AllBytes(fs) + end;
    } else {
      end := TagOf(d, i, depth);
      fs := Nil;
      assert AllBytes(fs) + end == end;
    }
  }

  /** A skip that stays in the buffer has passed exactly one well-formed field. */
  lemma SkippedIsField(d: seq<Byte>) returns (f: Field)
    requires Skip(d).Ok? && Skip(d).value <= |d|
    ensures WellFormed(f) && Bytes(f) == d[..Skip(d).value]
  {
    var h := SkipOne(d, 0, 0);
    if h.depth == 0 {
      f := LeafOf(d, 0, 0);
    } else {
      var tag := ReadCut(d, 0);
      var fs, end := GroupOf(d, h.next, 1, Skip(d).value);
      f := Group(tag, fs, end);
      AtSplit(d, 0, tag, AllBytes(fs) + end);
    }
  }

  /** skipTopicMessage finds n bytes to skip inside the buffer if and only if these n bytes are
      the encoding of a field. */
  lemma SkipIffField(d: seq<Byte>, n: nat)
    requires |d| < INT_LIMIT && n <= |d|
    ensures Skip(d) == Ok(n) <==> exists f: Field :: WellFormed(f) && Bytes(f) == d[..n]
  {
    if Skip(d) == Ok(n) {
      var f := SkippedIsField(d);
    }
    forall f: Field | WellFormed(f) && Bytes(f) == d[..n]
      ensures Skip(d) == Ok(n)
    {
      SkipField(f, d[n..]);
      assert d == Bytes(f) + d[n..];
    }
  }

  // ---------- unknown fields do not matter ----------

  /** The tag of f has a legal field number that TopicMessage does not know. */
  predicate IsUnknown(f: Field)
    requires WellFormed(f)
  {
    var number := FieldNumber(Value(f.tag));
    !IllegalField(number) && number > 5
  }

  lemma UnknownAlone(m: Message, f: Field)
    requires WellFormed(f) && IsUnknown(f) && |Bytes(f)| < INT_LIMIT
    ensures Decode(m, Bytes(f)) == Outcome(m, None)
  {
    var d := Bytes(f);
    ReadNonEmpty(f);
    SkipField(f, []);
    assert d + [] == d && d[0..] == d;
    assert At(d, 0, f.tag);
    ReadAt(d, 0, f.tag);
    DecodeOne(m, d, m);
  }

  /** Unknown fields behind a message. */
  lemma {:induction false} UnknownAppended(m: Message, a: seq<Byte>, fs: Fields)
    requires Decode(m, a).err == None && |a| + |AllBytes(fs)| < INT_LIMIT
    requires AllUnknown(fs)
    ensures Decode(m, a + AllBytes(fs)) == Decode(m, a)
    decreases fs
  {
    hide DecodeFrom, Bytes, FailingEnd;
    match fs
    case Nil =>
      assert a + AllBytes(fs) == a;
    case Cons(f, rest) =>
      UnknownAlone(Decode(m, a).msg, f);
      DecodeConcat(m, a, Bytes(f));
      UnknownAppended(m, a + Bytes(f), rest);
      assert a + Bytes(f) + AllBytes(rest) == a + AllBytes(fs);
  }

  /** Unknown fields put between two parts of a message leave the decoded message, and whether
      decoding succeeds, as they were; and the error too, unless just they move the end that the
      failing field announces beyond the greatest int. */
  lemma UnknownIgnored(m: Message, a: seq<Byte>, fs: Fields, b: seq<Byte>)
    requires Decode(m, a).err == None && |a| + |AllBytes(fs)| + |b| < INT_LIMIT
    requires AllUnknown(fs)
    ensures var x, y, end := Decode(m, a + AllBytes(fs) + b), Decode(m, a + b), FailingEnd(Decode(m, a).msg, b, 0);
            && Agree(x, y)
            && (x.err == y.err <==> (Crosses(end, |a| + |AllBytes(fs)|) <==> Crosses(end, |a|)))
  {
    hide DecodeFrom, AllBytes, FailingEnd;
    UnknownAppended(m, a, fs);
    DecodeConcat(m, a + AllBytes(fs), b);
    DecodeConcat(m, a, b);
  }

  predicate AllUnknown(fs: Fields) {
    match fs
    case Nil => true
    case Cons(f, rest) => WellFormed(f) && IsUnknown(f) && AllUnknown(rest)
  }

  // ---------- what Marshal writes ----------

  /** The records of a message: the fields that are not zero or empty. */
  function Records(m: Message): Fields
    requires Sized(m)
  {
    VarintRecord(0x08, Wide(m.version),
      BytesRecord(0x12, m.payload,
        VarintRecord(0x18, m.timestamp,
          BytesRecord(0x22, m.pk,
            BytesRecord(0x2A, m.signatureOnPid, Nil)))))
  }

  function VarintRecord(tag: Byte, v: bv64, rest: Fields): Fields {
    if v == 0 then rest else Cons(VarintField([tag], EncodeVarint(v)), rest)
  }

  function BytesRecord(tag: Byte, s: seq<Byte>, rest: Fields): Fields
    requires |s| < INT_LIMIT
  {
    if s == [] then rest else Cons(Delimited([tag], EncodeVarint(WordOf(|s|)), s), rest)
  }

  function NumberOf(f: Field): bv32 {
    if IsVarint(f.tag) then FieldNumber(Value(f.tag)) else 0
  }

  /** The field numbers rise from above low to below 6. */
  predicate Ascending(fs: Fields, low: bv32) {
    match fs
    case Nil => true
    case Cons(f, rest) => low < NumberOf(f) < 6 && Ascending(rest, NumberOf(f))
  }

  lemma EncodedIsVarint(v: bv64)
    ensures IsVarint(EncodeVarint(v)) && Value(EncodeVarint(v)) == v
  {
    ReadEncoded([], v, []);
    assert [] + EncodeVarint(v) + [] == EncodeVarint(v);
  }

  lemma TagRecord(tag: Byte, number: bv32, wireType: bv64)
    requires tag < 0x80 && FieldNumber(Low7(tag)) == number && WireType(Low7(tag)) == wireType
    ensures IsTag([tag], wireType) && FieldNumber(Value([tag])) == number
  {
    TagByte(tag, []);
    assert [tag] + [] == [tag];
  }

  lemma VarintRecordFacts(tag: Byte, number: bv32, low: bv32, v: bv64, rest: Fields)
    requires tag < 0x80 && FieldNumber(Low7(tag)) == number && WireType(Low7(tag)) == 0 && low < number < 6
    requires AllWellFormed(rest) && Ascending(rest, number)
    ensures AllWellFormed(VarintRecord(tag, v, rest)) && Ascending(VarintRecord(tag, v, rest), low)
    ensures AllBytes(VarintRecord(tag, v, rest)) == TopicMessage.VarintField(tag, v) + AllBytes(rest)
  {
    hide ReadVarint, FieldNumber, WireType, EncodeVarint;
    TagRecord(tag, number, 0);
    EncodedIsVarint(v);
    Weaker(rest, number, low);
  }

  lemma BytesRecordFacts(tag: Byte, number: bv32, low: bv32, s: seq<Byte>, rest: Fields)
    requires tag < 0x80 && FieldNumber(Low7(tag)) == number && WireType(Low7(tag)) == 2 && low < number < 6
    requires |s| < INT_LIMIT && AllWellFormed(rest) && Ascending(rest, number)
    ensures AllWellFormed(BytesRecord(tag, s, rest)) && Ascending(BytesRecord(tag, s, rest), low)
    ensures AllBytes(BytesRecord(tag, s, rest)) == BytesField(tag, s) + AllBytes(rest)
  {
    hide ReadVarint, FieldNumber, WireType, EncodeVarint, WordOf, IntOf, IsNegative;
    TagRecord(tag, number, 2);
    EncodedIsVarint(WordOf(|s|));
    WordRoundTrip(|s|);
    Weaker(rest, number, low);
    assert [tag] + (EncodeVarint(WordOf(|s|)) + s) == [tag] + EncodeVarint(WordOf(|s|)) + s;
  }

  lemma Weaker(fs: Fields, high: bv32, low: bv32)
    requires low < high && Ascending(fs, high)
    ensures Ascending(fs, low)
  {
  }

  /** Marshal writes well-formed records, in ascending order of their field numbers. */
  lemma EncodeIsRecords(m: Message)
    requires Sized(m)
    ensures AllWellFormed(Records(m)) && Ascending(Records(m), 0) && AllBytes(Records(m)) == Encode(m)
  {
    hide FieldNumber, WireType, VarintRecord, BytesRecord, TopicMessage.VarintField, BytesField;
    TagValues();
    var r5 := BytesRecord(0x2A, m.signatureOnPid, Nil);
    var r4 := BytesRecord(0x22, m.pk, r5);
    var r3 := VarintRecord(0x18, m.timestamp, r4);
    var r2 := BytesRecord(0x12, m.payload, r3);
    BytesRecordFacts(0x2A, 5, 4, m.signatureOnPid, Nil);
    BytesRecordFacts(0x22, 4, 3, m.pk, r5);
    VarintRecordFacts(0x18, 3, 2, m.timestamp, r4);
    BytesRecordFacts(0x12, 2, 1, m.payload, r3);
    VarintRecordFacts(0x08, 1, 0, Wide(m.version), r2);
    JoinFive(TopicMessage.VarintField(0x08, Wide(m.version)), BytesField(0x12, m.payload),
             TopicMessage.VarintField(0x18, m.timestamp), BytesField(0x22, m.pk), BytesField(0x2A, m.signatureOnPid));
  }

  lemma JoinFive(a: seq<Byte>, b: seq<Byte>, c: seq<Byte>, d: seq<Byte>, e: seq<Byte>)
    ensures a + (b + (c + (d + (e + [])))) == a + b + c + d + e
  {
  }
}
