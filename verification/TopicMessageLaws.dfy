/** The laws of the TopicMessage wire format: what decoding does to a concatenation, and that
    decoding undoes encoding. */
module TopicMessageLaws {
  import opened Wrappers
  import opened Varint
  import opened TopicMessage

  // ---------- locality of one field ----------

  /** The index behind the bytes that a length at j announces. */
  function LengthEnd(d: seq<Byte>, j: nat): Option<nat> {
    match ReadVarint(d, j)
    case Stop(_, _) => None
    case Done(w, k) => if IsNegative(w) then None else Some(k + IntOf(w))
  }

  function SkipEnd(d: seq<Byte>, i: nat): Option<nat>
    requires i <= |d|
  {
    match Skip(d[i..])
    case Err(_) => None
    case Ok(n) => Some(i + n)
  }

  function BodyEnd(d: seq<Byte>, i: nat, f: bv32, wireType: bv64, j: nat): Option<nat>
    requires i <= |d|
  {
    if wireType == 4 || IllegalField(f) || f == 1 || f == 3 then None
    else if f == 2 || f == 4 || f == 5 then if wireType != 2 then None else LengthEnd(d, j)
    else SkipEnd(d, i)
  }

  /** The end that the length-delimited or unknown field at i announces, in the buffer or not. */
  function FieldEnd(d: seq<Byte>, i: nat): Option<nat>
    requires i <= |d|
  {
    match ReadVarint(d, i)
    case Stop(_, _) => None
    case Done(wire, j) => BodyEnd(d, i, FieldNumber(wire), WireType(wire), j)
  }

  /** The end is a Go int, but no longer one when the buffer starts k bytes earlier. */
  predicate Crosses(end: Option<nat>, k: nat) {
    end.Some? && end.value < INT_LIMIT <= k + end.value
  }

  /** The error e of a field with this announced end, seen from a buffer that starts k bytes
      earlier: the overflow test depends on the absolute index. */
  function ShiftedError(e: Error, end: Option<nat>, k: nat): Error {
    if Crosses(end, k) then InvalidLength else e
  }

  /** u is the turn t, seen from a buffer that starts k bytes earlier. */
  predicate SameTurn(t: Turn, u: Turn, end: Option<nat>, k: nat) {
    match t
    case Next(m, n) => u == Next(m, k + n)
    case Fail(e, m) => u == Fail(ShiftedError(e, end, k), m) && (Crosses(end, k) ==> e == UnexpectedEOF)
  }

  lemma BytesShifted(pre: seq<Byte>, d: seq<Byte>, i: nat)
    requires |pre| + |d| < INT_LIMIT
    ensures match ReadBytes(d, i)
            case Chunk(s, n) => ReadBytes(pre + d, |pre| + i) == Chunk(s, |pre| + n)
            case BadChunk(e) =>
              && ReadBytes(pre + d, |pre| + i) == BadChunk(ShiftedError(e, LengthEnd(d, i), |pre|))
              && (Crosses(LengthEnd(d, i), |pre|) ==> e == UnexpectedEOF)
  {
    hide ScanVarint, IntOf, IsNegative;
    ScanShifted(pre, d, i, 0, 0);
    var r := ReadBytes(d, i);
    if r.Chunk? {
      assert (pre + d)[|pre| + r.next - |r.bytes|..|pre| + r.next] == d[r.next - |r.bytes|..r.next];
    }
  }

  lemma FieldShifted(m: Message, pre: seq<Byte>, d: seq<Byte>, i: nat)
    requires i < |d| && |pre| + |d| < INT_LIMIT
    ensures SameTurn(DecodeField(m, d, i), DecodeField(m, pre + d, |pre| + i), FieldEnd(d, i), |pre|)
  {
    hide ScanVarint, IntOf, DecodeBody, FieldNumber, WireType, BodyEnd;
    ScanShifted(pre, d, i, 0, 0);
    match ReadVarint(d, i)
    case Stop(_, _) =>
    case Done(wire, j) =>
      ScanShifted(pre, d, j, 0, 0);
      BytesShifted(pre, d, j);
      assert (pre + d)[|pre| + i..] == d[i..];
      BodyShifted(m, pre, d, i, FieldNumber(wire), WireType(wire), j);
  }

  lemma BodyShifted(m: Message, pre: seq<Byte>, d: seq<Byte>, i: nat, f: bv32, wireType: bv64, j: nat)
    requires i < |d| && |pre| + |d| < INT_LIMIT
    requires SameTurn(DecodeVersion(m, d, j), DecodeVersion(m, pre + d, |pre| + j), None, |pre|)
    requires SameTurn(DecodeTimestamp(m, d, j), DecodeTimestamp(m, pre + d, |pre| + j), None, |pre|)
    requires SameTurn(DecodeBytes(m, f, d, j), DecodeBytes(m, f, pre + d, |pre| + j), LengthEnd(d, j), |pre|)
    requires (pre + d)[|pre| + i..] == d[i..]
    ensures SameTurn(DecodeBody(m, d, i, f, wireType, j), DecodeBody(m, pre + d, |pre| + i, f, wireType, |pre| + j),
                     BodyEnd(d, i, f, wireType, j), |pre|)
  {
    hide DecodeVersion, DecodeTimestamp, DecodeBytes, Skip, LengthEnd;
  }

  lemma {:induction false} SkipExtended(d: seq<Byte>, post: seq<Byte>, i: nat, depth: nat)
    requires SkipFrom(d, i, depth).Ok? && SkipFrom(d, i, depth).value <= |d|
    ensures SkipFrom(d + post, i, depth) == SkipFrom(d, i, depth)
    decreases |d| - i
  {
    var h := SkipOne(d, i, depth);
    SkipOneExtended(d, post, i, depth);
    if h.depth != 0 {
      SkipExtended(d, post, h.next, h.depth);
    }
  }

  lemma SkipOneExtended(d: seq<Byte>, post: seq<Byte>, i: nat, depth: nat)
    requires SkipOne(d, i, depth).Hop?
    ensures SkipOne(d + post, i, depth) == SkipOne(d, i, depth)
  {
    ScanExtended(d, post, i, 0, 0);
    var j := ReadVarint(d, i).next;
    if ReadVarint(d, j).Done? {
      ScanExtended(d, post, j, 0, 0);
    }
  }

  lemma FieldExtended(m: Message, d: seq<Byte>, post: seq<Byte>, i: nat)
    requires i < |d| && DecodeField(m, d, i).Next?
    ensures DecodeField(m, d + post, i) == DecodeField(m, d, i)
  {
    ScanExtended(d, post, i, 0, 0);
    var r := ReadVarint(d, i);
    if ReadVarint(d, r.next).Done? {
      ScanExtended(d, post, r.next, 0, 0);
    }
    BodyExtended(m, d, post, i, FieldNumber(r.value), WireType(r.value), r.next);
  }

  lemma BodyExtended(m: Message, d: seq<Byte>, post: seq<Byte>, i: nat, f: bv32, wireType: bv64, j: nat)
    requires i < |d| && DecodeBody(m, d, i, f, wireType, j).Next?
    requires ReadVarint(d, j).Done? ==> ReadVarint(d + post, j) == ReadVarint(d, j)
    ensures DecodeBody(m, d + post, i, f, wireType, j) == DecodeBody(m, d, i, f, wireType, j)
  {
    hide ScanVarint, SkipFrom, IntOf;
    if f != 1 && f != 3 {
      if f == 2 || f == 4 || f == 5 {
        var r := ReadBytes(d, j);
        assert (d + post)[r.next - |r.bytes|..r.next] == d[r.next - |r.bytes|..r.next];
      } else {
        assert (d + post)[i..] == d[i..] + post;
        SkipExtended(d[i..], post, 0, 0);
      }
    }
  }

  // ---------- concatenation ----------

  /** Both decoders succeed or both fail, and they leave the same message behind. */
  predicate Agree(x: Outcome, y: Outcome) {
    x.msg == y.msg && (x.err == None <==> y.err == None)
  }

  /** The announced end of the field at which decoding from i on fails. */
  function FailingEnd(m: Message, d: seq<Byte>, i: nat): Option<nat>
    decreases |d| - i
  {
    if i >= |d| then None
    else
      match DecodeField(m, d, i)
      case Fail(_, _) => FieldEnd(d, i)
      case Next(m', j) => FailingEnd(m', d, j)
  }

  /** x is the outcome y, seen from a buffer that starts k bytes earlier. */
  predicate SameOutcome(x: Outcome, y: Outcome, end: Option<nat>, k: nat) {
    && x.msg == y.msg
    && x.err == (if y.err == None then None else Some(ShiftedError(y.err.value, end, k)))
    && (Crosses(end, k) ==> y.err == Some(UnexpectedEOF))
  }

  lemma {:induction false} DecodeShifted(m: Message, pre: seq<Byte>, d: seq<Byte>, i: nat)
    requires |pre| + |d| < INT_LIMIT
    ensures SameOutcome(DecodeFrom(m, pre + d, |pre| + i), DecodeFrom(m, d, i), FailingEnd(m, d, i), |pre|)
    decreases |d| - i
  {
    hide DecodeField, FieldEnd;
    if i < |d| {
      FieldShifted(m, pre, d, i);
      match DecodeField(m, d, i)
      case Fail(_, _) =>
      case Next(m', j) => DecodeShifted(m', pre, d, j);
    }
  }

  lemma {:induction false} ConcatFrom(m: Message, a: seq<Byte>, b: seq<Byte>, i: nat)
    requires |a| + |b| < INT_LIMIT && i <= |a| && DecodeFrom(m, a, i).err == None
    ensures var m' := DecodeFrom(m, a, i).msg;
            SameOutcome(DecodeFrom(m, a + b, i), Decode(m', b), FailingEnd(m', b, 0), |a|)
    decreases |a| - i
  {
    hide DecodeField, FailingEnd;
    if i == |a| {
      DecodeShifted(m, a, b, 0);
    } else {
      var t := DecodeField(m, a, i);
      FieldExtended(m, a, b, i);
      ConcatFrom(t.msg, a, b, t.next);
    }
  }

  /** "Last One Wins" and its merge law: decoding a and then b is decoding b into the message
      that a decodes to, in success, in the message left behind, and in the error. The two errors
      differ exactly when the field at which b fails announces an end that is a Go int from the
      start of b and not from the start of a; then they are these two. */
  lemma DecodeConcat(m: Message, a: seq<Byte>, b: seq<Byte>)
    requires |a| + |b| < INT_LIMIT && Decode(m, a).err == None
    ensures var m' := Decode(m, a).msg;
            var x, y, crosses := Decode(m, a + b), Decode(m', b), Crosses(FailingEnd(m', b, 0), |a|);
            && Agree(x, y)
            && (x.err == y.err <==> !crosses)
            && (crosses ==> y.err == Some(UnexpectedEOF) && x.err == Some(InvalidLength))
  {
    ConcatFrom(m, a, b, 0);
  }

  // ---------- round trip ----------

  lemma {:induction false} Pow2Sum(a: nat, b: nat)
    ensures Pow2(a + b) == Pow2(a) * Pow2(b)
    decreases a
  {
    if a > 0 {
      Pow2Sum(a - 1, b);
    }
  }

  lemma Pow2OfWord()
    ensures Pow2(63) == INT_LIMIT
  {
    assert Pow2(9) == 512;
    Pow2Sum(9, 9);
    Pow2Sum(9, 18);
    Pow2Sum(9, 27);
    Pow2Sum(27, 36);
  }

  /** w < 2^k */
  predicate Under(w: bv64, k: bv64) {
    k < 64 && w >> k == 0
  }

  lemma TwiceBits(w: bv64, bit: nat, k: bv64)
    requires 1 <= k < 64 && Under(w, k - 1) && bit <= 1
    ensures Half(Twice(w, bit)) == w && BitOf(Twice(w, bit)) == bit
    ensures Under(Twice(w, bit), k)
    ensures Twice(w, bit) == 0 <==> w == 0 && bit == 0
  {
  }

  lemma {:induction false} WordFits(n: nat, k: nat, kb: bv64)
    requires n < INT_LIMIT && n < Pow2(k) && kb < 64 && kb as int == k
    ensures Under(WordOf(n), kb)
    ensures IntOf(WordOf(n)) == n
    decreases k
  {
    hide Under, Twice, Half, BitOf;
    if n == 0 {
      UnderZero(kb);
    } else {
      WordFits(n / 2, k - 1, kb - 1);
      TwiceBits(WordOf(n / 2), n % 2, kb);
    }
  }

  lemma UnderZero(k: bv64)
    requires k < 64
    ensures Under(0, k)
  {
  }

  lemma SignBit(w: bv64)
    ensures IsNegative(w) <==> w >> 63 != 0
  {
  }

  /** Every length survives the conversion to a word and back. */
  lemma WordRoundTrip(n: nat)
    requires n < INT_LIMIT
    ensures !IsNegative(WordOf(n)) && IntOf(WordOf(n)) == n
  {
    Pow2OfWord();
    WordFits(n, 63, 63);
    SignBit(WordOf(n));
  }

  lemma {:induction false} IntBelow(w: bv64, k: nat)
    requires Halves(w, k) == 0
    ensures IntOf(w) < Pow2(k)
    decreases k
  {
    if w != 0 {
      IntBelow(Half(w), k - 1);
    }
  }

  /** A word that is not negative is a Go int. */
  lemma NonNegativeIsInt(w: bv64)
    requires !IsNegative(w)
    ensures IntOf(w) < INT_LIMIT
  {
    Pow2OfWord();
    SignBit(w);
    NineGroups(w);
    GroupsAreBits(w, 9);
    IntBelow(w, 63);
  }

  // ---------- the numbers behind the bytes ----------

  /** The payload bits of a byte, as a number. */
  function Digit(b: Byte): nat {
    b as int % 128
  }

  /** The number that a varint stands for: base 128, least significant digit first. */
  function Numeral(s: seq<Byte>): nat {
    if s == [] then 0 else Digit(s[0]) + 128 * Numeral(s[1..])
  }

  /** One bit of a byte, as a number. */
  function Weight(b: Byte, mask: Byte, weight: nat): nat {
    if b & mask == 0 then 0 else weight
  }

  lemma DigitIsSum(b: Byte)
    ensures Digit(b) == Weight(b, 0x01, 1) + Weight(b, 0x02, 2) + Weight(b, 0x04, 4) + Weight(b, 0x08, 8)
                        + Weight(b, 0x10, 16) + Weight(b, 0x20, 32) + Weight(b, 0x40, 64)
  {
  }

  lemma HeadWeights(v: bv64)
    ensures var a := Half(v); var b := Half(a); var c := Half(b); var d := Half(c); var e := Half(d); var f := Half(e);
            && Weight(Head(v), 0x01, 1) == BitOf(v) && Weight(Head(v), 0x02, 2) == 2 * BitOf(a)
            && Weight(Head(v), 0x04, 4) == 4 * BitOf(b) && Weight(Head(v), 0x08, 8) == 8 * BitOf(c)
            && Weight(Head(v), 0x10, 16) == 16 * BitOf(d) && Weight(Head(v), 0x20, 32) == 32 * BitOf(e)
            && Weight(Head(v), 0x40, 64) == 64 * BitOf(f)
  {
  }

  lemma LastDigit(v: bv64)
    requires v < 0x80
    ensures Digit(Last(v)) == Digit(Head(v)) && Rest(v) == 0
  {
    DigitIsSum(Last(v));
    DigitIsSum(Head(v));
    LastWeights(v);
  }

  lemma LastWeights(v: bv64)
    requires v < 0x80
    ensures forall mask: Byte, w: nat :: mask < 0x80 ==> Weight(Last(v), mask, w) == Weight(Head(v), mask, w)
    ensures Rest(v) == 0
  {
  }

  lemma DigitBits(v: bv64)
    ensures var a := Half(v); var b := Half(a); var c := Half(b); var d := Half(c); var e := Half(d); var f := Half(e);
            Digit(Head(v)) == BitOf(v) + 2 * BitOf(a) + 4 * BitOf(b) + 8 * BitOf(c) + 16 * BitOf(d) + 32 * BitOf(e)
                              + 64 * BitOf(f)
  {
    hide Digit, Weight, Head, Half, BitOf;
    DigitIsSum(Head(v));
    HeadWeights(v);
  }

  lemma IntOfHalf(v: bv64)
    ensures IntOf(v) == BitOf(v) + 2 * IntOf(Half(v))
  {
    HalfOfZero();
  }

  lemma IntOfRest(v: bv64)
    ensures IntOf(v) == Digit(Head(v)) + 128 * IntOf(Rest(v))
  {
    hide IntOf, Digit, Half, BitOf, Head;
    var a := Half(v);
    var b := Half(a);
    var c := Half(b);
    var d := Half(c);
    var e := Half(d);
    var f := Half(e);
    DigitBits(v);
    SevenHalves(v);
    IntOfHalf(v);
    IntOfHalf(a);
    IntOfHalf(b);
    IntOfHalf(c);
    IntOfHalf(d);
    IntOfHalf(e);
    IntOfHalf(f);
  }

  /** The encoder writes the base 128 numeral of v. */
  lemma {:induction false} EncodeIsBase128(v: bv64)
    ensures Numeral(EncodeVarint(v)) == IntOf(v)
    decreases v
  {
    hide Digit, Head, Last;
    IntOfRest(v);
    if v >= 0x80 {
      RestIsSmaller(v);
      EncodeIsBase128(Rest(v));
      assert EncodeVarint(v)[1..] == EncodeVarint(Rest(v));
    } else {
      LastDigit(v);
      assert EncodeVarint(v) == [Last(v)] && EncodeVarint(v)[1..] == [];
    }
  }

  lemma WideRoundTrip(x: bv32)
    ensures Low32(Wide(x)) == x
    ensures Wide(x) == 0 <==> x == 0
  {
  }

  /** A tag of one byte. */
  lemma TagByte(tag: Byte, rest: seq<Byte>)
    requires tag < 0x80
    ensures ReadVarint([tag] + rest, 0) == Done(Low7(tag), 1)
  {
    PutZero(Low7(tag));
    assert Lay(0, tag, 0) == Low7(tag);
  }

  lemma TagValues()
    ensures FieldNumber(Low7(0x08)) == 1 && WireType(Low7(0x08)) == 0
    ensures FieldNumber(Low7(0x12)) == 2 && WireType(Low7(0x12)) == 2
    ensures FieldNumber(Low7(0x18)) == 3 && WireType(Low7(0x18)) == 0
    ensures FieldNumber(Low7(0x22)) == 4 && WireType(Low7(0x22)) == 2
    ensures FieldNumber(Low7(0x2A)) == 5 && WireType(Low7(0x2A)) == 2
  {
  }

  /** A buffer that holds one field. */
  lemma DecodeOne(m: Message, d: seq<Byte>, m': Message)
    requires d != [] && DecodeField(m, d, 0) == Next(m', |d|)
    ensures Decode(m, d) == Outcome(m', None)
  {
    assert DecodeFrom(m', d, |d|) == Outcome(m', None);
  }

  /** A field that holds the zero or empty value is not on the wire, and changes nothing. */
  function WithVersion(m: Message, x: bv32): Message {
    if x == 0 then m else m.(version := x)
  }

  function WithTimestamp(m: Message, t: bv64): Message {
    if t == 0 then m else m.(timestamp := t)
  }

  function WithBytes(m: Message, f: bv32, s: seq<Byte>): Message {
    if s == [] then m else SetBytes(m, f, s)
  }

  lemma VersionField(m: Message, x: bv32)
    ensures Decode(m, VarintField(0x08, Wide(x))) == Outcome(WithVersion(m, x), None)
  {
    WideRoundTrip(x);
    if x != 0 {
      var d := [0x08] + EncodeVarint(Wide(x));
      TagByte(0x08, EncodeVarint(Wide(x)));
      TagValues();
      ReadEncoded([0x08], Wide(x), []);
      assert d + [] == d;
      DecodeOne(m, d, m.(version := x));
    }
  }

  lemma TimestampField(m: Message, t: bv64)
    ensures Decode(m, VarintField(0x18, t)) == Outcome(WithTimestamp(m, t), None)
  {
    if t != 0 {
      var d := [0x18] + EncodeVarint(t);
      TagByte(0x18, EncodeVarint(t));
      TagValues();
      ReadEncoded([0x18], t, []);
      assert d + [] == d;
      DecodeOne(m, d, m.(timestamp := t));
    }
  }

  lemma ReadChunk(tag: Byte, s: seq<Byte>)
    requires s != [] && |s| < MAX_LENGTH
    ensures ReadBytes(BytesField(tag, s), 1) == Chunk(s, |BytesField(tag, s)|)
  {
    hide ScanVarint, EncodeVarint, WordOf;
    var w := WordOf(|s|);
    ReadEncoded([tag], w, s);
    WordRoundTrip(|s|);
    ShortVarint(w);
    var j := 1 + |EncodeVarint(w)|;
    assert BytesField(tag, s)[j..j + |s|] == s;
  }

  lemma LengthDelimitedField(m: Message, tag: Byte, f: bv32, s: seq<Byte>)
    requires (tag == 0x12 && f == 2) || (tag == 0x22 && f == 4) || (tag == 0x2A && f == 5)
    requires |s| < MAX_LENGTH
    ensures Decode(m, BytesField(tag, s)) == Outcome(WithBytes(m, f, s), None)
  {
    if s != [] {
      var d := BytesField(tag, s);
      TagByte(tag, d[1..]);
      assert [tag] + d[1..] == d;
      TagValues();
      ReadChunk(tag, s);
      DecodeOne(m, d, SetBytes(m, f, s));
    }
  }

  lemma ShortVarint(v: bv64)
    ensures |EncodeVarint(v)| <= 10
  {
    EncodeLength(v);
    SovTen(v);
  }

  /** Decoding what Marshal wrote overwrites exactly the fields that are not zero or empty. */
  function Overlay(old': Message, m: Message): Message {
    Message(
      if m.version == 0 then old'.version else m.version,
      if m.payload == [] then old'.payload else m.payload,
      if m.timestamp == 0 then old'.timestamp else m.timestamp,
      if m.pk == [] then old'.pk else m.pk,
      if m.signatureOnPid == [] then old'.signatureOnPid else m.signatureOnPid)
  }

  lemma EncodedBound(m: Message)
    requires Sized(m)
    ensures |Encode(m)| < MAX_LENGTH
  {
    hide Sov, WordOf, Encode;
    EncodeSize(m);
    SovTen(Wide(m.version));
    SovTen(m.timestamp);
    SovTen(WordOf(|m.payload|));
    SovTen(WordOf(|m.pk|));
    SovTen(WordOf(|m.signatureOnPid|));
  }

  /** Decoding Marshal(m) into any message. */
  lemma DecodeEncodeInto(old': Message, m: Message)
    requires Sized(m)
    ensures Decode(old', Encode(m)) == Outcome(Overlay(old', m), None)
  {
    hide DecodeFrom, Size;
    EncodedBound(m);
    var f1, f2 := VarintField(0x08, Wide(m.version)), BytesField(0x12, m.payload);
    var f3, f4 := VarintField(0x18, m.timestamp), BytesField(0x22, m.pk);
    var f5 := BytesField(0x2A, m.signatureOnPid);
    var m1 := WithVersion(old', m.version);
    var m2 := WithBytes(m1, 2, m.payload);
    var m3 := WithTimestamp(m2, m.timestamp);
    var m4 := WithBytes(m3, 4, m.pk);
    var m5 := WithBytes(m4, 5, m.signatureOnPid);
    VersionField(old', m.version);
    LengthDelimitedField(m1, 0x12, 2, m.payload);
    TimestampField(m2, m.timestamp);
    LengthDelimitedField(m3, 0x22, 4, m.pk);
    LengthDelimitedField(m4, 0x2A, 5, m.signatureOnPid);
    FiveFields(old', f1, m1, f2, m2, f3, m3, f4, m4, f5, m5);
    OverlayInSteps(old', m);
  }

  lemma OverlayInSteps(old': Message, m: Message)
    ensures WithBytes(WithBytes(WithTimestamp(WithBytes(WithVersion(old', m.version), 2, m.payload), m.timestamp),
              4, m.pk), 5, m.signatureOnPid) == Overlay(old', m)
  {
    var m3 := WithTimestamp(WithBytes(WithVersion(old', m.version), 2, m.payload), m.timestamp);
    assert m3 == Overlay(old', m.(pk := [], signatureOnPid := []));
    hide WithTimestamp, WithVersion;
    assert WithBytes(m3, 4, m.pk) == Overlay(old', m.(signatureOnPid := []));
  }

  lemma FiveFields(m0: Message, f1: seq<Byte>, m1: Message, f2: seq<Byte>, m2: Message, f3: seq<Byte>, m3: Message,
                   f4: seq<Byte>, m4: Message, f5: seq<Byte>, m5: Message)
    requires |f1 + f2 + f3 + f4 + f5| < INT_LIMIT
    requires Decode(m0, f1) == Outcome(m1, None) && Decode(m1, f2) == Outcome(m2, None)
    requires Decode(m2, f3) == Outcome(m3, None) && Decode(m3, f4) == Outcome(m4, None)
    requires Decode(m4, f5) == Outcome(m5, None)
    ensures Decode(m0, f1 + f2 + f3 + f4 + f5) == Outcome(m5, None)
  {
    DecodeConcat(m0, f1, f2);
    DecodeConcat(m0, f1 + f2, f3);
    DecodeConcat(m0, f1 + f2 + f3, f4);
    DecodeConcat(m0, f1 + f2 + f3 + f4, f5);
  }

  /** The round trip: every message, negative timestamps and all version numbers included. */
  lemma DecodeEncode(m: Message)
    requires Sized(m)
    ensures Decode(EMPTY, Encode(m)) == Outcome(m, None)
  {
    DecodeEncodeInto(EMPTY, m);
  }

  /** Encoding is injective. */
  lemma EncodeInjective(m: Message, m': Message)
    requires Sized(m) && Sized(m') && Encode(m) == Encode(m')
    ensures m == m'
  {
    DecodeEncode(m);
    DecodeEncode(m');
  }

  /** A negative timestamp takes all ten varint bytes; any uint32 takes at most five. */
  lemma NumberWidths(t: bv64, x: bv32)
    ensures IsNegative(t) ==> Sov(t) == 10
    ensures Sov(Wide(x)) <= 5
  {
    SovTen(t);
    SignBit(t);
    WideRange(x);
    ThreeGroups(Wide(x), 2);
    SovIsLeast(Wide(x), 5);
    assert DropGroups(Wide(x) >> 21, 2) == DropGroups(Rest(Wide(x) >> 21), 1);
    assert DropGroups(Rest(Wide(x) >> 21), 1) == DropGroups(Rest(Rest(Wide(x) >> 21)), 0);
  }

  lemma WideRange(x: bv32)
    ensures Rest(Rest(Wide(x) >> 21)) == 0
  {
  }

  // ---------- two errors for one tail ----------

  /** A payload field that announces the greatest length still read as an int, and holds nothing. */
  const LONG_TAIL: seq<Byte> := [0x12] + EncodeVarint(WordOf(INT_LIMIT - 12))

  const SHORT_FIELD: seq<Byte> := BytesField(0x12, seq(20, _ => 0))

  lemma LongTail(m: Message)
    ensures LengthEnd(LONG_TAIL, 1) == Some(|LONG_TAIL| + INT_LIMIT - 12) && |LONG_TAIL| <= 11
    ensures Decode(m, LONG_TAIL).err == Some(UnexpectedEOF)
    ensures FailingEnd(m, LONG_TAIL, 0) == LengthEnd(LONG_TAIL, 1)
  {
    hide EncodeVarint, WordOf, IntOf, IsNegative, FieldNumber, WireType;
    var w := WordOf(INT_LIMIT - 12);
    WordRoundTrip(INT_LIMIT - 12);
    ShortVarint(w);
    TagByte(0x12, EncodeVarint(w));
    TagValues();
    ReadEncoded([0x12], w, []);
    assert LONG_TAIL + [] == LONG_TAIL;
    assert ReadBytes(LONG_TAIL, 1) == BadChunk(UnexpectedEOF);
    assert DecodeField(m, LONG_TAIL, 0) == Fail(UnexpectedEOF, m);
  }

  /** At this input the errors differ: the tail alone ends too early, behind a short valid message
      its length overflows. */
  lemma ErrorsDiffer()
    ensures Decode(EMPTY, SHORT_FIELD).err == None
    ensures Decode(Decode(EMPTY, SHORT_FIELD).msg, LONG_TAIL).err == Some(UnexpectedEOF)
    ensures Decode(EMPTY, SHORT_FIELD + LONG_TAIL).err == Some(InvalidLength)
  {
    hide Decode, BytesField, EncodeVarint, WordOf, FailingEnd, LengthEnd;
    var zeros: seq<Byte> := seq(20, _ => 0);
    LengthDelimitedField(EMPTY, 0x12, 2, zeros);
    BytesFieldLength(0x12, zeros);
    SovTen(WordOf(20));
    SovPositive(WordOf(20));
    LongTail(Decode(EMPTY, SHORT_FIELD).msg);
    DecodeConcat(EMPTY, SHORT_FIELD, LONG_TAIL);
  }
}
