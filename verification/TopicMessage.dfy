/** The TopicMessage wire format of data/topicMessage.pb.go on values: what the encoder writes,
    what the decoder and the skipper accept. The class in TopicMessagePb.dfy does the same
    work in place and is proved against these functions. */
module TopicMessage {
  import opened Wrappers
  import opened Varint

  /** The message as a value. A nil byte slice and an empty one are the same value, as Equal has
      it; the int64 timestamp is its two's complement word, as the conversions in the source. */
  datatype Message = Message(
    version: bv32, payload: seq<Byte>, timestamp: bv64, pk: seq<Byte>, signatureOnPid: seq<Byte>)

  const EMPTY := Message(0, [], 0, [], [])

  /** No buffer is this long: twice the length is still a Go int. */
  const MAX_LENGTH: int := 0x4000_0000_0000_0000

  /** One past the greatest Go int. */
  const INT_LIMIT: int := 0x8000_0000_0000_0000

  // ---------- words ----------

  function Low32(x: bv64): bv32 {
    (x & 0xFFFF_FFFF) as bv32
  }

  function Wide(x: bv32): bv64 {
    x as bv64
  }

  function WireType(wire: bv64): bv64 {
    wire & 7
  }

  /** int32(wire >> 3) */
  function FieldNumber(wire: bv64): bv32 {
    Low32(wire >> 3)
  }

  /** fieldNum <= 0 for the signed field number */
  predicate IllegalField(f: bv32) {
    f == 0 || f >= 0x8000_0000
  }

  /** The sign bit of the word read as a Go int. */
  predicate IsNegative(w: bv64) {
    w >= 0x8000_0000_0000_0000
  }

  function BitOf(w: bv64): nat {
    if w & 1 == 0 then 0 else 1
  }

  /** The word read as an unsigned number. */
  function IntOf(w: bv64): nat
    decreases w
  {
    if w == 0 then 0 else
      HalfIsSmaller(w);
      2 * IntOf(Half(w)) + BitOf(w)
  }

  /** The word w shifted up by one, with the given lowest bit. */
  function Twice(w: bv64, bit: nat): bv64 {
    (w << 1) | (if bit == 0 then 0 as bv64 else 1)
  }

  /** uint64(n) */
  function WordOf(n: nat): bv64
    requires n < INT_LIMIT
  {
    if n == 0 then 0 else Twice(WordOf(n / 2), n % 2)
  }

  /** For two non-negative ints the wrapped sum is negative exactly here. */
  predicate SumOverflows(i: nat, n: nat) {
    i + n >= INT_LIMIT
  }

  // ---------- decoding ----------

  /** A length-delimited value, or why there is none. */
  datatype Chunk = Chunk(bytes: seq<Byte>, next: nat) | BadChunk(err: Error)

  function ReadBytes(d: seq<Byte>, i: nat): (r: Chunk)
    ensures r.Chunk? ==> i < r.next <= |d|
  {
    match ReadVarint(d, i)
    case Stop(e, _) => BadChunk(e)
    case Done(w, j) =>
      if IsNegative(w) || SumOverflows(j, IntOf(w)) then BadChunk(InvalidLength)
      else if j + IntOf(w) > |d| then BadChunk(UnexpectedEOF)
      else Chunk(d[j..j + IntOf(w)], j + IntOf(w))
  }

  /** One round of the skip loop: the next index, which may lie beyond the buffer, and depth. */
  datatype Hop = Hop(next: nat, depth: nat) | BadHop(err: Error)

  function SkipBody(d: seq<Byte>, j: nat, wireType: bv64, depth: nat): (h: Hop)
    ensures h.Hop? ==> j <= h.next
  {
    if wireType == 0 then
      match ReadVarint(d, j)
      case Stop(e, _) => BadHop(e)
      case Done(_, k) => Hop(k, depth)
    else if wireType == 1 then Hop(j + 8, depth)
    else if wireType == 2 then
      match ReadVarint(d, j)
      case Stop(e, _) => BadHop(e)
      case Done(w, k) =>
        if IsNegative(w) || SumOverflows(k, IntOf(w)) then BadHop(InvalidLength) else Hop(k + IntOf(w), depth)
    else if wireType == 3 then Hop(j, depth + 1)
    else if wireType == 4 then if depth == 0 then BadHop(UnexpectedEndOfGroup) else Hop(j, depth - 1)
    else if wireType == 5 then Hop(j + 4, depth)
    else BadHop(IllegalWireType)
  }

  function SkipOne(d: seq<Byte>, i: nat, depth: nat): (h: Hop)
    ensures h.Hop? ==> i < h.next
  {
    match ReadVarint(d, i)
    case Stop(e, _) => BadHop(e)
    case Done(wire, j) => SkipBody(d, j, WireType(wire), depth)
  }

  /** skipTopicMessage from index i at the given group depth. */
  function SkipFrom(d: seq<Byte>, i: nat, depth: nat): (r: Result<nat, Error>)
    ensures r.Ok? ==> i < r.value
    decreases |d| - i
  {
    if i >= |d| then Err(UnexpectedEOF)
    else
      match SkipOne(d, i, depth)
      case BadHop(e) => Err(e)
      case Hop(j, dep) => if dep == 0 then Ok(j) else SkipFrom(d, j, dep)
  }

  /** skipTopicMessage */
  function Skip(d: seq<Byte>): (r: Result<nat, Error>)
    ensures r.Ok? ==> 0 < r.value
  {
    SkipFrom(d, 0, 0)
  }

  /** One round of the decoder: the message so far and the next index, or the error and the
      message it leaves behind. */
  datatype Turn = Next(msg: Message, next: nat) | Fail(err: Error, msg: Message)

  function DecodeVersion(m: Message, d: seq<Byte>, j: nat): Turn {
    match ReadVarint(d, j)
    case Stop(e, p) => Fail(e, m.(version := Low32(p)))
    case Done(w, k) => Next(m.(version := Low32(w)), k)
  }

  function DecodeTimestamp(m: Message, d: seq<Byte>, j: nat): Turn {
    match ReadVarint(d, j)
    case Stop(e, p) => Fail(e, m.(timestamp := p))
    case Done(w, k) => Next(m.(timestamp := w), k)
  }

  /** m with byte field number f replaced. */
  function SetBytes(m: Message, f: bv32, s: seq<Byte>): Message {
    if f == 2 then m.(payload := s) else if f == 4 then m.(pk := s) else m.(signatureOnPid := s)
  }

  function DecodeBytes(m: Message, f: bv32, d: seq<Byte>, j: nat): Turn {
    match ReadBytes(d, j)
    case BadChunk(e) => Fail(e, m)
    case Chunk(s, k) => Next(SetBytes(m, f, s), k)
  }

  /** The default branch: back to the tag at i, then over the whole field. */
  function DecodeUnknown(m: Message, d: seq<Byte>, i: nat): Turn
    requires i <= |d|
  {
    match Skip(d[i..])
    case Err(e) => Fail(e, m)
    case Ok(n) =>
      if SumOverflows(i, n) then Fail(InvalidLength, m)
      else if i + n > |d| then Fail(UnexpectedEOF, m)
      else Next(m, i + n)
  }

  /** The field whose tag at i ends at j. */
  function DecodeBody(m: Message, d: seq<Byte>, i: nat, f: bv32, wireType: bv64, j: nat): Turn
    requires i <= |d|
  {
    if wireType == 4 then Fail(EndGroupForNonGroup, m)
    else if IllegalField(f) then Fail(IllegalTag, m)
    else if f == 1 then if wireType != 0 then Fail(WrongWireType, m) else DecodeVersion(m, d, j)
    else if f == 3 then if wireType != 0 then Fail(WrongWireType, m) else DecodeTimestamp(m, d, j)
    else if f == 2 || f == 4 || f == 5 then
      if wireType != 2 then Fail(WrongWireType, m) else DecodeBytes(m, f, d, j)
    else DecodeUnknown(m, d, i)
  }

  function DecodeField(m: Message, d: seq<Byte>, i: nat): (t: Turn)
    requires i < |d|
    ensures t.Next? ==> i < t.next <= |d|
  {
    match ReadVarint(d, i)
    case Stop(e, _) => Fail(e, m)
    case Done(wire, j) => DecodeBody(m, d, i, FieldNumber(wire), WireType(wire), j)
  }

  /** What Unmarshal returns, with the message it leaves behind. */
  datatype Outcome = Outcome(msg: Message, err: Option<Error>)

  /** Unmarshal from index i on, into m. */
  function DecodeFrom(m: Message, d: seq<Byte>, i: nat): Outcome
    decreases |d| - i
  {
    if i >= |d| then Outcome(m, None)
    else
      match DecodeField(m, d, i)
      case Fail(e, m') => Outcome(m', Some(e))
      case Next(m', j) => DecodeFrom(m', d, j)
  }

  /** Unmarshal into m. */
  function Decode(m: Message, d: seq<Byte>): Outcome {
    DecodeFrom(m, d, 0)
  }

  // ---------- encoding ----------

  /** The message of a Go program: its slices fit one buffer. */
  predicate Sized(m: Message) {
    |m.payload| + |m.pk| + |m.signatureOnPid| < MAX_LENGTH / 2
  }

  /** A varint field; the zero value is not written. */
  function VarintField(tag: Byte, v: bv64): seq<Byte> {
    if v == 0 then [] else [tag] + EncodeVarint(v)
  }

  /** A length-delimited field; the empty value is not written. */
  function BytesField(tag: Byte, s: seq<Byte>): seq<Byte>
    requires |s| < INT_LIMIT
  {
    if s == [] then [] else [tag] + EncodeVarint(WordOf(|s|)) + s
  }

  /** The bytes of Marshal: the fields in ascending order. */
  function Encode(m: Message): seq<Byte>
    requires Sized(m)
  {
    VarintField(0x08, Wide(m.version)) + BytesField(0x12, m.payload) + VarintField(0x18, m.timestamp)
    + BytesField(0x22, m.pk) + BytesField(0x2A, m.signatureOnPid)
  }

  function VarintFieldSize(v: bv64): nat {
    if v == 0 then 0 else 1 + Sov(v)
  }

  function BytesFieldSize(s: seq<Byte>): nat
    requires |s| < INT_LIMIT
  {
    if s == [] then 0 else 1 + |s| + Sov(WordOf(|s|))
  }

  /** Size */
  function Size(m: Message): nat
    requires Sized(m)
  {
    VarintFieldSize(Wide(m.version)) + BytesFieldSize(m.payload) + VarintFieldSize(m.timestamp)
    + BytesFieldSize(m.pk) + BytesFieldSize(m.signatureOnPid)
  }

  lemma BytesFieldLength(tag: Byte, s: seq<Byte>)
    requires |s| < INT_LIMIT
    ensures |BytesField(tag, s)| == BytesFieldSize(s)
  {
    if s != [] {
      EncodeLength(WordOf(|s|));
    }
  }

  lemma VarintFieldLength(tag: Byte, v: bv64)
    ensures |VarintField(tag, v)| == VarintFieldSize(v)
  {
    EncodeLength(v);
  }

  /** Size is the number of bytes Marshal produces. */
  lemma EncodeSize(m: Message)
    requires Sized(m)
    ensures |Encode(m)| == Size(m)
  {
    VarintFieldLength(0x08, Wide(m.version));
    BytesFieldLength(0x12, m.payload);
    VarintFieldLength(0x18, m.timestamp);
    BytesFieldLength(0x22, m.pk);
    BytesFieldLength(0x2A, m.signatureOnPid);
  }
}
