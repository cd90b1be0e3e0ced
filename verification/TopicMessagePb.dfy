/** The generated code of data/topicMessage.pb.go in its own form: a message object that is filled
    and emptied in place, an encoder that writes its buffer backwards, and decoding loops over an
    index. Every method is proved against the functions of module TopicMessage. */
module TopicMessagePb {
  import opened Wrappers
  import opened Varint
  import Wire = TopicMessage
  import Laws = TopicMessageLaws

  /** A Go int after an addition or multiplication. */
  function Wrap64(x: int): int {
    (x + Wire.INT_LIMIT) % (2 * Wire.INT_LIMIT) - Wire.INT_LIMIT
  }

  lemma WrappedSum(i: nat, n: nat)
    requires i < Wire.INT_LIMIT && n < Wire.INT_LIMIT
    ensures Wrap64(i + n) < 0 <==> Wire.SumOverflows(i, n)
    ensures !Wire.SumOverflows(i, n) ==> Wrap64(i + n) == i + n
  {
  }

  /** The loop `for shift := uint(0); ; shift += 7` of a 64-bit target. */
  method ReadWord(dAtA: seq<Byte>, start: nat) returns (r: Scan)
    ensures r == ReadVarint(dAtA, start)
  {
    hide Lay;
    var iNdEx, shift, wire := start, 0 as bv64, 0 as bv64;
    while true
      invariant ScanVarint(dAtA, start, 0, 0) == ScanVarint(dAtA, iNdEx, shift, wire)
      decreases |dAtA| - iNdEx
    {
      if shift >= 64 {
        return Stop(IntOverflow, wire);
      }
      if iNdEx >= |dAtA| {
        return Stop(UnexpectedEOF, wire);
      }
      var b := dAtA[iNdEx];
      iNdEx := iNdEx + 1;
      wire := Lay(wire, b, shift);
      if b < 0x80 {
        return Done(wire, iNdEx);
      }
      shift := shift + 7;
    }
  }

  /** A varint length, and the index behind the bytes it announces, wrapped as a Go int. */
  method ReadLength(dAtA: seq<Byte>, start: nat) returns (from: nat, post: int, err: Option<Error>)
    requires |dAtA| < Wire.MAX_LENGTH && start <= |dAtA|
    ensures match ReadVarint(dAtA, start)
            case Stop(e, _) => err == Some(e)
            case Done(w, k) =>
              if Wire.IsNegative(w) || Wire.SumOverflows(k, Wire.IntOf(w)) then err == Some(InvalidLength)
              else err == None && from == k && post == k + Wire.IntOf(w)
  {
    hide ReadVarint, Wire.IntOf, Wire.IsNegative;
    from, post := 0, 0;
    var r := ReadWord(dAtA, start);
    if r.Stop? {
      return from, post, Some(r.err);
    }
    if Wire.IsNegative(r.value) {
      return from, post, Some(InvalidLength);
    }
    Laws.NonNegativeIsInt(r.value);
    WrappedSum(r.next, Wire.IntOf(r.value));
    from, post := r.next, Wrap64(r.next + Wire.IntOf(r.value));
    err := if post < 0 then Some(InvalidLength) else None;
  }

  /** skipTopicMessage: it terminates on every buffer, reads only inside it, and on success has
      passed at least one byte. */
  method SkipTopicMessage(dAtA: seq<Byte>) returns (n: int, err: Option<Error>)
    requires |dAtA| < Wire.MAX_LENGTH
    ensures match Wire.Skip(dAtA)
            case Ok(k) => err == None && n == k
            case Err(e) => err == Some(e) && n == 0
  {
    var iNdEx, depth := 0, 0;
    while iNdEx < |dAtA|
      invariant 0 <= iNdEx && 0 <= depth
      invariant Wire.SkipFrom(dAtA, 0, 0) == Wire.SkipFrom(dAtA, iNdEx, depth)
      decreases |dAtA| - iNdEx
    {
      var next, d, e := SkipRound(dAtA, iNdEx, depth);
      if e != None {
        return 0, e;
      }
      iNdEx, depth := next, d;
      if depth == 0 {
        return iNdEx, None;
      }
    }
    return 0, Some(UnexpectedEOF);
  }

  /** One round of the skip loop: a tag and the switch on its wire type. */
  method SkipRound(dAtA: seq<Byte>, start: nat, depth: nat) returns (next: nat, d: nat, err: Option<Error>)
    requires |dAtA| < Wire.MAX_LENGTH && start < |dAtA|
    ensures match Wire.SkipOne(dAtA, start, depth)
            case Hop(j, k) => err == None && next == j && d == k
            case BadHop(e) => err == Some(e)
  {
    hide ReadVarint, Wire.IntOf, Wire.IsNegative;
    next, d, err := 0, depth, None;
    var tag := ReadWord(dAtA, start);
    if tag.Stop? {
      return next, d, Some(tag.err);
    }
    var wireType := Wire.WireType(tag.value);
    if wireType == 0 {
      var r := ReadWord(dAtA, tag.next);
      if r.Stop? {
        err := Some(r.err);
      } else {
        next := r.next;
      }
    } else if wireType == 1 {
      next := tag.next + 8;
    } else if wireType == 2 {
      var from, post, e := ReadLength(dAtA, tag.next);
      if e == None {
        next := post;
      } else {
        err := e;
      }
    } else if wireType == 3 {
      next, d := tag.next, depth + 1;
    } else if wireType == 4 {
      if depth == 0 {
        err := Some(UnexpectedEndOfGroup);
      } else {
        next, d := tag.next, depth - 1;
      }
    } else if wireType == 5 {
      next := tag.next + 4;
    } else {
      err := Some(IllegalWireType);
    }
  }

  /** uint32(b&0x7F) << shift: zero as soon as the shift passes the width. */
  function Lay32(acc: bv32, b: Byte, shift: bv64): bv32 {
    acc | if shift < 32 then (b & 0x7F) as bv32 << shift else 0 as bv32
  }

  lemma LowBitsOfLay(acc: bv64, b: Byte, shift: bv64)
    requires IsShift(shift)
    ensures Wire.Low32(Lay(acc, b, shift)) == Lay32(Wire.Low32(acc), b, shift)
  {
  }

  lemma NextShift(shift: bv64)
    requires IsShift(shift)
    ensures shift < 64
    ensures IsShift(shift + 7) || shift + 7 >= 64
  {
  }

  lemma NoBits()
    ensures Wire.Low32(0) == 0
  {
  }

  /** The message object. */
  class TopicMessage {
    var Version: bv32
    var Payload: seq<Byte>
    var Timestamp: bv64
    var Pk: seq<Byte>
    var SignatureOnPid: seq<Byte>

    ghost function Value(): Wire.Message
      reads this
    {
      Wire.Message(Version, Payload, Timestamp, Pk, SignatureOnPid)
    }

    constructor ()
      ensures Value() == Wire.EMPTY
    {
      Version, Payload, Timestamp, Pk, SignatureOnPid := 0, [], 0, [], [];
    }

    /** Equal */
    method Equal(that: TopicMessage?) returns (same: bool)
      ensures same <==> that != null && that.Value() == Value()
    {
      if that == null {
        return false;
      }
      if Version != that.Version {
        return false;
      }
      if Payload != that.Payload {
        return false;
      }
      if Timestamp != that.Timestamp {
        return false;
      }
      if Pk != that.Pk {
        return false;
      }
      return SignatureOnPid == that.SignatureOnPid;
    }

    /** The loop of field 1, which gathers the low 32 bits in the field itself. */
    method ReadVersion(dAtA: seq<Byte>, start: nat) returns (next: nat, err: Option<Error>)
      modifies this
      ensures match Wire.DecodeVersion(old(Value()), dAtA, start)
              case Next(m, k) => err == None && Value() == m && next == k
              case Fail(e, m) => err == Some(e) && Value() == m
    {
      hide Lay, Wire.Low32, Lay32;
      var iNdEx, shift := start, 0 as bv64;
      ghost var acc := 0 as bv64;
      NoBits();
      Version := 0;
      while true
        invariant ScanVarint(dAtA, start, 0, 0) == ScanVarint(dAtA, iNdEx, shift, acc)
        invariant Value() == old(Value()).(version := Wire.Low32(acc))
        invariant IsShift(shift) || shift >= 64
        decreases |dAtA| - iNdEx
      {
        if shift >= 64 {
          return 0, Some(IntOverflow);
        }
        if iNdEx >= |dAtA| {
          return 0, Some(UnexpectedEOF);
        }
        var b := dAtA[iNdEx];
        iNdEx := iNdEx + 1;
        LowBitsOfLay(acc, b, shift);
        acc := Lay(acc, b, shift);
        Version := Lay32(Version, b, shift);
        if b < 0x80 {
          return iNdEx, None;
        }
        NextShift(shift);
        shift := shift + 7;
      }
    }

    /** The three length-delimited fields. */
    method ReadBytesField(dAtA: seq<Byte>, start: nat, fieldNum: bv32) returns (next: nat, err: Option<Error>)
      requires |dAtA| < Wire.MAX_LENGTH && start <= |dAtA|
      requires fieldNum == 2 || fieldNum == 4 || fieldNum == 5
      modifies this
      ensures match Wire.DecodeBytes(old(Value()), fieldNum, dAtA, start)
              case Next(m, k) => err == None && Value() == m && next == k
              case Fail(e, m) => err == Some(e) && Value() == m
    {
      hide ReadVarint, Wire.IntOf, Wire.IsNegative;
      var from, postIndex, e := ReadLength(dAtA, start);
      if e != None {
        return 0, e;
      }
      if postIndex > |dAtA| {
        return 0, Some(UnexpectedEOF);
      }
      var s := dAtA[from..postIndex];
      if fieldNum == 2 {
        Payload := s;
      } else if fieldNum == 4 {
        Pk := s;
      } else {
        SignatureOnPid := s;
      }
      next, err := postIndex, None;
    }

    /** One round of the decoding loop: a tag and the switch on its field number. */
    method UnmarshalField(dAtA: seq<Byte>, preIndex: nat) returns (next: nat, err: Option<Error>)
      requires |dAtA| < Wire.MAX_LENGTH && preIndex < |dAtA|
      modifies this
      ensures match Wire.DecodeField(old(Value()), dAtA, preIndex)
              case Next(m, k) => err == None && Value() == m && next == k
              case Fail(e, m) => err == Some(e) && Value() == m
    {
      hide ReadVarint, Wire.FieldNumber, Wire.WireType, Wire.ReadBytes, Wire.Skip;
      next, err := 0, None;
      var tag := ReadWord(dAtA, preIndex);
      if tag.Stop? {
        return 0, Some(tag.err);
      }
      var fieldNum, wireType := Wire.FieldNumber(tag.value), Wire.WireType(tag.value);
      if wireType == 4 {
        return 0, Some(EndGroupForNonGroup);
      }
      if Wire.IllegalField(fieldNum) {
        return 0, Some(IllegalTag);
      }
      if fieldNum == 1 || fieldNum == 3 {
        if wireType != 0 {
          return 0, Some(WrongWireType);
        }
        if fieldNum == 1 {
          next, err := ReadVersion(dAtA, tag.next);
        } else {
          var r := ReadWord(dAtA, tag.next);
          Timestamp := if r.Done? then r.value else r.partial;
          next, err := if r.Done? then r.next else 0, if r.Done? then None else Some(r.err);
        }
      } else if fieldNum == 2 || fieldNum == 4 || fieldNum == 5 {
        if wireType != 2 {
          return 0, Some(WrongWireType);
        }
        next, err := ReadBytesField(dAtA, tag.next, fieldNum);
      } else {
        next, err := SkipUnknown(dAtA, preIndex);
      }
    }

    /** The default branch: back to the tag, then over the whole field. */
    method SkipUnknown(dAtA: seq<Byte>, iNdEx: nat) returns (next: nat, err: Option<Error>)
      requires |dAtA| < Wire.MAX_LENGTH && iNdEx < |dAtA|
      ensures match Wire.DecodeUnknown(Value(), dAtA, iNdEx)
              case Next(m, k) => err == None && Value() == m && next == k
              case Fail(e, m) => err == Some(e) && Value() == m
    {
      hide Wire.SkipFrom;
      var skippy, e := SkipTopicMessage(dAtA[iNdEx..]);
      if e != None {
        return 0, e;
      }
      SkipIsInt(dAtA[iNdEx..]);
      WrappedSum(iNdEx, skippy);
      if skippy < 0 || Wrap64(iNdEx + skippy) < 0 {
        return 0, Some(InvalidLength);
      }
      if iNdEx + skippy > |dAtA| {
        return 0, Some(UnexpectedEOF);
      }
      return iNdEx + skippy, None;
    }

    /** Unmarshal: it terminates on every buffer without reading outside it, and when it succeeds
        the whole buffer has been consumed. */
    method Unmarshal(dAtA: seq<Byte>) returns (err: Option<Error>)
      requires |dAtA| < Wire.MAX_LENGTH
      modifies this
      ensures Wire.Outcome(Value(), err) == Wire.Decode(old(Value()), dAtA)
    {
      hide Wire.DecodeField;
      var iNdEx := 0;
      while iNdEx < |dAtA|
        invariant 0 <= iNdEx <= |dAtA|
        invariant Wire.DecodeFrom(old(Value()), dAtA, 0) == Wire.DecodeFrom(Value(), dAtA, iNdEx)
        decreases |dAtA| - iNdEx
      {
        var next, e := UnmarshalField(dAtA, iNdEx);
        if e != None {
          return e;
        }
        iNdEx := next;
      }
      return None;
    }

    /** Size */
    method Size() returns (n: nat)
      requires Wire.Sized(Value())
      ensures n == Wire.Size(Value()) == |Wire.Encode(Value())|
    {
      hide Sov, Wire.WordOf, Wire.Encode;
      n := 0;
      if Version != 0 {
        n := n + 1 + Sov(Wire.Wide(Version));
      }
      if |Payload| > 0 {
        n := n + 1 + |Payload| + Sov(Wire.WordOf(|Payload|));
      }
      if Timestamp != 0 {
        n := n + 1 + Sov(Timestamp);
      }
      if |Pk| > 0 {
        n := n + 1 + |Pk| + Sov(Wire.WordOf(|Pk|));
      }
      if |SignatureOnPid| > 0 {
        n := n + 1 + |SignatureOnPid| + Sov(Wire.WordOf(|SignatureOnPid|));
      }
      Laws.WideRoundTrip(Version);
      Wire.EncodeSize(Value());
    }

    /** MarshalToSizedBuffer: the encoding ends at the end of the buffer, and no byte before its
        start is touched. */
    method MarshalToSizedBuffer(dAtA: array<Byte>) returns (n: nat)
      requires Wire.Sized(Value()) && dAtA.Length >= |Wire.Encode(Value())|
      modifies dAtA
      ensures Value() == old(Value())
      ensures n == Wire.Size(Value()) == |Wire.Encode(Value())|
      ensures dAtA[dAtA.Length - n..] == Wire.Encode(Value())
      ensures dAtA[..dAtA.Length - n] == old(dAtA[..dAtA.Length - n])
    {
      hide Wire.BytesField, Wire.VarintField, Filled;
      Laws.WideRoundTrip(Version);
      ghost var m, was := Value(), dAtA[..];
      var i := dAtA.Length;
      ghost var x: seq<Byte> := [];
      NothingFilled(was);
      i, x := WriteBytesField(dAtA, i, 0x2A, SignatureOnPid, was, x);
      i, x := WriteBytesField(dAtA, i, 0x22, Pk, was, x);
      i, x := WriteVarintField(dAtA, i, 0x18, Timestamp, was, x);
      i, x := WriteBytesField(dAtA, i, 0x12, Payload, was, x);
      i, x := WriteVarintField(dAtA, i, 0x08, Wire.Wide(Version), was, x);
      n := dAtA.Length - i;
      Wire.EncodeSize(m);
      assert x == Wire.Encode(m);
      FilledParts(dAtA[..], was, i, x);
    }

    /** Marshal: the buffer of Size() bytes is filled exactly. */
    method Marshal() returns (dAtA: array<Byte>)
      requires Wire.Sized(Value())
      ensures fresh(dAtA) && dAtA[..] == Wire.Encode(Value())
    {
      var size := Size();
      dAtA := new Byte[size];
      var n := MarshalToSizedBuffer(dAtA);
    }
  }

  lemma SkipIsInt(d: seq<Byte>)
    requires |d| < Wire.MAX_LENGTH && Wire.Skip(d).Ok?
    ensures Wire.Skip(d).value < Wire.INT_LIMIT
  {
    SkipFromIsInt(d, 0, 0);
  }

  lemma {:induction false} SkipFromIsInt(d: seq<Byte>, i: nat, depth: nat)
    requires |d| < Wire.MAX_LENGTH && Wire.SkipFrom(d, i, depth).Ok?
    ensures Wire.SkipFrom(d, i, depth).value < Wire.INT_LIMIT
    decreases |d| - i
  {
    hide ScanVarint;
    var h := Wire.SkipOne(d, i, depth);
    if h.depth != 0 {
      SkipFromIsInt(d, h.next, h.depth);
    }
  }

  lemma PrefixOf<T>(a: seq<T>, b: seq<T>, at: nat, i: nat)
    requires at <= i <= |a| && i <= |b| && a[..i] == b[..i]
    ensures a[..at] == b[..at]
  {
    assert a[..i][..at] == a[..at] && b[..i][..at] == b[..at];
  }

  /** The buffer now holds x from index i on, and before i what it held at first. */
  ghost predicate Filled(now: seq<Byte>, was: seq<Byte>, i: nat, x: seq<Byte>) {
    |now| == |was| && i <= |now| && now[i..] == x && now[..i] == was[..i]
  }

  lemma NothingFilled(was: seq<Byte>)
    ensures Filled(was, was, |was|, [])
  {
  }

  lemma FilledParts(now: seq<Byte>, was: seq<Byte>, i: nat, x: seq<Byte>)
    requires Filled(now, was, i, x)
    ensures i + |x| == |now| == |was| && now[i..] == x && now[..i] == was[..i]
  {
  }

  lemma FilledMore(now: seq<Byte>, mid: seq<Byte>, was: seq<Byte>, i: nat, x: seq<Byte>, at: nat, f: seq<Byte>)
    requires Filled(mid, was, i, x) && at <= i && |now| == |mid|
    requires now[at..] == f + mid[i..] && now[..at] == mid[..at]
    ensures Filled(now, was, at, f + x)
  {
    PrefixOf(mid, was, at, i);
  }

  /** The buffer holds x in base..at, and elsewhere what it held at first. */
  ghost predicate Copied(now: seq<Byte>, was: seq<Byte>, base: nat, at: nat, x: seq<Byte>) {
    base <= at <= |now| == |was| && now[..base] == was[..base] && now[base..at] == x && now[at..] == was[at..]
  }

  lemma CopiedNothing(was: seq<Byte>, base: nat)
    requires base <= |was|
    ensures Copied(was, was, base, base, [])
  {
  }

  lemma CopiedMore(now: seq<Byte>, was: seq<Byte>, base: nat, at: nat, x: seq<Byte>, b: Byte)
    requires Copied(now, was, base, at, x) && at < |now|
    ensures Copied(now[at := b], was, base, at + 1, x + [b])
  {
    var next := now[at := b];
    assert next[..base] == now[..base];
    assert next[base..at + 1] == now[base..at] + [b];
    assert next[at + 1..] == now[at..][1..];
    assert was[at + 1..] == was[at..][1..];
  }

  lemma CopiedIsFilled(now: seq<Byte>, mid: seq<Byte>, was: seq<Byte>, base: nat, at: nat, y: seq<Byte>, x: seq<Byte>)
    requires Copied(now, mid, base, at, y) && Filled(mid, was, at, x)
    ensures Filled(now, was, base, y + x)
  {
    assert now[base..] == now[base..at] + now[at..];
    FilledMore(now, mid, was, at, x, base, y);
  }

  lemma EncodeStep(w: bv64)
    ensures w >= 0x80 ==> EncodeVarint(w) == [Head(w)] + EncodeVarint(Rest(w))
    ensures w < 0x80 ==> EncodeVarint(w) == [Last(w)]
  {
  }

  lemma Associate(a: seq<Byte>, b: Byte, c: seq<Byte>)
    ensures a + ([b] + c) == (a + [b]) + c
  {
  }

  /** encodeVarintTopicMessage: the varint of v ends just before offset, and nothing else in the
      buffer changes. */
  method EncodeVarintTopicMessage(dAtA: array<Byte>, offset: nat, v: bv64, ghost was: seq<Byte>, ghost x: seq<Byte>)
    returns (base: nat)
    requires Sov(v) <= offset && Filled(dAtA[..], was, offset, x)
    modifies dAtA
    ensures base == offset - Sov(v) == offset - |EncodeVarint(v)|
    ensures Filled(dAtA[..], was, base, EncodeVarint(v) + x)
  {
    hide Sov, Copied, Filled, Head, Last, EncodeVarint;
    FilledParts(dAtA[..], was, offset, x);
    EncodeLength(v);
    base := offset - Sov(v);
    var at, w := base, v;
    ghost var before, done: seq<Byte> := dAtA[..], [];
    CopiedNothing(before, base);
    assert [] + EncodeVarint(v) == EncodeVarint(v);
    while w >= 0x80
      invariant base <= at && at + |EncodeVarint(w)| == offset
      invariant done + EncodeVarint(w) == EncodeVarint(v)
      invariant Copied(dAtA[..], before, base, at, done)
      decreases w
    {
      RestIsSmaller(w);
      EncodeStep(w);
      Associate(done, Head(w), EncodeVarint(Rest(w)));
      CopiedMore(dAtA[..], before, base, at, done, Head(w));
      dAtA[at] := Head(w);
      done := done + [Head(w)];
      w := Rest(w);
      at := at + 1;
    }
    EncodeStep(w);
    CopiedMore(dAtA[..], before, base, at, done, Last(w));
    dAtA[at] := Last(w);
    CopiedIsFilled(dAtA[..], before, was, base, offset, done + [Last(w)], x);
  }

  /** i--, then the tag byte. */
  method WriteTag(dAtA: array<Byte>, i: nat, tag: Byte, ghost was: seq<Byte>, ghost x: seq<Byte>) returns (at: nat)
    requires 0 < i && Filled(dAtA[..], was, i, x)
    modifies dAtA
    ensures at == i - 1 && Filled(dAtA[..], was, at, [tag] + x)
  {
    at := i - 1;
    ghost var mid := dAtA[..];
    dAtA[at] := tag;
    FilledMore(dAtA[..], mid, was, i, x, at, [tag]);
  }

  /** copy(dAtA[at:], s) */
  method CopyAt(dAtA: array<Byte>, at: nat, s: seq<Byte>, ghost was: seq<Byte>, ghost x: seq<Byte>)
    requires Filled(dAtA[..], was, at + |s|, x)
    modifies dAtA
    ensures Filled(dAtA[..], was, at, s + x)
  {
    ghost var mid := dAtA[..];
    forall k | 0 <= k < |s| {
      dAtA[at + k] := s[k];
    }
    FilledMore(dAtA[..], mid, was, at + |s|, x, at, s);
  }

  lemma Regroup(a: seq<Byte>, b: seq<Byte>, c: seq<Byte>, x: seq<Byte>)
    ensures a + b + c + x == a + (b + (c + x))
    ensures [] + x == x && a + b + [] == a + b
  {
  }

  method WriteVarintField(dAtA: array<Byte>, i: nat, tag: Byte, v: bv64, ghost was: seq<Byte>, ghost x: seq<Byte>)
    returns (at: nat, ghost y: seq<Byte>)
    requires |Wire.VarintField(tag, v)| <= i && Filled(dAtA[..], was, i, x)
    modifies dAtA
    ensures y == Wire.VarintField(tag, v) + x && at == i - |Wire.VarintField(tag, v)|
    ensures Filled(dAtA[..], was, at, y)
  {
    hide EncodeVarint, Sov, Filled;
    Regroup([], [], [], x);
    at, y := i, Wire.VarintField(tag, v) + x;
    if v != 0 {
      EncodeLength(v);
      at := EncodeVarintTopicMessage(dAtA, at, v, was, x);
      at := WriteTag(dAtA, at, tag, was, EncodeVarint(v) + x);
      Regroup([tag], EncodeVarint(v), [], x);
    }
  }

  method WriteBytesField(dAtA: array<Byte>, i: nat, tag: Byte, s: seq<Byte>, ghost was: seq<Byte>, ghost x: seq<Byte>)
    returns (at: nat, ghost y: seq<Byte>)
    requires |s| < Wire.INT_LIMIT && |Wire.BytesField(tag, s)| <= i && Filled(dAtA[..], was, i, x)
    modifies dAtA
    ensures y == Wire.BytesField(tag, s) + x && at == i - |Wire.BytesField(tag, s)|
    ensures Filled(dAtA[..], was, at, y)
  {
    hide EncodeVarint, Sov, Wire.WordOf, Filled;
    Regroup([], [], [], x);
    at, y := i, Wire.BytesField(tag, s) + x;
    if |s| > 0 {
      var w := Wire.WordOf(|s|);
      EncodeLength(w);
      at := at - |s|;
      CopyAt(dAtA, at, s, was, x);
      at := EncodeVarintTopicMessage(dAtA, at, w, was, s + x);
      at := WriteTag(dAtA, at, tag, was, EncodeVarint(w) + (s + x));
      Regroup([tag], EncodeVarint(w), s, x);
    }
  }
}
