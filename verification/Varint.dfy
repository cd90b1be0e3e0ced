/** Base 128 varints over 64-bit words (the Protocol Buffers Encoding guide, section
    "Base 128 Varints"), as data/topicMessage.pb.go reads, measures and writes them. The
    bit operations are small named functions, so that the proofs about sequences never look
    inside a word. */
module Varint {
  type Byte = bv8

  /** The errors of the decoder. */
  datatype Error =
    | IntOverflow
    | UnexpectedEOF
    | InvalidLength
    | UnexpectedEndOfGroup
    | EndGroupForNonGroup
    | IllegalTag
    | WrongWireType
    | IllegalWireType

  // ---------- one group of seven bits ----------

  /** The payload bits of a byte, as a word. */
  function Low7(b: Byte): bv64 {
    (b & 0x7F) as bv64
  }

  function Or(a: bv64, b: bv64): bv64 {
    a | b
  }

  function Left(v: bv64, shift: bv64): bv64
    requires shift < 64
  {
    v << shift
  }

  /** acc with the word v or-ed in at the given shift. */
  function Put(acc: bv64, v: bv64, shift: bv64): bv64
    requires shift < 64
  {
    Or(acc, Left(v, shift))
  }

  /** acc with the payload bits of b or-ed in at the given shift. */
  function Lay(acc: bv64, b: Byte, shift: bv64): bv64
    requires shift < 64
  {
    Put(acc, Low7(b), shift)
  }

  /** No bit of v is lost at the given shift. */
  predicate Fits(v: bv64, shift: bv64)
    requires shift < 64
  {
    v << shift >> shift == v
  }

  /** The low seven bits of v behind a continuation bit. */
  function Head(v: bv64): Byte {
    ((v & 0x7F) | 0x80) as Byte
  }

  function Low(v: bv64): bv64 {
    v & 0x7F
  }

  function Rest(v: bv64): bv64 {
    v >> 7
  }

  /** The last byte of a varint. */
  function Last(v: bv64): Byte
    requires v < 0x80
  {
    v as Byte
  }

  // ---------- reading ----------

  /** What one shift loop leaves behind: the word and the next index, or the error and the bits
      gathered before it (the target field keeps them). */
  datatype Scan = Done(value: bv64, next: nat) | Stop(err: Error, partial: bv64)

  /** The shift loop from index i on. */
  function ScanVarint(d: seq<Byte>, i: nat, shift: bv64, acc: bv64): (r: Scan)
    ensures r.Done? ==> i < r.next <= |d|
    decreases |d| - i
  {
    if shift >= 64 then Stop(IntOverflow, acc)
    else if i >= |d| then Stop(UnexpectedEOF, acc)
    else if d[i] < 0x80 then Done(Lay(acc, d[i], shift), i + 1)
    else ScanVarint(d, i + 1, shift + 7, Lay(acc, d[i], shift))
  }

  /** The varint that starts at index i. */
  function ReadVarint(d: seq<Byte>, i: nat): (r: Scan)
    ensures r.Done? ==> i < r.next <= |d|
  {
    ScanVarint(d, i, 0, 0)
  }

  // ---------- writing ----------

  /** The shortest varint of v: seven bits a byte, least significant first. */
  function EncodeVarint(v: bv64): (s: seq<Byte>)
    ensures |s| >= 1
    decreases v
  {
    if v < 0x80 then [Last(v)] else
      RestIsSmaller(v);
      [Head(v)] + EncodeVarint(Rest(v))
  }

  lemma RestIsSmaller(v: bv64)
    requires v >= 0x80
    ensures Rest(v) < v && Rest(v) != 0
  {
  }

  /** The shifts the loop can be at. */
  predicate IsShift(s: bv64) {
    s == 0 || s == 7 || s == 14 || s == 21 || s == 28 || s == 35 || s == 42 || s == 49 || s == 56 || s == 63
  }

  lemma HeadBits(v: bv64)
    ensures Head(v) >= 0x80 && Low7(Head(v)) == Low(v)
  {
  }

  lemma LastBits(v: bv64)
    requires v < 0x80
    ensures Last(v) < 0x80 && Low7(Last(v)) == v
  {
  }

  // A group and what lies above it, shifted together or each to its place: one shift at a time.
  lemma JoinAt0(a: bv64, b: bv64) ensures Left(Or(a, Left(b, 7)), 0) == Or(Left(a, 0), Left(b, 7)) {}
  lemma JoinAt7(a: bv64, b: bv64) ensures Left(Or(a, Left(b, 7)), 7) == Or(Left(a, 7), Left(b, 14)) {}
  lemma JoinAt14(a: bv64, b: bv64) ensures Left(Or(a, Left(b, 7)), 14) == Or(Left(a, 14), Left(b, 21)) {}
  lemma JoinAt21(a: bv64, b: bv64) ensures Left(Or(a, Left(b, 7)), 21) == Or(Left(a, 21), Left(b, 28)) {}
  lemma JoinAt28(a: bv64, b: bv64) ensures Left(Or(a, Left(b, 7)), 28) == Or(Left(a, 28), Left(b, 35)) {}
  lemma JoinAt35(a: bv64, b: bv64) ensures Left(Or(a, Left(b, 7)), 35) == Or(Left(a, 35), Left(b, 42)) {}
  lemma JoinAt42(a: bv64, b: bv64) ensures Left(Or(a, Left(b, 7)), 42) == Or(Left(a, 42), Left(b, 49)) {}
  lemma JoinAt49(a: bv64, b: bv64) ensures Left(Or(a, Left(b, 7)), 49) == Or(Left(a, 49), Left(b, 56)) {}
  lemma JoinAt56(a: bv64, b: bv64) ensures Left(Or(a, Left(b, 7)), 56) == Or(Left(a, 56), Left(b, 63)) {}

  lemma JoinLeft(a: bv64, b: bv64, s: bv64)
    requires IsShift(s) && s < 63
    ensures s + 7 < 64 && IsShift(s + 7) && Left(Or(a, Left(b, 7)), s) == Or(Left(a, s), Left(b, s + 7))
  {
    hide Or, Left;
    if s == 0 {
      JoinAt0(a, b);
    } else if s == 7 {
      JoinAt7(a, b);
    } else if s == 14 {
      JoinAt14(a, b);
    } else if s == 21 {
      JoinAt21(a, b);
    } else if s == 28 {
      JoinAt28(a, b);
    } else if s == 35 {
      JoinAt35(a, b);
    } else if s == 42 {
      JoinAt42(a, b);
    } else if s == 49 {
      JoinAt49(a, b);
    } else {
      JoinAt56(a, b);
    }
  }

  lemma OrIsAssociative(a: bv64, b: bv64, c: bv64)
    ensures Or(Or(a, b), c) == Or(a, Or(b, c))
  {
  }

  /** A group laid at shift s and a word at s + 7 are the two together at s. */
  lemma PutJoined(acc: bv64, a: bv64, b: bv64, s: bv64)
    requires IsShift(s) && s < 63
    ensures s + 7 < 64 && IsShift(s + 7) && Put(Put(acc, a, s), b, s + 7) == Put(acc, Or(a, Left(b, 7)), s)
  {
    hide Or, Left, IsShift;
    JoinLeft(a, b, s);
    OrIsAssociative(acc, Left(a, s), Left(b, s + 7));
  }

  lemma GroupAndRest(v: bv64)
    ensures Or(Low(v), Left(Rest(v), 7)) == v
  {
  }

  lemma SplitAtShift(acc: bv64, v: bv64, s: bv64)
    requires IsShift(s) && s < 63
    ensures s + 7 < 64 && Put(Put(acc, Low(v), s), Rest(v), s + 7) == Put(acc, v, s)
  {
    hide Or, Left, Low, Rest, Put, IsShift;
    PutJoined(acc, Low(v), Rest(v), s);
    GroupAndRest(v);
  }

  lemma FitsRest(v: bv64, s: bv64)
    requires IsShift(s) && Fits(v, s) && v >= 0x80
    ensures s < 63 && IsShift(s + 7) && Fits(Rest(v), s + 7)
  {
  }

  /** One group of v, laid at shift s, leaves the rest of v to be laid at s + 7. */
  lemma PutStep(acc: bv64, v: bv64, s: bv64)
    requires IsShift(s) && Fits(v, s) && v >= 0x80
    ensures s < 63 && IsShift(s + 7) && Fits(Rest(v), s + 7) && Head(v) >= 0x80
    ensures Put(Lay(acc, Head(v), s), Rest(v), s + 7) == Put(acc, v, s)
  {
    FitsRest(v, s);
    HeadBits(v);
    SplitAtShift(acc, v, s);
  }

  lemma PutLast(acc: bv64, v: bv64, s: bv64)
    requires s < 64 && v < 0x80
    ensures Last(v) < 0x80 && Lay(acc, Last(v), s) == Put(acc, v, s)
  {
    LastBits(v);
  }

  // ---------- locality ----------

  /** A scan does not look behind its index. */
  lemma {:induction false} ScanShifted(pre: seq<Byte>, d: seq<Byte>, i: nat, s: bv64, acc: bv64)
    ensures ScanVarint(pre + d, |pre| + i, s, acc) ==
            match ScanVarint(d, i, s, acc)
            case Done(v, n) => Done(v, |pre| + n)
            case Stop(e, p) => Stop(e, p)
    decreases |d| - i
  {
    if s < 64 && i < |d| && d[i] >= 0x80 {
      ScanShifted(pre, d, i + 1, s + 7, Lay(acc, d[i], s));
    }
  }

  /** A scan that ends does not look beyond its end. */
  lemma {:induction false} ScanExtended(d: seq<Byte>, post: seq<Byte>, i: nat, s: bv64, acc: bv64)
    requires ScanVarint(d, i, s, acc).Done?
    ensures ScanVarint(d + post, i, s, acc) == ScanVarint(d, i, s, acc)
    decreases |d| - i
  {
    if d[i] >= 0x80 {
      ScanExtended(d, post, i + 1, s + 7, Lay(acc, d[i], s));
    }
  }

  // ---------- reading what was written ----------

  lemma ScanLast(b: Byte, rest: seq<Byte>, s: bv64, acc: bv64)
    requires s < 64 && b < 0x80
    ensures ScanVarint([b] + rest, 0, s, acc) == Done(Lay(acc, b, s), 1)
  {
  }

  lemma ScanNext(b: Byte, rest: seq<Byte>, s: bv64, acc: bv64, x: bv64, n: nat)
    requires s < 64 && b >= 0x80
    requires ScanVarint(rest, 0, s + 7, Lay(acc, b, s)) == Done(x, n)
    ensures ScanVarint([b] + rest, 0, s, acc) == Done(x, 1 + n)
  {
    ScanShifted([b], rest, 0, s + 7, Lay(acc, b, s));
  }

  lemma ScanEncodedLast(v: bv64, post: seq<Byte>, s: bv64, acc: bv64)
    requires s < 64 && v < 0x80
    ensures ScanVarint(EncodeVarint(v) + post, 0, s, acc) == Done(Put(acc, v, s), |EncodeVarint(v)|)
  {
    hide Put, Lay, ScanVarint;
    PutLast(acc, v, s);
    ScanLast(Last(v), post, s, acc);
  }

  lemma ScanEncodedNext(v: bv64, post: seq<Byte>, s: bv64, acc: bv64, b: Byte, w: bv64, x: bv64)
    requires s < 64 && v >= 0x80 && b == Head(v) && w == Rest(v) && b >= 0x80
    requires ScanVarint(EncodeVarint(w) + post, 0, s + 7, Lay(acc, b, s)) == Done(x, |EncodeVarint(w)|)
    ensures ScanVarint(EncodeVarint(v) + post, 0, s, acc) == Done(x, |EncodeVarint(v)|)
  {
    hide Put, Lay, ScanVarint;
    ScanNext(b, EncodeVarint(w) + post, s, acc, x, |EncodeVarint(w)|);
    assert [b] + (EncodeVarint(w) + post) == EncodeVarint(v) + post;
  }

  /** Scanning the encoding of v puts v back at the current shift. */
  lemma {:induction false} ScanEncoded(v: bv64, post: seq<Byte>, s: bv64, acc: bv64)
    requires IsShift(s) && Fits(v, s)
    ensures ScanVarint(EncodeVarint(v) + post, 0, s, acc) == Done(Put(acc, v, s), |EncodeVarint(v)|)
    decreases v
  {
    hide Put, Lay, Fits, ScanVarint, EncodeVarint;
    if v < 0x80 {
      ScanEncodedLast(v, post, s, acc);
    } else {
      RestIsSmaller(v);
      PutStep(acc, v, s);
      ScanEncoded(Rest(v), post, s + 7, Lay(acc, Head(v), s));
      ScanEncodedNext(v, post, s, acc, Head(v), Rest(v), Put(acc, v, s));
    }
  }

  lemma PutZero(v: bv64)
    ensures Put(0, v, 0) == v && Fits(v, 0)
  {
  }

  /** Reading what was written, wherever it stands: every 64-bit word survives. */
  lemma ReadEncoded(pre: seq<Byte>, v: bv64, post: seq<Byte>)
    ensures ReadVarint(pre + EncodeVarint(v) + post, |pre|) == Done(v, |pre| + |EncodeVarint(v)|)
  {
    PutZero(v);
    ScanEncoded(v, post, 0, 0);
    ScanShifted(pre, EncodeVarint(v) + post, 0, 0, 0);
    assert pre + (EncodeVarint(v) + post) == pre + EncodeVarint(v) + post;
  }

  // ---------- measuring ----------

  function Half(x: bv64): bv64 {
    x >> 1
  }

  function Odd(x: bv64): bv64 {
    x | 1
  }

  lemma HalfIsSmaller(x: bv64)
    requires x != 0
    ensures Half(x) < x
  {
  }

  /** math/bits.Len64 */
  function Len64(x: bv64): nat
    decreases x
  {
    if x == 0 then 0 else
      HalfIsSmaller(x);
      1 + Len64(Half(x))
  }

  /** sovTopicMessage */
  function Sov(x: bv64): nat {
    (Len64(Odd(x)) + 6) / 7
  }

  /** v without its n lowest groups of seven bits. */
  function DropGroups(v: bv64, n: nat): bv64 {
    if n == 0 then v else DropGroups(Rest(v), n - 1)
  }

  /** Seven halvings drop one group. */
  lemma SevenHalves(x: bv64)
    ensures Half(Half(Half(Half(Half(Half(Half(x))))))) == Rest(x)
  {
  }

  /** The bits of x from position k on. */
  function Halves(x: bv64, k: nat): bv64 {
    if k == 0 then x else Halves(Half(x), k - 1)
  }

  lemma HalfOfZero()
    ensures Half(0) == 0
  {
  }

  /** Len64 is the least number of bits that hold x. */
  lemma {:induction false} LenBits(x: bv64, k: nat)
    ensures Len64(x) <= k <==> Halves(x, k) == 0
    decreases k
  {
    HalfOfZero();
    if k > 0 {
      LenBits(Half(x), k - 1);
    }
  }

  lemma HalvesByGroup(x: bv64, k: nat)
    ensures Halves(x, k + 7) == Halves(Rest(x), k)
  {
    SevenHalves(x);
    var a := Half(x);
    var b := Half(a);
    var c := Half(b);
    var e := Half(c);
    var f := Half(e);
    var g := Half(f);
    assert Halves(x, k + 7) == Halves(a, k + 6);
    assert Halves(a, k + 6) == Halves(b, k + 5);
    assert Halves(b, k + 5) == Halves(c, k + 4);
    assert Halves(c, k + 4) == Halves(e, k + 3);
    assert Halves(e, k + 3) == Halves(f, k + 2);
    assert Halves(f, k + 2) == Halves(g, k + 1);
  }

  lemma {:induction false} GroupsAreBits(x: bv64, n: nat)
    ensures DropGroups(x, n) == Halves(x, 7 * n)
    decreases n
  {
    if n > 0 {
      HalvesByGroup(x, 7 * (n - 1));
      GroupsAreBits(Rest(x), n - 1);
    }
  }

  /** sovTopicMessage is the least positive number of 7-bit groups that hold v. */
  lemma {:induction false} SovIsLeast(v: bv64, n: nat)
    requires n >= 1
    ensures DropGroups(v, n) == 0 <==> Sov(v) <= n
  {
    LenBits(Odd(v), 7 * n);
    GroupsAreBits(Odd(v), n);
    OddBits(v);
    assert DropGroups(Odd(v), n) == DropGroups(Rest(v), n - 1) == DropGroups(v, n);
  }

  lemma OddBits(v: bv64)
    ensures Rest(Odd(v)) == Rest(v)
    ensures v < 0x80 <==> Rest(v) == 0
  {
  }

  /** The closed form of sovTopicMessage follows the recursion of the encoder. */
  lemma SovStep(v: bv64)
    ensures v < 0x80 ==> Sov(v) == 1
    ensures v >= 0x80 ==> Sov(v) == 1 + Sov(Rest(v))
  {
    OddBits(v);
    SovIsLeast(v, 1);
    assert DropGroups(v, 1) == DropGroups(Rest(v), 0);
    SovPositive(v);
    if v >= 0x80 {
      SovPositive(Rest(v));
      SovIsLeast(v, 1 + Sov(Rest(v)));
      SovIsLeast(Rest(v), Sov(Rest(v)));
      if Sov(v) > 1 {
        SovIsLeast(v, Sov(v));
        SovIsLeast(Rest(v), Sov(v) - 1);
      }
    }
  }

  lemma SovPositive(v: bv64)
    ensures Sov(v) >= 1
  {
    LenBits(Odd(v), 0);
    OddIsNotZero(v);
  }

  lemma OddIsNotZero(v: bv64)
    ensures Odd(v) != 0
  {
  }

  /** The encoder writes exactly sovTopicMessage(v) bytes. */
  lemma {:induction false} EncodeLength(v: bv64)
    ensures |EncodeVarint(v)| == Sov(v)
    decreases v
  {
    SovStep(v);
    if v >= 0x80 {
      RestIsSmaller(v);
      EncodeLength(Rest(v));
    }
  }

  lemma ThreeGroups(v: bv64, n: nat)
    ensures DropGroups(v, n + 3) == DropGroups(v >> 21, n)
  {
    RestThrice(v);
    assert DropGroups(v, n + 3) == DropGroups(Rest(v), n + 2);
    assert DropGroups(Rest(v), n + 2) == DropGroups(Rest(Rest(v)), n + 1);
  }

  lemma RestThrice(v: bv64)
    ensures Rest(Rest(Rest(v))) == v >> 21
  {
  }

  lemma NineGroups(v: bv64)
    ensures DropGroups(v, 9) == v >> 63
  {
    ThreeGroups(v, 6);
    ThreeGroups(v >> 21, 3);
    ThreeGroups(v >> 21 >> 21, 0);
    ShiftThrice(v);
  }

  lemma ShiftThrice(v: bv64)
    ensures v >> 21 >> 21 >> 21 == v >> 63
    ensures Rest(v >> 63) == 0
  {
  }

  /** A varint has at most ten bytes, and all ten exactly when the top bit is set. */
  lemma SovTen(v: bv64)
    ensures Sov(v) <= 10
    ensures Sov(v) == 10 <==> v >> 63 != 0
  {
    NineGroups(v);
    ShiftThrice(v);
    SovIsLeast(v, 9);
    SovIsLeast(v, 10);
    DropOneMore(v, 9);
  }

  lemma {:induction false} DropOneMore(v: bv64, n: nat)
    ensures DropGroups(v, n + 1) == Rest(DropGroups(v, n))
    decreases n
  {
    if n > 0 {
      DropOneMore(Rest(v), n - 1);
    }
  }
}
