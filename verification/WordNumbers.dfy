/** What the words of the codec are as integers: data/topicMessage.pb.go reads a base 128 numeral
    modulo 2^64, takes the field number and the wire type out of it by division, and truncates to 32
    bits. The functions of modules Varint and TopicMessage say all this with bit operations; here it
    is arithmetic on the bytes. */
module WordNumbers {
  import opened Wrappers
  import opened Varint
  import opened TopicMessage
  import opened TopicMessageLaws

  const TWO_32: int := 0x1_0000_0000
  const TWO_64: int := 0x1_0000_0000_0000_0000

  // ---------- a word cut in two ----------

  function And(w: bv64, m: bv64): bv64 {
    w & m
  }

  /** m has the k lowest bits and no other. */
  predicate IsMask(m: bv64, k: nat) {
    if k == 0 then m == 0 else BitOf(m) == 1 && IsMask(Half(m), k - 1)
  }

  lemma AndBit(w: bv64, m: bv64)
    requires BitOf(m) == 1
    ensures BitOf(And(w, m)) == BitOf(w)
  {
  }

  lemma AndHalf(w: bv64, m: bv64)
    ensures Half(And(w, m)) == And(Half(w), Half(m))
  {
  }

  lemma AndZero(w: bv64)
    ensures And(w, 0) == 0
  {
  }

  /** A word is its k lowest bits and 2^k times the rest. */
  lemma {:induction false} CutInt(w: bv64, m: bv64, k: nat)
    requires IsMask(m, k)
    ensures IntOf(w) == IntOf(And(w, m)) + Pow2(k) * IntOf(Halves(w, k))
    ensures IntOf(And(w, m)) < Pow2(k)
    decreases k
  {
    hide IntOf, Half, BitOf, And;
    if k == 0 {
      AndZero(w);
      IntOfZero();
    } else {
      CutInt(Half(w), Half(m), k - 1);
      AndBit(w, m);
      AndHalf(w, m);
      IntOfHalf(w);
      IntOfHalf(And(w, m));
      BitAtMostOne(w);
      CutStep(BitOf(w), IntOf(And(Half(w), Half(m))), Pow2(k - 1), IntOf(Halves(Half(w), k - 1)));
    }
  }

  lemma CutStep(bit: nat, low: nat, p: nat, h: nat)
    requires bit <= 1 && low < p
    ensures bit + 2 * (low + p * h) == (bit + 2 * low) + (2 * p) * h
    ensures bit + 2 * low < 2 * p
  {
  }

  /** Eight bits more. */
  lemma MoreBits(m: bv64, k: nat)
    requires IsMask(m >> 8, k) && m & 0xFF == 0xFF
    ensures IsMask(m, k + 8)
  {
    EightHalves(m);
    LowByte(m);
    hide Half, BitOf;
    var a := Half(m);
    var b := Half(a);
    var c := Half(b);
    var d := Half(c);
    var e := Half(d);
    var f := Half(e);
    var g := Half(f);
    assert IsMask(g, k + 1);
    assert IsMask(f, k + 2);
    assert IsMask(e, k + 3);
    assert IsMask(d, k + 4);
    assert IsMask(c, k + 5);
    assert IsMask(b, k + 6);
    assert IsMask(a, k + 7);
  }

  lemma EightHalves(m: bv64)
    ensures Half(Half(Half(Half(Half(Half(Half(Half(m)))))))) == m >> 8
  {
  }

  lemma LowByte(m: bv64)
    requires m & 0xFF == 0xFF
    ensures var a := Half(m); var b := Half(a); var c := Half(b); var d := Half(c); var e := Half(d); var f := Half(e);
            && BitOf(m) == 1 && BitOf(a) == 1 && BitOf(b) == 1 && BitOf(c) == 1 && BitOf(d) == 1 && BitOf(e) == 1
            && BitOf(f) == 1 && BitOf(Half(f)) == 1
  {
  }

  /** The masks in use. */
  lemma Masks()
    ensures IsMask(0x7, 3) && IsMask(0x7FFF_FFFF, 31) && IsMask(0xFFFF_FFFF, 32)
    ensures IsMask(0x7FFF_FFFF_FFFF_FFFF, 63) && IsMask(0xFFFF_FFFF_FFFF_FFFF, 64)
  {
    SmallMasks();
    hide IsMask;
    MoreBits(0xFF, 0);
    MoreBits(0xFFFF, 8);
    MoreBits(0xFF_FFFF, 16);
    MoreBits(0xFFFF_FFFF, 24);
    MoreBits(0xFF_FFFF_FFFF, 32);
    MoreBits(0xFFFF_FFFF_FFFF, 40);
    MoreBits(0xFF_FFFF_FFFF_FFFF, 48);
    MoreBits(0xFFFF_FFFF_FFFF_FFFF, 56);
    MoreBits(0x7FFF, 7);
    MoreBits(0x7F_FFFF, 15);
    MoreBits(0x7FFF_FFFF, 23);
    MoreBits(0x7F_FFFF_FFFF, 31);
    MoreBits(0x7FFF_FFFF_FFFF, 39);
    MoreBits(0x7F_FFFF_FFFF_FFFF, 47);
    MoreBits(0x7FFF_FFFF_FFFF_FFFF, 55);
  }

  lemma SmallMasks()
    ensures IsMask(0, 0) && IsMask(0x7, 3) && IsMask(0x7F, 7)
  {
    assert IsMask(0x7, 3) by {
      assert IsMask(0x1, 1) && IsMask(0x3, 2);
    }
    assert IsMask(0x7F, 7) by {
      assert IsMask(0xF, 4);
      assert IsMask(0x1F, 5);
      assert IsMask(0x3F, 6);
    }
  }

  lemma BitAtMostOne(w: bv64)
    ensures BitOf(w) <= 1
  {
  }

  lemma IntOfZero()
    ensures IntOf(0) == 0
  {
  }

  lemma Powers()
    ensures Pow2(3) == 8 && Pow2(31) == 0x8000_0000 && Pow2(32) == TWO_32
    ensures Pow2(63) == INT_LIMIT && Pow2(64) == TWO_64
  {
    Pow2OfWord();
    assert Pow2(8) == 256;
    assert Pow2(3) == 8;
    Pow2Sum(8, 8);
    Pow2Sum(16, 16);
  }

  /** Every word is a number below 2^64, negative as a Go int exactly from 2^63 on. */
  lemma WordRange(w: bv64)
    ensures IntOf(w) < TWO_64
    ensures IsNegative(w) <==> IntOf(w) >= INT_LIMIT
  {
    hide IntOf, IsNegative, And, Pow2, Halves, IsMask;
    Powers();
    Masks();
    CutInt(w, 0xFFFF_FFFF_FFFF_FFFF, 64);
    AllBits(w);
    CutInt(w, 0x7FFF_FFFF_FFFF_FFFF, 63);
    TopBit(w);
    if IntOf(w) == IntOf(And(w, 0x7FFF_FFFF_FFFF_FFFF)) {
      SameBits(w, And(w, 0x7FFF_FFFF_FFFF_FFFF));
    }
  }

  lemma AllBits(w: bv64)
    ensures And(w, 0xFFFF_FFFF_FFFF_FFFF) == w
  {
  }

  lemma TopBit(w: bv64)
    ensures And(w, 0x7FFF_FFFF_FFFF_FFFF) == w <==> !IsNegative(w)
  {
  }

  lemma {:induction false} SameBits(a: bv64, b: bv64)
    requires IntOf(a) == IntOf(b)
    ensures a == b
    decreases a
  {
    if a == 0 || b == 0 {
      ZeroInt(a);
      ZeroInt(b);
    } else {
      IntOfHalf(a);
      IntOfHalf(b);
      HalfIsSmaller(a);
      SameBits(Half(a), Half(b));
      FromHalf(a, b);
    }
  }

  lemma ZeroInt(a: bv64)
    ensures IntOf(a) == 0 <==> a == 0
    decreases a
  {
    if a != 0 {
      HalfIsSmaller(a);
      ZeroInt(Half(a));
      NotZero(a);
    }
  }

  lemma NotZero(a: bv64)
    requires a != 0
    ensures Half(a) != 0 || BitOf(a) == 1
  {
  }

  lemma FromHalf(a: bv64, b: bv64)
    requires Half(a) == Half(b) && BitOf(a) == BitOf(b)
    ensures a == b
  {
  }

  // ---------- tags ----------

  lemma ThreeHalves(w: bv64)
    ensures w >> 3 == Half(Half(Half(w)))
  {
  }

  lemma EighthIsHalves(w: bv64)
    ensures w >> 3 == Halves(w, 3)
  {
    hide Half;
    ThreeHalves(w);
    var a := Half(w);
    var b := Half(a);
    assert Halves(b, 1) == Halves(Half(b), 0);
    assert Halves(a, 2) == Halves(b, 1);
    assert Halves(w, 3) == Halves(a, 2);
  }

  lemma WireTypeBits(w: bv64)
    ensures WireType(w) == And(w, 0x7)
  {
  }

  lemma Low32Bits(w: bv64)
    ensures Wide(Low32(w)) == And(w, 0xFFFF_FFFF)
  {
  }

  /** The conversion to uint32 keeps the number modulo 2^32. */
  lemma Low32Modulo(w: bv64)
    ensures IntOf(Wide(Low32(w))) == IntOf(w) % TWO_32
  {
    hide IntOf, Wide, Low32, And, Pow2, Halves, IsMask;
    Low32Bits(w);
    Powers();
    Masks();
    CutInt(w, 0xFFFF_FFFF, 32);
  }

  lemma IllegalWide(f: bv32)
    ensures IllegalField(f) <==> Wide(f) == 0 || And(Wide(f), 0x7FFF_FFFF) != Wide(f)
  {
  }

  /** A number is illegal when it is zero, or negative as an int32. */
  lemma IllegalNumber(f: bv32)
    ensures IllegalField(f) <==> IntOf(Wide(f)) == 0 || IntOf(Wide(f)) >= 0x8000_0000
  {
    hide IntOf, IllegalField, And, Pow2, Halves, Wide, IsMask;
    var w := Wide(f);
    IllegalWide(f);
    ZeroInt(w);
    Powers();
    Masks();
    CutInt(w, 0x7FFF_FFFF, 31);
    if IntOf(w) == IntOf(And(w, 0x7FFF_FFFF)) {
      SameBits(w, And(w, 0x7FFF_FFFF));
    }
  }

  lemma CutTag(wire: bv64)
    ensures IntOf(WireType(wire)) == IntOf(wire) % 8 && IntOf(wire >> 3) == IntOf(wire) / 8
  {
    hide IntOf, WireType, And, Pow2, Halves, IsMask;
    Powers();
    Masks();
    WireTypeBits(wire);
    CutInt(wire, 0x7, 3);
    EighthIsHalves(wire);
  }

  /** The tag of a field, for every word: the wire type is the remainder by 8, the field number the
      quotient modulo 2^32, and it is illegal when it is zero or 2^31 and more. */
  lemma TagNumbers(wire: bv64)
    ensures IntOf(WireType(wire)) == IntOf(wire) % 8
    ensures IntOf(Wide(FieldNumber(wire))) == IntOf(wire) / 8 % 0x1_0000_0000
    ensures IllegalField(FieldNumber(wire)) <==>
            IntOf(wire) / 8 % 0x1_0000_0000 == 0 || IntOf(wire) / 8 % 0x1_0000_0000 >= 0x8000_0000
  {
    hide IntOf, WireType, FieldNumber, IllegalField;
    CutTag(wire);
    Low32Modulo(wire >> 3);
    FieldNumberIs(wire);
    IllegalNumber(FieldNumber(wire));
  }

  lemma FieldNumberIs(wire: bv64)
    ensures FieldNumber(wire) == Low32(wire >> 3)
  {
  }

  // ---------- the shift loop as a numeral ----------

  /** s stands at i in d up to n, a varint: at most ten bytes, the last one below 128 and only that. */
  predicate EndsAt(d: seq<Byte>, i: nat, n: nat) {
    && i < n <= |d| && n <= i + 10
    && d[n - 1] < 0x80
    && forall k :: i <= k < n - 1 ==> d[k] >= 0x80
  }

  /** The payload bits of the bytes, as one word; bits above the 64th fall off. */
  function Gathered(s: seq<Byte>): bv64 {
    if s == [] then 0 else Or(Low7(s[0]), Left(Gathered(s[1..]), 7))
  }

  lemma DoubleInt(w: bv64, bit: nat)
    requires bit <= 1
    ensures IntOf(Twice(w, bit)) == (2 * IntOf(w) + bit) % TWO_64
  {
    hide IntOf, Half, BitOf, Twice, And, Pow2, Halves, IsMask;
    IntOfHalf(Twice(w, bit));
    HalfOfTwice(w, bit);
    Masks();
    CutInt(w, 0x7FFF_FFFF_FFFF_FFFF, 63);
    Powers();
    WordRange(w);
    TopOff(IntOf(w), IntOf(And(w, 0x7FFF_FFFF_FFFF_FFFF)), IntOf(Halves(w, 63)), bit);
  }

  lemma TopOff(n: nat, low: nat, high: nat, bit: nat)
    requires n == low + INT_LIMIT * high && low < INT_LIMIT && n < TWO_64 && bit <= 1
    ensures bit + 2 * low == (2 * n + bit) % TWO_64
  {
  }

  lemma HalfOfTwice(w: bv64, bit: nat)
    requires bit <= 1
    ensures Half(Twice(w, bit)) == And(w, 0x7FFF_FFFF_FFFF_FFFF) && BitOf(Twice(w, bit)) == bit
  {
  }

  function BitAt7(b: Byte, mask: Byte): nat {
    if b & mask == 0 then 0 else 1
  }

  lemma GroupIsDoublings(b: Byte, w: bv64)
    ensures Or(Low7(b), Left(w, 7)) ==
            Twice(Twice(Twice(Twice(Twice(Twice(Twice(w, BitAt7(b, 0x40)), BitAt7(b, 0x20)), BitAt7(b, 0x10)),
                  BitAt7(b, 0x08)), BitAt7(b, 0x04)), BitAt7(b, 0x02)), BitAt7(b, 0x01))
  {
  }

  lemma DigitBitsOf(b: Byte)
    ensures Digit(b) == 64 * BitAt7(b, 0x40) + 32 * BitAt7(b, 0x20) + 16 * BitAt7(b, 0x10) + 8 * BitAt7(b, 0x08)
                        + 4 * BitAt7(b, 0x04) + 2 * BitAt7(b, 0x02) + BitAt7(b, 0x01)
  {
    DigitIsSum(b);
  }

  lemma DoubleMore(x: nat, y: nat, bit: nat)
    requires x == y % TWO_64
    ensures (2 * x + bit) % TWO_64 == (2 * y + bit) % TWO_64
  {
    var q := y / TWO_64;
    assert 2 * y + bit == 2 * x + bit + TWO_64 * (2 * q);
    WholeTimes(2 * x + bit, 2 * q);
  }

  lemma WholeTimes(a: nat, q: nat)
    ensures (a + TWO_64 * q) % TWO_64 == a % TWO_64
  {
  }

  /** Two doublings of a word that is n modulo 2^64. */
  lemma DoubleBoth(w: bv64, n: nat, high: nat, low: nat)
    requires IntOf(w) == n % TWO_64 && high <= 1 && low <= 1
    ensures IntOf(Twice(Twice(w, high), low)) == (4 * n + 2 * high + low) % TWO_64
  {
    hide IntOf, Twice;
    DoubleInt(w, high);
    DoubleMore(IntOf(w), n, high);
    DoubleInt(Twice(w, high), low);
    DoubleMore(IntOf(Twice(w, high)), 2 * n + high, low);
  }

  lemma GroupInt(b: Byte, w: bv64)
    ensures IntOf(Or(Low7(b), Left(w, 7))) == (Digit(b) + 128 * IntOf(w)) % TWO_64
  {
    hide IntOf, Digit, Or, Left, Low7, Twice, BitAt7;
    GroupIsDoublings(b, w);
    DigitBitsOf(b);
    BitBound(b);
    WordRange(w);
    var n := IntOf(w);
    var b0, b1, b2, b3 := BitAt7(b, 0x40), BitAt7(b, 0x20), BitAt7(b, 0x10), BitAt7(b, 0x08);
    var b4, b5, b6 := BitAt7(b, 0x04), BitAt7(b, 0x02), BitAt7(b, 0x01);
    var w2, n2 := Twice(Twice(w, b0), b1), 4 * n + 2 * b0 + b1;
    DoubleBoth(w, n, b0, b1);
    var w4, n4 := Twice(Twice(w2, b2), b3), 4 * n2 + 2 * b2 + b3;
    DoubleBoth(w2, n2, b2, b3);
    var w6, n6 := Twice(Twice(w4, b4), b5), 4 * n4 + 2 * b4 + b5;
    DoubleBoth(w4, n4, b4, b5);
    DoubleInt(w6, b6);
    DoubleMore(IntOf(w6), n6, b6);
    assert 2 * n6 + b6 == Digit(b) + 128 * n;
  }

  lemma BitBound(b: Byte)
    ensures forall mask :: BitAt7(b, mask) <= 1
  {
  }

  lemma {:induction false} GatheredIsNumeral(s: seq<Byte>)
    ensures IntOf(Gathered(s)) == Numeral(s) % TWO_64
    decreases |s|
  {
    hide IntOf, Or, Left, Low7, Digit;
    if s == [] {
      IntOfZero();
    } else {
      GatheredIsNumeral(s[1..]);
      GroupInt(s[0], Gathered(s[1..]));
      ModuloInside(Digit(s[0]), Numeral(s[1..]));
    }
  }

  lemma ModuloInside(d: nat, n: nat)
    ensures (d + 128 * (n % TWO_64)) % TWO_64 == (d + 128 * n) % TWO_64
  {
    var q := n / TWO_64;
    assert d + 128 * n == d + 128 * (n % TWO_64) + TWO_64 * (128 * q);
    WholeTimes(d + 128 * (n % TWO_64), 128 * q);
  }

  /** The shift after g groups. */
  function ShiftOf(g: nat): bv64
    requires g < 10
  {
    if g == 0 then 0 else if g == 1 then 7 else if g == 2 then 14 else if g == 3 then 21 else if g == 4 then 28
    else if g == 5 then 35 else if g == 6 then 42 else if g == 7 then 49 else if g == 8 then 56 else 63
  }

  lemma NextGroup(g: nat)
    requires g < 10
    ensures IsShift(ShiftOf(g)) && ShiftOf(g) < 64
    ensures if g < 9 then ShiftOf(g) < 63 && ShiftOf(g + 1) == ShiftOf(g) + 7 else ShiftOf(g) + 7 >= 64
  {
  }

  /** What is laid on acc by the bytes of d from i to n. */
  function Laid(acc: bv64, d: seq<Byte>, i: nat, n: nat, s: bv64): bv64
    requires i <= n <= |d| && s < 64
  {
    Put(acc, Gathered(d[i..n]), s)
  }

  lemma LaidNothing(acc: bv64, d: seq<Byte>, i: nat, s: bv64)
    requires i <= |d| && s < 64
    ensures Laid(acc, d, i, i, s) == acc
  {
    assert d[i..i] == [];
    PutNothing(acc, s);
  }

  lemma PutNothing(acc: bv64, s: bv64)
    requires s < 64
    ensures Put(acc, 0, s) == acc
  {
  }

  lemma OneGroup(b: Byte)
    ensures Or(Low7(b), Left(0, 7)) == Low7(b)
  {
  }

  lemma LaidOne(acc: bv64, d: seq<Byte>, i: nat, s: bv64)
    requires i < |d| && s < 64
    ensures Laid(acc, d, i, i + 1, s) == Lay(acc, d[i], s)
  {
    hide Or, Left, Low7, Put;
    assert d[i..i + 1] == [d[i]] && [d[i]][1..] == [];
    OneGroup(d[i]);
    assert Gathered([]) == 0;
    assert Gathered(d[i..i + 1]) == Or(Low7(d[i]), Left(Gathered([]), 7));
  }

  lemma LaidMore(acc: bv64, d: seq<Byte>, i: nat, n: nat, s: bv64)
    requires i < n <= |d| && IsShift(s) && s < 63
    ensures s + 7 < 64 && Laid(Lay(acc, d[i], s), d, i + 1, n, s + 7) == Laid(acc, d, i, n, s)
  {
    hide Or, Left, Low7, Put, IsShift;
    assert d[i..n][1..] == d[i + 1..n];
    PutJoined(acc, Low7(d[i]), Gathered(d[i + 1..n]), s);
  }

  /** Where the loop stops that has seen g groups: at ten groups, or at the end of the buffer. */
  function LoopEnd(d: seq<Byte>, i: nat, g: nat): nat
    requires i <= |d| && g < 10
  {
    if i + 10 - g <= |d| then i + 10 - g else |d|
  }

  lemma {:induction false} ScanGathers(d: seq<Byte>, i: nat, acc: bv64, g: nat)
    requires i <= |d| && g < 10 && ShiftOf(g) < 64
    ensures match ScanVarint(d, i, ShiftOf(g), acc)
            case Done(v, n) => EndsAt(d, i, n) && n <= i + 10 - g && v == Laid(acc, d, i, n, ShiftOf(g))
            case Stop(e, p) =>
              && (forall k :: i <= k < LoopEnd(d, i, g) ==> d[k] >= 0x80)
              && e == (if i + 10 - g <= |d| then IntOverflow else UnexpectedEOF)
              && p == Laid(acc, d, i, LoopEnd(d, i, g), ShiftOf(g))
    decreases |d| - i
  {
    hide Laid, Lay, ShiftOf, IsShift;
    NextGroup(g);
    if i == |d| {
      LaidNothing(acc, d, i, ShiftOf(g));
    } else if d[i] < 0x80 || g == 9 {
      LaidOne(acc, d, i, ShiftOf(g));
    } else {
      NextGroup(g + 1);
      ScanGathers(d, i + 1, Lay(acc, d[i], ShiftOf(g)), g + 1);
      var r := ScanVarint(d, i, ShiftOf(g), acc);
      LaidMore(acc, d, i, if r.Done? then r.next else LoopEnd(d, i, g), ShiftOf(g));
    }
  }

  /** The shift loop on every buffer: it succeeds exactly when one of the next ten bytes is below 128,
      behind the first such byte, with the numeral of these bytes modulo 2^64, whether or not they
      are the shortest ones. Else it overflows exactly when there are ten bytes, and has gathered the
      numeral of those it has seen. */
  lemma ReadExactly(d: seq<Byte>, i: nat)
    requires i <= |d|
    ensures match ReadVarint(d, i)
            case Done(w, n) => EndsAt(d, i, n) && IntOf(w) == Numeral(d[i..n]) % TWO_64
            case Stop(e, p) =>
              var n := if i + 10 <= |d| then i + 10 else |d|;
              && (forall k :: i <= k < n ==> d[k] >= 0x80)
              && e == (if i + 10 <= |d| then IntOverflow else UnexpectedEOF)
              && IntOf(p) == Numeral(d[i..n]) % TWO_64
  {
    hide IntOf, Put, Gathered, Numeral;
    NextGroup(0);
    ScanGathers(d, i, 0, 0);
    match ReadVarint(d, i)
    case Done(w, n) =>
      PutZero(Gathered(d[i..n]));
      GatheredIsNumeral(d[i..n]);
    case Stop(e, p) =>
      var n := LoopEnd(d, i, 0);
      PutZero(Gathered(d[i..n]));
      GatheredIsNumeral(d[i..n]);
  }

  /** The other direction: where a varint stands, the loop reads it. */
  lemma ReadWhereEnds(d: seq<Byte>, i: nat, n: nat)
    requires EndsAt(d, i, n)
    ensures ReadVarint(d, i).Done? && ReadVarint(d, i).next == n
  {
    hide ReadVarint;
    ReadExactly(d, i);
    match ReadVarint(d, i)
    case Done(w, k) => assert d[k - 1] < 0x80 && d[n - 1] < 0x80;
    case Stop(e, p) => assert d[n - 1] < 0x80;
  }
}
