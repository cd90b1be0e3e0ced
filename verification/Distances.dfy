/** The two peer distances of libp2p/networksharding/listsSharder.go. The hashes of the peer ids
    are byte strings of one length; how they are computed belongs to another repository. */
module Distances {
  import opened Wrappers

  type Byte = bv8

  function Xor(a: Byte, b: Byte): Byte {
    a ^ b
  }

  // ---------- one byte ----------

  function BitAt(b: Byte, mask: Byte): nat {
    if b & mask == 0 then 0 else 1
  }

  /** math/bits.OnesCount8 */
  function Ones(b: Byte): nat {
    BitAt(b, 0x01) + BitAt(b, 0x02) + BitAt(b, 0x04) + BitAt(b, 0x08)
    + BitAt(b, 0x10) + BitAt(b, 0x20) + BitAt(b, 0x40) + BitAt(b, 0x80)
  }

  /** The number of zero bits above the highest one bit. */
  function LeadingZeros(b: Byte): (z: nat)
    ensures z <= 8
  {
    if b >= 0x80 then 0 else if b >= 0x40 then 1 else if b >= 0x20 then 2 else if b >= 0x10 then 3
    else if b >= 0x08 then 4 else if b >= 0x04 then 5 else if b >= 0x02 then 6 else if b >= 0x01 then 7 else 8
  }

  function Row(n: int): seq<int> {
    [n, n, n, n, n, n, n, n]
  }

  /** leadingZerosCount, eight entries a row. */
  const LEADING_ZEROS_COUNT: seq<int> :=
    [8, 7, 6, 6, 5, 5, 5, 5] + Row(4) + (Row(3) + Row(3)) + (Row(2) + Row(2) + Row(2) + Row(2))
    + Rows8(1) + (Rows8(0) + Rows8(0))

  function Rows8(n: int): seq<int> {
    Row(n) + Row(n) + Row(n) + Row(n) + Row(n) + Row(n) + Row(n) + Row(n)
  }

  lemma RowsAt(n: int, i: nat)
    requires i < 64
    ensures |Rows8(n)| == 64 && Rows8(n)[i] == n
  {
  }

  lemma {:induction false} TableEntries(i: nat)
    requires i < 256
    ensures |LEADING_ZEROS_COUNT| == 256
    ensures LEADING_ZEROS_COUNT[i] ==
            if i >= 128 then 0 else if i >= 64 then 1 else if i >= 32 then 2 else if i >= 16 then 3
            else if i >= 8 then 4 else if i >= 4 then 5 else if i >= 2 then 6 else if i >= 1 then 7 else 8
  {
    RowsAt(1, if 64 <= i < 128 then i - 64 else 0);
    RowsAt(0, if 128 <= i < 192 then i - 128 else 0);
    RowsAt(0, if 192 <= i then i - 192 else 0);
  }

  /** The table gives the number of leading zeros of every byte. */
  lemma TableIsLeadingZeros(b: Byte)
    ensures |LEADING_ZEROS_COUNT| == 256 && LEADING_ZEROS_COUNT[b as int] == LeadingZeros(b)
  {
    TableEntries(b as int);
    ByteOrder(b);
  }

  lemma ByteOrder(b: Byte)
    ensures (b >= 0x80 <==> b as int >= 128) && (b >= 0x40 <==> b as int >= 64)
    ensures (b >= 0x20 <==> b as int >= 32) && (b >= 0x10 <==> b as int >= 16)
    ensures (b >= 0x08 <==> b as int >= 8) && (b >= 0x04 <==> b as int >= 4)
    ensures (b >= 0x02 <==> b as int >= 2) && (b >= 0x01 <==> b as int >= 1)
  {
  }

  lemma XorBits(x: Byte, y: Byte)
    ensures Ones(Xor(x, y)) <= Ones(x) + Ones(y)
  {
    XorBit(x, y, 0x01);
    XorBit(x, y, 0x02);
    XorBit(x, y, 0x04);
    XorBit(x, y, 0x08);
    XorBit(x, y, 0x10);
    XorBit(x, y, 0x20);
    XorBit(x, y, 0x40);
    XorBit(x, y, 0x80);
  }

  lemma XorBit(x: Byte, y: Byte, mask: Byte)
    ensures BitAt(Xor(x, y), mask) <= BitAt(x, mask) + BitAt(y, mask)
  {
  }

  lemma XorAlgebra(a: Byte, b: Byte, c: Byte)
    ensures Xor(a, b) == Xor(b, a)
    ensures Xor(a, b) == 0 <==> a == b
    ensures Xor(a, c) == Xor(Xor(a, b), Xor(b, c))
  {
  }

  lemma OnesOfByte(x: Byte)
    ensures Ones(x) == 0 <==> x == 0
    ensures Ones(x) <= 8 - LeadingZeros(x)
    ensures LeadingZeros(x) == 8 <==> x == 0
  {
  }

  lemma XorLeading(x: Byte, y: Byte)
    ensures LeadingZeros(Xor(x, y)) >= LeadingZeros(x) || LeadingZeros(Xor(x, y)) >= LeadingZeros(y)
  {
  }

  // ---------- counting bits ----------

  /** The number of differing bits. */
  function CountingBits(a: seq<Byte>, b: seq<Byte>): nat
    requires |a| == |b|
  {
    if a == [] then 0 else Ones(Xor(a[0], b[0])) + CountingBits(a[1..], b[1..])
  }

  lemma {:induction false} CountingSymmetric(a: seq<Byte>, b: seq<Byte>)
    requires |a| == |b|
    ensures CountingBits(a, b) == CountingBits(b, a)
  {
    if a != [] {
      XorAlgebra(a[0], b[0], b[0]);
      CountingSymmetric(a[1..], b[1..]);
    }
  }

  lemma {:induction false} CountingZero(a: seq<Byte>, b: seq<Byte>)
    requires |a| == |b|
    ensures CountingBits(a, b) == 0 <==> a == b
  {
    if a != [] {
      XorAlgebra(a[0], b[0], b[0]);
      OnesOfByte(Xor(a[0], b[0]));
      CountingZero(a[1..], b[1..]);
      assert a == [a[0]] + a[1..] && b == [b[0]] + b[1..];
    }
  }

  lemma {:induction false} CountingTriangle(a: seq<Byte>, b: seq<Byte>, c: seq<Byte>)
    requires |a| == |b| == |c|
    ensures CountingBits(a, c) <= CountingBits(a, b) + CountingBits(b, c)
  {
    if a != [] {
      XorAlgebra(a[0], b[0], c[0]);
      XorBits(Xor(a[0], b[0]), Xor(b[0], c[0]));
      CountingTriangle(a[1..], b[1..], c[1..]);
    }
  }

  /** computeDistanceByCountingBits is a metric on the hashes. */
  lemma {:induction false} CountingIsMetric(a: seq<Byte>, b: seq<Byte>, c: seq<Byte>)
    requires |a| == |b| == |c|
    ensures CountingBits(a, b) == CountingBits(b, a)
    ensures CountingBits(a, b) == 0 <==> a == b
    ensures CountingBits(a, c) <= CountingBits(a, b) + CountingBits(b, c)
  {
    CountingSymmetric(a, b);
    CountingZero(a, b);
    CountingTriangle(a, b, c);
  }

  // ---------- the independent reading: positions ----------

  function Number(b: Byte): nat {
    b as int
  }

  /** The k-th bit of the hash, its bytes read as integers. */
  function HashBit(a: seq<Byte>, k: nat): nat
    requires k < 8 * |a|
  {
    Number(a[k / 8]) / Pow2(k % 8) % 2
  }

  /** The number of the first n positions at which the hashes differ. */
  function DifferingBits(a: seq<Byte>, b: seq<Byte>, n: nat): nat
    requires |a| == |b| && n <= 8 * |a|
  {
    if n == 0 then 0 else DifferingBits(a, b, n - 1) + if HashBit(a, n - 1) != HashBit(b, n - 1) then 1 else 0
  }

  function HalfByte(b: Byte): Byte {
    b >> 1
  }

  lemma HalfByteInt(b: Byte)
    ensures HalfByte(b) as int == b as int / 2
  {
  }

  lemma LowBitInt(b: Byte)
    ensures BitAt(b, 0x01) == b as int % 2
  {
  }

  lemma NextMask(b: Byte)
    ensures BitAt(b, 0x02) == BitAt(HalfByte(b), 0x01) && BitAt(b, 0x04) == BitAt(HalfByte(b), 0x02)
    ensures BitAt(b, 0x08) == BitAt(HalfByte(b), 0x04) && BitAt(b, 0x10) == BitAt(HalfByte(b), 0x08)
    ensures BitAt(b, 0x20) == BitAt(HalfByte(b), 0x10) && BitAt(b, 0x40) == BitAt(HalfByte(b), 0x20)
    ensures BitAt(b, 0x80) == BitAt(HalfByte(b), 0x40)
  {
  }

  lemma Halvings(n: nat)
    ensures n / 2 / 2 == n / 4 && n / 4 / 2 == n / 8 && n / 8 / 2 == n / 16 && n / 16 / 2 == n / 32
    ensures n / 32 / 2 == n / 64 && n / 64 / 2 == n / 128
  {
  }

  /** The bit at each mask, read off the byte as a number. */
  lemma BitValues(b: Byte)
    ensures BitAt(b, 0x01) == Number(b) % 2 && BitAt(b, 0x02) == Number(b) / 2 % 2
    ensures BitAt(b, 0x04) == Number(b) / 4 % 2 && BitAt(b, 0x08) == Number(b) / 8 % 2
    ensures BitAt(b, 0x10) == Number(b) / 16 % 2 && BitAt(b, 0x20) == Number(b) / 32 % 2
    ensures BitAt(b, 0x40) == Number(b) / 64 % 2 && BitAt(b, 0x80) == Number(b) / 128 % 2
  {
    hide BitAt, HalfByte, Number;
    var b1 := HalfByte(b);
    var b2 := HalfByte(b1);
    var b3 := HalfByte(b2);
    var b4 := HalfByte(b3);
    var b5 := HalfByte(b4);
    var b6 := HalfByte(b5);
    var b7 := HalfByte(b6);
    Halvings(Number(b));
    HalfAndBits(b);
    HalfAndBits(b1);
    HalfAndBits(b2);
    HalfAndBits(b3);
    HalfAndBits(b4);
    HalfAndBits(b5);
    HalfAndBits(b6);
    HalfAndBits(b7);
  }

  lemma HalfAndBits(b: Byte)
    ensures Number(HalfByte(b)) == Number(b) / 2 && BitAt(b, 0x01) == Number(b) % 2
    ensures BitAt(b, 0x02) == BitAt(HalfByte(b), 0x01) && BitAt(b, 0x04) == BitAt(HalfByte(b), 0x02)
    ensures BitAt(b, 0x08) == BitAt(HalfByte(b), 0x04) && BitAt(b, 0x10) == BitAt(HalfByte(b), 0x08)
    ensures BitAt(b, 0x20) == BitAt(HalfByte(b), 0x10) && BitAt(b, 0x40) == BitAt(HalfByte(b), 0x20)
    ensures BitAt(b, 0x80) == BitAt(HalfByte(b), 0x40)
  {
    HalfByteInt(b);
    LowBitInt(b);
    NextMask(b);
  }

  lemma XorBitIs(x: Byte, y: Byte, mask: Byte)
    requires mask == 0x01 || mask == 0x02 || mask == 0x04 || mask == 0x08
          || mask == 0x10 || mask == 0x20 || mask == 0x40 || mask == 0x80
    ensures BitAt(Xor(x, y), mask) == if BitAt(x, mask) != BitAt(y, mask) then 1 else 0
  {
  }

  lemma SmallPowers()
    ensures Pow2(0) == 1 && Pow2(1) == 2 && Pow2(2) == 4 && Pow2(3) == 8
    ensures Pow2(4) == 16 && Pow2(5) == 32 && Pow2(6) == 64 && Pow2(7) == 128
  {
    assert Pow2(3) == 8;
    assert Pow2(5) == 32;
  }

  lemma FirstBits(a: seq<Byte>)
    requires a != []
    ensures HashBit(a, 0) == BitAt(a[0], 0x01) && HashBit(a, 1) == BitAt(a[0], 0x02)
    ensures HashBit(a, 2) == BitAt(a[0], 0x04) && HashBit(a, 3) == BitAt(a[0], 0x08)
    ensures HashBit(a, 4) == BitAt(a[0], 0x10) && HashBit(a, 5) == BitAt(a[0], 0x20)
    ensures HashBit(a, 6) == BitAt(a[0], 0x40) && HashBit(a, 7) == BitAt(a[0], 0x80)
  {
    hide BitAt, Pow2, Number;
    SmallPowers();
    BitValues(a[0]);
  }

  lemma FirstByte(a: seq<Byte>, b: seq<Byte>)
    requires |a| == |b| > 0
    ensures DifferingBits(a, b, 8) == Ones(Xor(a[0], b[0]))
  {
    hide BitAt, Xor, HashBit;
    FirstBits(a);
    FirstBits(b);
    var x := Xor(a[0], b[0]);
    XorBitIs(a[0], b[0], 0x01);
    XorBitIs(a[0], b[0], 0x02);
    XorBitIs(a[0], b[0], 0x04);
    XorBitIs(a[0], b[0], 0x08);
    XorBitIs(a[0], b[0], 0x10);
    XorBitIs(a[0], b[0], 0x20);
    XorBitIs(a[0], b[0], 0x40);
    XorBitIs(a[0], b[0], 0x80);
    assert DifferingBits(a, b, 1) == BitAt(x, 0x01);
    assert DifferingBits(a, b, 2) == DifferingBits(a, b, 1) + BitAt(x, 0x02);
    assert DifferingBits(a, b, 3) == DifferingBits(a, b, 2) + BitAt(x, 0x04);
    assert DifferingBits(a, b, 4) == DifferingBits(a, b, 3) + BitAt(x, 0x08);
    assert DifferingBits(a, b, 5) == DifferingBits(a, b, 4) + BitAt(x, 0x10);
    assert DifferingBits(a, b, 6) == DifferingBits(a, b, 5) + BitAt(x, 0x20);
    assert DifferingBits(a, b, 7) == DifferingBits(a, b, 6) + BitAt(x, 0x40);
  }

  lemma {:induction false} LaterBytes(a: seq<Byte>, b: seq<Byte>, n: nat)
    requires |a| == |b| > 0 && n <= 8 * (|a| - 1)
    ensures DifferingBits(a, b, 8 + n) == DifferingBits(a, b, 8) + DifferingBits(a[1..], b[1..], n)
    decreases n
  {
    if n > 0 {
      LaterBytes(a, b, n - 1);
      assert (8 + n - 1) / 8 == 1 + (n - 1) / 8 && (8 + n - 1) % 8 == (n - 1) % 8;
    }
  }

  /** computeDistanceByCountingBits is the number of positions at which the two hashes differ. */
  lemma {:induction false} CountingIsHamming(a: seq<Byte>, b: seq<Byte>)
    requires |a| == |b|
    ensures CountingBits(a, b) == DifferingBits(a, b, 8 * |a|)
    decreases |a|
  {
    hide Ones, Xor;
    if a != [] {
      CountingIsHamming(a[1..], b[1..]);
      FirstByte(a, b);
      LaterBytes(a, b, 8 * (|a| - 1));
    }
  }

  // ---------- the leading bit ----------

  /** The position of the highest differing bit, counted from one. */
  function Log2Based(a: seq<Byte>, b: seq<Byte>): nat
    requires |a| == |b|
  {
    if a == [] then 0
    else if Xor(a[0], b[0]) == 0 then Log2Based(a[1..], b[1..])
    else 8 * |a| - LeadingZeros(Xor(a[0], b[0]))
  }

  lemma {:induction false} Log2Bound(a: seq<Byte>, b: seq<Byte>)
    requires |a| == |b|
    ensures Log2Based(a, b) <= 8 * |a|
  {
    if a != [] {
      Log2Bound(a[1..], b[1..]);
    }
  }

  /** The count of differing bits never exceeds the position of the highest one, and so is at most
      eight times the length of the hash. */
  lemma {:induction false} CountingWithinLog2(a: seq<Byte>, b: seq<Byte>)
    requires |a| == |b|
    ensures CountingBits(a, b) <= Log2Based(a, b) <= 8 * |a|
  {
    if a != [] {
      OnesOfByte(Xor(a[0], b[0]));
      Log2Bound(a, b);
      CountingWithinLog2(a[1..], b[1..]);
    }
  }

  lemma {:induction false} Log2Symmetric(a: seq<Byte>, b: seq<Byte>)
    requires |a| == |b|
    ensures Log2Based(a, b) == Log2Based(b, a)
  {
    if a != [] {
      XorAlgebra(a[0], b[0], b[0]);
      Log2Symmetric(a[1..], b[1..]);
    }
  }

  lemma {:induction false} Log2Zero(a: seq<Byte>, b: seq<Byte>)
    requires |a| == |b|
    ensures Log2Based(a, b) == 0 <==> a == b
  {
    if a != [] {
      XorAlgebra(a[0], b[0], b[0]);
      OnesOfByte(Xor(a[0], b[0]));
      Log2Zero(a[1..], b[1..]);
      assert a == [a[0]] + a[1..] && b == [b[0]] + b[1..];
    }
  }

  function Max(x: nat, y: nat): nat {
    if x < y then y else x
  }

  /** The strong triangle inequality. */
  lemma {:induction false} Log2Ultrametric(a: seq<Byte>, b: seq<Byte>, c: seq<Byte>)
    requires |a| == |b| == |c|
    ensures Log2Based(a, c) <= Max(Log2Based(a, b), Log2Based(b, c))
  {
    if a != [] {
      var x, y := Xor(a[0], b[0]), Xor(b[0], c[0]);
      XorAlgebra(a[0], b[0], c[0]);
      XorAlgebra(b[0], c[0], c[0]);
      XorAlgebra(a[0], c[0], c[0]);
      XorLeading(x, y);
      OnesOfByte(x);
      OnesOfByte(y);
      Log2Bound(a[1..], c[1..]);
      Log2Ultrametric(a[1..], b[1..], c[1..]);
    }
  }

  // ---------- the independent reading: one big number ----------

  function XorAll(a: seq<Byte>, b: seq<Byte>): seq<Byte>
    requires |a| == |b|
  {
    seq(|a|, i requires 0 <= i < |a| => Xor(a[i], b[i]))
  }

  /** The bytes read as one big-endian integer. */
  function BigEndian(s: seq<Byte>): nat {
    if s == [] then 0 else 256 * BigEndian(s[..|s| - 1]) + s[|s| - 1] as int
  }

  /** The number of bits of n without leading zeros. */
  function BitLength(n: nat): nat {
    if n == 0 then 0 else 1 + BitLength(n / 2)
  }

  lemma BitLengthOfByte(b: Byte)
    ensures BitLength(b as int) == 8 - LeadingZeros(b)
  {
    ByteOrder(b);
    SmallBitLength(b as int);
  }

  lemma SmallBitLength(n: nat)
    requires n < 256
    ensures BitLength(n) ==
            if n >= 128 then 8 else if n >= 64 then 7 else if n >= 32 then 6 else if n >= 16 then 5
            else if n >= 8 then 4 else if n >= 4 then 3 else if n >= 2 then 2 else if n >= 1 then 1 else 0
  {
    if n > 0 {
      assert n / 2 < 128;
      assert BitLength(n / 2 / 2 / 2 / 2 / 2 / 2 / 2 / 2) == 0;
    }
  }

  lemma BitLengthShifted(x: nat, low: nat)
    requires x > 0 && low < 256
    ensures BitLength(256 * x + low) == 8 + BitLength(x)
  {
    var n := 256 * x + low;
    FourHalves(n);
    FourHalves(n / 16);
    assert n / 16 / 16 == x;
  }

  lemma FourHalves(n: nat)
    requires n >= 16
    ensures BitLength(n) == 4 + BitLength(n / 16)
  {
    assert n / 2 / 2 == n / 4;
    assert n / 4 / 2 == n / 8;
    assert n / 8 / 2 == n / 16;
    assert BitLength(n / 8) == 1 + BitLength(n / 16);
    assert BitLength(n / 4) == 1 + BitLength(n / 8);
    assert BitLength(n / 2) == 1 + BitLength(n / 4);
  }

  /** Log2Based seen from the last byte. */
  lemma {:induction false} Log2FromEnd(a: seq<Byte>, b: seq<Byte>)
    requires |a| == |b| > 0
    ensures var n := |a| - 1; var d := Log2Based(a[..n], b[..n]);
            Log2Based(a, b) == if d > 0 then 8 + d else 8 - LeadingZeros(Xor(a[n], b[n]))
  {
    hide Ones, LeadingZeros, Xor;
    var n := |a| - 1;
    OnesOfByte(Xor(a[0], b[0]));
    if n == 0 {
      assert a[..0] == [] && b[..0] == [] && a[1..] == [] && b[1..] == [];
      OnesOfByte(Xor(a[n], b[n]));
    } else {
      Log2FromEnd(a[1..], b[1..]);
      assert a[1..][..n - 1] == a[..n][1..] && b[1..][..n - 1] == b[..n][1..];
    }
  }

  /** computeDistanceLog2Based is the bit length of the XOR of the two hashes. */
  lemma {:induction false} Log2IsBitLength(a: seq<Byte>, b: seq<Byte>)
    requires |a| == |b|
    ensures Log2Based(a, b) == BitLength(BigEndian(XorAll(a, b)))
    decreases |a|
  {
    if a != [] {
      var n := |a| - 1;
      var x, last := XorAll(a, b), Xor(a[n], b[n]);
      assert x[..n] == XorAll(a[..n], b[..n]);
      Log2IsBitLength(a[..n], b[..n]);
      Log2FromEnd(a, b);
      BitLengthOfByte(last);
      var high := BigEndian(x[..n]);
      if high > 0 {
        BitLengthShifted(high, last as int);
      }
    }
  }

  // ---------- the loops ----------

  method ComputeDistanceByCountingBits(srcBuff: seq<Byte>, destBuff: seq<Byte>) returns (cumulatedBits: nat)
    requires |srcBuff| == |destBuff|
    ensures cumulatedBits == CountingBits(srcBuff, destBuff)
  {
    cumulatedBits := 0;
    for i := 0 to |srcBuff|
      invariant CountingBits(srcBuff, destBuff) == cumulatedBits + CountingBits(srcBuff[i..], destBuff[i..])
    {
      cumulatedBits := cumulatedBits + Ones(Xor(srcBuff[i], destBuff[i]));
    }
  }

  method ComputeDistanceLog2Based(srcBuff: seq<Byte>, destBuff: seq<Byte>) returns (distance: int)
    requires |srcBuff| == |destBuff|
    ensures distance == Log2Based(srcBuff, destBuff)
  {
    var val, i := 0, 0;
    while i < |srcBuff|
      invariant i <= |srcBuff| && val == 8 * i
      invariant Log2Based(srcBuff, destBuff) == Log2Based(srcBuff[i..], destBuff[i..])
    {
      var result := Xor(srcBuff[i], destBuff[i]);
      TableIsLeadingZeros(result);
      OnesOfByte(result);
      val := val + LEADING_ZEROS_COUNT[result as int];
      if result != 0 {
        break;
      }
      i := i + 1;
    }
    distance := |srcBuff| * 8 - val;
  }
}
