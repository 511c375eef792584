// wtmi/efuse.c, secded_ecc(): eight check bits over 64 bits of data, such that
// single errors can be corrected and double errors detected.  Words are lists
// of bits, least significant first.
module Secded {
  import opened Bits

  type Word = s: seq<bool> | |s| == 64 witness seq(64, i => false)
  type CheckByte = s: seq<bool> | |s| == 8 witness seq(8, i => false)

  // The masks of the eight parity checks.
  function Mask(i: nat): nat
  {
    if i == 0 then 0x145011110ff014ff
    else if i == 1 then 0x24ff2222f000249f
    else if i == 2 then 0x4c9f444400ff44d0
    else if i == 3 then 0x84d08888ff0f8c50
    else if i == 4 then 0x0931f0ff11110b21
    else if i == 5 then 0x0b22ff002222fa32
    else if i == 6 then 0xfa24000f4444ff24
    else 0xff280ff088880928
  }

  predicate MaskBit(i: nat, j: nat) { Shr(Mask(i), j) % 2 == 1 }

  // Check i over the n low bits of the data.
  function Parity(data: Word, i: nat, n: nat): bool
    requires n <= 64
  {
    if n == 0 then false else Parity(data, i, n - 1) != (MaskBit(i, n - 1) && data[n - 1])
  }

  function Ecc(data: Word): CheckByte
  {
    seq(8, i requires 0 <= i < 8 => Parity(data, i, 64))
  }

  method SecdedEcc(data: Word) returns (ecc: CheckByte)
    ensures ecc == Ecc(data)
  {
    ecc := seq(8, i => false);
    for i := 0 to 8
      invariant forall k | 0 <= k < i :: ecc[k] == Parity(data, k, 64)
    {
      var tmp := Mask(i);
      var t := false;
      for j := 0 to 64
        invariant tmp == Shr(Mask(i), j) && t == Parity(data, i, j)
      {
        ShrShr(Mask(i), j, 1);
        if tmp % 2 == 1 {
          t := t != data[j];
        }
        tmp := tmp / 2;
        assert Shr(Shr(Mask(i), j), 1) == tmp;
      }
      ecc := ecc[i := t];
    }
  }

  // ---- weights and distances ----

  function Weight(s: seq<bool>): nat
  {
    if s == [] then 0 else Weight(s[..|s| - 1]) + if s[|s| - 1] then 1 else 0
  }

  function Xor(a: seq<bool>, b: seq<bool>): (r: seq<bool>)
    requires |a| == |b|
    ensures |r| == |a|
  {
    seq(|a|, i requires 0 <= i < |a| => a[i] != b[i])
  }

  function Distance(a: seq<bool>, b: seq<bool>): nat
    requires |a| == |b|
  {
    Weight(Xor(a, b))
  }

  lemma XorLast(a: seq<bool>, b: seq<bool>)
    requires |a| == |b| > 0
    ensures Xor(a, b)[..|a| - 1] == Xor(a[..|a| - 1], b[..|a| - 1])
  {
  }

  lemma {:induction false} WeightXor(a: seq<bool>, b: seq<bool>)
    requires |a| == |b|
    ensures Weight(Xor(a, b)) <= Weight(a) + Weight(b)
    ensures Weight(Xor(a, b)) % 2 == (Weight(a) + Weight(b)) % 2
  {
    if a != [] {
      XorLast(a, b);
      WeightXor(a[..|a| - 1], b[..|a| - 1]);
    }
  }

  lemma {:induction false} WeightConcat(a: seq<bool>, b: seq<bool>)
    ensures Weight(a + b) == Weight(a) + Weight(b)
    decreases |b|
  {
    if b == [] {
      assert a + b == a;
    } else {
      assert (a + b)[..|a + b| - 1] == a + b[..|b| - 1];
      WeightConcat(a, b[..|b| - 1]);
    }
  }

  lemma {:induction false} WeightZero(a: seq<bool>)
    ensures Weight(a) == 0 <==> forall i | 0 <= i < |a| :: !a[i]
  {
    if a != [] { WeightZero(a[..|a| - 1]); }
  }

  lemma WeightPrefix(c: seq<bool>, k: nat)
    requires k < |c|
    ensures Weight(c[..k + 1]) == Weight(c[..k]) + One(c[k], 1)
  {
    assert c[..k + 1][..k] == c[..k];
  }

  lemma Triangle(a: seq<bool>, b: seq<bool>, c: seq<bool>)
    requires |a| == |b| == |c|
    ensures Distance(a, c) <= Distance(a, b) + Distance(b, c)
  {
    assert Xor(Xor(a, b), Xor(b, c)) == Xor(a, c);
    WeightXor(Xor(a, b), Xor(b, c));
  }

  // ---- the columns of the check matrix ----

  // What bit j of the data contributes to the eight checks.
  function Column(j: nat): CheckByte
  {
    [MaskBit(0, j), MaskBit(1, j), MaskBit(2, j), MaskBit(3, j), MaskBit(4, j), MaskBit(5, j), MaskBit(6, j), MaskBit(7, j)]
  }

  function One(b: bool, v: nat): nat { if b then v else 0 }

  predicate BitAt(x: nat, p: nat)
    requires p > 0
  {
    x / p % 2 == 1
  }

  function Term(i: nat, p: nat, v: nat): nat
    requires p > 0
  {
    if BitAt(Mask(i), p) then v else 0
  }

  // The column of j as a number, read off bit j = log2(p) of the masks.
  function Number(p: nat): nat
    requires p > 0
  {
    Term(0, p, 1) + Term(1, p, 2) + Term(2, p, 4) + Term(3, p, 8) +
    Term(4, p, 16) + Term(5, p, 32) + Term(6, p, 64) + Term(7, p, 128)
  }

  // How many ones there are in an 8-bit number.
  function Ones(c: nat): nat { NibbleOnes(c / 16) + NibbleOnes(c % 16) }

  function NibbleOnes(d: nat): nat
  {
    if d == 0 then 0
    else if d == 1 || d == 2 || d == 4 || d == 8 then 1
    else if d == 3 || d == 5 || d == 6 || d == 9 || d == 10 || d == 12 then 2
    else if d == 15 then 4 else 3
  }

  // The data bit whose column has the number c; 64 if there is none.
  function Locate(c: nat): nat
  {
    if c < 0x10 then (if c == 0x07 then 7 else if c == 0x0b then 54 else if c == 0x0d then 6 else if c == 0x0e then 55 else 64)
    else if c < 0x20 then (if c == 0x13 then 0 else if c == 0x15 then 20 else if c == 0x16 then 48 else if c == 0x19 then 24 else if c == 0x1a then 28 else if c == 0x1c then 16 else if c == 0x1f then 52 else 64)
    else if c < 0x30 then (if c == 0x23 then 1 else if c == 0x25 then 21 else if c == 0x26 then 49 else if c == 0x29 then 25 else if c == 0x2a then 29 else if c == 0x2c then 17 else if c == 0x2f then 4 else 64)
    else if c < 0x40 then (if c == 0x31 then 44 else if c == 0x32 then 45 else if c == 0x34 then 46 else if c == 0x38 then 47 else 64)
    else if c < 0x50 then (if c == 0x43 then 2 else if c == 0x45 then 22 else if c == 0x46 then 50 else if c == 0x49 then 26 else if c == 0x4a then 30 else if c == 0x4c then 18 else if c == 0x4f then 10 else 64)
    else if c < 0x60 then (if c == 0x51 then 32 else if c == 0x52 then 33 else if c == 0x54 then 34 else if c == 0x58 then 35 else 64)
    else if c < 0x70 then (if c == 0x61 then 12 else if c == 0x62 then 13 else if c == 0x64 then 14 else if c == 0x68 then 15 else 64)
    else if c < 0x80 then (if c == 0x70 then 9 else 64)
    else if c < 0x90 then (if c == 0x83 then 3 else if c == 0x85 then 23 else if c == 0x86 then 51 else if c == 0x89 then 27 else if c == 0x8a then 31 else if c == 0x8c then 19 else if c == 0x8f then 58 else 64)
    else if c < 0xa0 then (if c == 0x91 then 36 else if c == 0x92 then 37 else if c == 0x94 then 38 else if c == 0x98 then 39 else 64)
    else if c < 0xb0 then (if c == 0xa1 then 40 else if c == 0xa2 then 41 else if c == 0xa4 then 42 else if c == 0xa8 then 43 else 64)
    else if c < 0xc0 then (if c == 0xb0 then 56 else 64)
    else if c < 0xd0 then (if c == 0xc1 then 60 else if c == 0xc2 then 61 else if c == 0xc4 then 62 else if c == 0xc8 then 63 else 64)
    else if c < 0xe0 then (if c == 0xd0 then 8 else 64)
    else if c < 0xf0 then (if c == 0xe0 then 57 else 64)
    else if c < 0x100 then (if c == 0xf1 then 5 else if c == 0xf2 then 53 else if c == 0xf4 then 59 else if c == 0xf8 then 11 else 64)
    else 64
  }

  // Column j differs from all others, and has an odd number of ones, at
  // least three.
  predicate ColumnOk(j: nat, p: nat)
    requires p > 0
  {
    Locate(Number(p)) == j && (Ones(Number(p)) == 3 || Ones(Number(p)) == 5)
  }

  lemma BytePowers()
    ensures Pow2(0) == 1 && Pow2(8) == 0x100 && Pow2(16) == 0x10000 && Pow2(24) == 0x1000000 && Pow2(32) == 0x1_0000_0000
    ensures Pow2(40) == 0x100_0000_0000 && Pow2(48) == 0x1_0000_0000_0000 && Pow2(56) == 0x100_0000_0000_0000
  {
    assert Pow2(8) == 0x100;
    assert Pow2(16) == 0x100 * Pow2(8);
    assert Pow2(24) == 0x100 * Pow2(16);
    assert Pow2(32) == 0x100 * Pow2(24);
    assert Pow2(40) == 0x100 * Pow2(32);
    assert Pow2(48) == 0x100 * Pow2(40);
    assert Pow2(56) == 0x100 * Pow2(48);
  }

  // One byte of the columns at a time: j is 8 * k + r.
  lemma NextPowers(j: nat, p: nat)
    requires p == Pow2(j)
    ensures Pow2(j + 1) == 2 * p && Pow2(j + 2) == 4 * p && Pow2(j + 3) == 8 * p && Pow2(j + 4) == 16 * p
    ensures Pow2(j + 5) == 32 * p && Pow2(j + 6) == 64 * p && Pow2(j + 7) == 128 * p
  {
  }

  lemma Columns0()
    ensures ColumnOk(0, 0x1) && ColumnOk(1, 0x2)
  {
    assert Number(0x1) == 0x13 && Number(0x2) == 0x23;
  }

  lemma Columns2()
    ensures ColumnOk(2, 0x4) && ColumnOk(3, 0x8)
  {
    assert Number(0x4) == 0x43 && Number(0x8) == 0x83;
  }

  lemma Columns4()
    ensures ColumnOk(4, 0x10) && ColumnOk(5, 0x20)
  {
    assert Number(0x10) == 0x2f && Number(0x20) == 0xf1;
  }

  lemma Columns6()
    ensures ColumnOk(6, 0x40) && ColumnOk(7, 0x80)
  {
    assert Number(0x40) == 0x0d && Number(0x80) == 0x07;
  }

  lemma Columns8()
    ensures ColumnOk(8, 0x100) && ColumnOk(9, 0x200)
  {
    assert Number(0x100) == 0xd0 && Number(0x200) == 0x70;
  }

  lemma Columns10()
    ensures ColumnOk(10, 0x400) && ColumnOk(11, 0x800)
  {
    assert Number(0x400) == 0x4f && Number(0x800) == 0xf8;
  }

  lemma Columns12()
    ensures ColumnOk(12, 0x1000) && ColumnOk(13, 0x2000)
  {
    assert Number(0x1000) == 0x61 && Number(0x2000) == 0x62;
  }

  lemma Columns14()
    ensures ColumnOk(14, 0x4000) && ColumnOk(15, 0x8000)
  {
    assert Number(0x4000) == 0x64 && Number(0x8000) == 0x68;
  }

  lemma Columns16()
    ensures ColumnOk(16, 0x10000) && ColumnOk(17, 0x20000)
  {
    assert Number(0x10000) == 0x1c && Number(0x20000) == 0x2c;
  }

  lemma Columns18()
    ensures ColumnOk(18, 0x40000) && ColumnOk(19, 0x80000)
  {
    assert Number(0x40000) == 0x4c && Number(0x80000) == 0x8c;
  }

  lemma Columns20()
    ensures ColumnOk(20, 0x100000) && ColumnOk(21, 0x200000)
  {
    assert Number(0x100000) == 0x15 && Number(0x200000) == 0x25;
  }

  lemma Columns22()
    ensures ColumnOk(22, 0x400000) && ColumnOk(23, 0x800000)
  {
    assert Number(0x400000) == 0x45 && Number(0x800000) == 0x85;
  }

  lemma Columns24()
    ensures ColumnOk(24, 0x1000000) && ColumnOk(25, 0x2000000)
  {
    assert Number(0x1000000) == 0x19 && Number(0x2000000) == 0x29;
  }

  lemma Columns26()
    ensures ColumnOk(26, 0x4000000) && ColumnOk(27, 0x8000000)
  {
    assert Number(0x4000000) == 0x49 && Number(0x8000000) == 0x89;
  }

  lemma Columns28()
    ensures ColumnOk(28, 0x10000000) && ColumnOk(29, 0x20000000)
  {
    assert Number(0x10000000) == 0x1a && Number(0x20000000) == 0x2a;
  }

  lemma Columns30()
    ensures ColumnOk(30, 0x40000000) && ColumnOk(31, 0x80000000)
  {
    assert Number(0x40000000) == 0x4a && Number(0x80000000) == 0x8a;
  }

  lemma Columns32()
    ensures ColumnOk(32, 0x100000000) && ColumnOk(33, 0x200000000)
  {
    assert Number(0x100000000) == 0x51 && Number(0x200000000) == 0x52;
  }

  lemma Columns34()
    ensures ColumnOk(34, 0x400000000) && ColumnOk(35, 0x800000000)
  {
    assert Number(0x400000000) == 0x54 && Number(0x800000000) == 0x58;
  }

  lemma Columns36()
    ensures ColumnOk(36, 0x1000000000) && ColumnOk(37, 0x2000000000)
  {
    assert Number(0x1000000000) == 0x91 && Number(0x2000000000) == 0x92;
  }

  lemma Columns38()
    ensures ColumnOk(38, 0x4000000000) && ColumnOk(39, 0x8000000000)
  {
    assert Number(0x4000000000) == 0x94 && Number(0x8000000000) == 0x98;
  }

  lemma Columns40()
    ensures ColumnOk(40, 0x10000000000) && ColumnOk(41, 0x20000000000)
  {
    assert Number(0x10000000000) == 0xa1 && Number(0x20000000000) == 0xa2;
  }

  lemma Columns42()
    ensures ColumnOk(42, 0x40000000000) && ColumnOk(43, 0x80000000000)
  {
    assert Number(0x40000000000) == 0xa4 && Number(0x80000000000) == 0xa8;
  }

  lemma Columns44()
    ensures ColumnOk(44, 0x100000000000) && ColumnOk(45, 0x200000000000)
  {
    assert Number(0x100000000000) == 0x31 && Number(0x200000000000) == 0x32;
  }

  lemma Columns46()
    ensures ColumnOk(46, 0x400000000000) && ColumnOk(47, 0x800000000000)
  {
    assert Number(0x400000000000) == 0x34 && Number(0x800000000000) == 0x38;
  }

  lemma Columns48()
    ensures ColumnOk(48, 0x1000000000000) && ColumnOk(49, 0x2000000000000)
  {
    assert Number(0x1000000000000) == 0x16 && Number(0x2000000000000) == 0x26;
  }

  lemma Columns50()
    ensures ColumnOk(50, 0x4000000000000) && ColumnOk(51, 0x8000000000000)
  {
    assert Number(0x4000000000000) == 0x46 && Number(0x8000000000000) == 0x86;
  }

  lemma Columns52()
    ensures ColumnOk(52, 0x10000000000000) && ColumnOk(53, 0x20000000000000)
  {
    assert Number(0x10000000000000) == 0x1f && Number(0x20000000000000) == 0xf2;
  }

  lemma Columns54()
    ensures ColumnOk(54, 0x40000000000000) && ColumnOk(55, 0x80000000000000)
  {
    assert Number(0x40000000000000) == 0x0b && Number(0x80000000000000) == 0x0e;
  }

  lemma Columns56()
    ensures ColumnOk(56, 0x100000000000000) && ColumnOk(57, 0x200000000000000)
  {
    assert Number(0x100000000000000) == 0xb0 && Number(0x200000000000000) == 0xe0;
  }

  lemma Columns58()
    ensures ColumnOk(58, 0x400000000000000) && ColumnOk(59, 0x800000000000000)
  {
    assert Number(0x400000000000000) == 0x8f && Number(0x800000000000000) == 0xf4;
  }

  lemma Columns60()
    ensures ColumnOk(60, 0x1000000000000000) && ColumnOk(61, 0x2000000000000000)
  {
    assert Number(0x1000000000000000) == 0xc1 && Number(0x2000000000000000) == 0xc2;
  }

  lemma Columns62()
    ensures ColumnOk(62, 0x4000000000000000) && ColumnOk(63, 0x8000000000000000)
  {
    assert Number(0x4000000000000000) == 0xc4 && Number(0x8000000000000000) == 0xc8;
  }

  lemma ColumnsLow(j: nat)
    requires j < 32
    ensures ColumnOk(j, Pow2(j))
  {
    hide ColumnOk, Pow2;
    BytePowers();
    if j < 8 {
      NextPowers(0, 1); Columns0(); Columns2(); Columns4(); Columns6();
    } else if j < 16 {
      NextPowers(8, 0x100); Columns8(); Columns10(); Columns12(); Columns14();
    } else if j < 24 {
      NextPowers(16, 0x10000); Columns16(); Columns18(); Columns20(); Columns22();
    } else {
      NextPowers(24, 0x1000000); Columns24(); Columns26(); Columns28(); Columns30();
    }
  }

  lemma ColumnsHigh(j: nat)
    requires 32 <= j < 64
    ensures ColumnOk(j, Pow2(j))
  {
    hide ColumnOk, Pow2;
    BytePowers();
    if j < 40 {
      NextPowers(32, 0x1_0000_0000); Columns32(); Columns34(); Columns36(); Columns38();
    } else if j < 48 {
      NextPowers(40, 0x100_0000_0000); Columns40(); Columns42(); Columns44(); Columns46();
    } else if j < 56 {
      NextPowers(48, 0x1_0000_0000_0000); Columns48(); Columns50(); Columns52(); Columns54();
    } else {
      NextPowers(56, 0x100_0000_0000_0000); Columns56(); Columns58(); Columns60(); Columns62();
    }
  }

  // A column's bits are those of its number.
  lemma ColumnNumber(j: nat)
    requires j < 64
    ensures Locate(Number(Pow2(j))) == j
    ensures Number(Pow2(j)) == EightValue(Column(j))
    ensures Weight(Column(j)) == 3 || Weight(Column(j)) == 5
  {
    hide Pow2, Shr, Locate, Ones, Mask, Weight;
    if j < 32 { ColumnsLow(j); } else { ColumnsHigh(j); }
    NumberOfColumn(j);
    var c := Column(j);
    WeightOfEight(c);
    OnesOfEight(c);
  }

  lemma NumberOfColumn(j: nat)
    ensures Number(Pow2(j)) == EightValue(Column(j))
  {
    hide Pow2, Shr, Mask;
    MaskBits(j);
  }

  lemma MaskBits(j: nat)
    ensures forall i: nat :: BitAt(Mask(i), Pow2(j)) <==> MaskBit(i, j)
  {
    hide Mask, Pow2, Shr;
    forall i: nat { ShiftsAreArithmetic(Mask(i), j); }
  }

  function EightValue(c: CheckByte): nat
  {
    One(c[0], 1) + One(c[1], 2) + One(c[2], 4) + One(c[3], 8) + One(c[4], 16) + One(c[5], 32) + One(c[6], 64) + One(c[7], 128)
  }

  lemma WeightOfEight(c: CheckByte)
    ensures Weight(c) == One(c[0], 1) + One(c[1], 1) + One(c[2], 1) + One(c[3], 1) + One(c[4], 1) + One(c[5], 1) + One(c[6], 1) + One(c[7], 1)
  {
    hide Weight, One;
    WeightZero(c[..0]);
    WeightPrefix(c, 0);
    WeightPrefix(c, 1);
    WeightPrefix(c, 2);
    WeightPrefix(c, 3);
    WeightPrefix(c, 4);
    WeightPrefix(c, 5);
    WeightPrefix(c, 6);
    WeightPrefix(c, 7);
    assert c[..8] == c;
  }

  lemma OnesOfEight(c: CheckByte)
    ensures Ones(EightValue(c)) == One(c[0], 1) + One(c[1], 1) + One(c[2], 1) + One(c[3], 1) + One(c[4], 1) + One(c[5], 1) + One(c[6], 1) + One(c[7], 1)
  {
    var lo := One(c[0], 1) + One(c[1], 2) + One(c[2], 4) + One(c[3], 8);
    var hi := One(c[4], 1) + One(c[5], 2) + One(c[6], 4) + One(c[7], 8);
    assert EightValue(c) == 16 * hi + lo && lo < 16;
    assert EightValue(c) / 16 == hi && EightValue(c) % 16 == lo;
  }

  lemma ColumnsDiffer(j: nat, k: nat)
    requires j < k < 64
    ensures Column(j) != Column(k)
  {
    hide Locate, Pow2, Shr, Number;
    ColumnNumber(j);
    ColumnNumber(k);
  }

  // ---- linearity ----

  lemma {:induction false} ParityXor(a: Word, b: Word, i: nat, n: nat)
    requires n <= 64
    ensures Parity(Xor(a, b), i, n) == (Parity(a, i, n) != Parity(b, i, n))
  {
    hide MaskBit;
    if n > 0 { ParityXor(a, b, i, n - 1); }
  }

  // The check function is linear over exclusive or.
  lemma EccXor(a: Word, b: Word)
    ensures Ecc(Xor(a, b)) == Xor(Ecc(a), Ecc(b))
  {
    hide Parity;
    forall i: nat | i < 8 { ParityXor(a, b, i, 64); }
  }

  // ---- the minimum distance ----

  function NoBits(): CheckByte { seq(8, i => false) }

  // The columns of the ones among the first n bits, added up.
  function Syndrome(x: Word, n: nat): CheckByte
    requires n <= 64
  {
    if n == 0 then NoBits()
    else if x[n - 1] then Xor(Syndrome(x, n - 1), Column(n - 1))
    else Syndrome(x, n - 1)
  }

  lemma {:induction false} SyndromeIsParity(x: Word, n: nat, i: nat)
    requires n <= 64 && i < 8
    ensures Syndrome(x, n)[i] == Parity(x, i, n)
  {
    hide MaskBit;
    if n > 0 { SyndromeIsParity(x, n - 1, i); }
  }

  lemma EccIsSyndrome(x: Word)
    ensures Ecc(x) == Syndrome(x, 64)
  {
    hide Parity, Syndrome;
    forall i: nat | i < 8 { SyndromeIsParity(x, 64, i); }
  }

  // All columns are odd, so the weight of the sum has the parity of the number
  // of ones.
  lemma {:induction false} SyndromeParity(x: Word, n: nat)
    requires n <= 64
    ensures Weight(Syndrome(x, n)) % 2 == Weight(x[..n]) % 2
  {
    hide Column, Weight, Xor;
    if n == 0 {
      WeightZero(NoBits());
      WeightZero(x[..0]);
    } else {
      WeightPrefix(x, n - 1);
      SyndromeParity(x, n - 1);
      if x[n - 1] {
        WeightXor(Syndrome(x, n - 1), Column(n - 1));
        ColumnNumber(n - 1);
      }
    }
  }

  lemma {:induction false} SyndromeOfNone(x: Word, n: nat)
    requires n <= 64 && Weight(x[..n]) == 0
    ensures Syndrome(x, n) == NoBits()
  {
    hide Column;
    if n > 0 {
      assert x[..n][..n - 1] == x[..n - 1];
      SyndromeOfNone(x, n - 1);
    }
  }

  lemma {:induction false} SyndromeOfOne(x: Word, n: nat) returns (j: nat)
    requires n <= 64 && Weight(x[..n]) == 1
    ensures j < n && Syndrome(x, n) == Column(j)
  {
    hide Column;
    assert x[..n][..n - 1] == x[..n - 1];
    if x[n - 1] {
      j := n - 1;
      SyndromeOfNone(x, n - 1);
      assert Xor(NoBits(), Column(j)) == Column(j);
    } else {
      j := SyndromeOfOne(x, n - 1);
    }
  }

  lemma {:induction false} SyndromeOfTwo(x: Word, n: nat) returns (j: nat, k: nat)
    requires n <= 64 && Weight(x[..n]) == 2
    ensures j < k < n && Syndrome(x, n) == Xor(Column(j), Column(k))
  {
    hide Column;
    assert x[..n][..n - 1] == x[..n - 1];
    if x[n - 1] {
      j := SyndromeOfOne(x, n - 1);
      k := n - 1;
    } else {
      j, k := SyndromeOfTwo(x, n - 1);
    }
  }

  lemma Differ(a: seq<bool>, b: seq<bool>)
    requires |a| == |b| && a != b
    ensures Weight(Xor(a, b)) > 0
  {
    WeightZero(Xor(a, b));
    if Weight(Xor(a, b)) == 0 {
      forall i | 0 <= i < |a| ensures a[i] == b[i] { assert !Xor(a, b)[i]; }
    }
  }

  // Data and check bits together differ in at least four places.
  lemma MinimumDistance(a: Word, b: Word)
    requires a != b
    ensures Distance(a, b) + Distance(Ecc(a), Ecc(b)) >= 4
  {
    hide Syndrome, Column, Ecc, Xor, Weight;
    var x: Word := Xor(a, b);
    EccXor(a, b);
    EccIsSyndrome(x);
    SyndromeParity(x, 64);
    assert x[..64] == x;
    Differ(a, b);
    if Weight(x) == 1 {
      var j := SyndromeOfOne(x, 64);
      ColumnNumber(j);
    } else if Weight(x) == 2 {
      var j, k := SyndromeOfTwo(x, 64);
      ColumnsDiffer(j, k);
      Differ(Column(j), Column(k));
    }
  }

  // ---- what a distance of four is good for ----

  function Codeword(a: Word): (c: seq<bool>)
    ensures |c| == 72
  {
    a + Ecc(a)
  }

  lemma CodewordDistance(a: Word, b: Word)
    requires a != b
    ensures Distance(Codeword(a), Codeword(b)) >= 4
  {
    hide Ecc;
    assert Xor(Codeword(a), Codeword(b)) == Xor(a, b) + Xor(Ecc(a), Ecc(b));
    WeightConcat(Xor(a, b), Xor(Ecc(a), Ecc(b)));
    MinimumDistance(a, b);
  }

  lemma DistanceSymmetric(u: seq<bool>, v: seq<bool>)
    requires |u| == |v|
    ensures Distance(u, v) == Distance(v, u)
  {
    assert Xor(u, v) == Xor(v, u);
  }

  // A word read with one error is nearer to what was written than to any
  // other codeword, so the error can be corrected; with two errors it is not
  // within one of any codeword, so they are detected.
  lemma SingleCorrectedDoubleDetected(a: Word, read: seq<bool>, b: Word)
    requires |read| == 72 && a != b
    ensures Distance(Codeword(a), read) <= 1 ==> Distance(Codeword(b), read) >= 3
    ensures Distance(Codeword(a), read) == 2 ==> Distance(Codeword(b), read) >= 2
  {
    hide Codeword;
    CodewordDistance(a, b);
    Triangle(Codeword(a), read, Codeword(b));
    DistanceSymmetric(read, Codeword(b));
  }
}
