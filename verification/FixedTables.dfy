// The fixed codes of section 3.2.6 of RFC 1951 and the tables for them, which
// wtmi/compressed/inffixed.h holds ready made.
module FixedTables {
  import opened Bits
  import opened Canonical
  import opened DecodeTable
  import opened TableSize
  import opened InfTrees
  import opened Rfc1951

  // How many of the first n symbols have length l.
  lemma {:induction false} FixedLitCount(n: nat, l: nat)
    requires n <= 288
    ensures Count(FixedLit()[..n], l) ==
            if l == 7 then (if n <= 256 then 0 else if n <= 280 then n - 256 else 24)
            else if l == 8 then (if n <= 144 then n else if n <= 280 then 144 else n - 136)
            else if l == 9 then (if n <= 144 then 0 else if n <= 256 then n - 144 else 112)
            else 0
    decreases n
  {
    if n > 0 {
      var s := FixedLit()[..n];
      assert s[..|s| - 1] == FixedLit()[..n - 1];
      FixedLitCount(n - 1, l);
    } else {
      assert FixedLit()[..0] == [];
    }
  }

  lemma {:induction false} FixedDistCount(n: nat, l: nat)
    requires n <= 32
    ensures Count(FixedDist()[..n], l) == if l == 5 then n else 0
    decreases n
  {
    if n > 0 {
      var s := FixedDist()[..n];
      assert s[..|s| - 1] == FixedDist()[..n - 1];
      FixedDistCount(n - 1, l);
    } else {
      assert FixedDist()[..0] == [];
    }
  }

  // Points used by the codes of length a + 1 to b, when there are none.
  lemma {:induction false} NoneUsed(lens: seq<nat>, a: nat, b: nat)
    requires a <= b <= MAXBITS && forall l | a < l <= b :: Count(lens, l) == 0
    ensures End(lens, b) == End(lens, a)
    decreases b
  {
    hide Count;
    if a < b {
      NoneUsed(lens, a, b - 1);
      ShlOne(MAXBITS - b);
    }
  }

  // The codewords as section 3.2.6 lists them.
  lemma FixedCodewords(v: nat)
    ensures v < 144 ==> CodeBits(FixedLit(), v) == MsbFirst(0x30 + v, 8)
    ensures 144 <= v < 256 ==> CodeBits(FixedLit(), v) == MsbFirst(0x190 + (v - 144), 9)
    ensures 256 <= v < 280 ==> CodeBits(FixedLit(), v) == MsbFirst(v - 256, 7)
    ensures 280 <= v < 288 ==> CodeBits(FixedLit(), v) == MsbFirst(0xc0 + (v - 280), 8)
    ensures v < 32 ==> CodeBits(FixedDist(), v) == MsbFirst(v, 5)
  {
    hide Count, MsbFirst, FirstCode;
    if v < 288 {
      var s := FixedLit();
      assert s[..288] == s;
      forall l: nat ensures Count(s, l) == if l == 7 then 24 else if l == 8 then 152 else if l == 9 then 112 else 0 {
        FixedLitCount(288, l);
      }
      NoneBelow(s, 7);
      CodeStep(s, 8);
      CodeStep(s, 9);
      FixedLitCount(v, s[v]);
    }
    if v < 32 {
      var s := FixedDist();
      assert s[..32] == s;
      forall l: nat ensures Count(s, l) == if l == 5 then 32 else 0 { FixedDistCount(32, l); }
      NoneBelow(s, 5);
      FixedDistCount(v, 5);
    }
  }

  lemma CodeStep(lens: seq<nat>, l: nat)
    requires l > 1
    ensures FirstCode(lens, l) == 2 * (FirstCode(lens, l - 1) + Count(lens, l - 1))
  {
  }

  lemma {:induction false} NoneBelow(lens: seq<nat>, l: nat)
    requires l >= 1 && forall k | 1 <= k < l :: Count(lens, k) == 0
    ensures FirstCode(lens, l) == 0
    decreases l
  {
    hide Count;
    if l > 1 { NoneBelow(lens, l - 1); }
  }

  lemma FixedLitComplete()
    ensures Complete(FixedLit())
  {
    hide Count, FixedLit, Shl;
    var s := FixedLit();
    assert s[..288] == s;
    forall l: nat ensures Count(s, l) == if l == 7 then 24 else if l == 8 then 152 else if l == 9 then 112 else 0 {
      FixedLitCount(288, l);
    }
    NoneUsed(s, 0, 6);
    NoneUsed(s, 9, 15);
    ShlIsProduct(24, 8);
    ShlIsProduct(152, 7);
    ShlIsProduct(112, 6);
    assert End(s, 7) == End(s, 6) + Shl(24, 8);
    assert End(s, 8) == End(s, 7) + Shl(152, 7);
    assert End(s, 9) == End(s, 8) + Shl(112, 6);
    SmallPowers();
  }

  lemma FixedDistComplete()
    ensures Complete(FixedDist())
  {
    hide Count, FixedDist, Shl;
    var s := FixedDist();
    assert s[..32] == s;
    forall l: nat ensures Count(s, l) == if l == 5 then 32 else 0 { FixedDistCount(32, l); }
    NoneUsed(s, 0, 4);
    NoneUsed(s, 5, 15);
    ShlIsProduct(32, 10);
    assert End(s, 5) == End(s, 4) + Shl(32, 10);
    SmallPowers();
  }

  lemma SmallPowers()
    ensures Pow2(6) == 64 && Pow2(7) == 128 && Pow2(8) == 256 && Pow2(10) == 1024 && Pow2(15) == 32768
    ensures Pow2(5) == 32 && Pow2(9) == 512
  {
    assert Pow2(4) == 16;
    assert Pow2(8) == 16 * Pow2(4);
    assert Pow2(12) == 16 * Pow2(8);
  }

  // The literal/length table at 0 and the distance table after it.
  method BuildFixed() returns (table: array<Code>, at: nat, ghost lenTab: seq<Code>, ghost distTab: seq<Code>)
    ensures fresh(table)
    ensures |lenTab| <= table.Length && table[0..|lenTab|] == lenTab && Decodes(lenTab, 9, LENS, FixedLit())
    ensures at + |distTab| <= table.Length && table[at..at + |distTab|] == distTab && Decodes(distTab, 5, DISTS, FixedDist())
  {
    hide Decodes, Complete, Empty, Lone;
    FixedSpaces();
    FixedLitComplete();
    FixedDistComplete();
    table := new Code[2100];
    var work := new nat[288];
    var lens := new nat[288](i => if i < 144 then 8 else if i < 256 then 9 else if i < 280 then 7 else 8);
    assert lens[0..0 + 288] == FixedLit();
    var ret, root;
    ret, at, root := InflateTable(LENS, lens, 0, 288, table, 0, 9, work);
    LitRoot(root);
    lenTab := table[0..at];
    var dlens := new nat[32](i => 5);
    assert dlens[0..0 + 32] == FixedDist();
    var end;
    ret, end, root := InflateTable(DISTS, dlens, 0, 32, table, at, 5, work);
    DistRoot(root);
    distTab := table[at..end];
    assert table[0..at] == lenTab;
  }

  lemma FixedSpaces()
    ensures Space(9, 288) <= 900 && Space(5, 32) <= 1200
  {
    SmallPowers();
  }

  lemma LitRoot(root: nat)
    requires RootFor(FixedLit(), 9, root) || Empty(FixedLit())
    ensures root == 9
  {
    assert FixedLit()[144] == 9 && FixedLit()[0] == 8;
  }

  lemma DistRoot(root: nat)
    requires RootFor(FixedDist(), 5, root) || Empty(FixedDist())
    ensures root == 5
  {
    assert FixedDist()[0] == 5;
  }
}
