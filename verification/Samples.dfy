// Two short streams in full, byte by byte: the one letter A in a block with codes
// of its own, and in a stored block.
module Samples {
  import opened Types
  import opened Bits
  import opened Canonical
  import opened DecodeTable
  import opened Rfc1951
  import opened BitStream
  import opened InfTrees
  import opened FixedTables
  import opened InflateSpec
  import opened InflateMore
  import opened Deflate

  const LETTER: Byte := 65

  // ---- numbers side by side ----

  lemma Beside(v: nat, n: nat, p: nat, w: nat, m: nat)
    requires Pow2(n) == p && v < p
    ensures ToBits(v, n) + ToBits(w, m) == ToBits(v + p * w, n + m)
  {
    hide ToBits;
    ShiftsAreArithmetic(w, n);
    ToBitsAppend(v, n, w, m);
    assert w * p == p * w;
  }

  lemma Powers()
    ensures Pow2(0) == 1 && Pow2(1) == 2 && Pow2(2) == 4 && Pow2(3) == 8 && Pow2(4) == 16 && Pow2(5) == 32
    ensures Pow2(7) == 128 && Pow2(8) == 256 && Pow2(16) == 0x1_0000
  {
    assert Pow2(0) == 1 && Pow2(1) == 2 && Pow2(2) == 4 && Pow2(3) == 8 && Pow2(4) == 16 && Pow2(5) == 32;
    assert Pow2(7) == 128 && Pow2(8) == 256;
    Pow2Sum(8, 8);
  }

  // ---- a code length code and a code ----

  lemma {:induction false} CountConcat(a: seq<nat>, b: seq<nat>, l: nat)
    ensures Count(a + b, l) == Count(a, l) + Count(b, l)
    decreases |b|
  {
    if b == [] {
      assert a + b == a;
    } else {
      assert (a + b)[..|a + b| - 1] == a + b[..|b| - 1];
      CountConcat(a, b[..|b| - 1], l);
    }
  }

  lemma {:induction false} CountRun(x: nat, n: nat, l: nat)
    ensures Count(Run(x, n), l) == if l == x then n else 0
  {
    if n > 0 {
      assert Run(x, n)[..n - 1] == Run(x, n - 1);
      CountRun(x, n - 1, l);
    }
  }

  lemma CountOne(x: nat, l: nat)
    ensures Count([x], l) == if l == x then 1 else 0
  {
    CountRun(x, 1, l);
    assert Run(x, 1) == [x];
  }

  // Two bits each for 0 and 1, one bit for a long run of zeros.
  function CodeLens(): (s: seq<nat>)
    ensures |s| == 19
  {
    [2] + [2] + Run(0, 16) + [1]
  }

  lemma CodeLensCount(l: nat)
    ensures Count(CodeLens(), l) == (if l == 2 then 2 else if l == 1 then 1 else if l == 0 then 16 else 0)
    ensures l > 0 ==> Count(CodeLens()[..18], l) == (if l == 2 then 2 else 0)
    ensures Count(CodeLens()[..1], l) == (if l == 2 then 1 else 0)
  {
    hide Count, Run;
    CountOne(2, l);
    CountOne(1, l);
    CountRun(0, 16, l);
    CountConcat([2], [2], l);
    CountConcat([2] + [2], Run(0, 16), l);
    CountConcat([2] + [2] + Run(0, 16), [1], l);
    assert CodeLens()[..18] == [2] + [2] + Run(0, 16) && CodeLens()[..1] == [2];
  }

  lemma CodeLensSent()
    ensures CodeSent(CodeLens(), 18)
  {
    hide Count, Shl, End, CodeLens;
    var s := CodeLens();
    forall l: nat { CodeLensCount(l); }
    EndZero(s);
    EndStep(s, 1);
    EndStep(s, 2);
    NoneUsed(s, 2, MAXBITS);
    ShlPow2(0, 14);
    ShlPow2(1, 13);
    Powers();
    Pow2Sum(14, 1);
    CodeLensSmall();
  }

  lemma CodeLensSmall()
    ensures forall s | 0 <= s < 19 :: CodeLens()[s] <= 7 && (SentAt(s) >= 18 ==> CodeLens()[s] == 0)
    ensures CodeLens()[0] == 2 && CodeLens()[1] == 2 && CodeLens()[18] == 1
  {
  }

  lemma CodeLensBits()
    ensures IsSym(CodeLens(), 18) && CodeBits(CodeLens(), 18) == ToBits(0, 1)
    ensures IsSym(CodeLens(), 0) && CodeBits(CodeLens(), 0) == ToBits(1, 2)
    ensures IsSym(CodeLens(), 1) && CodeBits(CodeLens(), 1) == ToBits(3, 2)
  {
    hide Count, CodeLens, FirstCode;
    var s := CodeLens();
    CodeLensSmall();
    forall l: nat { CodeLensCount(l); }
    NoneBelow(s, 1);
    CodeStep(s, 2);
    CountRun(1, 0, 2);
    assert s[..0] == [] == Run(1, 0);
    OneOrTwo(0, 0);
    OneOrTwo(2, 3);
  }

  lemma OneOrTwo(a: nat, b: nat)
    ensures a == 0 && b == 0 ==> MsbFirst(0, 1) == ToBits(0, 1)
    ensures a == 2 && b == 3 ==> MsbFirst(2, 2) == ToBits(1, 2) && MsbFirst(3, 2) == ToBits(3, 2)
  {
    assert MsbFirst(0, 0) == [] && MsbFirst(1, 1) == [true] && MsbFirst(0, 1) == [false];
    assert MsbFirst(2, 2) == MsbFirst(1, 1) + [false] && MsbFirst(3, 2) == MsbFirst(1, 1) + [true];
    assert ToBits(0, 0) == [] && ToBits(0, 1) == [false] && ToBits(1, 1) == [true];
    assert ToBits(1, 2) == [true] + ToBits(0, 1) && ToBits(3, 2) == [true] + ToBits(1, 1);
  }

  // One bit each for the letter and the end of the block.
  function LetterLens(): (s: seq<nat>)
    ensures |s| == 257
  {
    Run(0, 65) + [1] + Run(0, 190) + [1]
  }

  lemma LetterCount(l: nat)
    requires l > 0
    ensures Count(LetterLens(), l) == (if l == 1 then 2 else 0)
    ensures Count(LetterLens()[..65], l) == 0 && Count(LetterLens()[..256], l) == (if l == 1 then 1 else 0)
  {
    hide Count, Run;
    CountOne(1, l);
    CountRun(0, 65, l);
    CountRun(0, 190, l);
    CountConcat(Run(0, 65), [1], l);
    CountConcat(Run(0, 65) + [1], Run(0, 190), l);
    CountConcat(Run(0, 65) + [1] + Run(0, 190), [1], l);
    assert LetterLens()[..65] == Run(0, 65) && LetterLens()[..256] == Run(0, 65) + [1] + Run(0, 190);
  }

  lemma LetterUsable()
    ensures ValidLens(LetterLens()) && Usable(LetterLens(), true) && ValidLens([0]) && Usable([0], true)
  {
    hide Count, Shl, End;
    var s := LetterLens();
    forall l: nat | l > 0 { LetterCount(l); }
    EndZero(s);
    EndStep(s, 1);
    NoneUsed(s, 1, MAXBITS);
    Powers();
    ShlPow2(1, 14);
  }

  lemma LetterBits()
    ensures IsSym(LetterLens(), 65) && CodeBits(LetterLens(), 65) == ToBits(0, 1)
    ensures IsSym(LetterLens(), 256) && CodeBits(LetterLens(), 256) == ToBits(1, 1)
  {
    hide Count;
    var s := LetterLens();
    LetterCount(1);
    assert MsbFirst(0, 0) == [] && MsbFirst(0, 1) == [false] && MsbFirst(1, 1) == [true];
    assert ToBits(0, 0) == [] && ToBits(0, 1) == [false] && ToBits(1, 1) == [true];
  }

  // How both sets of lengths are sent.
  function LetterRuns(): (rs: seq<Lengths>)
    ensures |rs| == 6
  {
    [ManyZeros(ToBits(54, 7)), One(1), ManyZeros(ToBits(127, 7)), ManyZeros(ToBits(41, 7)), One(1), One(0)]
  }

  // A run whose symbol is written as c in n bits, with e in m bits more.
  predicate Written(r: Lengths, c: nat, n: nat, e: nat, m: nat)
  {
    && r.WellFormed() && !r.Again? && IsSym(CodeLens(), r.Sym())
    && CodeBits(CodeLens(), r.Sym()) == ToBits(c, n) && c < Pow2(n) && r.Extra() == ToBits(e, m) && e < Pow2(m)
  }

  // The number with c in n bits and e in m bits before v.
  function Fronted(c: nat, n: nat, e: nat, m: nat, v: nat): nat
  {
    c + Pow2(n) * (e + Pow2(m) * v)
  }

  // One of them, before what is known.
  lemma RunFirst(got: seq<nat>, runs: seq<Lengths>, lens: seq<nat>, tail: seq<bool>,
                 c: nat, n: nat, e: nat, m: nat, v: nat, k: nat)
    requires runs != [] && Written(runs[0], c, n, e, m)
    requires Sends(CodeLens(), got + runs[0].Adds(got), runs[1..], lens)
    requires RunBits(CodeLens(), got + runs[0].Adds(got), runs[1..], lens) + tail == ToBits(v, k)
    ensures Sends(CodeLens(), got, runs, lens)
    ensures RunBits(CodeLens(), got, runs, lens) + tail == ToBits(Fronted(c, n, e, m, v), n + (m + k))
  {
    hide CodeBits, ToBits, Pow2, IsSym, Lengths.Adds, CodeLens;
    Beside(e, m, Pow2(m), v, k);
    Beside(c, n, Pow2(n), e + Pow2(m) * v, m + k);
    var a, b, t := ToBits(c, n), ToBits(e, m), RunBits(CodeLens(), got + runs[0].Adds(got), runs[1..], lens);
    assert a + (b + t) + tail == a + (b + (t + tail));
  }

  // The length sent at place k, before what is known.
  lemma SentFirst(k: nat, tail: seq<bool>, v: nat, n: nat)
    requires CodeSent(CodeLens(), 18) && k < 18 && SentBits(CodeLens(), 18, k + 1) + tail == ToBits(v, n)
    ensures SentBits(CodeLens(), 18, k) + tail == ToBits(CodeLens()[SymbolAt(k)] + 8 * v, 3 + n)
  {
    hide ToBits, CodeLens, Usable, SymbolAt;
    Powers();
    Beside(CodeLens()[SymbolAt(k)], 3, 8, v, n);
    var a, b := ToBits(CodeLens()[SymbolAt(k)], 3), SentBits(CodeLens(), 18, k + 1);
    assert (a + b) + tail == a + (b + tail);
  }

  // The lengths so far, after each of the runs.
  function Got(k: nat): seq<nat>
  {
    match k
    case 0 => []
    case 1 => Run(0, 65)
    case 2 => Run(0, 65) + [1]
    case 3 => Run(0, 65) + [1] + Run(0, 138)
    case 4 => Run(0, 65) + [1] + Run(0, 190)
    case 5 => LetterLens()
    case _ => LetterLens() + [0]
  }

  lemma GotNext(k: nat)
    requires k < 6
    ensures !LetterRuns()[k].Again? && Got(k) + LetterRuns()[k].Adds(Got(k)) == Got(k + 1)
  {
    hide ToBits, Value, Pow2;
    SmallValue(54);
    SmallValue(127);
    SmallValue(41);
    if k == 3 { assert Run(0, 138) + Run(0, 52) == Run(0, 190); }
  }

  lemma SmallValue(v: nat)
    requires v < 128
    ensures Value(ToBits(v, 7)) == v
  {
    Powers();
    ValueToBits(v, 7);
    LowOfSmall(v, 7);
  }

  // From the k-th run on, before the tail, the bits of v; and they can be sent.
  predicate Known(k: nat, tail: seq<bool>, v: nat, z: nat)
  {
    && k <= 6 && Sends(CodeLens(), Got(k), LetterRuns()[k..], Got(6))
    && RunBits(CodeLens(), Got(k), LetterRuns()[k..], Got(6)) + tail == ToBits(v, z)
  }

  predicate WrittenAt(k: nat, c: nat, n: nat, e: nat, m: nat)
  {
    k < 6 && Written(LetterRuns()[k], c, n, e, m)
  }

  lemma RunAt(k: nat, tail: seq<bool>, c: nat, n: nat, e: nat, m: nat, v: nat, z: nat)
    requires WrittenAt(k, c, n, e, m) && Known(k + 1, tail, v, z)
    ensures Known(k, tail, Fronted(c, n, e, m, v), n + (m + z))
  {
    hide ToBits, Pow2, Lengths.Adds, Got, Sends, RunBits, CodeLens, LetterRuns, IsSym, CodeBits, Lengths.WellFormed, Lengths.Extra;
    GotNext(k);
    assert LetterRuns()[k..][0] == LetterRuns()[k] && LetterRuns()[k..][1..] == LetterRuns()[k + 1..];
    RunFirst(Got(k), LetterRuns()[k..], Got(6), tail, c, n, e, m, v, z);
  }

  lemma NoRuns(tail: seq<bool>)
    requires tail == ToBits(2, 3)
    ensures Known(6, tail, 2, 3)
  {
    hide LetterRuns, Got;
    assert [] + tail == tail;
  }

  lemma RunsWritten()
    ensures WrittenAt(0, 0, 1, 54, 7) && WrittenAt(1, 3, 2, 0, 0) && WrittenAt(2, 0, 1, 127, 7)
    ensures WrittenAt(3, 0, 1, 41, 7) && WrittenAt(4, 3, 2, 0, 0) && WrittenAt(5, 1, 2, 0, 0)
  {
    hide CodeBits, IsSym, Pow2, CodeLens;
    Powers();
    CodeLensBits();
    assert ToBits(0, 0) == [];
  }

  lemma RunsSent(tail: seq<bool>)
    requires tail == ToBits(2, 3)
    ensures Sends(CodeLens(), [], LetterRuns(), LetterLens() + [0])
    ensures RunBits(CodeLens(), [], LetterRuns(), LetterLens() + [0]) + tail == ToBits(2639002476, 33)
  {
    hide ToBits, Pow2, Known, WrittenAt, LetterRuns, Sends, RunBits, CodeLens;
    Powers();
    RunsWritten();
    NoRuns(tail);
    RunAt(5, tail, 1, 2, 0, 0, 2, 3);
    RunAt(4, tail, 3, 2, 0, 0, 9, 5);
    RunAt(3, tail, 0, 1, 41, 7, 39, 7);
    RunAt(2, tail, 0, 1, 127, 7, 10066, 15);
    RunAt(1, tail, 3, 2, 0, 0, 2577150, 23);
    RunAt(0, tail, 0, 1, 54, 7, 10308603, 25);
    AllKnown(tail);
  }

  lemma AllKnown(tail: seq<bool>)
    requires Known(0, tail, 2639002476, 33)
    ensures Sends(CodeLens(), [], LetterRuns(), LetterLens() + [0])
    ensures RunBits(CodeLens(), [], LetterRuns(), LetterLens() + [0]) + tail == ToBits(2639002476, 33)
  {
    hide LetterRuns, Sends, RunBits, CodeLens, ToBits, LetterLens;
    assert LetterRuns()[0..] == LetterRuns();
  }

  lemma CodeSentAt()
    ensures forall k: nat | k < 17 && k != 2 && k != 3 :: CodeLens()[SymbolAt(k)] == 0
    ensures CodeLens()[SymbolAt(2)] == 1 && CodeLens()[SymbolAt(3)] == 2 && CodeLens()[SymbolAt(17)] == 2
  {
  }

  lemma CodeLensWritten(tail: seq<bool>)
    requires tail == ToBits(2639002476, 33)
    ensures CodeSent(CodeLens(), 18) && SentBits(CodeLens(), 18, 0) + tail == ToBits(47540042274677264880763968, 87)
  {
    hide ToBits, CodeLens, SymbolAt, CodeSent;
    CodeLensSent();
    CodeSentAt();
    NoneSent(tail);
    SentFirst(17, tail, 2639002476, 33);
    SentFirst(16, tail, 21112019810, 36);
    SentFirst(15, tail, 168896158480, 39);
    SentFirst(14, tail, 1351169267840, 42);
    SentFirst(13, tail, 10809354142720, 45);
    SentFirst(12, tail, 86474833141760, 48);
    SentFirst(11, tail, 691798665134080, 51);
    SentFirst(10, tail, 5534389321072640, 54);
    SentFirst(9, tail, 44275114568581120, 57);
    SentFirst(8, tail, 354200916548648960, 60);
    SentFirst(7, tail, 2833607332389191680, 63);
    SentFirst(6, tail, 22668858659113533440, 66);
    SentFirst(5, tail, 181350869272908267520, 69);
    SentFirst(4, tail, 1450806954183266140160, 72);
    SentFirst(3, tail, 11606455633466129121280, 75);
    SentFirst(2, tail, 92851645067729032970242, 78);
    SentFirst(1, tail, 742813160541832263761937, 81);
    SentFirst(0, tail, 5942505284334658110095496, 84);
  }

  lemma NoneSent(tail: seq<bool>)
    requires CodeSent(CodeLens(), 18)
    ensures SentBits(CodeLens(), 18, 18) + tail == tail
  {
    assert [] + tail == tail;
  }

  // ---- the streams ----

  // The number that the bytes spell, least significant byte first.
  function Spelled(s: seq<Byte>): nat
  {
    if s == [] then 0 else s[0] + 0x100 * Spelled(s[1..])
  }

  lemma {:induction false} FromBytesSpelled(s: seq<Byte>)
    ensures FromBytes(s) == ToBits(Spelled(s), 8 * |s|)
  {
    hide ToBits;
    if s == [] {
      assert ToBits(0, 0) == [];
    } else {
      Powers();
      FromBytesSpelled(s[1..]);
      Beside(s[0], 8, 0x100, Spelled(s[1..]), 8 * |s[1..]|);
    }
  }

  lemma LetterBlock() returns (b: Block)
    ensures b.Valid() && b.Custom? && |b.lit| == 257 && |b.dist| == 1 && b.ncode == 18
    ensures b == Custom(CodeLens(), 18, LetterRuns(), LetterLens(), [0], [Single(LETTER)])
  {
    hide Usable, Sends, CodeSent, ValidLens, CodeLens, LetterRuns, LetterLens, ToBits, CodeBits;
    b := Custom(CodeLens(), 18, LetterRuns(), LetterLens(), [0], [Single(LETTER)]);
    CodeLensSent();
    LetterUsable();
    LetterBits();
    RunsSent(ToBits(2, 3));
    assert Coded(LetterLens(), [0], Single(LETTER));
  }

  // The letter, the end of the block, and the last bit of the last byte.
  lemma LetterBody()
    requires AllCoded(LetterLens(), [0], [Single(LETTER)])
    ensures Body(LetterLens(), [0], [Single(LETTER)]) + [false] == ToBits(2, 3)
  {
    hide CodeBits, LetterLens;
    var ts := [Single(LETTER)];
    LetterBits();
    assert ts[1..] == [] && ToBits(0, 0) == [] && ToBits(0, 1) == [false] && ToBits(1, 1) == [true];
    assert Body(LetterLens(), [0], []) == [true] && TokenBits(LetterLens(), [0], ts[0]) == [false];
    assert ToBits(1, 2) == [true] + ToBits(0, 1) && ToBits(2, 3) == [false] + ToBits(1, 2);
  }

  lemma LetterHeader(b: Block, tail: seq<bool>)
    requires b.Valid() && b.Custom? && |b.lit| == 257 && |b.dist| == 1 && b.ncode == 18
    requires tail == ToBits(47540042274677264880763968, 87)
    ensures [true] + (ToBits(2, 2) + (CustomHeader(b) + tail)) == ToBits(6231168421026498462451494928389, 104)
  {
    hide ToBits, Block.Valid;
    Powers();
    Beside(14, 4, 16, 47540042274677264880763968, 87);
    Beside(0, 5, 32, 760640676394836238092223502, 91);
    Beside(0, 5, 32, 24340501644634759618951152064, 96);
    Beside(2, 2, 4, 778896052628312307806436866048, 101);
    Beside(1, 1, 2, 3115584210513249231225747464194, 103);
    OneBit();
    assert CustomHeader(b) + tail == ToBits(0, 5) + (ToBits(0, 5) + (ToBits(14, 4) + tail));
  }

  lemma OneBit()
    ensures ToBits(1, 1) == [true] && ToBits(0, 1) == [false]
  {
    assert ToBits(0, 0) == [];
  }

  lemma LetterEncoded() returns (b: Block)
    ensures b.Valid() && Encode([b], 0) == ToBits(6231168421026498462451494928389, 104)
    ensures b.Custom? && b.dist == [0] && b.tokens == [Single(LETTER)]
  {
    hide ToBits, Block.Valid, CodeLens, LetterRuns, LetterLens, RunBits, SentBits, Body, CustomHeader, AllCoded, Sends, CodeSent;
    b := LetterBlock();
    LetterParts(b);
    LetterBody();
    var t1 := Body(LetterLens(), [0], [Single(LETTER)]) + [false];
    RunsSent(t1);
    var t2 := RunBits(CodeLens(), [], LetterRuns(), LetterLens() + [0]) + t1;
    CodeLensWritten(t2);
    var t3 := SentBits(CodeLens(), 18, 0) + t2;
    LetterHeader(b, t3);
    assert BlockBits(true, b, 0) + [false] == [true] + (ToBits(2, 2) + (CustomHeader(b) + t3));
    assert Padding(103) == [false];
  }

  lemma LetterParts(b: Block)
    requires b.Valid() && b.Custom?
    ensures AllCoded(b.lit, b.dist, b.tokens) && CodeSent(b.cl, b.ncode) && Sends(b.cl, [], b.runs, b.lit + b.dist)
  {
    hide AllCoded, CodeSent, Sends;
  }

  lemma LetterSpelled()
    ensures Spelled([0x05, 0xc0, 0x81, 0x08, 0x00, 0x00, 0x00, 0x00, 0x20, 0xb6, 0xfd, 0xa5, 0x4e])
            == 6231168421026498462451494928389
  {
    assert Spelled([0x00, 0x00, 0x20, 0xb6, 0xfd, 0xa5, 0x4e]) == 22137557284290560;
  }

  // The one letter, in the thirteen bytes of a block with codes of its own.
  lemma LetterStream(rules: Rules)
    ensures Inflate(rules, FromBytes([0x05, 0xc0, 0x81, 0x08, 0x00, 0x00, 0x00, 0x00, 0x20, 0xb6, 0xfd, 0xa5, 0x4e]))
            == Accept([65], [])
  {
    hide ToBits, Block.Valid, Decode, Encode, Spelled, AllModest, Text, AllValid, FromBytes;
    var s: seq<Byte> := [0x05, 0xc0, 0x81, 0x08, 0x00, 0x00, 0x00, 0x00, 0x20, 0xb6, 0xfd, 0xa5, 0x4e];
    FromBytesSpelled(s);
    LetterSpelled();
    var b := LetterEncoded();
    LetterText(b);
    EncodeDecodes(rules, [b], 0, []);
  }

  lemma LetterText(b: Block)
    requires b.Valid() && b.Custom? && b.dist == [0] && b.tokens == [Single(LETTER)]
    ensures AllValid([b]) && AllModest([b]) && Text([b], []) == Some([65])
  {
    hide Block.Valid;
    assert [b][1..] == [] && b.tokens[1..] == [] && [] + [LETTER] == [65];
    assert Expand(b.tokens, []) == Some([65]);
  }

  // And in the six bytes of a stored block.
  lemma StoredEncoded()
    ensures AllValid([Plain([LETTER])]) && Encode([Plain([LETTER])], 0) == ToBits(72567733879041, 48)
  {
    hide ToBits;
    var b := Plain([LETTER]);
    assert b.Valid();
    Powers();
    OneBit();
    NoBits();
    assert FromBytes([LETTER]) == ToBits(65, 8);
    Beside(0xfffe, 16, 0x1_0000, 65, 8);
    Beside(1, 16, 0x1_0000, 4325374, 24);
    Beside(0, 5, 32, 283467710465, 40);
    Beside(0, 2, 4, 9070966734880, 45);
    Beside(1, 1, 2, 36283866939520, 47);
    assert Padding(48) == [];
    var bits := BlockBits(true, b, 0);
    assert bits == ToBits(72567733879041, 48);
    assert bits + [] == bits;
  }

  lemma NoBits()
    ensures ToBits(0, 5) == Padding(3) && FromBytes([LETTER]) == ToBits(65, 8)
  {
    assert ToBits(0, 5) == [false, false, false, false, false];
    assert [LETTER][1..] == [];
  }

  lemma StoredSpelled()
    ensures Spelled([0x01, 0x01, 0x00, 0xfe, 0xff, 0x41]) == 72567733879041
  {
  }

  lemma StoredStream(rules: Rules)
    ensures Inflate(rules, FromBytes([0x01, 0x01, 0x00, 0xfe, 0xff, 0x41])) == Accept([65], [])
  {
    hide ToBits, Decode, Encode, AllModest, Text, AllValid, FromBytes;
    var s: seq<Byte> := [0x01, 0x01, 0x00, 0xfe, 0xff, 0x41];
    FromBytesSpelled(s);
    StoredSpelled();
    StoredEncoded();
    StoredText(Plain([LETTER]));
    EncodeDecodes(rules, [Plain([LETTER])], 0, []);
  }

  lemma StoredText(b: Block)
    requires b == Plain([65])
    ensures AllValid([b]) && AllModest([b]) && Text([b], []) == Some([65])
  {
    assert b.Valid() && [b][1..] == [] && [] + [65] == [65];
    assert b.Output([]) == Some([65]);
  }
}
