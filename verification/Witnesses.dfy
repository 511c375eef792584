// Two streams that show what the decoder does at the edge of the format: one
// that the standard accepts and the firmware refuses, and one on which
// inflate_fast reads a byte before the output buffer.
module Witnesses {
  import opened Types
  import opened Bits
  import opened Canonical
  import opened Rfc1951
  import opened BitStream
  import opened DecodeTable
  import opened InfTrees
  import opened FixedTables
  import opened InflateSpec
  import opened InflateMore
  import opened Departures
  import opened Deflate

  // ---- 31 distance code lengths ----

  // Two codewords of one bit, for the first and the last symbol.
  function Pair(k: nat): seq<nat> { [1] + Run(0, k) + [1] }

  lemma {:induction false} PairCount(k: nat, l: nat)
    ensures Count([1] + Run(0, k), l) == (if l == 1 then 1 else 0) + (if l == 0 then k else 0)
    decreases k
  {
    var s := [1] + Run(0, k);
    if k == 0 {
      assert s == [1] && s[..0] == [];
    } else {
      assert s[..|s| - 1] == [1] + Run(0, k - 1);
      PairCount(k - 1, l);
    }
  }

  lemma PairComplete(k: nat)
    ensures ValidLens(Pair(k)) && Complete(Pair(k))
  {
    hide Count, Shl, Run;
    var s := Pair(k);
    forall l: nat
      ensures Count(s, l) == (if l == 1 then 2 else 0) + (if l == 0 then k else 0)
    {
      assert s[..|s| - 1] == [1] + Run(0, k);
      PairCount(k, l);
      LastCount(s, l);
    }
    NoneUsed(s, 1, MAXBITS);
    EndStep(s, 1);
    EndZero(s);
    ShlPow2(1, 14);
    assert Pow2(1) == 2;
  }

  lemma LastCount(s: seq<nat>, l: nat)
    requires s != []
    ensures Count(s, l) == Count(s[..|s| - 1], l) + if s[|s| - 1] == l then 1 else 0
  {
  }

  // The symbols 0 and 256, the distances 0 and 30, and the one byte 0.
  function WideBlocks(): seq<Block> { [Custom(FlatCode(), 19, Singly(Pair(255) + Pair(29)), Pair(255), Pair(29), [Single(0)])] }

  lemma WideValid()
    ensures AllValid(WideBlocks()) && !AllModest(WideBlocks())
    ensures Text(WideBlocks(), []) == Some([0]) && Before(WideBlocks(), []) == []
  {
    hide Complete;
    PairComplete(255);
    PairComplete(29);
    var b := WideBlocks()[0];
    LengthsCovered(Pair(255) + Pair(29));
    assert Coded(Pair(255), Pair(29), Single(0));
    assert b.Valid() && b in WideBlocks() && !b.Modest();
    assert b.tokens[1..] == [] && [] + [0] == [0];
    assert b.Output([]) == Some([0]);
    assert WideBlocks()[1..] == [];
  }

  // The standard accepts the stream; the firmware refuses it.
  lemma WideStream()
    ensures AllValid(WideBlocks())
    ensures var bits := FromBytes(Compressed(WideBlocks()));
            Inflate(Standard, bits) == Accept([0], []) && Inflate(Firmware, bits) == Reject([]) && Passes(HighHeader, Begin(bits))
  {
    hide WideBlocks, Compressed, FromBytes, Inflate, HighHeader, Passes, AllValid, AllModest, Text, Before;
    WideValid();
    CompressedDecodes(Standard, WideBlocks());
    CompressedDecodes(Firmware, WideBlocks());
    AcceptedStreams(FromBytes(Compressed(WideBlocks())));
  }

  // ---- a copy of the only byte put out ----

  // One byte, the longest copy of it, and five bytes more.
  function StrayTokens(): seq<Token>
  {
    [Single(7), Match(285, [], 0, []), Single(1), Single(2), Single(3), Single(4), Single(5)]
  }

  function StrayBlocks(): seq<Block> { [Fixed(StrayTokens())] }

  lemma FixedSymbols(s: nat)
    ensures s < 288 ==> IsSym(FixedLit(), s) && FixedLit()[s] >= 7
    ensures s < 32 ==> IsSym(FixedDist(), s)
  {
  }

  lemma StrayValid()
    ensures AllValid(StrayBlocks()) && AllCoded(FixedLit(), FixedDist(), StrayTokens())
  {
    hide FixedLit, FixedDist;
    forall s: nat { FixedSymbols(s); }
    var b := StrayBlocks()[0];
    forall t | t in StrayTokens()
      ensures Coded(FixedLit(), FixedDist(), t)
    {
    }
    assert b.Valid();
  }

  lemma TokenLength(t: Token)
    requires Coded(FixedLit(), FixedDist(), t)
    ensures |TokenBits(FixedLit(), FixedDist(), t)| >= 7
  {
    hide FixedLit, FixedDist, CodeBits;
    var s := if t.Single? then t.b else t.lenSym;
    FixedSymbols(s);
    CodeLength(FixedLit(), s);
  }

  lemma {:induction false} BodyLength(ts: seq<Token>)
    requires AllCoded(FixedLit(), FixedDist(), ts)
    ensures |Body(FixedLit(), FixedDist(), ts)| >= 7 * |ts| + 7
    decreases |ts|
  {
    hide FixedLit, FixedDist, CodeBits, TokenBits, Coded;
    if ts == [] {
      FixedSymbols(256);
      CodeLength(FixedLit(), 256);
    } else {
      assert ts[0] in ts && forall t | t in ts[1..] :: t in ts;
      TokenLength(ts[0]);
      BodyLength(ts[1..]);
    }
  }

  lemma BodyFirst(ts: seq<Token>, rest: seq<bool>)
    requires AllCoded(FixedLit(), FixedDist(), ts) && ts != []
    ensures AllCoded(FixedLit(), FixedDist(), ts[1..]) && ts[0].WellFormed()
    ensures ReadFrom(FixedLit(), FixedDist(), AtStart, Body(FixedLit(), FixedDist(), ts) + rest) ==
            Read(ts[0].Element(), Body(FixedLit(), FixedDist(), ts[1..]) + rest)
  {
    hide FixedLit, FixedDist, CodeBits, TokenBits, ReadFrom;
    var lit, dist := FixedLit(), FixedDist();
    FixedKnown();
    assert ts[0] in ts && forall t | t in ts[1..] :: t in ts;
    var more := Body(lit, dist, ts[1..]) + rest;
    assert Body(lit, dist, ts) + rest == TokenBits(lit, dist, ts[0]) + more;
    TokenRead(lit, dist, ts[0], more);
  }

  // With one byte put out, 48 bits and more are left and the next element is a
  // copy from distance 1.
  lemma StrayStream()
    ensures AllValid(StrayBlocks()) && 1 in Spots(Begin(FromBytes(Compressed(StrayBlocks()))))
  {
    hide FixedLit, FixedDist, Spots, Next, Body, FromBytes, Compressed, AllCoded, Encode, StrayTokens, Spot;
    StrayValid();
    CompressedBits(StrayBlocks());
    var b := StrayBlocks()[0];
    var pad := OnlyBlock(b);
    BlockStarts(Firmware, true, b, 0, pad, []);
    var s0 := Begin(FromBytes(Compressed(StrayBlocks())));
    var s1 := State(InElement(FixedLit(), FixedDist(), true, AtStart), Body(FixedLit(), FixedDist(), StrayTokens()) + pad, []);
    assert Next(Firmware, s0) == Go(s1);
    var s2 := StraySecond(pad, s1);
    SpotAhead(s0, s1);
    SpotAhead(s1, s2);
    SpotHere(s2);
  }

  lemma OnlyBlock(b: Block) returns (pad: seq<bool>)
    requires AllValid([b])
    ensures Encode([b], 0) == BlockBits(true, b, 0) + pad
  {
    hide BlockBits, Block.Valid;
    pad := Padding(|BlockBits(true, b, 0)|);
  }

  lemma SpotAhead(s: State, t: State)
    requires Next(Firmware, s) == Go(t)
    ensures Spots(t) <= Spots(s)
  {
    hide Next, Spot;
  }

  lemma SpotHere(s: State)
    requires Spot(s)
    ensures |s.out| in Spots(s)
  {
    hide Next, Spot;
  }

  lemma StraySecond(pad: seq<bool>, s1: State) returns (s2: State)
    requires AllCoded(FixedLit(), FixedDist(), StrayTokens())
    requires s1 == State(InElement(FixedLit(), FixedDist(), true, AtStart), Body(FixedLit(), FixedDist(), StrayTokens()) + pad, [])
    ensures Next(Firmware, s1) == Go(s2) && Spot(s2) && s2.out == [7]
  {
    hide FixedLit, FixedDist, ReadFrom, AllCoded, Body;
    var ts := StrayTokens();
    BodyFirst(ts, pad);
    BodyFirst(ts[1..], pad);
    BodyLength(ts[1..]);
    s2 := State(s1.c, Body(FixedLit(), FixedDist(), ts[1..]) + pad, [7]);
    assert [] + [7] == [7];
    CopyOfOne(ts[1]);
  }

  lemma CopyOfOne(t: Token)
    requires t == Match(285, [], 0, [])
    ensures t.WellFormed() && t.Element() == Copy(258, 1)
  {
  }
}
