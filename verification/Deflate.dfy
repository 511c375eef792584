// An encoder for the format of RFC 1951: stored blocks, blocks with the fixed
// codes and blocks with codes of their own, for any choice of codes, literals
// and matches.  The reference decoder inverts it.
module Deflate {
  import opened Types
  import opened Bits
  import opened Canonical
  import opened DecodeTable
  import opened Rfc1951
  import opened BitStream
  import opened InflateSpec
  import opened InflateMore
  import opened InfTrees
  import opened FixedTables

  // ---- literals and matches ----

  datatype Token =
    | Single(b: Byte)
    | Match(lenSym: nat, lenExtra: seq<bool>, distSym: nat, distExtra: seq<bool>)
  {
    predicate WellFormed()
    {
      Match? ==>
        && 257 <= lenSym <= 285 && |lenExtra| == LengthExtra(lenSym)
        && distSym <= 29 && |distExtra| == DistExtra(distSym)
    }

    function Element(): Element
      requires WellFormed()
    {
      match this
      case Single(b) => Literal(b)
      case Match(ls, le, ds, de) => Copy(LengthBase(ls) + Value(le), DistBase(ds) + Value(de))
    }
  }

  // The codes have codewords for what the token needs.
  predicate Coded(lit: seq<nat>, dist: seq<nat>, t: Token)
  {
    t.WellFormed() &&
    match t
    case Single(b) => IsSym(lit, b)
    case Match(ls, _, ds, _) => IsSym(lit, ls) && IsSym(dist, ds)
  }

  function TokenBits(lit: seq<nat>, dist: seq<nat>, t: Token): seq<bool>
    requires Coded(lit, dist, t)
  {
    match t
    case Single(b) => CodeBits(lit, b)
    case Match(ls, le, ds, de) => CodeBits(lit, ls) + (le + (CodeBits(dist, ds) + de))
  }

  predicate AllCoded(lit: seq<nat>, dist: seq<nat>, ts: seq<Token>)
  {
    IsSym(lit, 256) && forall t | t in ts :: Coded(lit, dist, t)
  }

  function Body(lit: seq<nat>, dist: seq<nat>, ts: seq<Token>): seq<bool>
    requires AllCoded(lit, dist, ts)
  {
    if ts == [] then CodeBits(lit, 256) else TokenBits(lit, dist, ts[0]) + Body(lit, dist, ts[1..])
  }

  // What the tokens say, after out; None if a match reaches back too far.
  function Expand(ts: seq<Token>, out: seq<Byte>): Option<seq<Byte>>
    requires forall t | t in ts :: t.WellFormed()
    decreases |ts|
  {
    if ts == [] then Some(out)
    else
      match ts[0].Element()
      case Literal(b) => Expand(ts[1..], out + [b])
      case Copy(len, d) => if 1 <= d <= |out| then Expand(ts[1..], CopyBack(out, len, d)) else None
  }

  lemma SymbolOfCode(lens: seq<nat>, s: nat, rest: seq<bool>)
    requires Proper(lens) && IsSym(lens, s)
    ensures var bits := CodeBits(lens, s) + rest;
            lens[s] <= |bits| && Symbol(lens, bits) == Some(s) && bits[lens[s]..] == rest
  {
    hide OverSubscribed, CodeBits;
    var bits := CodeBits(lens, s) + rest;
    CodeLength(lens, s);
    var r := Symbol(lens, bits);
    PrefixFree(lens, s, r.value, bits);
  }

  lemma ExtraRead(extra: seq<bool>, rest: seq<bool>)
    ensures Get(extra + rest, |extra|) == Value(extra) && (extra + rest)[|extra|..] == rest
  {
    assert (extra + rest)[..|extra|] == extra;
  }

  lemma TokenRead(lit: seq<nat>, dist: seq<nat>, t: Token, rest: seq<bool>)
    requires Proper(lit) && Proper(dist) && Coded(lit, dist, t)
    ensures ReadFrom(lit, dist, AtStart, TokenBits(lit, dist, t) + rest) == Read(t.Element(), rest)
  {
    hide Proper, CodeBits, ReadFrom;
    match t
    case Single(b) =>
      SymbolOfCode(lit, b, rest);
      LiteralRead(lit, dist, b, CodeBits(lit, b) + rest, rest);
    case Match(ls, le, ds, de) =>
      MatchRead(lit, dist, ls, le, ds, de, TokenBits(lit, dist, t) + rest, rest);
  }

  lemma LiteralRead(lit: seq<nat>, dist: seq<nat>, b: Byte, s: seq<bool>, rest: seq<bool>)
    requires Symbol(lit, s) == Some(b) && lit[b] <= |s| && s[lit[b]..] == rest
    ensures ReadFrom(lit, dist, AtStart, s) == Read(Literal(b), rest)
  {
    hide Symbol, Live;
  }

  lemma MatchRead(lit: seq<nat>, dist: seq<nat>, ls: nat, le: seq<bool>, ds: nat, de: seq<bool>, s: seq<bool>, rest: seq<bool>)
    requires Proper(lit) && Proper(dist) && Coded(lit, dist, Match(ls, le, ds, de))
    requires s == CodeBits(lit, ls) + (le + (CodeBits(dist, ds) + de)) + rest
    ensures ReadFrom(lit, dist, AtStart, s) == Read(Copy(LengthBase(ls) + Value(le), DistBase(ds) + Value(de)), rest)
  {
    hide Proper, CodeBits, Symbol, ReadFrom, LengthBase, DistBase, Value;
    var afterLen := CodeBits(dist, ds) + (de + rest);
    assert s == CodeBits(lit, ls) + (le + afterLen);
    SymbolOfCode(lit, ls, le + afterLen);
    StartRead(lit, dist, ls, s, le + afterLen);
    LengthRead(lit, dist, LengthBase(ls), le, afterLen);
    SymbolOfCode(dist, ds, de + rest);
    DistRead(lit, dist, LengthBase(ls) + Value(le), ds, de, afterLen, rest);
  }

  lemma StartRead(lit: seq<nat>, dist: seq<nat>, ls: nat, s: seq<bool>, rest: seq<bool>)
    requires 257 <= ls <= 285 && Symbol(lit, s) == Some(ls) && lit[ls] <= |s| && s[lit[ls]..] == rest
    ensures ReadFrom(lit, dist, AtStart, s) == ReadFrom(lit, dist, AtLength(LengthBase(ls), LengthExtra(ls)), rest)
  {
    hide Symbol, Live, LengthBase, LengthExtra;
  }

  lemma LengthRead(lit: seq<nat>, dist: seq<nat>, len: nat, le: seq<bool>, rest: seq<bool>)
    ensures ReadFrom(lit, dist, AtLength(len, |le|), le + rest) == ReadFrom(lit, dist, AtDist(len + Value(le)), rest)
  {
    hide Symbol, Live, Get, Value;
    ExtraRead(le, rest);
  }

  lemma DistRead(lit: seq<nat>, dist: seq<nat>, len: nat, ds: nat, de: seq<bool>, s: seq<bool>, rest: seq<bool>)
    requires ds <= 29 && |de| == DistExtra(ds)
    requires IsSym(dist, ds) && dist[ds] <= |s| && Symbol(dist, s) == Some(ds) && s[dist[ds]..] == de + rest
    ensures ReadFrom(lit, dist, AtDist(len), s) == Read(Copy(len, DistBase(ds) + Value(de)), rest)
  {
    hide Symbol, Get, DistBase, DistExtra, Value, Live;
    ExtraRead(de, rest);
  }

  // What the decoder makes of the rest of the stream from c on.
  function From(rules: Rules, c: Config, bits: seq<bool>, out: seq<Byte>): Outcome
  {
    Decode(rules, State(c, bits, out))
  }

  lemma {:induction false} BodyDecodes(rules: Rules, lit: seq<nat>, dist: seq<nat>, final: bool, ts: seq<Token>,
                                       rest: seq<bool>, out: seq<Byte>)
    requires Proper(lit) && Proper(dist) && AllCoded(lit, dist, ts) && Expand(ts, out).Some?
    ensures From(rules, InElement(lit, dist, final, AtStart), Body(lit, dist, ts) + rest, out) ==
            From(rules, InBlocks(final), rest, Expand(ts, out).value)
    decreases |ts|
  {
    hide Proper, CodeBits, Symbol, Decode, TokenBits, ReadFrom, CopyBack;
    DecodeElement(rules, lit, dist, final, AtStart, Body(lit, dist, ts) + rest, out);
    if ts == [] {
      SymbolOfCode(lit, 256, rest);
      EndRead(lit, dist, Body(lit, dist, ts) + rest, rest);
    } else {
      var t, more := ts[0], Body(lit, dist, ts[1..]);
      assert t in ts && forall x | x in ts[1..] :: x in ts;
      assert Body(lit, dist, ts) + rest == TokenBits(lit, dist, t) + (more + rest);
      TokenRead(lit, dist, t, more + rest);
      var o := Apply(Read(t.Element(), more + rest), out).out;
      BodyDecodes(rules, lit, dist, final, ts[1..], rest, o);
    }
  }

  lemma EndRead(lit: seq<nat>, dist: seq<nat>, s: seq<bool>, rest: seq<bool>)
    requires Symbol(lit, s) == Some(256) && lit[256] <= |s| && s[lit[256]..] == rest
    ensures ReadFrom(lit, dist, AtStart, s) == Read(EndOfBlock, rest)
  {
    hide Symbol, Live;
  }

  // ---- every length and distance has a token ----

  // How far to shift n so that it has as many bits as m.
  function Exponent(n: nat, m: nat): (e: nat)
    requires 0 < m <= n
    ensures m <= Shr(n, e) < 2 * m
  {
    if n < 2 * m then 0 else 1 + Exponent(n / 2, m)
  }

  lemma {:induction false} ExponentBound(n: nat, m: nat, k: nat)
    requires 0 < m <= n < m * Pow2(k + 1)
    ensures Exponent(n, m) <= k
    decreases k
  {
    if n >= 2 * m {
      assert m * Pow2(k + 1) == 2 * (m * Pow2(k));
      if k > 0 { ExponentBound(n / 2, m, k - 1); }
    }
  }

  function LengthToken(len: nat): (nat, seq<bool>)
  {
    if len == 258 then (285, [])
    else if len < 11 then (254 + len, [])
    else
      var e := Exponent(len - 3, 4);
      (257 + 4 * e + Shr(len - 3, e), ToBits(len - 3, e))
  }

  function DistToken(d: nat): (nat, seq<bool>)
    requires d >= 1
  {
    if d <= 4 then (d - 1, [])
    else
      var e := Exponent(d - 1, 2);
      (2 * e + Shr(d - 1, e), ToBits(d - 1, e))
  }

  lemma LengthCovered(len: nat)
    requires 3 <= len <= 258
    ensures var (s, extra) := LengthToken(len);
            257 <= s <= 285 && |extra| == LengthExtra(s) && LengthBase(s) + Value(extra) == len
  {
    if 11 <= len < 258 {
      var n := len - 3;
      var e := Exponent(n, 4);
      assert Pow2(6) == 64;
      ExponentBound(n, 4, 5);
      NoShift(n);
      Split(n, e);
      ValueToBits(n, e);
    }
  }

  lemma NoShift(n: nat)
    ensures Shr(n, 0) == n
  {
  }

  lemma DistCovered(d: nat)
    requires 1 <= d <= 32768
    ensures var (s, extra) := DistToken(d);
            s <= 29 && |extra| == DistExtra(s) && DistBase(s) + Value(extra) == d
  {
    if d > 4 {
      var n := d - 1;
      var e := Exponent(n, 2);
      assert Pow2(14) == 16384;
      ExponentBound(n, 2, 13);
      Split(n, e);
      ValueToBits(n, e);
    }
  }

  // ---- code lengths ----

  // Code lengths as a block sends them: one, or the last one again 3 to 6
  // times, or 3 to 10 zeros, or 11 to 138 zeros.
  datatype Lengths =
    | One(len: nat)
    | Again(more: seq<bool>)
    | Zeros(more: seq<bool>)
    | ManyZeros(more: seq<bool>)
  {
    predicate WellFormed()
    {
      match this
      case One(len) => len <= 15
      case Again(more) => |more| == 2
      case Zeros(more) => |more| == 3
      case ManyZeros(more) => |more| == 7
    }

    function Sym(): nat
    {
      match this
      case One(len) => len
      case Again(_) => 16
      case Zeros(_) => 17
      case ManyZeros(_) => 18
    }

    function Extra(): seq<bool> { if One? then [] else more }

    // The lengths that it adds to those so far.
    function Adds(got: seq<nat>): (r: seq<nat>)
      requires Again? ==> got != []
      ensures |r| > 0
    {
      match this
      case One(len) => [len]
      case Again(more) => Run(got[|got| - 1], 3 + Value(more))
      case Zeros(more) => Run(0, 3 + Value(more))
      case ManyZeros(more) => Run(0, 11 + Value(more))
    }
  }

  // After the lengths got, the runs bring them to lens, with a code that has
  // codewords for what is needed.
  predicate Sends(cl: seq<nat>, got: seq<nat>, runs: seq<Lengths>, lens: seq<nat>)
    decreases |runs|
  {
    if runs == [] then got == lens
    else
      && runs[0].WellFormed() && IsSym(cl, runs[0].Sym()) && (runs[0].Again? ==> got != [])
      && Sends(cl, got + runs[0].Adds(got), runs[1..], lens)
  }

  function RunBits(cl: seq<nat>, got: seq<nat>, runs: seq<Lengths>, lens: seq<nat>): seq<bool>
    requires Sends(cl, got, runs, lens)
    decreases |runs|
  {
    if runs == [] then []
    else
      var r := runs[0];
      CodeBits(cl, r.Sym()) + (r.Extra() + RunBits(cl, got + r.Adds(got), runs[1..], lens))
  }

  // Which symbol of the code length code has its length sent at place k.
  function SymbolAt(k: nat): (s: nat)
    requires k < 19
    ensures s < 19 && SentAt(s) == k
  {
    if k < 3 then 16 + k
    else if k == 3 then 0
    else if k % 2 == 0 then 8 + (k - 4) / 2
    else 7 - (k - 5) / 2
  }

  // A code length code that the first ncode places can send.
  predicate CodeSent(cl: seq<nat>, ncode: nat)
  {
    && 4 <= ncode <= 19 == |cl| && Usable(cl, false)
    && forall s | 0 <= s < 19 :: cl[s] <= 7 && (SentAt(s) >= ncode ==> cl[s] == 0)
  }

  // Its lengths in the order of transmission, from place k on.
  function SentBits(cl: seq<nat>, ncode: nat, k: nat): seq<bool>
    requires CodeSent(cl, ncode) && k <= ncode
    decreases ncode - k
  {
    if k == ncode then [] else ToBits(cl[SymbolAt(k)], 3) + SentBits(cl, ncode, k + 1)
  }

  // ---- blocks ----

  datatype Block =
    | Plain(data: seq<Byte>)
    | Fixed(tokens: seq<Token>)
    | Custom(cl: seq<nat>, ncode: nat, runs: seq<Lengths>, lit: seq<nat>, dist: seq<nat>, tokens: seq<Token>)
  {
    // Sizes within the format, codes to decode with, and a codeword for
    // everything.
    predicate Valid()
    {
      match this
      case Plain(data) => |data| < 0x10000
      case Fixed(ts) => AllCoded(FixedLit(), FixedDist(), ts)
      case Custom(cl, ncode, runs, lit, dist, ts) =>
        && CodeSent(cl, ncode) && Sends(cl, [], runs, lit + dist)
        && 257 <= |lit| <= 286 && 1 <= |dist| <= 32 && ValidLens(lit) && ValidLens(dist)
        && Usable(lit, true) && Usable(dist, true) && AllCoded(lit, dist, ts)
    }

    // Lengths for as many distance symbols as the firmware allows for.
    predicate Modest()
    {
      Custom? ==> |dist| <= 30
    }

    function Output(out: seq<Byte>): Option<seq<Byte>>
      requires Valid()
    {
      match this
      case Plain(data) => Some(out + data)
      case Fixed(ts) => Expand(ts, out)
      case Custom(_, _, _, _, _, ts) => Expand(ts, out)
    }
  }

  // Zeros up to the next byte boundary, after n bits.
  function Padding(n: nat): (s: seq<bool>)
    ensures |s| < 8 && (n + |s|) % 8 == 0
  {
    seq((8 - n % 8) % 8, i => false)
  }

  function BlockType(b: Block): nat { if b.Plain? then 0 else if b.Fixed? then 1 else 2 }

  // The block without its first three bits, which follow n bits.
  function BlockBody(b: Block, n: nat): seq<bool>
    requires b.Valid()
  {
    match b
    case Plain(data) => Padding(n + 3) + (ToBits(|data|, 16) + (ToBits(0xffff - |data|, 16) + FromBytes(data)))
    case Fixed(ts) => Body(FixedLit(), FixedDist(), ts)
    case Custom(cl, ncode, runs, lit, dist, ts) =>
      CustomHeader(b) + (SentBits(cl, ncode, 0) + (RunBits(cl, [], runs, lit + dist) + Body(lit, dist, ts)))
  }

  // How many lengths of each kind there are.
  function CustomHeader(b: Block): (s: seq<bool>)
    requires b.Valid() && b.Custom?
    ensures |s| == 14
  {
    ToBits(|b.lit| - 257, 5) + (ToBits(|b.dist| - 1, 5) + ToBits(b.ncode - 4, 4))
  }

  function BlockBits(final: bool, b: Block, n: nat): seq<bool>
    requires b.Valid()
  {
    [final] + (ToBits(BlockType(b), 2) + BlockBody(b, n))
  }

  // ---- stored blocks ----

  lemma NumberRead(v: nat, n: nat, rest: seq<bool>)
    requires v < Pow2(n)
    ensures Get(ToBits(v, n) + rest, n) == v && (ToBits(v, n) + rest)[n..] == rest
  {
    ExtraRead(ToBits(v, n), rest);
    ValueToBits(v, n);
    LowOfSmall(v, n);
  }

  // One step of the decoder.
  lemma OneStep(rules: Rules, s: State, t: State)
    requires Next(rules, s) == Go(t)
    ensures Decode(rules, s) == Decode(rules, t)
  {
    hide Next;
  }

  lemma {:induction false} StoredDecodes(rules: Rules, data: seq<Byte>, final: bool, rest: seq<bool>, out: seq<Byte>)
    ensures From(rules, InStored(|data|, final), FromBytes(data) + rest, out) ==
            From(rules, InBlocks(final), rest, out + data)
    decreases |data|
  {
    hide Decode, ToBits, Get;
    var s := State(InStored(|data|, final), FromBytes(data) + rest, out);
    if data == [] {
      assert FromBytes(data) + rest == rest && out + data == out;
      OneStep(rules, s, State(InBlocks(final), rest, out));
    } else {
      var more := FromBytes(data[1..]) + rest;
      assert FromBytes(data) + rest == ToBits(data[0], 8) + more;
      assert Pow2(8) == 256;
      NumberRead(data[0], 8, more);
      OneStep(rules, s, State(InStored(|data| - 1, final), more, out + [data[0]]));
      StoredDecodes(rules, data[1..], final, rest, out + [data[0]]);
      assert out + [data[0]] + data[1..] == out + data;
    }
  }

  lemma PlainDecodes(rules: Rules, data: seq<Byte>, n: nat, final: bool, rest: seq<bool>, out: seq<Byte>)
    requires |data| < 0x10000
    requires (n + 3 + |BlockBody(Plain(data), n)| + |rest|) % 8 == 0
    ensures From(rules, InStoredHeader(final), BlockBody(Plain(data), n) + rest, out) ==
            From(rules, InBlocks(final), rest, out + data)
  {
    hide Decode, ToBits, Get, FromBytes, Align, Padding;
    var pad, more := Padding(n + 3), FromBytes(data) + rest;
    var s := ToBits(|data|, 16) + (ToBits(0xffff - |data|, 16) + more);
    var all := BlockBody(Plain(data), n) + rest;
    assert all == pad + s;
    StoredCounts(|data|, more);
    PadSkipped(pad, s, n + 3);
    OneStep(rules, State(InStoredHeader(final), all, out), State(InStored(|data|, final), more, out));
    StoredDecodes(rules, data, final, rest, out);
  }

  // The two copies of the length of a stored block.
  lemma StoredCounts(n: nat, more: seq<bool>)
    requires n < 0x10000
    ensures var s := ToBits(n, 16) + (ToBits(0xffff - n, 16) + more);
            Get(s, 16) == n && Get(s[16..], 16) == 0xffff - n && s[32..] == more
  {
    hide ToBits, Get;
    Pow2Sixteen();
    var s1 := ToBits(0xffff - n, 16) + more;
    var s := ToBits(n, 16) + s1;
    NumberRead(n, 16, s1);
    NumberRead(0xffff - n, 16, more);
    assert s[32..] == s[16..][16..];
  }

  lemma PadSkipped(pad: seq<bool>, s: seq<bool>, n: nat)
    requires pad == Padding(n) && (n + |pad| + |s|) % 8 == 0
    ensures Align(pad + s) == s
  {
    assert |s| % 8 == 0;
    assert |pad + s| % 8 == |pad|;
    assert (pad + s)[|pad|..] == s;
  }

  // ---- blocks with codes of their own ----

  lemma {:induction false} SentDecodes(rules: Rules, h: Header, cl: seq<nat>, got: seq<nat>, final: bool, rest: seq<bool>,
                                       out: seq<Byte>)
    requires CodeSent(cl, h.ncode) && |got| <= h.ncode && forall k | 0 <= k < |got| :: got[k] == cl[SymbolAt(k)]
    ensures From(rules, InCodeLens(h, got, final), SentBits(cl, h.ncode, |got|) + rest, out) ==
            From(rules, InLengths(h, cl, [], final), rest, out)
    decreases h.ncode - |got|
  {
    hide ToBits, Decode, SymbolAt, SentAt, Get, Usable, Unordered;
    var k := |got|;
    var s := State(InCodeLens(h, got, final), SentBits(cl, h.ncode, k) + rest, out);
    if k == h.ncode {
      AllSent(cl, got);
      assert SentBits(cl, h.ncode, k) + rest == rest;
      OneStep(rules, s, State(InLengths(h, cl, [], final), rest, out));
    } else {
      var v, more := cl[SymbolAt(k)], SentBits(cl, h.ncode, k + 1) + rest;
      assert SentBits(cl, h.ncode, k) + rest == ToBits(v, 3) + more;
      assert Pow2(3) == 8;
      NumberRead(v, 3, more);
      OneStep(rules, s, State(InCodeLens(h, got + [v], final), more, out));
      SentDecodes(rules, h, cl, got + [v], final, rest, out);
    }
  }

  lemma AllSent(cl: seq<nat>, got: seq<nat>)
    requires CodeSent(cl, |got|) && forall k | 0 <= k < |got| :: got[k] == cl[SymbolAt(k)]
    ensures Unordered(got) == cl
  {
    hide Usable;
    forall s: nat | s < 19
      ensures Unordered(got)[s] == cl[s]
    {
      assert SymbolAt(SentAt(s)) == s;
    }
  }

  lemma {:induction false} SendsMore(cl: seq<nat>, got: seq<nat>, runs: seq<Lengths>, lens: seq<nat>)
    requires Sends(cl, got, runs, lens)
    ensures |got| + |runs| <= |lens|
    decreases |runs|
  {
    if runs != [] { SendsMore(cl, got + runs[0].Adds(got), runs[1..], lens); }
  }

  lemma {:induction false} LengthsDecode(rules: Rules, h: Header, cl: seq<nat>, got: seq<nat>, runs: seq<Lengths>,
                                         lens: seq<nat>, final: bool, rest: seq<bool>, out: seq<Byte>)
    requires Proper(cl) && Sends(cl, got, runs, lens) && |lens| == h.nlen + h.ndist
    ensures From(rules, InLengths(h, cl, got, final), RunBits(cl, got, runs, lens) + rest, out) ==
            From(rules, InLengths(h, cl, lens, final), rest, out)
    decreases |runs|
  {
    hide CodeBits, Decode, ReadItem, Proper;
    var bits := RunBits(cl, got, runs, lens) + rest;
    if runs == [] {
      assert bits == rest;
    } else {
      var r := runs[0];
      var adds := r.Adds(got);
      var tail := RunBits(cl, got + adds, runs[1..], lens) + rest;
      assert bits == CodeBits(cl, r.Sym()) + (r.Extra() + tail);
      ItemRead(rules, cl, got, r, tail);
      SendsMore(cl, got + adds, runs[1..], lens);
      OneStep(rules, State(InLengths(h, cl, got, final), bits, out), State(InLengths(h, cl, got + adds, final), tail, out));
      LengthsDecode(rules, h, cl, got + adds, runs[1..], lens, final, rest, out);
    }
  }

  lemma ItemRead(rules: Rules, cl: seq<nat>, got: seq<nat>, r: Lengths, rest: seq<bool>)
    requires Proper(cl) && r.WellFormed() && IsSym(cl, r.Sym()) && (r.Again? ==> got != [])
    ensures ReadItem(rules, cl, got, CodeBits(cl, r.Sym()) + (r.Extra() + rest)) == Item(r.Adds(got), rest)
  {
    hide CodeBits, Symbol, Live, Proper, Get, Value, Run;
    SymbolOfCode(cl, r.Sym(), r.Extra() + rest);
    ExtraRead(r.Extra(), rest);
    if r.One? { assert r.Extra() + rest == rest; }
  }

  // ---- all code lengths can be sent ----

  // Four bits for each of 0 to 15.
  function FlatCode(): (s: seq<nat>)
    ensures |s| == 19
  {
    seq(19, (i: nat) => if i < 16 then 4 else 0)
  }

  function Singly(lens: seq<nat>): (r: seq<Lengths>)
    ensures |r| == |lens|
  {
    seq(|lens|, i requires 0 <= i < |lens| => One(lens[i]))
  }

  lemma {:induction false} FlatCount(n: nat, l: nat)
    requires n <= 19
    ensures Count(FlatCode()[..n], l) == (if l == 4 then (if n < 16 then n else 16) else if l == 0 && n > 16 then n - 16 else 0)
    decreases n
  {
    if n > 0 {
      var s := FlatCode()[..n];
      assert s[..|s| - 1] == FlatCode()[..n - 1];
      FlatCount(n - 1, l);
    } else {
      assert FlatCode()[..0] == [];
    }
  }

  lemma FlatLengths()
    ensures ValidLens(FlatCode()) && forall x: nat | x <= MAXBITS :: IsSym(FlatCode(), x)
  {
  }

  lemma EndStep(lens: seq<nat>, l: nat)
    requires 1 <= l <= MAXBITS
    ensures End(lens, l) == End(lens, l - 1) + Shl(Count(lens, l), MAXBITS - l)
  {
  }

  lemma FlatComplete()
    ensures ValidLens(FlatCode()) && Complete(FlatCode()) && !OverSubscribed(FlatCode())
    ensures !Empty(FlatCode()) && Usable(FlatCode(), false)
  {
    hide Count, Shl, FlatCode, End;
    FlatLengths();
    assert FlatCode()[..19] == FlatCode();
    FlatCount(19, 4);
    forall l: nat | l != 4 && 1 <= l
      ensures Count(FlatCode(), l) == 0
    {
      FlatCount(19, l);
    }
    NoneUsed(FlatCode(), 0, 3);
    NoneUsed(FlatCode(), 4, MAXBITS);
    EndZero(FlatCode());
    EndStep(FlatCode(), 4);
    assert Pow2(4) == 16;
    ShlPow2(4, 11);
    assert IsSym(FlatCode(), 0);
  }

  lemma FlatSent()
    ensures CodeSent(FlatCode(), 19)
  {
    hide FlatCode, Usable;
    FlatComplete();
    FlatSmall();
  }

  lemma FlatSmall()
    ensures forall s | 0 <= s < 19 :: FlatCode()[s] <= 7 && SentAt(s) < 19
  {
  }

  lemma LengthsCovered(lens: seq<nat>)
    requires ValidLens(lens)
    ensures CodeSent(FlatCode(), 19) && Sends(FlatCode(), [], Singly(lens), lens)
  {
    hide FlatCode, Sends;
    FlatSent();
    SinglySends([], lens);
    assert [] + lens == lens;
  }

  lemma {:induction false} SinglySends(got: seq<nat>, lens: seq<nat>)
    requires ValidLens(lens)
    ensures Sends(FlatCode(), got, Singly(lens), got + lens)
    decreases |lens|
  {
    hide FlatCode;
    FlatLengths();
    if lens == [] {
      assert got + lens == got;
    } else {
      var x := lens[0];
      SinglySends(got + [x], lens[1..]);
      assert got + [x] + lens[1..] == got + lens;
      assert Singly(lens)[1..] == Singly(lens[1..]) && IsSym(FlatCode(), x);
    }
  }

  // ---- a block with codes of its own ----

  lemma CustomDecodes(rules: Rules, b: Block, n: nat, final: bool, rest: seq<bool>, out: seq<Byte>)
    requires b.Valid() && b.Custom? && b.Output(out).Some? && (rules == Firmware ==> b.Modest())
    ensures From(rules, InDynamic(final), BlockBody(b, n) + rest, out) == From(rules, InBlocks(final), rest, b.Output(out).value)
  {
    hide From, ToBits, Get, Body, RunBits, SentBits, Usable, Sends, CodeSent;
    var cl, ncode, lit, dist := b.cl, b.ncode, b.lit, b.dist;
    CodeIsSent(cl, ncode);
    var h := Header(|lit|, |dist|, ncode);
    var s5 := Body(lit, dist, b.tokens) + rest;
    var s4 := RunBits(cl, [], b.runs, lit + dist) + s5;
    var s3 := SentBits(cl, ncode, 0) + s4;
    assert BlockBody(b, n) + rest == CustomHeader(b) + s3;
    HeaderDecodes(rules, b, final, s3, out);
    SentDecodes(rules, h, cl, [], final, s4, out);
    LengthsDecode(rules, h, cl, [], b.runs, lit + dist, final, s5, out);
    LengthsDone(rules, h, cl, lit, dist, final, s5, out);
    UsableCode(lit);
    UsableCode(dist);
    BodyDecodes(rules, lit, dist, final, b.tokens, rest, out);
  }

  lemma HeaderDecodes(rules: Rules, b: Block, final: bool, rest: seq<bool>, out: seq<Byte>)
    requires b.Valid() && b.Custom? && (rules == Firmware ==> b.Modest())
    ensures From(rules, InDynamic(final), CustomHeader(b) + rest, out) ==
            From(rules, InCodeLens(Header(|b.lit|, |b.dist|, b.ncode), [], final), rest, out)
  {
    hide Decode, CustomHeader, Get, AllCoded, Usable, Sends, CodeSent;
    HeaderRead(b, rest);
    OneStep(rules, State(InDynamic(final), CustomHeader(b) + rest, out),
            State(InCodeLens(Header(|b.lit|, |b.dist|, b.ncode), [], final), rest, out));
  }

  // With all lengths there, both codes are complete enough.
  lemma LengthsDone(rules: Rules, h: Header, cl: seq<nat>, lit: seq<nat>, dist: seq<nat>, final: bool, rest: seq<bool>,
                    out: seq<Byte>)
    requires h.nlen == |lit| && h.ndist == |dist| && Usable(lit, true) && Usable(dist, true)
    ensures From(rules, InLengths(h, cl, lit + dist, final), rest, out) ==
            From(rules, InElement(lit, dist, final, AtStart), rest, out)
  {
    hide Decode, Usable;
    assert (lit + dist)[..|lit|] == lit && (lit + dist)[|lit|..] == dist;
    OneStep(rules, State(InLengths(h, cl, lit + dist, final), rest, out), State(InElement(lit, dist, final, AtStart), rest, out));
  }

  lemma CodeIsSent(cl: seq<nat>, ncode: nat)
    requires CodeSent(cl, ncode)
    ensures 4 <= ncode <= 19 == |cl| && Proper(cl)
  {
    hide Usable;
    UsableToo(cl);
    UsableCode(cl);
  }

  // The three counts as the decoder reads them.
  lemma HeaderRead(b: Block, rest: seq<bool>)
    requires b.Valid() && b.Custom?
    ensures var s := CustomHeader(b) + rest;
            |s| >= 14 && HeaderAt(s) == Header(|b.lit|, |b.dist|, b.ncode) && s[14..] == rest
  {
    hide ToBits, Get, Block.Valid;
    CountsFit(b);
    var s2 := ToBits(b.ncode - 4, 4) + rest;
    var s1 := ToBits(|b.dist| - 1, 5) + s2;
    var s0 := ToBits(|b.lit| - 257, 5) + s1;
    assert CustomHeader(b) + rest == s0;
    NumberRead(|b.lit| - 257, 5, s1);
    NumberRead(|b.dist| - 1, 5, s2);
    NumberRead(b.ncode - 4, 4, rest);
    assert s0[10..] == s1[5..] && s0[14..] == s2[4..];
  }

  lemma CountsFit(b: Block)
    requires b.Valid() && b.Custom?
    ensures 257 <= |b.lit| < 257 + Pow2(5) && 1 <= |b.dist| < 1 + Pow2(5) && 4 <= b.ncode < 4 + Pow2(4)
  {
    hide Usable, AllCoded, Sends;
    assert Pow2(4) == 16 && Pow2(5) == 32;
  }

  // The firmware stops at the header of a block with more distance lengths
  // than it allows for.
  lemma CustomRefused(b: Block, n: nat, final: bool, rest: seq<bool>, out: seq<Byte>)
    requires b.Valid() && !b.Modest()
    ensures From(Firmware, InDynamic(final), BlockBody(b, n) + rest, out) == Reject(out)
  {
    hide Decode, ToBits, Get, CustomHeader, BlockBody, Block.Valid;
    HeaderFirst(b, n);
    var more := BlockBody(b, n)[14..] + rest;
    assert BlockBody(b, n) + rest == CustomHeader(b) + more;
    HeaderRead(b, more);
    OneStep(Firmware, State(InDynamic(final), CustomHeader(b) + more, out), State(Failed, more, out));
    FailedEnds(Firmware, more, out);
  }

  lemma HeaderFirst(b: Block, n: nat)
    requires b.Valid() && b.Custom?
    ensures CustomHeader(b) <= BlockBody(b, n)
  {
    hide CustomHeader, SentBits, RunBits, Body, CodeSent, Sends;
  }

  lemma FailedEnds(rules: Rules, bits: seq<bool>, out: seq<Byte>)
    ensures Decode(rules, State(Failed, bits, out)) == Reject(out)
  {
  }

  // ---- any block ----

  // From the three bits at the front to the body.
  lemma BlockStarts(rules: Rules, final: bool, b: Block, n: nat, rest: seq<bool>, out: seq<Byte>)
    requires b.Valid()
    ensures Next(rules, State(InBlocks(false), BlockBits(final, b, n) + rest, out)) ==
            Go(State(BlockOf(BlockType(b), final), BlockBody(b, n) + rest, out))
    ensures From(rules, InBlocks(false), BlockBits(final, b, n) + rest, out) ==
            From(rules, BlockOf(BlockType(b), final), BlockBody(b, n) + rest, out)
  {
    hide BlockBody, Decode, Get, ToBits, Block.Valid, BlockOf;
    var body := BlockBody(b, n) + rest;
    var s := BlockBits(final, b, n) + rest;
    var t := BlockType(b);
    assert s[0] == final && s[1..] == ToBits(t, 2) + body && s[3..] == s[1..][2..];
    assert Pow2(2) == 4;
    NumberRead(t, 2, body);
    OneStep(rules, State(InBlocks(false), s, out), State(BlockOf(t, final), body, out));
  }

  lemma BlockDecodes(rules: Rules, final: bool, b: Block, n: nat, rest: seq<bool>, out: seq<Byte>)
    requires b.Valid() && b.Output(out).Some? && (rules == Firmware ==> b.Modest())
    requires (n + |BlockBits(final, b, n)| + |rest|) % 8 == 0
    ensures From(rules, InBlocks(false), BlockBits(final, b, n) + rest, out) ==
            From(rules, InBlocks(final), rest, b.Output(out).value)
  {
    hide BlockBody, From, ToBits, Block.Valid, Block.Output;
    BlockStarts(rules, final, b, n, rest, out);
    if b.Plain? {
      PlainBlock(rules, b, n, final, rest, out);
    } else if b.Fixed? {
      FixedDecodes(rules, b, n, final, rest, out);
    } else {
      CustomDecodes(rules, b, n, final, rest, out);
    }
  }

  lemma PlainBlock(rules: Rules, b: Block, n: nat, final: bool, rest: seq<bool>, out: seq<Byte>)
    requires b.Valid() && b.Plain? && (n + 3 + |BlockBody(b, n)| + |rest|) % 8 == 0
    ensures From(rules, InStoredHeader(final), BlockBody(b, n) + rest, out) ==
            From(rules, InBlocks(final), rest, b.Output(out).value)
  {
    hide BlockBody, From;
    PlainDecodes(rules, b.data, n, final, rest, out);
  }

  lemma FixedKnown()
    ensures Proper(FixedLit()) && Proper(FixedDist())
  {
    hide FixedLit, FixedDist, ValidLens, End;
    FixedCodesValid();
    FixedLitComplete();
    FixedDistComplete();
  }

  lemma FixedDecodes(rules: Rules, b: Block, n: nat, final: bool, rest: seq<bool>, out: seq<Byte>)
    requires b.Valid() && b.Fixed? && b.Output(out).Some?
    ensures From(rules, InElement(FixedLit(), FixedDist(), final, AtStart), BlockBody(b, n) + rest, out) ==
            From(rules, InBlocks(final), rest, b.Output(out).value)
  {
    hide From, Body, FixedLit, FixedDist, Expand, AllCoded, Proper;
    FixedKnown();
    BodyDecodes(rules, FixedLit(), FixedDist(), final, b.tokens, rest, out);
  }

  // ---- whole streams ----

  predicate AllValid(bs: seq<Block>) { bs != [] && forall b | b in bs :: b.Valid() }

  // No block has lengths for more than 30 distance symbols.
  predicate AllModest(bs: seq<Block>) { forall b | b in bs :: b.Modest() }

  // The stream of the blocks, after n bits.
  function Encode(bs: seq<Block>, n: nat): seq<bool>
    requires AllValid(bs)
    decreases |bs|
  {
    var last := |bs| == 1;
    var bits := BlockBits(last, bs[0], n);
    bits + (if last then Padding(n + |bits|) else Encode(bs[1..], n + |bits|))
  }

  lemma OthersValid(bs: seq<Block>)
    requires AllValid(bs)
    ensures bs != [] && bs[0].Valid() && (|bs| > 1 ==> AllValid(bs[1..]))
  {
    hide Block.Valid;
    assert bs[0] in bs && forall x | x in bs[1..] :: x in bs;
  }

  // With the n bits before it, whole bytes.
  lemma {:induction false} EncodeWhole(bs: seq<Block>, n: nat)
    requires AllValid(bs)
    ensures (n + |Encode(bs, n)|) % 8 == 0
    decreases |bs|
  {
    hide BlockBits, Block.Valid, AllValid;
    OthersValid(bs);
    if |bs| > 1 { EncodeWhole(bs[1..], n + |BlockBits(false, bs[0], n)|); }
  }

  // What the blocks say, after out; None if a match reaches back too far.
  function Text(bs: seq<Block>, out: seq<Byte>): Option<seq<Byte>>
    requires bs == [] || AllValid(bs)
    decreases |bs|
  {
    if bs == [] then Some(out)
    else
      match bs[0].Output(out)
      case None => None
      case Some(o) => Text(bs[1..], o)
  }

  // What the blocks before the first one that is not modest say.
  function Before(bs: seq<Block>, out: seq<Byte>): seq<Byte>
    requires AllValid(bs) && Text(bs, out).Some? && !AllModest(bs)
    decreases |bs|
  {
    if !bs[0].Modest() then out
    else
      assert exists b | b in bs[1..] :: !b.Modest();
      Before(bs[1..], bs[0].Output(out).value)
  }

  lemma BlocksEnd(rules: Rules, rest: seq<bool>, out: seq<Byte>)
    ensures From(rules, InBlocks(true), rest, out) == Accept(out, Align(rest))
  {
    hide Align;
    OneStep(rules, State(InBlocks(true), rest, out), State(Finished, Align(rest), out));
  }

  // Decoding inverts encoding; the firmware decodes up to the first block that
  // is not modest.
  lemma {:induction false} EncodeDecodes(rules: Rules, bs: seq<Block>, n: nat, out: seq<Byte>)
    requires AllValid(bs) && Text(bs, out).Some?
    ensures From(rules, InBlocks(false), Encode(bs, n), out) ==
            if rules == Standard || AllModest(bs) then Accept(Text(bs, out).value, []) else Reject(Before(bs, out))
    decreases |bs|
  {
    hide Block.Valid, Block.Output, From, Block.Modest, BlockBits, AllValid, AllModest, Text, Before, Encode;
    FirstOf(bs, n, out);
    if rules == Firmware && !bs[0].Modest() {
      RefusedFirst(bs, n, out);
    } else if |bs| == 1 {
      DecodesLast(rules, bs, n, out);
    } else {
      var bits := BlockBits(false, bs[0], n);
      BlockDecodes(rules, false, bs[0], n, Encode(bs[1..], n + |bits|), out);
      EncodeDecodes(rules, bs[1..], n + |bits|, bs[0].Output(out).value);
    }
  }

  // The first block and the others.
  lemma FirstOf(bs: seq<Block>, n: nat, out: seq<Byte>)
    requires AllValid(bs) && Text(bs, out).Some?
    ensures bs != [] && bs[0].Valid() && bs[0].Output(out).Some?
    ensures AllModest(bs) <==> bs[0].Modest() && (|bs| == 1 || AllModest(bs[1..]))
    ensures |bs| > 1 ==>
              var bits, o := BlockBits(false, bs[0], n), bs[0].Output(out).value;
              && AllValid(bs[1..]) && Text(bs[1..], o) == Text(bs, out)
              && Encode(bs, n) == bits + Encode(bs[1..], n + |bits|) && (n + |Encode(bs, n)|) % 8 == 0
              && (bs[0].Modest() && !AllModest(bs) ==> Before(bs, out) == Before(bs[1..], o))
  {
    hide Block.Valid, Block.Output, Block.Modest, BlockBits;
    assert bs[0] in bs && (forall x | x in bs[1..] :: x in bs) && forall x | x in bs :: x == bs[0] || x in bs[1..];
    EncodeWhole(bs, n);
  }

  lemma DecodesLast(rules: Rules, bs: seq<Block>, n: nat, out: seq<Byte>)
    requires |bs| == 1 && AllValid(bs) && Text(bs, out).Some? && (rules == Firmware ==> bs[0].Modest())
    ensures From(rules, InBlocks(false), Encode(bs, n), out) == Accept(Text(bs, out).value, [])
  {
    hide BlockBits, Align, Block.Valid, Block.Output, From, Block.Modest;
    var b, bits := bs[0], BlockBits(true, bs[0], n);
    var pad := Padding(n + |bits|);
    assert b in bs && bs[1..] == [] && pad + [] == pad;
    BlockDecodes(rules, true, b, n, pad, out);
    PadSkipped(pad, [], n + |bits|);
    BlocksEnd(rules, pad, b.Output(out).value);
  }

  lemma RefusedFirst(bs: seq<Block>, n: nat, out: seq<Byte>)
    requires AllValid(bs) && Text(bs, out).Some? && bs[0].Valid() && !bs[0].Modest() && !AllModest(bs)
    ensures From(Firmware, InBlocks(false), Encode(bs, n), out) == Reject(Before(bs, out))
  {
    hide BlockBits, Block.Valid, Block.Output, From, Block.Modest;
    var bits := BlockBits(|bs| == 1, bs[0], n);
    var rest := Encode(bs, n)[|bits|..];
    assert bits + rest == Encode(bs, n);
    BlockRefused(|bs| == 1, bs[0], n, rest, out);
  }

  lemma BlockRefused(final: bool, b: Block, n: nat, rest: seq<bool>, out: seq<Byte>)
    requires b.Valid() && !b.Modest()
    ensures From(Firmware, InBlocks(false), BlockBits(final, b, n) + rest, out) == Reject(out)
  {
    hide BlockBody, From, BlockBits, Block.Valid;
    BlockStarts(Firmware, final, b, n, rest, out);
    CustomRefused(b, n, final, rest, out);
  }

  // ---- as bytes ----

  function ToBytes(s: seq<bool>): seq<Byte>
    requires |s| % 8 == 0
  {
    if s == [] then []
    else
      assert Pow2(8) == 256;
      [Value(s[..8])] + ToBytes(s[8..])
  }

  lemma {:induction false} ToBytesBits(s: seq<bool>)
    requires |s| % 8 == 0
    ensures FromBytes(ToBytes(s)) == s
    decreases |s|
  {
    if s != [] {
      ToBitsValue(s[..8]);
      ToBytesBits(s[8..]);
      assert s[..8] + s[8..] == s;
    }
  }

  function Compressed(bs: seq<Block>): seq<Byte>
    requires AllValid(bs)
  {
    hide Encode, AllValid, ToBytes;
    EncodeWhole(bs, 0);
    ToBytes(Encode(bs, 0))
  }

  lemma CompressedBits(bs: seq<Block>)
    requires AllValid(bs)
    ensures FromBytes(Compressed(bs)) == Encode(bs, 0)
  {
    hide Encode;
    EncodeWhole(bs, 0);
    ToBytesBits(Encode(bs, 0));
  }

  // RFC 1951 makes of the stream what its blocks say, and so does the firmware
  // unless one of them is not modest.
  lemma CompressedDecodes(rules: Rules, bs: seq<Block>)
    requires AllValid(bs) && Text(bs, []).Some?
    ensures Inflate(rules, FromBytes(Compressed(bs))) ==
            if rules == Standard || AllModest(bs) then Accept(Text(bs, []).value, []) else Reject(Before(bs, []))
  {
    hide Encode, Decode, Before, AllModest;
    CompressedBits(bs);
    EncodeDecodes(rules, bs, 0, []);
  }
}
