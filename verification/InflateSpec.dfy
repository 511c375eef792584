// Where the decoder of wtmi/compressed/inflate.c may stop, in terms of RFC 1951,
// and what its machine still makes of the stream there.
module InflateSpec {
  import opened Types
  import opened Bits
  import opened Canonical
  import opened DecodeTable
  import opened Rfc1951
  import opened BitStream

  // ---- what is still to come ----

  // Distance of the copy that the element in progress is; 0 if it is none.
  function Distance(lit: seq<nat>, dist: seq<nat>, e: Pending, bits: seq<bool>): nat
  {
    match ReadFrom(lit, dist, e, bits)
    case Read(Copy(_, d), _) => d
    case _ => 0
  }

  // An element that repeats the byte before it, with at least six bytes to read
  // from: where inflate_fast may look at a byte that was not put out.
  predicate Spot(s: State)
  {
    s.c.InElement? && s.c.e == AtStart && |s.bits| >= 48 && Distance(s.c.lit, s.c.dist, AtStart, s.bits) == 1
  }

  // How much has been put out at each of them.
  function Spots(s: State): set<nat>
    decreases |s.bits|, Turns(s.c)
  {
    (if Spot(s) then {|s.out|} else {}) +
    (match Next(Firmware, s)
     case Go(t) => Spots(t)
     case Halt(_) => {})
  }

  datatype View = View(end: Outcome, spots: set<nat>)

  // What the firmware's reading of the format makes of the rest of the stream
  // from c on.
  function Rest(c: Config, bits: seq<bool>, out: seq<Byte>): View
  {
    View(Decode(Firmware, State(c, bits, out)), Spots(State(c, bits, out)))
  }

  function Failure(out: seq<Byte>): View { View(Reject(out), {}) }

  function Waits(c: Config, bits: seq<bool>, out: seq<Byte>): View { View(More(c, bits, out), {}) }

  lemma RestGo(s: State, t: State)
    requires Next(Firmware, s) == Go(t) && !Spot(s)
    ensures Rest(s.c, s.bits, s.out) == Rest(t.c, t.bits, t.out)
  {
    hide Next, Spot;
  }

  lemma RestFailed(bits: seq<bool>, out: seq<Byte>)
    ensures Rest(Failed, bits, out) == Failure(out)
  {
  }

  // One step outside the elements of a block.
  lemma RestStep(c: Config, bits: seq<bool>, out: seq<Byte>)
    requires !c.InElement?
    ensures match Next(Firmware, State(c, bits, out))
            case Go(t) => Rest(c, bits, out) == Rest(t.c, t.bits, t.out) && (t.c == Failed ==> Rest(c, bits, out) == Failure(t.out))
            case Halt(r) => Rest(c, bits, out) == View(r, {})
  {
    hide Next;
    match Next(Firmware, State(c, bits, out))
    case Go(t) =>
      RestGo(State(c, bits, out), t);
      RestFailed(t.bits, t.out);
    case Halt(_) =>
  }

  // What follows an element.
  function Resume(lit: seq<nat>, dist: seq<nat>, last: bool, p: Point): View
  {
    match p
    case Broken(out) => Failure(out)
    case Waiting(e, bits, out) => Waits(InElement(lit, dist, last, e), bits, out)
    case Point(bits, out, eob) => Rest(if eob then InBlocks(last) else InElement(lit, dist, last, AtStart), bits, out)
  }

  function Seen(yes: bool, n: nat, v: View): View { if yes then View(v.end, v.spots + {n}) else v }

  lemma RestElement(lit: seq<nat>, dist: seq<nat>, last: bool, e: Pending, bits: seq<bool>, out: seq<Byte>)
    ensures var c := InElement(lit, dist, last, e);
            Rest(c, bits, out) ==
            Seen(Spot(State(c, bits, out)), |out|, Resume(lit, dist, last, After(lit, dist, e, bits, out)))
  {
    hide After, Spot;
    var s := State(InElement(lit, dist, last, e), bits, out);
    match After(lit, dist, e, bits, out)
    case Broken(o) => RestFailed(bits, o);
    case Waiting(_, _, _) =>
    case Point(_, _, _) =>
  }

  // A copy at the front is a whole element.
  lemma DistanceWhole(lit: seq<nat>, dist: seq<nat>, bits: seq<bool>, out: seq<Byte>)
    ensures Distance(lit, dist, AtStart, bits) > 0 ==> !After(lit, dist, AtStart, bits, out).Waiting?
    ensures Distance(lit, dist, AtStart, bits) == 1 && |out| >= 1 ==>
              var p := After(lit, dist, AtStart, bits, out); p.Point? && !p.eob
  {
    hide ReadFrom, CopyBack;
  }

  // ---- how an element proceeds ----

  lemma AfterStart(lit: seq<nat>, dist: seq<nat>, bits: seq<bool>, out: seq<Byte>)
    ensures match Symbol(lit, bits)
            case None =>
              After(lit, dist, AtStart, bits, out) == if Live(lit, bits) then Waiting(AtStart, bits, out) else Broken(out)
            case Some(s) =>
              var a := After(lit, dist, AtStart, bits, out);
              var rest := bits[lit[s]..];
              if s < 256 then a == After(lit, dist, AtLiteral(s), rest, out)
              else if s == 256 then a == Point(rest, out, true)
              else if s <= 285 then a == After(lit, dist, AtLength(LengthBase(s), LengthExtra(s)), rest, out)
              else a == Broken(out)
  {
    hide Live, Symbol, LengthBase, LengthExtra;
  }

  lemma AfterLength(lit: seq<nat>, dist: seq<nat>, len: nat, extra: nat, bits: seq<bool>, out: seq<Byte>)
    ensures After(lit, dist, AtLength(len, extra), bits, out) ==
            if |bits| < extra then Waiting(AtLength(len, extra), bits, out)
            else After(lit, dist, AtDist(len + Get(bits, extra)), bits[extra..], out)
  {
    hide Symbol, Live;
  }

  lemma AfterDist(lit: seq<nat>, dist: seq<nat>, len: nat, bits: seq<bool>, out: seq<Byte>)
    ensures match Symbol(dist, bits)
            case None =>
              After(lit, dist, AtDist(len), bits, out) == if Live(dist, bits) then Waiting(AtDist(len), bits, out) else Broken(out)
            case Some(s) =>
              After(lit, dist, AtDist(len), bits, out) ==
              if s <= 29 then After(lit, dist, AtDistBits(len, DistBase(s), DistExtra(s)), bits[dist[s]..], out)
              else Broken(out)
  {
    hide Live, Symbol, DistBase, DistExtra;
  }

  lemma AfterDistBits(lit: seq<nat>, dist: seq<nat>, len: nat, d: nat, extra: nat, bits: seq<bool>, out: seq<Byte>)
    ensures After(lit, dist, AtDistBits(len, d, extra), bits, out) ==
            if |bits| < extra then Waiting(AtDistBits(len, d, extra), bits, out)
            else After(lit, dist, AtCopy(len, d + Get(bits, extra)), bits[extra..], out)
  {
  }

  lemma AfterCopy(lit: seq<nat>, dist: seq<nat>, len: nat, d: nat, bits: seq<bool>, out: seq<Byte>)
    ensures After(lit, dist, AtCopy(len, d), bits, out) ==
            if 1 <= d <= |out| then Point(bits, CopyBack(out, len, d), false) else Broken(out)
  {
  }

  // ---- the distance of the copy an element is ----

  lemma DistanceStart(lit: seq<nat>, dist: seq<nat>, bits: seq<bool>)
    ensures var r := Symbol(lit, bits);
            Distance(lit, dist, AtStart, bits) ==
            if r.Some? && 257 <= r.value <= 285
            then Distance(lit, dist, AtLength(LengthBase(r.value), LengthExtra(r.value)), bits[lit[r.value]..])
            else 0
  {
    hide Live, Symbol, LengthBase, LengthExtra;
  }

  lemma DistanceLength(lit: seq<nat>, dist: seq<nat>, len: nat, extra: nat, bits: seq<bool>)
    requires |bits| >= extra
    ensures Distance(lit, dist, AtLength(len, extra), bits) ==
            Distance(lit, dist, AtDist(len + Get(bits, extra)), bits[extra..])
  {
    hide Live, Symbol, Get;
  }

  lemma DistanceDist(lit: seq<nat>, dist: seq<nat>, len: nat, bits: seq<bool>)
    ensures var r := Symbol(dist, bits);
            Distance(lit, dist, AtDist(len), bits) ==
            if r.Some? && r.value <= 29
            then Distance(lit, dist, AtDistBits(len, DistBase(r.value), DistExtra(r.value)), bits[dist[r.value]..])
            else 0
  {
    hide Live, Symbol, DistBase, DistExtra;
  }

  lemma DistanceBits(lit: seq<nat>, dist: seq<nat>, len: nat, d: nat, extra: nat, bits: seq<bool>)
    requires |bits| >= extra
    ensures Distance(lit, dist, AtDistBits(len, d, extra), bits) == d + Get(bits, extra)
  {
  }

  // ---- copies ----

  lemma {:induction false} CopyBackAdd(out: seq<Byte>, a: nat, b: nat, d: nat)
    requires 1 <= d <= |out|
    ensures CopyBack(CopyBack(out, a, d), b, d) == CopyBack(out, a + b, d)
    decreases a
  {
    if a > 0 { CopyBackAdd(out + [out[|out| - d]], a - 1, b, d); }
  }

  lemma CopyBackStep(out: seq<Byte>, n: nat, d: nat)
    requires 1 <= d <= |out|
    ensures var p := CopyBack(out, n, d); CopyBack(out, n + 1, d) == p + [p[|p| - d]]
  {
    CopyBackAdd(out, n, 1, d);
    var p := CopyBack(out, n, d);
    assert CopyBack(p, 1, d) == p + [p[|p| - d]];
  }

  // A copy that does not overlap itself appends a slice.
  lemma {:induction false} CopyBackSlice(out: seq<Byte>, n: nat, d: nat)
    requires n <= d && 1 <= d <= |out|
    ensures CopyBack(out, n, d) == out + out[|out| - d..|out| - d + n]
    decreases n
  {
    if n > 0 {
      var k := |out| - d;
      CopyBackSlice(out, n - 1, d);
      CopyBackStep(out, n - 1, d);
      var o := out + out[k..k + (n - 1)];
      assert o[|o| - d] == out[k + (n - 1)];
      assert out[k..k + n] == out[k..k + (n - 1)] + [out[k + (n - 1)]];
    }
  }

  // ---- elements in a row ----

  // Stream and output after n literals and matches of a block.
  function Elements(lit: seq<nat>, dist: seq<nat>, bits: seq<bool>, out: seq<Byte>, n: nat): (r: Option<Point>)
    ensures r.Some? ==> r.value.Point? && !r.value.eob
    decreases n
  {
    if n == 0 then Some(Point(bits, out, false))
    else
      match After(lit, dist, AtStart, bits, out)
      case Point(rest, o, eob) => if eob then None else Elements(lit, dist, rest, o, n - 1)
      case _ => None
  }

  lemma {:induction false} ElementsStep(lit: seq<nat>, dist: seq<nat>, bits: seq<bool>, out: seq<Byte>, n: nat)
    ensures Elements(lit, dist, bits, out, n + 1) ==
            match Elements(lit, dist, bits, out, n)
            case None => None
            case Some(p) =>
              match After(lit, dist, AtStart, p.bits, p.out)
              case Point(rest, o, eob) => if eob then None else Some(Point(rest, o, false))
              case _ => None
    decreases n
  {
    hide After;
    if n > 0 {
      match After(lit, dist, AtStart, bits, out)
      case Point(rest, o, eob) => if !eob { ElementsStep(lit, dist, rest, o, n - 1); }
      case _ =>
    }
  }

  // Decoding goes on from there as if nothing had happened.
  lemma {:induction false} ElementsRest(lit: seq<nat>, dist: seq<nat>, last: bool, bits: seq<bool>, out: seq<Byte>, n: nat)
    requires Elements(lit, dist, bits, out, n).Some?
    ensures var p := Elements(lit, dist, bits, out, n).value;
            var c := InElement(lit, dist, last, AtStart);
            Rest(c, bits, out).end == Rest(c, p.bits, p.out).end
    decreases n
  {
    hide After, Rest, Spot;
    if n > 0 {
      RestElement(lit, dist, last, AtStart, bits, out);
      var p := After(lit, dist, AtStart, bits, out);
      ElementsRest(lit, dist, last, p.bits, p.out, n - 1);
    }
  }

  // ---- symbols of a stream of which only some bits are held ----

  lemma PrefixFree(lens: seq<nat>, s: nat, t: nat, bits: seq<bool>)
    requires ValidLens(lens) && !OverSubscribed(lens) && IsSym(lens, s) && IsSym(lens, t)
    requires CodeBits(lens, s) <= bits && CodeBits(lens, t) <= bits
    ensures s == t
  {
    ToBitsValue(bits);
    CodeBitsMatch(lens, s, Value(bits), |bits|);
    CodeBitsMatch(lens, t, Value(bits), |bits|);
    MatchesUnique(lens, s, t, Value(bits));
  }

  // The held bits settle the symbol of the stream.
  lemma SymbolHeld(lens: seq<nat>, s: nat, h: nat, n: nat, more: seq<bool>)
    requires ValidLens(lens) && !OverSubscribed(lens) && Matches(lens, s, h) && lens[s] <= n
    ensures Symbol(lens, ToBits(h, n) + more) == Some(s)
  {
    CodeBitsMatch(lens, s, h, n);
    var r := Symbol(lens, ToBits(h, n) + more);
    PrefixFree(lens, s, r.value, ToBits(h, n) + more);
  }

  // With one-bit codes only, a first bit that starts none settles it too.
  lemma SymbolMissing(lens: seq<nat>, h: nat, n: nat, more: seq<bool>)
    requires ValidLens(lens) && !OverSubscribed(lens) && n >= 1 && !Decodable(lens, h)
    requires forall i | 0 <= i < |lens| :: lens[i] <= 1
    ensures Symbol(lens, ToBits(h, n) + more) == None
  {
    var bits := ToBits(h, n) + more;
    var r := Symbol(lens, bits);
    if r.Some? {
      assert CodeBits(lens, r.value) <= ToBits(h, n);
      CodeBitsMatch(lens, r.value, h, n);
    }
  }

  // What a table of the code finds for accumulator h.
  lemma Lookup(t: seq<Code>, root: nat, ct: CodeType, ls: seq<nat>, h: nat) returns (e: Code, k: Option<nat>)
    requires Decodes(t, root, ct, ls)
    ensures Finds(t, root, h, e) && 1 <= e.bits <= MAXBITS && 1 <= root <= MAXBITS
    ensures k.Some? ==> Matches(ls, k.value, h) && e == Entry(ct, k.value, ls[k.value])
    ensures k.None? ==> !Decodable(ls, h) && e == INVALID && forall i | 0 <= i < |ls| :: ls[i] <= 1
  {
    hide Finds;
    if Decodable(ls, h) {
      var s: nat :| Matches(ls, s, h);
      e, k := Entry(ct, s, ls[s]), Some(s);
    } else {
      e, k := INVALID, None;
    }
  }

  // If n bits did not settle the symbol, they still do not after more come in.
  lemma StillShort(t: seq<Code>, root: nat, ct: CodeType, ls: seq<nat>, n: nat, h: nat, d: Code, h': nat, d': Code)
    requires Decodes(t, root, ct, ls) && Finds(t, root, h, d) && Finds(t, root, h', d')
    requires d.bits > n && Low(h', n) == Low(h, n)
    ensures d'.bits > n
  {
    hide Meaning;
    var e, k := Lookup(t, root, ct, ls, h);
    var e', k' := Lookup(t, root, ct, ls, h');
    if d'.bits <= n {
      if k'.Some? {
        SameMatch(ls, k'.value, n, h, h');
      } else {
        if k.Some? { SameMatch(ls, k.value, n, h', h); }
      }
    }
  }

  lemma SameMatch(ls: seq<nat>, s: nat, n: nat, h: nat, h': nat)
    requires Low(h', n) == Low(h, n) && s < |ls| && ls[s] <= n
    ensures Matches(ls, s, h) <==> Matches(ls, s, h')
  {
    if ls[s] >= 1 {
      LowLow(h, ls[s], n);
      LowLow(h', ls[s], n);
    }
  }

  // Bits of a codeword, or no bits, are live.
  lemma CodewordLive(lens: seq<nat>, s: nat, h: nat, n: nat)
    requires Matches(lens, s, h) && n <= lens[s]
    ensures Live(lens, ToBits(h, n))
  {
    hide ToBits, CodeBits;
    CodeBitsMatch(lens, s, h, lens[s]);
    CodeLength(lens, s);
    ToBitsSplit(h, n, lens[s]);
    assert CodeBits(lens, s) == ToBits(h, lens[s]);
    assert ToBits(h, n) <= CodeBits(lens, s);
  }

  lemma CodeLength(lens: seq<nat>, s: nat)
    requires IsSym(lens, s)
    ensures |CodeBits(lens, s)| == lens[s]
  {
  }

  // With one-bit codes only, a first bit that starts none is dead.
  lemma BitDead(lens: seq<nat>, bits: seq<bool>)
    requires bits != [] && Symbol(lens, bits) == None && forall i | 0 <= i < |lens| :: lens[i] <= 1
    ensures !Live(lens, bits)
  {
    hide CodeBits;
    if Live(lens, bits) {
      var s: nat :| s < |lens| && lens[s] >= 1 && bits <= CodeBits(lens, s);
      CodeLength(lens, s);
    }
  }

  // With fewer bits held than the table asks for, there is no symbol yet.
  lemma SymbolShort(t: seq<Code>, root: nat, ct: CodeType, ls: seq<nat>, h: nat, n: nat, e: Code)
    requires Decodes(t, root, ct, ls) && Finds(t, root, h, e) && n < e.bits
    ensures Symbol(ls, ToBits(h, n)) == None && Live(ls, ToBits(h, n))
  {
    hide Live;
    var f, k := Lookup(t, root, ct, ls, h);
    if k.Some? {
      SymbolOfMatch(ls, k.value, h, n);
      CodewordLive(ls, k.value, h, n);
    } else {
      SymbolNone(ls, h, n);
      NoBitsLive(ls, h);
    }
  }

  lemma NoBitsLive(ls: seq<nat>, h: nat)
    ensures Live(ls, ToBits(h, 0))
  {
  }

  // With enough, it is the stream's.
  lemma SymbolSettled(t: seq<Code>, root: nat, ct: CodeType, ls: seq<nat>, h: nat, n: nat, e: Code, more: seq<bool>)
    requires Decodes(t, root, ct, ls) && Finds(t, root, h, e) && n >= e.bits >= 1
    ensures var r := Symbol(ls, ToBits(h, n) + more);
            && r == Symbol(ls, ToBits(h, n))
            && match r
               case None => e == INVALID && !Live(ls, ToBits(h, n) + more)
               case Some(s) => s < MaxCodes(ct) && e == Entry(ct, s, ls[s])
  {
    hide Live, CodeBits;
    var f, k := Lookup(t, root, ct, ls, h);
    assert ToBits(h, n) + [] == ToBits(h, n);
    if k.Some? {
      SymbolHeld(ls, k.value, h, n, more);
      SymbolHeld(ls, k.value, h, n, []);
    } else {
      SymbolMissing(ls, h, n, more);
      SymbolMissing(ls, h, n, []);
      BitDead(ls, ToBits(h, n) + more);
    }
  }

  // ---- output only grows ----

  lemma NextGrows(rules: Rules, s: State)
    ensures match Next(rules, s)
            case Go(t) => s.out <= t.out && (t.c.InElement? ==> s.c.InElement? || t.out == s.out)
            case Halt(r) => r.out == s.out
  {
    hide ReadFrom, Symbol, ReadItem, Usable, Unordered, CopyBack, Get, Align, BlockOf;
  }

  // From wherever the decoder stands, the result extends the output so far.
  lemma {:induction false} DecodeGrows(rules: Rules, s: State)
    ensures s.out <= Decode(rules, s).out
    decreases |s.bits|, Turns(s.c)
  {
    hide Next, Turns;
    NextGrows(rules, s);
    match Next(rules, s)
    case Go(t) => DecodeGrows(rules, t);
    case Halt(_) =>
  }

  lemma RestGrows(c: Config, bits: seq<bool>, out: seq<Byte>)
    ensures out <= Rest(c, bits, out).end.out
  {
    DecodeGrows(Firmware, State(c, bits, out));
  }

  lemma {:induction false} SpotsAbove(s: State, k: nat)
    requires k < |s.out|
    ensures k !in Spots(s)
    decreases |s.bits|, Turns(s.c)
  {
    hide Next, Spot, Turns;
    NextGrows(Firmware, s);
    match Next(Firmware, s)
    case Go(t) => SpotsAbove(t, k);
    case Halt(_) =>
  }

  lemma RestSpots(c: Config, bits: seq<bool>, out: seq<Byte>, k: nat)
    requires k < |out|
    ensures k !in Rest(c, bits, out).spots
  {
    SpotsAbove(State(c, bits, out), k);
  }

  // A pending copy or literal means at least one more byte of output.
  lemma PendingGrows(lit: seq<nat>, dist: seq<nat>, last: bool, e: Pending, bits: seq<bool>, out: seq<Byte>)
    requires e.AtLiteral? || (e.AtCopy? && e.len > 0 && 1 <= e.d <= |out|)
    ensures |Rest(InElement(lit, dist, last, e), bits, out).end.out| > |out|
  {
    hide Rest, Spot;
    RestElement(lit, dist, last, e, bits, out);
    var p := After(lit, dist, e, bits, out);
    RestGrows(InElement(lit, dist, last, AtStart), p.bits, p.out);
  }

  // ---- block headers ----

  lemma {:induction false} BitValue(s: seq<bool>)
    requires |s| >= 1
    ensures Get(s, 1) == if s[0] then 1 else 0
  {
    assert s[..1][1..] == [];
    assert Value(s[..1][1..]) == 0;
  }

  // The three header bits of a block.
  lemma BlockHeader(s: seq<bool>, out: seq<Byte>)
    requires |s| >= 3
    ensures Rest(InBlocks(false), s, out) == Rest(BlockOf(Get(s[1..], 2), Get(s, 1) == 1), s[1..][2..], out)
  {
    hide Rest, Value, BlockOf;
    BitValue(s);
    RestStep(InBlocks(false), s, out);
    assert s[1..][2..] == s[3..];
  }

  lemma BlockHeaderShort(s: seq<bool>, out: seq<Byte>)
    requires |s| < 3
    ensures Rest(InBlocks(false), s, out) == Waits(InBlocks(false), s, out)
  {
    hide Rest;
    RestStep(InBlocks(false), s, out);
  }

  lemma LastBlock(s: seq<bool>, out: seq<Byte>)
    ensures Rest(InBlocks(true), s, out) == Rest(Finished, Align(s), out)
  {
    hide Rest, Align;
    RestStep(InBlocks(true), s, out);
  }

  lemma FinishedRest(s: seq<bool>, out: seq<Byte>)
    ensures Rest(Finished, s, out) == View(Accept(out, s), {})
  {
  }

  // Skipping to the byte boundary first makes no difference.
  lemma StoredAligned(last: bool, s: seq<bool>, out: seq<Byte>)
    ensures Rest(InStoredHeader(last), s, out) == Rest(InStoredHeader(last), Align(s), out)
    ensures |Align(s)| < 32 ==> Rest(InStoredHeader(last), s, out) == Waits(InStoredHeader(last), Align(s), out)
  {
    hide Rest, Value, Align;
    AlignTwice(s);
    RestStep(InStoredHeader(last), s, out);
    RestStep(InStoredHeader(last), Align(s), out);
  }

  lemma AlignTwice(s: seq<bool>)
    ensures Align(Align(s)) == Align(s)
  {
    var b := Align(s);
    assert |b| % 8 == 0;
    assert b[0..] == b;
  }

  lemma StoredLengths(last: bool, s: seq<bool>, out: seq<Byte>)
    requires |s| >= 32 && |s| % 8 == 0
    ensures var len, nlen := Get(s, 16), Get(s[16..], 16);
            Rest(InStoredHeader(last), s, out) ==
            if len + nlen != 0xffff then Failure(out) else Rest(InStored(len, last), s[32..], out)
  {
    hide Rest, Value;
    assert Align(s) == s;
    RestStep(InStoredHeader(last), s, out);
  }

  lemma StoredByte(n: nat, last: bool, s: seq<bool>, out: seq<Byte>)
    requires n > 0 && |s| >= 8
    ensures Pow2(8) == 256 && Rest(InStored(n, last), s, out) == Rest(InStored(n - 1, last), s[8..], out + [Get(s, 8)])
  {
    hide Rest, Value;
    RestStep(InStored(n, last), s, out);
  }

  // n bytes of a stored block at once.
  lemma {:induction false} StoredCopy(n: nat, last: bool, b: seq<Byte>, more: seq<bool>, out: seq<Byte>)
    requires |b| <= n
    ensures Rest(InStored(n, last), FromBytes(b) + more, out) == Rest(InStored(n - |b|, last), more, out + b)
    decreases |b|
  {
    hide ToBits, Low, Value, Rest;
    if b == [] {
      assert FromBytes(b) + more == more;
      assert out + b == out;
    } else {
      var first, tail := ToBits(b[0], 8), FromBytes(b[1..]) + more;
      var s := FromBytes(b) + more;
      assert s == first + tail;
      assert s[..8] == first && s[8..] == tail;
      ValueToBits(b[0], 8);
      ByteLow(b[0]);
      StoredByte(n, last, s, out);
      StoredCopy(n - 1, last, b[1..], more, out + [b[0]]);
      assert out + [b[0]] + b[1..] == out + b;
    }
  }

  lemma ByteLow(b: Byte)
    ensures Low(b, 8) == b
  {
    assert Pow2(8) == 256;
    LowOfSmall(b, 8);
  }

  lemma StoredEnd(last: bool, s: seq<bool>, out: seq<Byte>)
    ensures Rest(InStored(0, last), s, out) == Rest(InBlocks(last), s, out)
    ensures forall n: nat | n > 0 :: Rest(InStored(n, last), [], out) == Waits(InStored(n, last), [], out)
  {
    hide Rest;
    RestStep(InStored(0, last), s, out);
    forall n: nat | n > 0
      ensures Rest(InStored(n, last), [], out) == Waits(InStored(n, last), [], out)
    {
      RestStep(InStored(n, last), [], out);
    }
  }

  lemma StoredRestGrows(n: nat, last: bool, s: seq<bool>, out: seq<Byte>)
    requires n > 0 && |s| >= 8
    ensures |Rest(InStored(n, last), s, out).end.out| > |out|
  {
    hide Rest, Value;
    StoredByte(n, last, s, out);
    RestGrows(InStored(n - 1, last), s[8..], out + [Get(s, 8)]);
  }

  // The three counts of a dynamic block, step by step.
  lemma DynamicCounts(last: bool, s: seq<bool>, s1: seq<bool>, s2: seq<bool>, s3: seq<bool>, h: Header, out: seq<Byte>)
    requires |s| >= 14 && s1 == s[5..] && s2 == s1[5..] && s3 == s2[4..]
    requires h == Header(Get(s, 5) + 257, Get(s1, 5) + 1, Get(s2, 4) + 4)
    ensures Rest(InDynamic(last), s, out) ==
            if h.nlen > 286 || h.ndist > 30 then Failure(out) else Rest(InCodeLens(h, [], last), s3, out)
  {
    hide Rest, Value;
    assert s2 == s[10..] && s3 == s[14..];
    RestStep(InDynamic(last), s, out);
  }

  lemma DynamicShort(last: bool, s: seq<bool>, out: seq<Byte>)
    requires |s| < 14
    ensures Rest(InDynamic(last), s, out) == Waits(InDynamic(last), s, out)
  {
    hide Rest;
    RestStep(InDynamic(last), s, out);
  }

  lemma CodeLensStep(h: Header, got: seq<nat>, last: bool, s: seq<bool>, out: seq<Byte>)
    requires |got| < h.ncode
    ensures var c := InCodeLens(h, got, last);
            Rest(c, s, out) ==
            if |s| < 3 then Waits(c, s, out) else Rest(InCodeLens(h, got + [Get(s, 3)], last), s[3..], out)
  {
    hide Rest, Value;
    RestStep(InCodeLens(h, got, last), s, out);
  }

  lemma CodeLensEnd(h: Header, got: seq<nat>, last: bool, s: seq<bool>, out: seq<Byte>)
    requires |got| == h.ncode
    ensures var cl := Unordered(got);
            Rest(InCodeLens(h, got, last), s, out) ==
            if Usable(cl, false) then Rest(InLengths(h, cl, [], last), s, out) else Failure(out)
  {
    hide Rest, Usable, Unordered;
    RestStep(InCodeLens(h, got, last), s, out);
  }

  // The order in which the decoder stores the lengths of the code length code.
  const ORDER: seq<nat> := [16, 17, 18, 0, 8, 7, 9, 6, 10, 5, 11, 4, 12, 3, 13, 2, 14, 1, 15]

  // It is the order of transmission.
  lemma OrderPlaces(s: nat)
    requires s < 19
    ensures SentAt(s) < 19 && ORDER[SentAt(s)] == s
  {
  }

  lemma OrderInjective(i: nat, j: nat)
    requires i < 19 && j < 19 && ORDER[i] == ORDER[j]
    ensures i == j
  {
  }

  // Lengths stored in that order, the rest zero, are the lengths by symbol.
  lemma UnorderedStored(got: seq<nat>, lens: seq<nat>)
    requires |got| <= 19 && |lens| == 19
    requires forall k | 0 <= k < 19 :: lens[ORDER[k]] == if k < |got| then got[k] else 0
    ensures lens == Unordered(got)
    ensures forall k | 0 <= k < 3 && k < |got| :: lens[16 + k] == got[k]
    ensures |got| > 3 ==> lens[0] == got[3]
    ensures forall i | 0 <= i < 8 && 4 + 2 * i < |got| :: lens[8 + i] == got[4 + 2 * i]
    ensures forall i | 0 <= i < 7 && 5 + 2 * i < |got| :: lens[7 - i] == got[5 + 2 * i]
  {
    forall s: nat | s < 19
      ensures lens[s] == Unordered(got)[s]
    {
      OrderPlaces(s);
    }
    assert forall i | 0 <= i < 8 :: SentAt(8 + i) == 4 + 2 * i;
    assert forall i | 0 <= i < 7 :: SentAt(7 - i) == 5 + 2 * i;
  }

  lemma LengthsStep(h: Header, cl: seq<nat>, got: seq<nat>, last: bool, s: seq<bool>, out: seq<Byte>)
    requires |got| < h.nlen + h.ndist
    ensures var c := InLengths(h, cl, got, last);
            Rest(c, s, out) ==
            match ReadItem(Firmware, cl, got, s)
            case BadItem => Failure(out)
            case ShortItem => Waits(c, s, out)
            case Item(adds, rest) =>
              if |got| + |adds| > h.nlen + h.ndist then Failure(out)
              else Rest(InLengths(h, cl, got + adds, last), rest, out)
  {
    hide Rest, ReadItem;
    RestStep(InLengths(h, cl, got, last), s, out);
  }

  // Extra bits of a symbol of the code length code.
  function ItemExtra(k: nat): nat
  {
    if k < 16 then 0 else if k == 16 then 2 else if k == 17 then 3 else 7
  }

  // What the item is, once its symbol is known.
  lemma ItemOf(cl: seq<nat>, got: seq<nat>, s: seq<bool>)
    requires Symbol(cl, s).Some?
    ensures var k := Symbol(cl, s).value;
            var rest := s[cl[k]..];
            var r := ReadItem(Firmware, cl, got, s);
            if k < 16 then r == Item([k], rest)
            else if |rest| < ItemExtra(k) then r == ShortItem
            else if k == 16 && got == [] then r == BadItem
            else
              var x := if k == 16 then got[|got| - 1] else 0;
              var n := (if k <= 17 then 3 else 11) + Get(rest, ItemExtra(k));
              r == Item(Run(x, n), rest[ItemExtra(k)..])
  {
    hide Symbol, Value;
  }

  // Without a code, every bit is a length of zero.
  lemma EmptyItem(cl: seq<nat>, got: seq<nat>, s: seq<bool>)
    requires Empty(cl) && s != []
    ensures ReadItem(Firmware, cl, got, s) == Item([0], s[1..])
  {
    EmptySymbol(cl, s);
  }

  lemma EmptySymbol(cl: seq<nat>, s: seq<bool>)
    requires Empty(cl)
    ensures Symbol(cl, s) == None && (s != [] ==> !Live(cl, s))
  {
    var r := Symbol(cl, s);
  }

  // A run of equal lengths: x is the length repeated.
  lemma RepeatRest(h: Header, cl: seq<nat>, got: seq<nat>, last: bool, s: seq<bool>, k: nat, x: nat, out: seq<Byte>)
    requires |got| < h.nlen + h.ndist && Symbol(cl, s) == Some(k) && 16 <= k
    requires |s[cl[k]..]| >= ItemExtra(k) && (k == 16 && got != [] ==> x == got[|got| - 1]) && (k > 16 ==> x == 0)
    ensures var s1 := s[cl[k]..];
            var n := (if k <= 17 then 3 else 11) + Get(s1, ItemExtra(k));
            Rest(InLengths(h, cl, got, last), s, out) ==
            if (k == 16 && got == []) || |got| + n > h.nlen + h.ndist then Failure(out)
            else Rest(InLengths(h, cl, got + Run(x, n), last), s1[ItemExtra(k)..], out)
  {
    hide Symbol, Value, Rest, ReadItem;
    ItemOf(cl, got, s);
    LengthsStep(h, cl, got, last, s, out);
  }

  // The bits held do not hold the whole item.
  predicate ItemShort(cl: seq<nat>, held: seq<bool>)
  {
    match Symbol(cl, held)
    case None => Live(cl, held)
    case Some(k) => |held| < cl[k] + ItemExtra(k)
  }

  lemma ItemShortWaits(h: Header, cl: seq<nat>, got: seq<nat>, last: bool, held: seq<bool>, out: seq<Byte>)
    requires |got| < h.nlen + h.ndist && ItemShort(cl, held)
    ensures var c := InLengths(h, cl, got, last); Rest(c, held, out) == Waits(c, held, out)
  {
    hide Symbol, Live, Rest, Empty;
    if Symbol(cl, held).Some? { ItemOf(cl, got, held); }
    LengthsStep(h, cl, got, last, held, out);
  }

  lemma LengthsEnd(h: Header, cl: seq<nat>, got: seq<nat>, last: bool, s: seq<bool>, out: seq<Byte>)
    requires |got| == h.nlen + h.ndist
    ensures Rest(InLengths(h, cl, got, last), s, out) ==
            if Usable(got[..h.nlen], true) && Usable(got[h.nlen..], true)
            then Rest(InElement(got[..h.nlen], got[h.nlen..], last, AtStart), s, out) else Failure(out)
  {
    hide Rest, Usable;
    RestStep(InLengths(h, cl, got, last), s, out);
  }

  // ---- section 3.2.5 in table form ----

  lemma SmallShifts(x: nat)
    ensures Shl(x, 0) == x && Shl(x, 1) == 2 * x && Shl(x, 2) == 4 * x && Shl(x, 3) == 8 * x && Shl(x, 4) == 16 * x
    ensures Shl(x, 5) == 32 * x && Shl(x, 6) == 64 * x && Shl(x, 7) == 128 * x && Shl(x, 8) == 256 * x
    ensures Shl(x, 9) == 512 * x && Shl(x, 10) == 1024 * x && Shl(x, 11) == 2048 * x && Shl(x, 12) == 4096 * x
    ensures Shl(x, 13) == 8192 * x
  {
    assert Shl(x, 1) == 2 * Shl(x, 0);
    assert Shl(x, 2) == 2 * Shl(x, 1);
    assert Shl(x, 3) == 2 * Shl(x, 2);
    assert Shl(x, 4) == 2 * Shl(x, 3);
    assert Shl(x, 5) == 2 * Shl(x, 4);
    assert Shl(x, 6) == 2 * Shl(x, 5);
    assert Shl(x, 7) == 2 * Shl(x, 6);
    assert Shl(x, 8) == 2 * Shl(x, 7);
    assert Shl(x, 9) == 2 * Shl(x, 8);
    assert Shl(x, 10) == 2 * Shl(x, 9);
    assert Shl(x, 11) == 2 * Shl(x, 10);
    assert Shl(x, 12) == 2 * Shl(x, 11);
    assert Shl(x, 13) == 2 * Shl(x, 12);
  }

  lemma LengthFrom257(s: nat)
    requires 257 <= s < 265
    ensures Meaning(LENS, s) == (16 + LengthExtra(s), LengthBase(s))
  {
    hide Shl;
  }

  lemma LengthFrom265(s: nat)
    requires 265 <= s < 273
    ensures Meaning(LENS, s) == (16 + LengthExtra(s), LengthBase(s))
  {
    hide Shl;
    SmallShifts(4 + (s - 261) % 4);
  }

  lemma LengthFrom273(s: nat)
    requires 273 <= s < 281
    ensures Meaning(LENS, s) == (16 + LengthExtra(s), LengthBase(s))
  {
    hide Shl;
    SmallShifts(4 + (s - 261) % 4);
  }

  lemma LengthFrom281(s: nat)
    requires 281 <= s < 286
    ensures Meaning(LENS, s) == (16 + LengthExtra(s), LengthBase(s))
  {
    hide Shl;
    SmallShifts(4 + (s - 261) % 4);
  }

  lemma DistFrom0(s: nat)
    requires 0 <= s < 10
    ensures Meaning(DISTS, s) == (16 + DistExtra(s), DistBase(s))
  {
    hide Shl;
    SmallShifts(2 + s % 2);
  }

  lemma DistFrom10(s: nat)
    requires 10 <= s < 20
    ensures Meaning(DISTS, s) == (16 + DistExtra(s), DistBase(s))
  {
    hide Shl;
    SmallShifts(2 + s % 2);
  }

  lemma DistFrom20(s: nat)
    requires 20 <= s < 30
    ensures Meaning(DISTS, s) == (16 + DistExtra(s), DistBase(s))
  {
    hide Shl;
    SmallShifts(2 + s % 2);
  }

  // The static tables of inflate_table are the tables of section 3.2.5.
  lemma LengthTable(s: nat)
    requires 257 <= s <= 285
    ensures Meaning(LENS, s) == (16 + LengthExtra(s), LengthBase(s))
    ensures LengthExtra(s) <= 5 && 3 <= LengthBase(s) && LengthBase(s) + Pow2(LengthExtra(s)) <= 259
  {
    hide Meaning, LengthBase;
    if s < 265 { LengthFrom257(s); }
    else if s < 273 { LengthFrom265(s); }
    else if s < 281 { LengthFrom273(s); }
    else { LengthFrom281(s); }
    LengthBound(s);
  }

  lemma LengthBound(s: nat)
    requires 257 <= s <= 285
    ensures LengthExtra(s) <= 5 && 3 <= LengthBase(s) && LengthBase(s) + Pow2(LengthExtra(s)) <= 259
  {
    hide Shl;
    if 265 <= s < 285 {
      SmallShifts(4 + (s - 261) % 4);
      assert Pow2(2) == 4 && Pow2(4) == 16;
    }
  }

  lemma DistTable(s: nat)
    requires s <= 29
    ensures Meaning(DISTS, s) == (16 + DistExtra(s), DistBase(s))
    ensures DistExtra(s) <= 13 && 1 <= DistBase(s) && DistBase(s) + Pow2(DistExtra(s)) <= 32769
  {
    hide Meaning, DistBase;
    if s < 10 { DistFrom0(s); }
    else if s < 20 { DistFrom10(s); }
    else { DistFrom20(s); }
    DistBound(s);
  }

  lemma DistBound(s: nat)
    requires s <= 29
    ensures DistExtra(s) <= 13 && 1 <= DistBase(s) && DistBase(s) + Pow2(DistExtra(s)) <= 32769
  {
    hide Shl, Pow2;
    if s >= 4 { SmallShifts(2 + s % 2); }
    SmallShifts(1);
    ShlOne(DistExtra(s));
  }
}
