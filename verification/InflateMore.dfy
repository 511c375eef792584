// What more input does to decoding: it goes on where it stopped.
module InflateMore {
  import opened Types
  import opened Bits
  import opened Canonical
  import opened DecodeTable
  import opened InfTrees
  import opened FixedTables
  import opened Rfc1951
  import opened InflateSpec

  // ---- codes that a decoder ever holds ----

  ghost predicate Proper(lens: seq<nat>) { ValidLens(lens) && !OverSubscribed(lens) }

  ghost predicate Sound(c: Config)
  {
    match c
    case InCodeLens(_, got, _) => forall x | x in got :: x <= 7
    case InLengths(_, cl, got, _) => Proper(cl) && ValidLens(got)
    case InElement(lit, dist, _, _) => Proper(lit) && Proper(dist)
    case _ => true
  }

  lemma UsableCode(lens: seq<nat>)
    requires ValidLens(lens) && Usable(lens, true)
    ensures Proper(lens)
  {
    hide End;
    if Empty(lens) { EmptyEnd(lens, MAXBITS); }
    if Lone(lens) { LoneEnd(lens); }
  }

  lemma UnorderedSmall(got: seq<nat>)
    requires forall x | x in got :: x <= 7
    ensures ValidLens(Unordered(got))
  {
    forall i | 0 <= i < 19
      ensures Unordered(got)[i] <= 7
    {
      if SentAt(i) < |got| { assert got[SentAt(i)] in got; }
    }
  }

  lemma SliceValid(lens: seq<nat>, i: nat, j: nat)
    requires i <= j <= |lens| && ValidLens(lens)
    ensures ValidLens(lens[i..j])
  {
  }

  lemma AddsValid(rules: Rules, cl: seq<nat>, got: seq<nat>, bits: seq<bool>)
    requires ValidLens(got)
    ensures var r := ReadItem(rules, cl, got, bits); r.Item? ==> ValidLens(got + r.adds)
  {
    hide Symbol, Live, Get;
    var r := ReadItem(rules, cl, got, bits);
    if r.Item? { assert forall i | 0 <= i < |r.adds| :: r.adds[i] <= MAXBITS; }
  }

  lemma FixedSound(last: bool)
    ensures Sound(InElement(FixedLit(), FixedDist(), last, AtStart))
  {
    hide FixedLit, FixedDist, End;
    FixedCodesValid();
    FixedLitComplete();
    FixedDistComplete();
  }

  lemma FixedCodesValid()
    ensures ValidLens(FixedLit()) && ValidLens(FixedDist())
  {
  }

  // Wherever a step leads, or leaves off.
  ghost predicate SoundStep(r: Step)
  {
    match r
    case Go(t) => Sound(t.c)
    case Halt(end) => end.More? ==> Sound(end.c)
  }

  lemma NextSound(rules: Rules, s: State)
    requires Sound(s.c)
    ensures SoundStep(Next(rules, s))
  {
    hide ReadFrom, Symbol, ReadItem, Usable, Unordered, CopyBack, Align, FixedLit, FixedDist, OverSubscribed, ValidLens,
         Value;
    match s.c
    case InBlocks(last) => if |s.bits| >= 3 { FixedSound(s.bits[0]); }
    case InCodeLens(h, got, last) => CodeLensSound(s, h, got, last);
    case InLengths(h, cl, got, last) =>
      AddsValid(rules, cl, got, s.bits);
      if |got| == h.nlen + h.ndist { SplitSound(got, h.nlen); }
    case _ =>
  }

  lemma SplitSound(got: seq<nat>, n: nat)
    requires n <= |got| && ValidLens(got)
    ensures Usable(got[..n], true) ==> Proper(got[..n])
    ensures Usable(got[n..], true) ==> Proper(got[n..])
  {
    hide Usable;
    SliceValid(got, 0, n);
    SliceValid(got, n, |got|);
    assert got[0..n] == got[..n] && got[n..|got|] == got[n..];
    if Usable(got[..n], true) { UsableCode(got[..n]); }
    if Usable(got[n..], true) { UsableCode(got[n..]); }
  }

  lemma CodeLensSound(s: State, h: Header, got: seq<nat>, last: bool)
    requires s.c == InCodeLens(h, got, last) && Sound(s.c)
    ensures SoundStep(NextCodeLens(s, h, got, last))
  {
    hide Unordered, Usable, ValidLens;
    if |got| < h.ncode {
      if |s.bits| >= 3 { assert Pow2(3) == 8 && Get(s.bits, 3) <= 7; }
    } else {
      var cl := Unordered(got);
      UnorderedSmall(got);
      if Usable(cl, false) { UsableToo(cl); UsableCode(cl); }
      NoneValid();
    }
  }

  lemma UsableToo(cl: seq<nat>)
    requires Usable(cl, false)
    ensures Usable(cl, true)
  {
  }

  lemma NoneValid()
    ensures ValidLens([])
  {
  }

  // ---- reading with more bits behind ----

  lemma SymbolMore(lens: seq<nat>, x: seq<bool>, y: seq<bool>)
    requires Proper(lens)
    ensures Symbol(lens, x).Some? ==> Symbol(lens, x + y) == Symbol(lens, x) && lens[Symbol(lens, x).value] <= |x|
    ensures Symbol(lens, x) == None && !Live(lens, x) ==> Symbol(lens, x + y) == None && !Live(lens, x + y)
  {
    hide OverSubscribed, CodeBits, Live;
    var r, q := Symbol(lens, x), Symbol(lens, x + y);
    if r.Some? {
      CodeLength(lens, r.value);
      PrefixFree(lens, r.value, q.value, x + y);
    } else {
      LiveBefore(lens, x, y);
      if Live(lens, x + y) { StillLive(lens, x, y); }
    }
  }

  lemma StartLive(lens: seq<nat>, s: nat, bits: seq<bool>)
    requires s < |lens| && lens[s] >= 1 && bits <= CodeBits(lens, s)
    ensures Live(lens, bits)
  {
  }

  // Bits are live before a codeword is whole, and stay live when some are
  // taken from the end.
  lemma LiveBefore(lens: seq<nat>, x: seq<bool>, y: seq<bool>)
    requires Symbol(lens, x) == None
    ensures Symbol(lens, x + y).Some? ==> Live(lens, x)
  {
    hide CodeBits, Symbol, Live;
    var z := x + y;
    var q := Symbol(lens, z);
    if q.Some? { BeforeWhole(lens, q.value, x, z); }
  }

  lemma BeforeWhole(lens: seq<nat>, s: nat, x: seq<bool>, z: seq<bool>)
    requires s < |lens| && lens[s] >= 1 && CodeBits(lens, s) <= z && x <= z && Symbol(lens, x) == None
    ensures Live(lens, x)
  {
    hide CodeBits, Symbol, Live;
    assert !(CodeBits(lens, s) <= x);
    StartLive(lens, s, x);
  }

  lemma StillLive(lens: seq<nat>, x: seq<bool>, y: seq<bool>)
    requires Live(lens, x + y)
    ensures Live(lens, x)
  {
    hide CodeBits;
    if x != [] {
      var s: nat :| s < |lens| && lens[s] >= 1 && x + y <= CodeBits(lens, s);
      Comparable(CodeBits(lens, s), x, y);
      StartLive(lens, s, x);
    }
  }

  lemma Comparable(code: seq<bool>, x: seq<bool>, y: seq<bool>)
    requires code <= x + y || x + y <= code
    ensures code <= x || x <= code
    ensures x + y <= code ==> x <= code
  {
  }

  lemma GetMore(x: seq<bool>, y: seq<bool>, n: nat)
    requires n <= |x|
    ensures Get(x + y, n) == Get(x, n) && (x + y)[n..] == x[n..] + y
  {
    assert (x + y)[..n] == x[..n];
  }

  // What reading makes of x, it makes of x + y; where it stopped, it goes on.
  ghost predicate Extends(lit: seq<nat>, dist: seq<nat>, e: Pending, x: seq<bool>, y: seq<bool>)
  {
    match ReadFrom(lit, dist, e, x)
    case Read(el, rest) => ReadFrom(lit, dist, e, x + y) == Read(el, rest + y)
    case Bad => ReadFrom(lit, dist, e, x + y) == Bad
    case Short(at, rest) => ReadFrom(lit, dist, e, x + y) == ReadFrom(lit, dist, at, rest + y)
  }

  lemma StepExtends(lit: seq<nat>, dist: seq<nat>, e: Pending, x: seq<bool>, y: seq<bool>, e': Pending, x': seq<bool>)
    requires ReadFrom(lit, dist, e, x) == ReadFrom(lit, dist, e', x')
    requires ReadFrom(lit, dist, e, x + y) == ReadFrom(lit, dist, e', x' + y)
    requires Extends(lit, dist, e', x', y)
    ensures Extends(lit, dist, e, x, y)
  {
    hide ReadFrom;
  }

  lemma BitsExtend(lit: seq<nat>, dist: seq<nat>, len: nat, d: nat, extra: nat, x: seq<bool>, y: seq<bool>)
    ensures Extends(lit, dist, AtDistBits(len, d, extra), x, y)
  {
    hide Get;
    if |x| >= extra { GetMore(x, y, extra); }
  }

  lemma DistExtends(lit: seq<nat>, dist: seq<nat>, len: nat, x: seq<bool>, y: seq<bool>)
    requires Proper(dist)
    ensures Extends(lit, dist, AtDist(len), x, y)
  {
    hide Symbol, Live, Proper, DistBase, DistExtra, Extends;
    SymbolMore(dist, x, y);
    var r := Symbol(dist, x);
    if r.Some? && r.value <= 29 {
      var s := r.value;
      var e := AtDistBits(len, DistBase(s), DistExtra(s));
      assert (x + y)[dist[s]..] == x[dist[s]..] + y;
      BitsExtend(lit, dist, len, DistBase(s), DistExtra(s), x[dist[s]..], y);
      StepExtends(lit, dist, AtDist(len), x, y, e, x[dist[s]..]);
    } else {
      NotRead(lit, dist, AtDist(len), x, y);
    }
  }

  lemma NotRead(lit: seq<nat>, dist: seq<nat>, e: Pending, x: seq<bool>, y: seq<bool>)
    requires ReadFrom(lit, dist, e, x) == Short(e, x) || (ReadFrom(lit, dist, e, x) == Bad == ReadFrom(lit, dist, e, x + y))
    ensures Extends(lit, dist, e, x, y)
  {
    hide ReadFrom;
  }

  lemma LengthExtends(lit: seq<nat>, dist: seq<nat>, len: nat, extra: nat, x: seq<bool>, y: seq<bool>)
    requires Proper(dist)
    ensures Extends(lit, dist, AtLength(len, extra), x, y)
  {
    hide Symbol, Live, Proper, Get, Extends;
    if |x| >= extra {
      GetMore(x, y, extra);
      DistExtends(lit, dist, len + Get(x, extra), x[extra..], y);
      StepExtends(lit, dist, AtLength(len, extra), x, y, AtDist(len + Get(x, extra)), x[extra..]);
    } else {
      NotRead(lit, dist, AtLength(len, extra), x, y);
    }
  }

  lemma StartExtends(lit: seq<nat>, dist: seq<nat>, x: seq<bool>, y: seq<bool>)
    requires Proper(lit) && Proper(dist)
    ensures Extends(lit, dist, AtStart, x, y)
  {
    hide Symbol, Live, Proper, LengthBase, LengthExtra, Extends;
    SymbolMore(lit, x, y);
    var r := Symbol(lit, x);
    if r.Some? {
      var s := r.value;
      assert (x + y)[lit[s]..] == x[lit[s]..] + y;
      if 257 <= s <= 285 {
        var e := AtLength(LengthBase(s), LengthExtra(s));
        LengthExtends(lit, dist, LengthBase(s), LengthExtra(s), x[lit[s]..], y);
        StepExtends(lit, dist, AtStart, x, y, e, x[lit[s]..]);
      } else {
        OneSymbol(lit, dist, x, y);
      }
    } else {
      NotRead(lit, dist, AtStart, x, y);
    }
  }

  lemma OneSymbol(lit: seq<nat>, dist: seq<nat>, x: seq<bool>, y: seq<bool>)
    requires Symbol(lit, x).Some? && Symbol(lit, x + y) == Symbol(lit, x)
    requires var s := Symbol(lit, x).value; !(257 <= s <= 285) && (x + y)[lit[s]..] == x[lit[s]..] + y
    ensures Extends(lit, dist, AtStart, x, y)
  {
    hide Symbol, Live;
  }

  lemma ReadMore(lit: seq<nat>, dist: seq<nat>, e: Pending, x: seq<bool>, y: seq<bool>)
    requires Proper(lit) && Proper(dist)
    ensures Extends(lit, dist, e, x, y)
  {
    hide Proper;
    match e
    case AtStart => StartExtends(lit, dist, x, y);
    case AtLength(len, extra) => LengthExtends(lit, dist, len, extra, x, y);
    case AtDist(len) => DistExtends(lit, dist, len, x, y);
    case AtDistBits(len, d, extra) => BitsExtend(lit, dist, len, d, extra, x, y);
    case _ =>
  }

  lemma ItemMore(rules: Rules, cl: seq<nat>, got: seq<nat>, x: seq<bool>, y: seq<bool>)
    requires Proper(cl)
    ensures match ReadItem(rules, cl, got, x)
            case Item(adds, rest) => ReadItem(rules, cl, got, x + y) == Item(adds, rest + y)
            case BadItem => ReadItem(rules, cl, got, x + y) == BadItem
            case ShortItem => true
  {
    hide Symbol, Live, Get, Proper, Empty;
    SymbolMore(cl, x, y);
    var r := Symbol(cl, x);
    if r.Some? {
      var rest := x[cl[r.value]..];
      assert (x + y)[cl[r.value]..] == rest + y;
      if |rest| >= 2 { GetMore(rest, y, 2); }
      if |rest| >= 3 { GetMore(rest, y, 3); }
      if |rest| >= 7 { GetMore(rest, y, 7); }
    } else if x != [] {
      assert (x + y)[1..] == x[1..] + y;
    }
  }

  lemma AlignMore(x: seq<bool>, y: seq<bool>)
    requires |y| % 8 == 0
    ensures Align(x + y) == Align(x) + y && Align(Align(x) + y) == Align(x) + y
  {
    assert |x + y| % 8 == |x| % 8;
    assert |Align(x)| % 8 == 0 && |Align(x) + y| % 8 == 0;
  }

  // ---- one step, and all of them ----

  function Longer(s: State, y: seq<bool>): State { State(s.c, s.bits + y, s.out) }

  // Where decoding stopped, it goes on.
  function Continue(rules: Rules, r: Outcome, y: seq<bool>): Outcome
  {
    match r
    case Accept(out, rest) => Accept(out, rest + y)
    case Reject(out) => Reject(out)
    case More(c, bits, out) => Decode(rules, State(c, bits + y, out))
  }

  function Onward(rules: Rules, step: Step, y: seq<bool>): Outcome
  {
    match step
    case Go(t) => Decode(rules, Longer(t, y))
    case Halt(r) => Continue(rules, r, y)
  }

  // What a step does with more bits behind.
  ghost predicate StepMore(rules: Rules, s: State, y: seq<bool>)
  {
    var step := Next(rules, s);
    if step.Go? then Next(rules, Longer(s, y)) == Go(Longer(step.s, y))
    else Decode(rules, Longer(s, y)) == Continue(rules, step.r, y)
  }

  lemma SameNext(rules: Rules, s: State, t: State)
    requires Next(rules, s) == Next(rules, t)
    ensures Decode(rules, s) == Decode(rules, t)
  {
    hide Next;
  }

  lemma BlockMore(rules: Rules, s: State, y: seq<bool>)
    requires s.c.InBlocks? && |y| % 8 == 0
    ensures StepMore(rules, s, y)
  {
    hide Decode, BlockOf, Align, Get;
    AlignMore(s.bits, y);
    if |s.bits| >= 3 {
      assert (s.bits + y)[1..] == s.bits[1..] + y && (s.bits + y)[3..] == s.bits[3..] + y;
      GetMore(s.bits[1..], y, 2);
    }
  }

  lemma StoredHeaderMore(rules: Rules, s: State, y: seq<bool>)
    requires s.c.InStoredHeader? && |y| % 8 == 0
    ensures StepMore(rules, s, y)
  {
    hide Decode, Align, Get;
    AlignMore(s.bits, y);
    var b := Align(s.bits);
    if |b| >= 32 {
      GetMore(b, y, 16);
      GetMore(b[16..], y, 16);
      assert (b + y)[32..] == b[32..] + y;
    } else {
      SameNext(rules, Longer(s, y), State(s.c, b + y, s.out));
    }
  }

  lemma StoredMore(rules: Rules, s: State, y: seq<bool>)
    requires s.c.InStored?
    ensures StepMore(rules, s, y)
  {
    hide Decode, Get;
    if |s.bits| >= 8 { GetMore(s.bits, y, 8); }
  }

  lemma DynamicMore(rules: Rules, s: State, y: seq<bool>)
    requires s.c.InDynamic?
    ensures StepMore(rules, s, y)
  {
    hide Decode, Get;
    var x := s.bits;
    if |x| >= 14 {
      GetMore(x, y, 5);
      GetMore(x[5..], y, 5);
      assert (x + y)[10..] == x[10..] + y && (x + y)[14..] == x[14..] + y;
      GetMore(x[10..], y, 4);
    }
  }

  lemma CodeLensMore(rules: Rules, s: State, y: seq<bool>)
    requires s.c.InCodeLens?
    ensures StepMore(rules, s, y)
  {
    hide Decode, Get, Usable, Unordered;
    if |s.bits| >= 3 { GetMore(s.bits, y, 3); }
  }

  lemma LengthsMore(rules: Rules, s: State, y: seq<bool>)
    requires s.c.InLengths? && Sound(s.c)
    ensures StepMore(rules, s, y)
  {
    hide Decode, ReadItem, Usable, Proper;
    ItemMore(rules, s.c.cl, s.c.got, s.bits, y);
  }

  lemma ElementMore(rules: Rules, s: State, y: seq<bool>)
    requires s.c.InElement? && Sound(s.c)
    ensures Decode(rules, Longer(s, y)) == Onward(rules, Next(rules, s), y)
  {
    hide ReadFrom, Proper, CopyBack;
    var lit, dist, last, e := s.c.lit, s.c.dist, s.c.last, s.c.e;
    ReadMore(lit, dist, e, s.bits, y);
    DecodeElement(rules, lit, dist, last, e, s.bits + y, s.out);
    match ReadFrom(lit, dist, e, s.bits)
    case Short(at, b) => DecodeElement(rules, lit, dist, last, at, b + y, s.out);
    case _ =>
  }

  // A step taken is taken with more bits behind as well.
  lemma GoMore(rules: Rules, s: State, y: seq<bool>)
    requires Sound(s.c) && |y| % 8 == 0
    ensures var step := Next(rules, s); step.Go? ==> Next(rules, Longer(s, y)) == Go(Longer(step.s, y))
  {
    hide Next, Sound;
    match s.c
    case InBlocks(_) => BlockMore(rules, s, y);
    case InStoredHeader(_) => StoredHeaderMore(rules, s, y);
    case InStored(_, _) => StoredMore(rules, s, y);
    case InDynamic(_) => DynamicMore(rules, s, y);
    case InCodeLens(_, _, _) => CodeLensMore(rules, s, y);
    case InLengths(_, _, _, _) => LengthsMore(rules, s, y);
    case InElement(_, _, _, _) => ElementGo(rules, s, y);
    case Finished => EndMore(rules, s, y);
    case Failed => EndMore(rules, s, y);
  }

  lemma ElementGo(rules: Rules, s: State, y: seq<bool>)
    requires s.c.InElement? && Sound(s.c)
    ensures var step := Next(rules, s); step.Go? ==> Next(rules, Longer(s, y)) == Go(Longer(step.s, y))
  {
    hide ReadFrom, Proper, CopyBack;
    ReadMore(s.c.lit, s.c.dist, s.c.e, s.bits, y);
  }

  function DecodeAfter(rules: Rules, lit: seq<nat>, dist: seq<nat>, last: bool, p: Point): Outcome
  {
    match p
    case Broken(out) => Reject(out)
    case Waiting(e, bits, out) => More(InElement(lit, dist, last, e), bits, out)
    case Point(bits, out, eob) =>
      Decode(rules, State(if eob then InBlocks(last) else InElement(lit, dist, last, AtStart), bits, out))
  }

  lemma DecodeElement(rules: Rules, lit: seq<nat>, dist: seq<nat>, last: bool, e: Pending, bits: seq<bool>, out: seq<Byte>)
    ensures Decode(rules, State(InElement(lit, dist, last, e), bits, out)) ==
            DecodeAfter(rules, lit, dist, last, After(lit, dist, e, bits, out))
  {
    hide After;
    match After(lit, dist, e, bits, out)
    case Broken(o) => assert Decode(rules, State(Failed, bits, o)) == Reject(o);
    case Waiting(_, _, _) =>
    case Point(_, _, _) =>
  }

  // Decoding what there is and then the rest is decoding all of it.
  lemma {:induction false} DecodeMore(rules: Rules, s: State, y: seq<bool>)
    requires Sound(s.c) && |y| % 8 == 0
    ensures Decode(rules, Longer(s, y)) == Continue(rules, Decode(rules, s), y)
    decreases |s.bits|, Turns(s.c)
  {
    hide Next, Turns, Sound;
    NextSound(rules, s);
    NextKind(rules, s, y);
    match Next(rules, s)
    case Go(t) => DecodeMore(rules, t, y);
    case Halt(_) =>
  }

  lemma NextKind(rules: Rules, s: State, y: seq<bool>)
    requires Sound(s.c) && |y| % 8 == 0
    ensures Decode(rules, Longer(s, y)) == Onward(rules, Next(rules, s), y)
  {
    hide Next, Sound;
    match s.c
    case InBlocks(_) => BlockMore(rules, s, y);
    case InStoredHeader(_) => StoredHeaderMore(rules, s, y);
    case InStored(_, _) => StoredMore(rules, s, y);
    case InDynamic(_) => DynamicMore(rules, s, y);
    case InCodeLens(_, _, _) => CodeLensMore(rules, s, y);
    case InLengths(_, _, _, _) => LengthsMore(rules, s, y);
    case InElement(_, _, _, _) => ElementMore(rules, s, y);
    case Finished => EndMore(rules, s, y);
    case Failed => EndMore(rules, s, y);
  }

  lemma EndMore(rules: Rules, s: State, y: seq<bool>)
    requires s.c == Finished || s.c == Failed
    ensures StepMore(rules, s, y)
  {
  }

  // What the input so far gives stands at the front of what all of it gives.
  lemma MoreGrows(rules: Rules, r: Outcome, y: seq<bool>)
    ensures r.out <= Continue(rules, r, y).out
  {
    if r.More? { DecodeGrows(rules, State(r.c, r.bits + y, r.out)); }
  }
}
