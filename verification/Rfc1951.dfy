// The DEFLATE format as a machine on lists of bits: sections 3.2.3 to 3.2.7 of
// RFC 1951, read off the standard one step at a time.  It knows nothing of
// tables, accumulators, windows or buffers; it is what the C code is measured
// against.
module Rfc1951 {
  import opened Types
  import opened Bits
  import opened Canonical

  // The standard, and the firmware's reading of it, which departs from it in
  // the two places marked below.
  datatype Rules = Standard | Firmware

  // Where a decoder stands in the stream.
  datatype Config =
    | InBlocks(last: bool)
    | InStoredHeader(last: bool)
    | InStored(n: nat, last: bool)
    | InDynamic(last: bool)
    | InCodeLens(h: Header, got: seq<nat>, last: bool)
    | InLengths(h: Header, cl: seq<nat>, got: seq<nat>, last: bool)
    | InElement(lit: seq<nat>, dist: seq<nat>, last: bool, e: Pending)
    | Finished
    | Failed

  // Progress inside one element of a compressed block.
  datatype Pending =
    | AtStart
    | AtLength(len: nat, extra: nat)
    | AtDist(len: nat)
    | AtDistBits(len: nat, d: nat, extra: nat)
    | AtCopy(len: nat, d: nat)
    | AtLiteral(b: Byte)

  datatype State = State(c: Config, bits: seq<bool>, out: seq<Byte>)

  // All there is to decode, with the bits after the last block; what comes out
  // before an error; or what comes out before the input ends, and where
  // decoding goes on when there is more.
  datatype Outcome =
    | Accept(out: seq<Byte>, rest: seq<bool>)
    | Reject(out: seq<Byte>)
    | More(c: Config, bits: seq<bool>, out: seq<Byte>)

  // The n bits at the front, as a number stored least significant bit first.
  function Get(bits: seq<bool>, n: nat): nat
    requires n <= |bits|
  {
    Value(bits[..n])
  }

  // Skip to a byte boundary.  The stream is a whole number of bytes, so the
  // bits left in the current byte are those left over modulo 8.
  function Align(bits: seq<bool>): (r: seq<bool>)
    ensures |r| <= |bits|
  {
    bits[|bits| % 8..]
  }

  // ---- section 3.2.5: lengths and distances ----

  function LengthExtra(s: nat): nat
    requires 257 <= s <= 285
  {
    if s < 265 || s == 285 then 0 else (s - 261) / 4
  }

  function LengthBase(s: nat): nat
    requires 257 <= s <= 285
  {
    if s < 265 then s - 254
    else if s == 285 then 258
    else 3 + Shl(4 + (s - 261) % 4, LengthExtra(s))
  }

  function DistExtra(s: nat): nat
  {
    if s < 4 then 0 else s / 2 - 1
  }

  function DistBase(s: nat): nat
  {
    if s < 4 then 1 + s else 1 + Shl(2 + s % 2, DistExtra(s))
  }

  // ---- one element of a compressed block ----

  // One step of a compressed block (section 3.2.3).
  datatype Element = Literal(b: Byte) | EndOfBlock | Copy(len: nat, dist: nat)

  // An element and the bits after it; or how far the bits go; or no element.
  datatype Read = Read(e: Element, rest: seq<bool>) | Short(at: Pending, rest: seq<bool>) | Bad

  // Bits that may become a codeword when more come in.
  predicate Live(lens: seq<nat>, bits: seq<bool>)
  {
    bits == [] || exists s | 0 <= s < |lens| :: lens[s] >= 1 && bits <= CodeBits(lens, s)
  }

  function Stage(e: Pending): nat
  {
    match e
    case AtStart => 4
    case AtLength(_, _) => 3
    case AtDist(_) => 2
    case AtDistBits(_, _, _) => 1
    case _ => 0
  }

  function ReadFrom(lit: seq<nat>, dist: seq<nat>, e: Pending, bits: seq<bool>): (r: Read)
    ensures r.Read? ==> |r.rest| <= |bits| && (e == AtStart ==> |r.rest| < |bits|)
    decreases Stage(e)
  {
    match e
    case AtStart =>
      (match Symbol(lit, bits)
       case None => if Live(lit, bits) then Short(e, bits) else Bad
       case Some(s) =>
         var rest := bits[lit[s]..];
         if s < 256 then Read(Literal(s), rest)
         else if s == 256 then Read(EndOfBlock, rest)
         else if s <= 285 then ReadFrom(lit, dist, AtLength(LengthBase(s), LengthExtra(s)), rest)
         else Bad)
    case AtLength(len, extra) =>
      if |bits| < extra then Short(e, bits) else ReadFrom(lit, dist, AtDist(len + Get(bits, extra)), bits[extra..])
    case AtDist(len) =>
      (match Symbol(dist, bits)
       case None => if Live(dist, bits) then Short(e, bits) else Bad
       case Some(s) =>
         if s <= 29 then ReadFrom(lit, dist, AtDistBits(len, DistBase(s), DistExtra(s)), bits[dist[s]..]) else Bad)
    case AtDistBits(len, d, extra) =>
      if |bits| < extra then Short(e, bits) else Read(Copy(len, d + Get(bits, extra)), bits[extra..])
    case AtCopy(len, d) => Read(Copy(len, d), bits)
    case AtLiteral(b) => Read(Literal(b), bits)
  }

  // Copy len bytes from dist bytes back, one at a time: the source may run
  // into the bytes just written.
  function CopyBack(out: seq<Byte>, len: nat, dist: nat): (r: seq<Byte>)
    requires 1 <= dist <= |out|
    ensures |r| == |out| + len
    ensures out <= r
    decreases len
  {
    if len == 0 then out else CopyBack(out + [out[|out| - dist]], len - 1, dist)
  }

  // Where the decoder stands after an element: stream, output, and whether
  // the block has ended.  Waiting if the bits end inside the element, Broken if
  // there is none.
  datatype Point =
    | Point(bits: seq<bool>, out: seq<Byte>, eob: bool)
    | Waiting(at: Pending, bits: seq<bool>, out: seq<Byte>)
    | Broken(out: seq<Byte>)

  function Apply(r: Read, out: seq<Byte>): (p: Point)
    ensures p.Point? ==> r.Read? && p.bits == r.rest
  {
    match r
    case Bad => Broken(out)
    case Short(e, bits) => Waiting(e, bits, out)
    case Read(Literal(b), rest) => Point(rest, out + [b], false)
    case Read(EndOfBlock, rest) => Point(rest, out, true)
    case Read(Copy(len, d), rest) =>
      if 1 <= d <= |out| then Point(rest, CopyBack(out, len, d), false) else Broken(out)
  }

  // Stream and output once the element in progress is complete.
  function After(lit: seq<nat>, dist: seq<nat>, e: Pending, bits: seq<bool>, out: seq<Byte>): Point
  {
    Apply(ReadFrom(lit, dist, e, bits), out)
  }

  // Section 3.2.6.
  function FixedLit(): (s: seq<nat>)
    ensures |s| == 288
  {
    seq(288, (i: nat) => if i < 144 then 8 else if i < 256 then 9 else if i < 280 then 7 else 8)
  }

  function FixedDist(): (s: seq<nat>)
    ensures |s| == 32
  {
    seq(32, (i: nat) => 5)
  }

  // ---- section 3.2.7: the code lengths of a block ----

  datatype Header = Header(nlen: nat, ndist: nat, ncode: nat)

  // The place at which the length of symbol s of the code length code is sent:
  // after the symbols for runs comes zero, then lengths from 8 up take turns
  // with those from 7 down.
  function SentAt(s: nat): nat
  {
    if s >= 16 then s - 16
    else if s == 0 then 3
    else if s >= 8 then 4 + 2 * (s - 8)
    else 5 + 2 * (7 - s)
  }

  // Lengths by symbol; a symbol whose length was not sent has length 0.
  function Unordered(got: seq<nat>): (cl: seq<nat>)
    ensures |cl| == 19
  {
    seq(19, s requires 0 <= s < 19 => if SentAt(s) < |got| then got[SentAt(s)] else 0)
  }

  // One item of the run-length coded lengths: the lengths it adds.
  datatype Item = Item(adds: seq<nat>, rest: seq<bool>) | ShortItem | BadItem

  function ReadItem(rules: Rules, cl: seq<nat>, got: seq<nat>, bits: seq<bool>): (r: Item)
    ensures r.Item? ==> |r.rest| < |bits| && |r.adds| > 0
  {
    match Symbol(cl, bits)
    case None =>
      if !Live(cl, bits) then
        // without a code, the firmware reads a length of zero from every bit
        if rules == Firmware && Empty(cl) then Item([0], bits[1..]) else BadItem
      else ShortItem
    case Some(s) =>
      var rest := bits[cl[s]..];
      if s < 16 then Item([s], rest)
      else if s == 16 then
        if |rest| >= 2 && got == [] then BadItem else Repeat(if got == [] then 0 else got[|got| - 1], 3, 2, rest)
      else if s == 17 then Repeat(0, 3, 3, rest)
      else Repeat(0, 11, 7, rest)
  }

  // n lengths x
  function Run(x: nat, n: nat): (r: seq<nat>)
    ensures |r| == n && forall i | 0 <= i < n :: r[i] == x
  {
    seq(n, i => x)
  }

  function Repeat(x: nat, base: nat, extra: nat, bits: seq<bool>): (r: Item)
    requires base > 0
    ensures r.Item? ==> |r.rest| <= |bits| && |r.adds| > 0
  {
    if |bits| < extra then ShortItem
    else Item(Run(x, base + Get(bits, extra)), bits[extra..])
  }

  // ---- the machine ----

  datatype Step = Go(s: State) | Halt(r: Outcome)

  // What a block of the given type starts with (section 3.2.3).
  function BlockOf(kind: nat, last: bool): Config
  {
    match kind
    case 0 => InStoredHeader(last)
    case 1 => InElement(FixedLit(), FixedDist(), last, AtStart)
    case 2 => InDynamic(last)
    case _ => Failed
  }

  function Turns(c: Config): nat
  {
    match c
    case InCodeLens(_, _, _) => 6
    case InLengths(_, _, _, _) => 5
    case InElement(_, _, _, e) => if e == AtStart then 3 else 4
    case InStored(_, _) => 2
    case InBlocks(_) => 1
    case InStoredHeader(_) => 1
    case InDynamic(_) => 1
    case _ => 0
  }

  predicate Smaller(t: State, s: State)
  {
    |t.bits| < |s.bits| || (|t.bits| == |s.bits| && Turns(t.c) < Turns(s.c))
  }

  function Next(rules: Rules, s: State): (r: Step)
    ensures r.Go? ==> Smaller(r.s, s)
  {
    match s.c
    case InBlocks(last) => NextBlock(s, last)
    case InStoredHeader(last) => NextStoredHeader(s, last)
    case InStored(n, last) => NextStored(s, n, last)
    case InDynamic(last) => NextDynamic(rules, s, last)
    case InCodeLens(h, got, last) => NextCodeLens(s, h, got, last)
    case InLengths(h, cl, got, last) => NextLengths(rules, s, h, cl, got, last)
    case InElement(lit, dist, last, e) => NextElement(s, lit, dist, last, e)
    case Finished => Halt(Accept(s.out, s.bits))
    case Failed => Halt(Reject(s.out))
  }

  // The input ends here.
  function Stop(s: State): Step { Halt(More(s.c, s.bits, s.out)) }

  function NextBlock(s: State, last: bool): Step
  {
    if last then Go(State(Finished, Align(s.bits), s.out))
    else if |s.bits| < 3 then Stop(s)
    else Go(State(BlockOf(Get(s.bits[1..], 2), s.bits[0]), s.bits[3..], s.out))
  }

  // Section 3.2.4.
  function NextStoredHeader(s: State, last: bool): Step
  {
    var b := Align(s.bits);
    if |b| < 32 then Halt(More(s.c, b, s.out))
    else
      var len := Get(b, 16);
      var nlen := Get(b[16..], 16);
      Go(State(if len + nlen != 0xffff then Failed else InStored(len, last), b[32..], s.out))
  }

  function NextStored(s: State, n: nat, last: bool): Step
  {
    if n == 0 then Go(State(InBlocks(last), s.bits, s.out))
    else if |s.bits| < 8 then Stop(s)
    else
      assert Pow2(8) == 256;
      Go(State(InStored(n - 1, last), s.bits[8..], s.out + [Get(s.bits, 8)]))
  }

  // Section 3.2.7.  The firmware allows for 30 distance codes, the standard for
  // the 32 that five bits can say.
  function NextDynamic(rules: Rules, s: State, last: bool): Step
  {
    if |s.bits| < 14 then Stop(s)
    else
      var h := HeaderAt(s.bits);
      Go(State(if h.nlen > 286 || (rules == Firmware && h.ndist > 30) then Failed else InCodeLens(h, [], last),
               s.bits[14..], s.out))
  }

  function HeaderAt(bits: seq<bool>): Header
    requires |bits| >= 14
  {
    Header(Get(bits, 5) + 257, Get(bits[5..], 5) + 1, Get(bits[10..], 4) + 4)
  }

  // The lengths of the code length code, got so far in transmission order.
  function NextCodeLens(s: State, h: Header, got: seq<nat>, last: bool): Step
  {
    if |got| < h.ncode then
      if |s.bits| < 3 then Stop(s)
      else Go(State(InCodeLens(h, got + [Get(s.bits, 3)], last), s.bits[3..], s.out))
    else
      var cl := Unordered(got);
      Go(State(if Usable(cl, false) then InLengths(h, cl, [], last) else Failed, s.bits, s.out))
  }

  function NextLengths(rules: Rules, s: State, h: Header, cl: seq<nat>, got: seq<nat>, last: bool): Step
  {
    if |got| < h.nlen + h.ndist then
      match ReadItem(rules, cl, got, s.bits)
      case ShortItem => Stop(s)
      case BadItem => Go(State(Failed, s.bits, s.out))
      case Item(adds, rest) =>
        Go(State(if |got| + |adds| > h.nlen + h.ndist then Failed else InLengths(h, cl, got + adds, last), rest, s.out))
    else
      var ok := |got| == h.nlen + h.ndist && Usable(got[..h.nlen], true) && Usable(got[h.nlen..], true);
      Go(State(if ok then InElement(got[..h.nlen], got[h.nlen..], last, AtStart) else Failed, s.bits, s.out))
  }

  function NextElement(s: State, lit: seq<nat>, dist: seq<nat>, last: bool, e: Pending): Step
  {
    match After(lit, dist, e, s.bits, s.out)
    case Broken(out) => Go(State(Failed, s.bits, out))
    case Waiting(at, bits, out) => Halt(More(InElement(lit, dist, last, at), bits, out))
    case Point(bits, out, eob) => Go(State(if eob then InBlocks(last) else InElement(lit, dist, last, AtStart), bits, out))
  }

  function Decode(rules: Rules, s: State): Outcome
    decreases |s.bits|, Turns(s.c)
  {
    match Next(rules, s)
    case Go(t) => Decode(rules, t)
    case Halt(r) => r
  }

  function Begin(bits: seq<bool>): State { State(InBlocks(false), bits, []) }

  // The whole format: bits in, bytes out.
  function Inflate(rules: Rules, bits: seq<bool>): Outcome { Decode(rules, Begin(bits)) }
}
