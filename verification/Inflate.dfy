// wtmi/compressed/inflate.c and inffast.c: the resumable decoder.
module Inflate {
  import opened Types
  import opened Bits
  import opened Canonical
  import opened DecodeTable
  import opened TableSize
  import opened InfTrees
  import opened Rfc1951
  import opened InflateSpec
  import opened BitStream
  import opened InflateMore
  import opened InflateState
  import opened FixedTables

  class Inflater {
    // z_stream: this call's input and output space
    var input: seq<Byte>
    var next: nat
    var output: array<Byte>
    var put: nat
    var left: nat
    var start: nat            // put when the call started
    var base: nat             // address of output[0]
    // inflate_state
    var mode: Mode
    var last: bool
    var hold: nat
    var bits: nat
    var length: nat
    var offset: nat
    var extra: nat
    var fixed: bool           // lencode and distcode point to the static tables
    var lencode: nat
    var distcode: nat
    var lenbits: nat
    var distbits: nat
    var ncode: nat
    var nlen: nat
    var ndist: nat
    var have: nat             // lengths in lens
    const lens: array<nat>
    const work: array<nat>
    const codes: array<Code>
    const fixedCodes: array<Code>
    const fixAt: nat          // the distance table in fixedCodes
    const window: array<Byte>
    var wsize: nat
    var whave: nat
    var write: nat
    // what the fields stand for
    ghost var used: seq<bool>     // bits consumed so far
    ghost var hist: seq<Byte>     // output of earlier calls
    ghost var lit: seq<nat>
    ghost var dist: seq<nat>
    ghost var lenTab: seq<Code>
    ghost var distTab: seq<Code>
    ghost var cl: seq<nat>
    ghost var strayed: bool       // a read has gone outside the buffers
    ghost const fixLenTab: seq<Code>
    ghost const fixDistTab: seq<Code>

    // ---- abstraction ----

    ghost predicate Regs()
      reads `hold, `bits, `next, `input
    {
      hold < Pow2(bits) && bits <= 32 && next <= |input|
    }

    ghost function Stream(): seq<bool>
      reads `hold, `bits, `next, `input
    {
      if next <= |input| then Unread(hold, bits, input, next) else []
    }

    ghost predicate Space()
      reads `start, `put, `left, `output
    {
      start <= put && put + left <= output.Length
    }

    ghost function Out(): seq<Byte>
      reads `start, `put, `left, `output, `hist, output
      ensures Space() ==> |Out()| == |hist| + put - start
    {
      if Space() then hist + output[start..put] else []
    }

    // ---- macros of inflate(): PULLBYTE, NEEDBITS, DROPBITS ----

    method PullByte()
      requires Regs() && bits <= 24 && next < |input|
      modifies `hold, `bits, `next
      ensures Regs() && Stream() == old(Stream())
      ensures bits == old(bits) + 8 && next == old(next) + 1
      ensures Low(hold, old(bits)) == Low(old(hold), old(bits))
    {
      PullStep(hold, bits, input, next);
      LowOfSmall(hold, bits);
      Join(hold, input[next], bits);
      hold := hold + Shl(input[next], bits);
      bits := bits + 8;
      next := next + 1;
    }

    method NeedBits(n: nat) returns (ok: bool)
      requires Regs() && n <= 32 && (n <= 25 || bits % 8 == 0)
      modifies `hold, `bits, `next
      ensures Regs() && Stream() == old(Stream())
      ensures next >= old(next) && bits == old(bits) + 8 * (next - old(next))
      ensures ok ==> n <= bits && (bits < n + 8 || bits == old(bits))
      ensures !ok ==> bits < n && next == |input|
    {
      hide ToBits, Pow2, FromBytes, Unread;
      while bits < n
        invariant Regs() && Stream() == old(Stream())
        invariant next >= old(next) && bits == old(bits) + 8 * (next - old(next))
        invariant bits < n + 8 || bits == old(bits)
        invariant n > 25 ==> bits % 8 == 0
        decreases |input| - next
      {
        if next == |input| { return false; }
        PullByte();
      }
      ok := true;
    }

    method DropBits(n: nat)
      requires Regs() && n <= bits
      modifies `hold, `bits, `used
      ensures Regs() && hold == Shr(old(hold), n) && bits == old(bits) - n
      ensures |old(Stream())| >= n && Stream() == old(Stream())[n..]
      ensures Get(old(Stream()), n) == Low(old(hold), n)
      ensures used + Stream() == old(used + Stream())
    {
      hide ToBits, Shr, Low, Pow2, FromBytes;
      DropStep(hold, bits, n, input, next);
      ghost var s := Stream();
      assert used + s == (used + s[..n]) + s[n..];
      used := used + s[..n];
      hold := Shr(hold, n);
      bits := bits - n;
    }

    // ---- decoding one symbol, bit by bit as needed ----

    // The table at `at` in tab decodes the code ls.
    ghost predicate TableAt(tab: array<Code>, at: nat, t: seq<Code>, root: nat, ct: CodeType, ls: seq<nat>)
      reads tab
    {
      at + |t| <= tab.Length && tab[at..at + |t|] == t && Decodes(t, root, ct, ls)
    }
  
    // The lookup loops of LEN, DIST and CODELENS: pull bytes until the bits
    // held are as many as the entry asks for.
    method FirstLevel(tab: array<Code>, at: nat, root: nat, ghost t: seq<Code>, ghost ct: CodeType, ghost ls: seq<nat>)
      returns (ok: bool, e: Code, ghost d: Code)
      requires Regs() && TableAt(tab, at, t, root, ct, ls)
      modifies `hold, `bits, `next
      ensures Regs() && Stream() == old(Stream()) && next >= old(next) && bits == old(bits) + 8 * (next - old(next))
      ensures Finds(t, root, hold, d) && 1 <= d.bits <= MAXBITS
      ensures Low(hold, root) < |t| && e == t[Low(hold, root)] && 1 <= root <= MAXBITS
      ensures if IsLink(e) then e.bits == root < d.bits else e == d
      ensures !ok ==> bits < d.bits && next == |input|
      ensures ok ==> e.bits <= bits && (bits < d.bits + 8 || next == old(next))
      ensures next == old(next) ==> hold == old(hold)
    {
      hide ToBits, Pow2, FromBytes, Unread, Decodes, Shr, Low, Finds, Stream, Matches;
      ghost var k;
      d, k := Lookup(t, root, ct, ls, hold);
      LookupRoot(tab[..], at, t, root, hold, d);
      e := tab[at + Low(hold, root)];
      while e.bits > bits
        invariant Regs() && Stream() == old(Stream()) && next >= old(next) && bits == old(bits) + 8 * (next - old(next))
        invariant Finds(t, root, hold, d) && 1 <= d.bits <= MAXBITS
        invariant Low(hold, root) < |t| && e == t[Low(hold, root)] && 1 <= e.bits <= d.bits
        invariant if IsLink(e) then e.bits == root < d.bits else e == d
        invariant if next != old(next) then bits < d.bits + 8 else hold == old(hold)
        decreases |input| - next
      {
        if next == |input| { return false, e, d; }
        ghost var d0, h0, n0 := d, hold, bits;
        PullByte();
        d, k := Lookup(t, root, ct, ls, hold);
        StillShort(t, root, ct, ls, n0, h0, d0, hold, d);
        LookupRoot(tab[..], at, t, root, hold, d);
        e := tab[at + Low(hold, root)];
      }
      ok := true;
    }

    method SecondLevel(tab: array<Code>, at: nat, root: nat, link: Code,
                       ghost t: seq<Code>, ghost ct: CodeType, ghost ls: seq<nat>, ghost d0: Code)
      returns (ok: bool, e: Code, ghost d: Code)
      requires Regs() && TableAt(tab, at, t, root, ct, ls)
      requires Finds(t, root, hold, d0) && 1 <= d0.bits <= MAXBITS && IsLink(link)
      requires Low(hold, root) < |t| && link == t[Low(hold, root)] && link.bits == root <= bits
      modifies `hold, `bits, `next
      ensures Regs() && Stream() == old(Stream()) && next >= old(next) && bits == old(bits) + 8 * (next - old(next))
      ensures Finds(t, root, hold, d) && d.bits <= MAXBITS
      ensures e.op == d.op && e.val == d.val && e.bits + root == d.bits
      ensures !ok ==> bits < d.bits && next == |input|
      ensures ok ==> d.bits <= bits && (bits < d.bits + 8 || next == old(next))
      ensures next == old(next) ==> hold == old(hold) && d == d0
    {
      hide ToBits, Pow2, FromBytes, Unread, Decodes, Shr, Low, Finds;
      d := d0;
      LookupSub(tab[..], at, t, root, hold, d, link);
      e := tab[at + link.val + Shr(Low(hold, link.bits + link.op), link.bits)];
      while link.bits + e.bits > bits
        invariant Regs() && Stream() == old(Stream()) && next >= old(next) && bits == old(bits) + 8 * (next - old(next))
        invariant Finds(t, root, hold, d) && 1 <= d.bits <= MAXBITS
        invariant e.op == d.op && e.val == d.val && e.bits + root == d.bits
        invariant root <= bits && Low(hold, root) == Low(old(hold), root)
        invariant if next != old(next) then bits < d.bits + 8 else hold == old(hold) && d == d0
        decreases |input| - next
      {
        if next == |input| { return false, e, d; }
        ghost var d1, h1, n1 := d, hold, bits;
        PullByte();
        ghost var k;
        d, k := Lookup(t, root, ct, ls, hold);
        StillShort(t, root, ct, ls, n1, h1, d1, hold, d);
        LowLow(hold, root, n1);
        LowLow(h1, root, n1);
        LookupSub(tab[..], at, t, root, hold, d, link);
        e := tab[at + link.val + Shr(Low(hold, link.bits + link.op), link.bits)];
      }
      ok := true;
    }

    // Both levels.  first is what the C code drops for the root entry.
    method FindSymbol(tab: array<Code>, at: nat, root: nat, ghost t: seq<Code>, ghost ct: CodeType, ghost ls: seq<nat>)
      returns (ok: bool, first: nat, e: Code, ghost d: Code)
      requires Regs() && TableAt(tab, at, t, root, ct, ls)
      modifies `hold, `bits, `next
      ensures Regs() && Stream() == old(Stream()) && next >= old(next) && bits == old(bits) + 8 * (next - old(next))
      ensures Settled(ct, ls, d)
      ensures !ok ==> bits < d.bits && next == |input|
      ensures ok ==> d.bits == first + e.bits && (d.op, d.val) == (e.op, e.val)
      ensures ok ==> d.bits <= bits && (bits < d.bits + 8 || next == old(next))
      ensures next == old(next) ==> hold == old(hold)
    {
      hide ToBits, Pow2, FromBytes, Unread, Decodes, Shr, Low, Symbol, Meaning, Finds, Settled;
      ok, e, d := FirstLevel(tab, at, root, t, ct, ls);
      first := 0;
      if ok && IsLink(e) {
        first := e.bits;
        ok, e, d := SecondLevel(tab, at, root, e, t, ct, ls, d);
      }
      SettleSymbol(t, root, ct, ls, d);
    }

    method DropCode(first: nat, second: nat)
      requires Regs() && first + second <= bits
      modifies `hold, `bits, `used
      ensures Regs() && bits == old(bits) - first - second
      ensures |old(Stream())| >= first + second && Stream() == old(Stream())[first + second..]
      ensures used + Stream() == old(used + Stream())
    {
      hide ToBits, Pow2, FromBytes, Unread, Shr, Low, Stream;
      ghost var u := Stream();
      DropBits(first);
      DropBits(second);
      assert u[first..][second..] == u[first + second..];
    }

    method DecodeSymbol(tab: array<Code>, at: nat, root: nat, ghost t: seq<Code>, ghost ct: CodeType, ghost ls: seq<nat>)
      returns (ok: bool, e: Code)
      requires Regs() && TableAt(tab, at, t, root, ct, ls)
      modifies `hold, `bits, `next, `used
      ensures Regs() && used + Stream() == old(used + Stream()) && next >= old(next)
      ensures !ok ==> next == |input| && used == old(used) && Stream() == old(Stream())
      ensures !ok ==> Symbol(ls, ToBits(hold, bits)) == None && Live(ls, ToBits(hold, bits)) && (bits == 0 || LongCode(ls))
      ensures ok ==> |Stream()| < |old(Stream())|
      ensures ok ==> Decoded(ct, ls, old(Stream()), Stream(), e)
      ensures ok ==> e.op == INVALID.op || bits < 8 || (bits < old(bits) && Symbol(ls, ToBits(old(hold), old(bits))).Some?)
    {
      hide ToBits, Pow2, FromBytes, Unread, Shr, Low, Symbol, Meaning, Get, TableAt, Stream, LongCode;
      var first;
      ghost var d;
      ok, first, e, d := FindSymbol(tab, at, root, t, ct, ls);
      if ok {
        DropCode(first, e.bits);
      }
    }

    // The symbol of the stream is d's, once d.bits bits are held.
    ghost predicate Settled(ct: CodeType, ls: seq<nat>, d: Code)
      reads `hold, `bits, `next, `input
    {
      && d.bits >= 1
      && (d.bits == 1 || LongCode(ls))
      && (bits < d.bits ==> Symbol(ls, ToBits(hold, bits)) == None && Live(ls, ToBits(hold, bits)))
      && (bits >= d.bits ==>
            var r := Symbol(ls, Stream());
            && r == Symbol(ls, ToBits(hold, bits))
            && match r
               case None => d == INVALID && !Live(ls, Stream())
               case Some(s) => s < MaxCodes(ct) && (d.op, d.val) == Meaning(ct, s) && d.bits == ls[s])
    }

    // With 15 bits held, the symbol is settled and taken from the bits of this
    // call's input, if those held before did not settle it.
    lemma TakeSettles(t: seq<Code>, root: nat, ct: CodeType, ls: seq<nat>, h: nat, n: nat)
      requires Regs() && Decodes(t, root, ct, ls) && bits >= 15 && n <= bits && Low(hold, n) == Low(h, n)
      ensures forall d: Code | Finds(t, root, hold, d) ::
                && 1 <= d.bits <= 15 && Settled(ct, ls, d)
                && (Symbol(ls, ToBits(h, n)) == None && LongCode(ls) ==> d.bits > n)
    {
      hide ToBits, FromBytes, Decodes, Symbol, Meaning, Finds, LongCode, Settled, Low;
      forall d: Code | Finds(t, root, hold, d)
        ensures 1 <= d.bits <= 15 && Settled(ct, ls, d)
        ensures Symbol(ls, ToBits(h, n)) == None && LongCode(ls) ==> d.bits > n
      {
        LongSettles(t, root, ct, ls, h, n, hold, d);
        SettleSymbol(t, root, ct, ls, d);
      }
    }

    lemma SettleSymbol(t: seq<Code>, root: nat, ct: CodeType, ls: seq<nat>, d: Code)
      requires Regs() && Decodes(t, root, ct, ls) && Finds(t, root, hold, d) && 1 <= d.bits
      ensures Settled(ct, ls, d)
    {
      hide ToBits, FromBytes, Decodes, Symbol, Meaning, Finds;
      LongEntry(t, root, ct, ls, hold, d);
      if bits < d.bits {
        SymbolShort(t, root, ct, ls, hold, bits, d);
      } else {
        SymbolSettled(t, root, ct, ls, hold, bits, d, FromBytes(input[next..]));
      }
    }

    // ---- what holds between the steps ----

    function LenArray(): array<Code>
      reads `fixed
    {
      if fixed then fixedCodes else codes
    }

    ghost predicate Tables()
      reads `fixed, `lencode, `lenTab, `lenbits, `lit, `distcode, `distTab, `distbits, `dist, codes, fixedCodes
    {
      && TableAt(LenArray(), lencode, lenTab, lenbits, LENS, lit)
      && TableAt(LenArray(), distcode, distTab, distbits, DISTS, dist)
    }

    ghost predicate InFlight()
      reads `mode
    {
      mode == LEN || mode == LENEXT || mode == DIST || mode == DISTEXT || mode == MATCH || mode == LIT
    }

    ghost function Pend(): Pending
      reads `mode, `length, `offset, `extra
    {
      PendOf(mode, length, offset, extra)
    }

    ghost predicate ElementOk()
      reads `hold, `bits, `next, `input, `start, `put, `left, `output, `hist, `mode, `length, `offset, `extra
    {
      Regs() && Space() && Fields(mode, length, offset, extra, |hist| + put - start)
    }

    ghost predicate Tight()
      reads `hold, `bits, `mode, `extra, `lit, `dist
    {
      bits < 8 || Needs(mode, extra, lit, dist, ToBits(hold, bits))
    }

    // From where the element stood before, the decoder has come here.
    ghost predicate Reaches(a: Point)
      reads this, output
    {
      ReachAt(lit, dist, mode, Pend(), Stream(), Out(), a)
    }

    ghost function Element(): Point
      reads this, output
    {
      After(lit, dist, Pend(), Stream(), Out())
    }

    // No more input, and what is held does not get the element any further.
    ghost predicate Starved()
      reads this, output
    {
      next == |input| && After(lit, dist, Pend(), ToBits(hold, bits), Out()) == Waiting(Pend(), ToBits(hold, bits), Out())
    }

    // "if (n) { NEEDBITS(n); v = BITS(n); DROPBITS(n); }"
    method ReadExtra(n: nat) returns (ok: bool, v: nat)
      requires Regs() && n <= 14
      modifies `hold, `bits, `next, `used
      ensures Regs() && used + Stream() == old(used + Stream())
      ensures !ok ==> next == |input| && bits < n && Stream() == old(Stream())
      ensures ok ==> |old(Stream())| >= n && v == Get(old(Stream()), n) && Stream() == old(Stream())[n..]
      ensures ok ==> v < Pow2(n) && (bits < 8 || bits == old(bits) - n)
    {
      hide ToBits, Pow2, FromBytes, Unread, Shr, Low;
      if n == 0 {
        ghost var s := Stream();
        assert s[0..] == s && s[..0] == [];
        return true, 0;
      }
      ok := NeedBits(n);
      v := 0;
      if ok {
        v := Low(hold, n);
        DropBits(n);
      }
    }

    // ---- case LEN, when inflate_fast does not apply ----

    method StepLen() returns (leave: bool)
      requires ElementOk() && Tables() && Tight() && mode == LEN
      modifies `mode, `hold, `bits, `next, `used, `length, `extra
      ensures ElementOk() && Tight() && used + Stream() == old(used + Stream())
      ensures leave ==> mode == LEN && Stream() == old(Stream()) && Pend() == old(Pend()) && Starved()
      ensures !leave ==> (mode == LIT || mode == LENEXT || mode == TYPE || mode == BAD)
      ensures !leave ==> Reaches(old(Element())) && |Stream()| < |old(Stream())|
    {
      hide ToBits, Pow2, Unread, Shr, Low, Symbol, Meaning, Get, TableAt, After, Stream, Out, Fields, ReachAt, PendOf,
           Needs, Decoded, LenMode, LongCode, Decodes;
      ghost var s := Stream();
      StartPend(lit, dist, length, offset, extra, bits, ToBits(hold, bits));
      var ok, e := DecodeSymbol(LenArray(), lencode, lenbits, lenTab, LENS, lit);
      if !ok {
        StartShort(lit, dist, length, offset, extra, bits, ToBits(hold, bits), Out());
        return true;
      }
      TakeLength(e, s);
      leave := false;
    }

    method TakeLength(e: Code, ghost s: seq<bool>)
      requires Space() && Decoded(LENS, lit, s, Stream(), e)
      modifies `mode, `length, `extra
      ensures Fields(mode, length, offset, extra, |hist| + put - start)
      ensures mode == BAD ==> Needs(mode, extra, lit, dist, ToBits(hold, bits))
      ensures mode == LIT || mode == LENEXT || mode == TYPE || mode == BAD
      ensures e.op == INVALID.op ==> mode == BAD
      ensures Reaches(old(After(lit, dist, AtStart, s, Out())))
    {
      hide ToBits, Pow2, Unread, Shr, Low, Symbol, Meaning, Get, TableAt, After, Stream, Out, Fields, ReachAt, PendOf,
           Needs, Decoded, LenMode, LongCode, Decodes;
      length := e.val;
      mode := LenMode(e.op);
      if mode == LENEXT { extra := e.op % 16; }
      LenReach(lit, dist, s, Stream(), Out(), e, mode, length, offset, extra);
    }

    method StepLenExt() returns (leave: bool)
      requires ElementOk() && Tight() && mode == LENEXT
      modifies `mode, `hold, `bits, `next, `used, `length
      ensures ElementOk() && Tight() && used + Stream() == old(used + Stream())
      ensures leave ==> mode == LENEXT && Stream() == old(Stream()) && Pend() == old(Pend()) && Starved()
      ensures !leave ==> mode == DIST && Reaches(old(Element())) && |Stream()| <= |old(Stream())|
    {
      hide ToBits, Pow2, Unread, Shr, Symbol, After, Stream, Out, Get, ReachAt, Needs, Fields, PendOf;
      LenExtPend(lit, dist, length, offset, extra, |Out()|, ToBits(hold, bits));
      var ok, v := ReadExtra(extra);
      if !ok {
        AfterLength(lit, dist, length, extra, ToBits(hold, bits), Out());
        return true;
      }
      length := length + v;
      mode := DIST;
      LenExtReach(lit, dist, old(Stream()), Stream(), Out(), old(length), length, offset, extra);
      return false;
    }

    method StepDist() returns (leave: bool)
      requires ElementOk() && Tables() && Tight() && mode == DIST
      modifies `mode, `hold, `bits, `next, `used, `offset, `extra
      ensures ElementOk() && Tight() && used + Stream() == old(used + Stream())
      ensures leave ==> mode == DIST && Stream() == old(Stream()) && Pend() == old(Pend()) && Starved()
      ensures !leave ==> (mode == DISTEXT || mode == BAD) && Reaches(old(Element())) && |Stream()| < |old(Stream())|
    {
      hide Live, ToBits, Pow2, Unread, Shr, Low, Symbol, Meaning, Get, TableAt, After, Stream, Out, Fields, ReachAt, PendOf,
           Needs, Decoded, LongCode, Decodes;
      ghost var s := Stream();
      DistPend(lit, dist, length, offset, extra, |Out()|, ToBits(hold, bits));
      var ok, e := DecodeSymbol(LenArray(), distcode, distbits, distTab, DISTS, dist);
      if !ok {
        DistStarved();
        return true;
      }
      TakeDistance(e, s);
      leave := false;
    }

    lemma DistStarved()
      requires mode == DIST && ElementOk() && next == |input|
      requires Symbol(dist, ToBits(hold, bits)) == None && Live(dist, ToBits(hold, bits))
      ensures Tight() && Starved()
    {
      hide Symbol, Live, ToBits, After, Out, Fields, PendOf, Needs;
      AfterDist(lit, dist, length, ToBits(hold, bits), Out());
      DistPend(lit, dist, length, offset, extra, |hist| + put - start, ToBits(hold, bits));
    }

    method TakeDistance(e: Code, ghost s: seq<bool>)
      requires Space() && Decoded(DISTS, dist, s, Stream(), e) && 3 <= length <= 258
      modifies `mode, `offset, `extra
      ensures Fields(mode, length, offset, extra, |hist| + put - start)
      ensures mode == DISTEXT || (mode == BAD && Needs(mode, extra, lit, dist, ToBits(hold, bits)))
      ensures e.op == INVALID.op ==> mode == BAD
      ensures Reaches(old(After(lit, dist, AtDist(length), s, Out())))
    {
      hide ToBits, Pow2, Unread, Shr, Low, Symbol, Meaning, Get, TableAt, After, Stream, Out, Fields, ReachAt, PendOf,
           Needs, Decoded, LongCode, Decodes;
      mode := if e.op / 64 % 2 == 1 then BAD else DISTEXT;
      if mode == DISTEXT { offset, extra := e.val, e.op % 16; }
      DistReach(lit, dist, s, Stream(), Out(), e, mode, length, offset, extra);
    }

    method StepDistExt() returns (leave: bool)
      requires ElementOk() && Tight() && mode == DISTEXT && WindowOk()
      modifies `mode, `hold, `bits, `next, `used, `offset
      ensures ElementOk() && Tight() && used + Stream() == old(used + Stream())
      ensures leave ==> mode == DISTEXT && Stream() == old(Stream()) && Pend() == old(Pend()) && Starved()
      ensures !leave ==> (mode == MATCH || mode == BAD) && Reaches(old(Element())) && |Stream()| <= |old(Stream())|
    {
      hide ToBits, Pow2, Unread, Shr, Low, FromBytes, Symbol, After, Stream, Out, Get, ReachAt, Needs, Fields, PendOf,
           WindowHolds;
      ghost var s := Stream();
      DistExtPend(lit, dist, length, offset, extra, |Out()|, ToBits(hold, bits));
      var ok, v := ReadExtra(extra);
      if !ok {
        AfterDistBits(lit, dist, length, offset, extra, ToBits(hold, bits), Out());
        DistExtPend(lit, dist, length, offset, extra, |Out()|, ToBits(hold, bits));
        return true;
      }
      CheckDistance(v, s);
      leave := false;
    }

    // The check against whave + out - left is the check against the whole
    // output so far, because no distance exceeds the window.
    method CheckDistance(v: nat, ghost s: seq<bool>)
      requires Space() && Fields(DISTEXT, length, offset, extra, |hist| + put - start)
      requires |s| >= extra && v == Get(s, extra) && Stream() == s[extra..]
      requires WindowHolds(window[..], wsize, whave, write, hist) && (wsize == 0 ==> hist == [])
      modifies `mode, `offset
      ensures Fields(mode, length, offset, extra, |hist| + put - start)
      ensures mode == MATCH || (mode == BAD && Needs(mode, extra, lit, dist, ToBits(hold, bits)))
      ensures Reaches(old(After(lit, dist, AtDistBits(length, offset, extra), s, Out())))
    {
      hide ToBits, Pow2, Unread, Shr, Low, FromBytes, Symbol, After, Stream, Out, Get, ReachAt, Needs, Fields, PendOf,
           WindowHolds;
      offset := offset + v;
      mode := if offset > whave + (put - start) then BAD else MATCH;
      DistExtReach(lit, dist, s, Stream(), Out(), old(offset), mode, length, offset, extra,
                   window[..], wsize, whave, write, hist);
    }

    // The window is the tail of what earlier calls put out.
    ghost predicate WindowOk()
      reads `output, `wsize, `whave, `write, `hist, window
    {
      && window.Length == WSIZE && window != output
      && WindowHolds(window[..], wsize, whave, write, hist) && (wsize == 0 ==> hist == [])
    }

    // ---- writing output ----

    // What lies outside the stretch written is as it was.
    twostate predicate OnlyWrote(p: nat)
      reads `output, `put, `left, output
    {
      output == old(output) && old(put) == p <= put && put + left == old(put) + old(left) &&
      forall i | 0 <= i < output.Length && !(p <= i < put) :: output[i] == old(output[i])
    }

    // *put++ = b
    method Emit(b: Byte)
      requires Space() && left > 0
      modifies `put, `left, output
      ensures Space() && put == old(put) + 1 && OnlyWrote(old(put))
      ensures Out() == old(Out()) + [b] && output[old(put)] == b
    {
      output[put] := b;
      put := put + 1;
      left := left - 1;
      assert output[start..put] == old(output[start..put]) + [b];
    }

    // do *put++ = *from++; while (--copy), from the window
    method CopyWindow(from: nat, copy: nat)
      requires Space() && copy <= left && from + copy <= window.Length && window != output
      modifies `put, `left, output
      ensures Space() && put == old(put) + copy && OnlyWrote(old(put))
      ensures Out() == old(Out()) + window[from..from + copy]
    {
      hide Out;
      assert old(Out()) + window[from..from] == old(Out());
      for i := 0 to copy
        invariant Space() && put == old(put) + i && OnlyWrote(old(put))
        invariant Out() == old(Out()) + window[from..from + i]
      {
        ghost var o := Out();
        Emit(window[from + i]);
        assert old(Out()) + window[from..from + i] + [window[from + i]] == old(Out()) + window[from..from + (i + 1)];
      }
    }

    // The same, from the output d bytes back.
    method CopyOutput(d: nat, copy: nat)
      requires Space() && copy <= left && 1 <= d <= put - start
      modifies `put, `left, output
      ensures Space() && put == old(put) + copy && OnlyWrote(old(put))
      ensures Out() == CopyBack(old(Out()), copy, d)
    {
      hide Out, CopyBack;
      ghost var o := Out();
      for i := 0 to copy
        invariant Space() && put == old(put) + i && OnlyWrote(old(put))
        invariant Out() == CopyBack(o, i, d)
      {
        OutAt(d);
        CopyBackStep(o, i, d);
        Emit(output[put - d]);
      }
    }

    lemma OutAt(d: nat)
      requires Space() && 1 <= d <= put - start
      ensures Out()[|Out()| - d] == output[put - d]
    {
    }

    // ---- case LIT and case MATCH ----

    method StepLit() returns (leave: bool)
      requires ElementOk() && Tight() && mode == LIT
      modifies `mode, `put, `left, output
      ensures ElementOk() && Tight() && OnlyWrote(old(put))
      ensures leave ==> mode == LIT && left == 0 && put == old(put) && Out() == old(Out())
      ensures !leave ==> mode == LEN && bits < 8 && Reaches(old(Element())) && left < old(left)
    {
      hide Symbol, ToBits;
      if left == 0 { return true; }
      Emit(length);
      mode := LEN;
      leave := false;
    }

    // copy bytes from the stretch of the window that lies back bytes before
    // this call's output.
    method WindowRun(from: nat, copy: nat, ghost back: nat, ghost d: nat)
      requires Space() && copy <= left && from + copy <= window.Length && window != output
      requires 1 <= back <= |hist| && copy <= back && d == back + (put - start)
      requires window[from..from + copy] == hist[|hist| - back..|hist| - back + copy]
      modifies `put, `left, output
      ensures Space() && OnlyWrote(old(put)) && put == old(put) + copy
      ensures Out() == CopyBack(old(Out()), copy, d)
    {
      hide Out, CopyBack;
      OutSlice(back, copy);
      CopyBackSlice(Out(), copy, d);
      CopyWindow(from, copy);
    }

    // One stretch of a match: from the end or the start of the window, or
    // from the output.
    method CopyPiece() returns (copy: nat)
      requires Space() && left > 0 && length > 0 && WindowOk() && 1 <= offset <= |hist| + put - start && offset <= WSIZE
      modifies `put, `left, output
      ensures Space() && OnlyWrote(old(put)) && 1 <= copy <= length && put == old(put) + copy
      ensures Out() == CopyBack(old(Out()), copy, offset)
    {
      hide Out, CopyBack, WindowHolds, Slot;
      WindowReach(window[..], wsize, whave, write, hist, offset, put - start);
      copy := put - start;
      if offset > copy {
        // copy from window
        copy := offset - copy;
        ghost var back := copy;
        WindowSlice(window[..], wsize, whave, write, hist, back);
        var from;
        if copy > write {
          copy := copy - write;
          from := wsize - copy;
        } else {
          from := write - copy;
        }
        ghost var m := copy;
        if copy > length { copy := length; }
        if copy > left { copy := left; }
        SubSlice(window[..], from, hist, |hist| - back, m, copy);
        WindowRun(from, copy, back, offset);
      } else {
        // copy from output
        copy := length;
        if copy > left { copy := left; }
        CopyOutput(offset, copy);
      }
    }

    method StepMatch() returns (leave: bool)
      requires ElementOk() && Tight() && mode == MATCH && WindowOk()
      modifies `mode, `put, `left, `length, output
      ensures ElementOk() && Tight() && OnlyWrote(old(put))
      ensures leave ==> mode == MATCH && left == 0 && put == old(put) && length == old(length) && Out() == old(Out())
      ensures !leave ==> (mode == LEN || mode == MATCH) && bits < 8 && Reaches(old(Element())) && left < old(left)
    {
      hide Out, CopyBack, WindowOk, After, Fields, PendOf, ReachAt, Stream, Symbol, ToBits, Regs, Tight;
      MatchPend(length, offset, extra, |Out()|);
      MatchTight();
      if left == 0 {
        return true;
      }
      leave := false;
      ghost var o, n := Out(), length;
      var copy := CopyPiece();
      length := length - copy;
      if length == 0 { mode := LEN; }
      MatchTight();
      MatchReach(lit, dist, Stream(), o, Out(), n, copy, mode, length, offset, extra);
    }

    // In these cases only whole bytes have been put back.
    lemma MatchTight()
      ensures mode == MATCH && Tight() ==> bits < 8
      ensures bits < 8 ==> Tight()
    {
    }

    // Bytes of earlier calls at the front of what offset points to.
    lemma OutSlice(back: nat, copy: nat)
      requires Space() && 1 <= back <= |hist| && copy <= back
      ensures var o := Out();
              var k := |o| - (back + put - start);
              0 <= k && k + copy <= |o| && o[k..k + copy] == hist[|hist| - back..|hist| - back + copy]
    {
    }

    // ---- inffast.c: copies ----

    // A 16-bit store, low byte first.
    method StoreHalf(lo: Byte, hi: Byte)
      requires Space() && left >= 2
      modifies `put, `left, output
      ensures Space() && put == old(put) + 2 && OnlyWrote(old(put))
      ensures output[put - 2] == lo && output[put - 1] == hi
      ensures Out() == old(Out()) + [lo] + [hi]
    {
      hide Out;
      Emit(lo);
      Emit(hi);
    }

    // A copy with distance d reads outside the buffers just when it repeats the
    // one byte put out in this call, to an odd address.
    twostate predicate StraysIf(d: nat)
      reads `strayed, `base, `start
    {
      strayed <==> old(strayed) || (d == 1 && old(put) == start + 1 && (base + start) % 2 == 1)
    }

    // "copy direct from output", 16 bits at a time.  stray is the byte in
    // memory before this call's output.
    method CopyDirect(dist: nat, len0: nat, stray: Byte)
      requires Space() && 1 <= dist <= put - start && 3 <= len0 <= left
      modifies `put, `left, `strayed, output
      ensures Space() && put == old(put) + len0 && OnlyWrote(old(put))
      ensures Out() == CopyBack(old(Out()), len0, dist)
      ensures StraysIf(dist)
    {
      hide Out, CopyBack;
      ghost var o := Out();
      var from, len := AlignOut(dist, len0);
      from := CopyWords(dist, len / 2, from, stray, o);
      if len % 2 == 1 { CopyTail(dist, from, o); }
    }

    method CopyWords(dist: nat, loops: nat, from0: nat, stray: Byte, ghost o: seq<Byte>) returns (from: nat)
      requires Space() && 1 <= dist <= put - start && 2 * loops <= left && loops > 0 && from0 + dist == put
      requires dist <= |o| <= |Out()| && Out() == CopyBack(o, |Out()| - |o|, dist)
      modifies `put, `left, `strayed, output
      ensures Space() && put == old(put) + 2 * loops && OnlyWrote(old(put))
      ensures |o| <= |Out()| && Out() == CopyBack(o, |Out()| - |o|, dist)
      ensures from < put && output[from] == output[put - dist]
      ensures strayed <==> old(strayed) || (dist <= 2 && old(put) == start + 1)
    {
      hide Out, CopyBack;
      from := from0;
      if dist > 2 {
        from := CopyHalves(dist, loops, from, o);
      } else {
        CopyPattern(dist, loops, from, stray, o);
      }
    }

    // Copy one byte if the output address is odd.
    method AlignOut(dist: nat, len0: nat) returns (from: nat, len: nat)
      requires Space() && 1 <= dist <= put - start && 3 <= len0 <= left
      modifies `put, `left, output
      ensures Space() && put == old(put) + (len0 - len) && OnlyWrote(old(put)) && from + dist == put
      ensures len == len0 - (base + old(put)) % 2
      ensures Out() == CopyBack(old(Out()), len0 - len, dist)
    {
      hide Out, CopyBack;
      CopyBackNone(Out(), dist);
      len, from := len0, put - dist;
      if (base + put - 1) % 2 == 0 {
        CopyOutput(dist, 1);
        from := from + 1;
        len := len - 1;
      }
    }

    method CopyTail(dist: nat, from: nat, ghost o: seq<Byte>)
      requires Space() && left > 0 && 1 <= dist <= put - start && dist <= |o| <= |Out()|
      requires from < put && output[from] == output[put - dist]
      requires Out() == CopyBack(o, |Out()| - |o|, dist)
      modifies `put, `left, output
      ensures Space() && put == old(put) + 1 && OnlyWrote(old(put))
      ensures |o| <= |Out()| && Out() == CopyBack(o, |Out()| - |o|, dist)
    {
      hide Out, CopyBack;
      OutAt(dist);
      CopyBackStep(o, |Out()| - |o|, dist);
      Emit(output[from]);
    }

    method CopyHalves(dist: nat, loops0: nat, from0: nat, ghost o: seq<Byte>) returns (from: nat)
      requires Space() && 2 < dist <= put - start && 2 * loops0 <= left && loops0 > 0 && from0 + dist == put
      requires 1 <= dist <= |o| <= |Out()| && Out() == CopyBack(o, |Out()| - |o|, dist)
      modifies `put, `left, output
      ensures Space() && put == old(put) + 2 * loops0 && OnlyWrote(old(put)) && from + dist == put
      ensures |o| <= |Out()| && Out() == CopyBack(o, |Out()| - |o|, dist)
    {
      hide Out, CopyBack;
      from := from0;
      var loops := loops0;
      while true
        invariant Space() && loops > 0 && put == old(put) + 2 * (loops0 - loops) && OnlyWrote(old(put))
        invariant from + dist == put && |o| <= |Out()| && Out() == CopyBack(o, |Out()| - |o|, dist)
        decreases loops
      {
        ghost var n := |Out()| - |o|;
        OutAt(dist);
        OutAt(dist - 1);
        CopyBackStep(o, n, dist);
        CopyBackStep(o, n + 1, dist);
        StoreHalf(output[from], output[from + 1]);
        from := from + 2;
        loops := loops - 1;
        if loops == 0 { break; }
      }
    }

    // Distances 1 and 2: replicate a 16-bit pattern.
    method CopyPattern(dist: nat, loops0: nat, ghost from: nat, stray: Byte, ghost o: seq<Byte>)
      requires Space() && 1 <= dist <= 2 && dist <= put - start && 2 * loops0 <= left && loops0 > 0 && from + dist == put
      requires 1 <= dist <= |o| <= |Out()| && Out() == CopyBack(o, |Out()| - |o|, dist)
      modifies `put, `left, `strayed, output
      ensures Space() && put == old(put) + 2 * loops0 && OnlyWrote(old(put))
      ensures |o| <= |Out()| && Out() == CopyBack(o, |Out()| - |o|, dist)
      ensures from < put && output[from] == output[put - dist]
      ensures strayed <==> old(strayed) || old(put) == start + 1
    {
      hide Out, CopyBack;
      strayed := strayed || put == start + 1;
      var pat16 := Pattern(dist, stray);
      var loops := loops0;
      while true
        invariant Space() && loops > 0 && put == old(put) + 2 * (loops0 - loops) && OnlyWrote(old(put))
        invariant |o| <= |Out()| && Out() == CopyBack(o, |Out()| - |o|, dist)
        invariant strayed <==> old(strayed) || old(put) == start + 1
        invariant pat16 < 0x10000 && output[put - 1] == pat16 / 256
        invariant if dist == 1 then pat16 % 256 == pat16 / 256 else put >= start + 2 && output[put - 2] == pat16 % 256
        decreases loops
      {
        StorePattern(dist, pat16, o);
        loops := loops - 1;
        if loops == 0 { break; }
      }
    }

    method StorePattern(dist: nat, pat16: u16, ghost o: seq<Byte>)
      requires Space() && left >= 2 && 1 <= dist <= 2 && dist <= put - start
      requires dist <= |o| <= |Out()| && Out() == CopyBack(o, |Out()| - |o|, dist)
      requires pat16 < 0x10000 && output[put - 1] == pat16 / 256
      requires if dist == 1 then pat16 % 256 == pat16 / 256 else put >= start + 2 && output[put - 2] == pat16 % 256
      modifies `put, `left, output
      ensures Space() && put == old(put) + 2 && OnlyWrote(old(put))
      ensures |o| <= |Out()| && Out() == CopyBack(o, |Out()| - |o|, dist)
      ensures output[put - 2] == pat16 % 256 && output[put - 1] == pat16 / 256
    {
      hide Out, CopyBack;
      PatternStep(dist, pat16, o, |Out()| - |o|);
      StoreHalf(pat16 % 256, pat16 / 256);
    }

    // The two bytes before put; for distance 1 the second one twice.
    method Pattern(dist: nat, stray: Byte) returns (pat16: u16)
      requires Space() && 1 <= dist <= 2 && dist <= put - start
      ensures output[put - 1] == pat16 / 256
      ensures if dist == 1 then pat16 % 256 == pat16 / 256 else put >= start + 2 && output[put - 2] == pat16 % 256
    {
      var lo: nat := if put >= start + 2 then output[put - 2] else stray;
      var hi: nat := output[put - 1];
      pat16 := lo + 256 * hi;
      if dist == 1 {
        // (pat16 & 0xff00) | ((pat16 & 0xff00) >> 8)
        pat16 := pat16 / 256 * 256 + pat16 / 256;
      }
    }

    lemma PatternStep(dist: nat, pat16: nat, o: seq<Byte>, n: nat)
      requires Space() && 1 <= dist <= 2 && dist <= put - start && dist <= |o|
      requires Out() == CopyBack(o, n, dist)
      requires pat16 < 0x10000 && output[put - 1] == pat16 / 256
      requires if dist == 1 then pat16 % 256 == pat16 / 256 else put >= start + 2 && output[put - 2] == pat16 % 256
      ensures CopyBack(o, n + 2, dist) == Out() + [pat16 % 256] + [pat16 / 256]
    {
      hide CopyBack;
      CopyBackStep(o, n, dist);
      CopyBackStep(o, n + 1, dist);
    }

    // ---- inffast.c: decoding ----

    ghost function Avail(): int
      reads `bits, `next, `input
    {
      bits + 8 * (|input| - next)
    }

    ghost predicate Fresh(k: nat)
      reads `hold, `bits, `next, `input
    {
      next <= |input| && Backed(hold, bits, input, next, k)
    }

    // hold += *in++ << bits; bits += 8
    method FastPull(ghost k: nat)
      requires Regs() && bits <= 24 && next < |input| && Fresh(k)
      modifies `hold, `bits, `next
      ensures Regs() && Stream() == old(Stream()) && Avail() == old(Avail())
      ensures bits == old(bits) + 8 && Fresh(k + 8)
      ensures Low(hold, old(bits)) == old(hold)
    {
      hide ToBits, Pow2, FromBytes, Unread, Shl, Low, Backed;
      PullStep(hold, bits, input, next);
      BackedPull(hold, bits, input, next, k);
      Join(hold, input[next], bits);
      hold := hold + Shl(input[next], bits);
      bits := bits + 8;
      next := next + 1;
    }

    method FastFill(ghost k: nat) returns (ghost k': nat)
      requires Regs() && Fresh(k) && Avail() >= 28
      modifies `hold, `bits, `next
      ensures Regs() && Stream() == old(Stream()) && Avail() == old(Avail()) && Fresh(k')
      ensures if old(bits) < 15 then bits == old(bits) + 16 && k' == k + 16 else bits == old(bits) && k' == k
      ensures Low(hold, old(bits)) == old(hold)
    {
      hide ToBits, Pow2, FromBytes, Unread, Shl, Low, Fresh, Stream;
      k' := k;
      LowOfSmall(hold, bits);
      if bits < 15 {
        ghost var n, m := bits, bits + 8;
        FastPull(k);
        ghost var h := hold;
        FastPull(k + 8);
        k' := k + 16;
        LowLow(hold, n, m);
      }
    }

    // One symbol with at least 15 bits held; d is what the table finds.
    method FastTake(tab: array<Code>, at: nat, root: nat, ghost t: seq<Code>, ghost ct: CodeType, ghost ls: seq<nat>)
      returns (e: Code, ghost d: Code)
      requires Regs() && TableAt(tab, at, t, root, ct, ls) && ct != CODES && bits >= 15
      modifies `hold, `bits, `used
      ensures Regs() && used + Stream() == old(used + Stream())
      ensures Finds(t, root, old(hold), d) && bits == old(bits) - d.bits && hold == Shr(old(hold), d.bits)
      ensures (e.op, e.val) == (d.op, d.val)
      ensures 1 <= d.bits <= 15 && |old(Stream())| >= d.bits && Stream() == old(Stream())[d.bits..]
    {
      hide ToBits, Pow2, FromBytes, Unread, Decodes, Shr, Low, Finds, Stream, Meaning;
      ghost var k, h, s;
      d, k := Lookup(t, root, ct, ls, hold);
      h, s := hold, Stream();
      LookupRoot(tab[..], at, t, root, hold, d);
      FastLinks(t, root, ct, ls, hold, d);
      e := tab[at + Low(hold, root)];
      DropBits(e.bits);
      if FastLink(e.op) {
        LinkIndex(tab[..], at, t, root, h, d, e);
        ghost var n := e.bits;
        e := tab[at + e.val + Low(hold, e.op)];
        DropBits(e.bits);
        ShrShr(h, n, e.bits);
        assert s[n..][e.bits..] == s[d.bits..];
      }
    }

    method FastSymbol(tab: array<Code>, at: nat, root: nat, ghost t: seq<Code>, ghost ct: CodeType, ghost ls: seq<nat>)
      returns (e: Code)
      requires Regs() && TableAt(tab, at, t, root, ct, ls) && ct != CODES && Avail() >= 28
      requires Fresh(bits) || (Symbol(ls, ToBits(hold, bits)) == None && LongCode(ls))
      modifies `hold, `bits, `next, `used
      ensures Regs() && used + Stream() == old(used + Stream()) && Fresh(bits)
      ensures Decoded(ct, ls, old(Stream()), Stream(), e)
      ensures old(Avail()) - 15 <= Avail() < old(Avail())
    {
      hide ToBits, Pow2, FromBytes, Unread, Decodes, Shr, Low, Finds, Stream, Meaning, Symbol, Backed, LongCode;
      ghost var ready, h, n := Fresh(bits), hold, bits;
      ghost var k: nat := if ready then bits else 0;
      if !ready { BackedNone(hold, bits, input, next, 0); }
      k := FastFill(k);
      ghost var h1, n1 := hold, bits;
      LowOfSmall(h, n);
      TakeSettles(t, root, ct, ls, h, n);
      ghost var d;
      e, d := FastTake(tab, at, root, t, ct, ls);
      BackedDrop(h1, n1, d.bits, input, next, k, bits);
    }

    // The extra bits of a length or a distance.
    method FastExtra(n: nat) returns (v: nat)
      requires Regs() && n <= 13 && Avail() >= n && Fresh(bits)
      modifies `hold, `bits, `next, `used
      ensures Regs() && used + Stream() == old(used + Stream()) && Fresh(bits)
      ensures |old(Stream())| >= n && v == Get(old(Stream()), n) && Stream() == old(Stream())[n..]
      ensures v < Pow2(n) && Avail() == old(Avail()) - n
    {
      hide ToBits, Pow2, FromBytes, Unread, Shr, Low, Backed, Stream;
      if bits < n {
        FastPull(bits);
        if bits < n { FastPull(bits); }
      }
      v := Low(hold, n);
      BackedDrop(hold, bits, n, input, next, bits, bits - n);
      DropBits(n);
    }

    // ---- inffast.c: a match that reaches into the window ----

    // The next n bytes at from are those that lie d back as the output grows.
    ghost predicate Source(src: array<Byte>, from: nat, n: nat, d: nat)
      reads `put, `start, `hist, `output, src
    {
      if src == output then from + d == put && d <= put - start
      else
        && src == window && from + n <= src.Length && put - start + n <= d <= |hist| + put - start
        && src[from..from + n] == hist[|hist| + put - start - d..|hist| + put - start - d + n]
    }

    // *out++ = *from++
    method CopyByte(src: array<Byte>, from: nat, ghost n: nat, d: nat, ghost o: seq<Byte>)
      requires Space() && left > 0 && window != output && n > 0 && Source(src, from, n, d) && from < src.Length
      requires 1 <= d <= |o| <= |Out()| && Out() == CopyBack(o, |Out()| - |o|, d)
      modifies `put, `left, output
      ensures Space() && put == old(put) + 1 && OnlyWrote(old(put)) && Source(src, from + 1, n - 1, d)
      ensures |o| <= |Out()| && Out() == CopyBack(o, |Out()| - |o|, d)
    {
      hide CopyBack, Out;
      SourceAt(src, from, n, d);
      CopyBackStep(o, |Out()| - |o|, d);
      Emit(src[from]);
    }

    lemma SourceAt(src: array<Byte>, from: nat, n: nat, d: nat)
      requires Space() && window != output && n > 0 && Source(src, from, n, d) && from < src.Length && d >= 1
      ensures d <= |Out()| && Out()[|Out()| - d] == src[from]
      ensures src != output ==>
                var x := |hist| + put - start - d;
                0 <= x && x + n <= |hist| && from + n <= src.Length && src[from + 1..from + n] == hist[x + 1..x + n]
    {
      if src != output {
        var x := |hist| + put - start - d;
        assert src[from] == src[from..from + n][0];
        assert src[from + 1..from + n] == src[from..from + n][1..];
        assert hist[x + 1..x + n] == hist[x..x + n][1..];
      }
    }

    lemma SourceLess(src: array<Byte>, from: nat, n: nat, n': nat, d: nat)
      requires Source(src, from, n, d) && n' <= n
      ensures Source(src, from, n', d)
    {
      if src != output {
        var x := |hist| + put - start - d;
        SubSlice(src[..], from, hist, x, n, n');
      }
    }

    // do { PUP(out) = PUP(from); } while (--op)
    method CopyRun(from0: nat, op0: nat, d: nat, ghost o: seq<Byte>)
      requires Space() && window != output && 1 <= op0 <= left && Source(window, from0, op0, d)
      requires 1 <= d <= |o| <= |Out()| && Out() == CopyBack(o, |Out()| - |o|, d)
      modifies `put, `left, output
      ensures Space() && put == old(put) + op0 && OnlyWrote(old(put))
      ensures |o| <= |Out()| && Out() == CopyBack(o, |Out()| - |o|, d)
    {
      hide Out, CopyBack;
      var from, op := from0, op0;
      while true
        invariant Space() && 1 <= op <= left && put == old(put) + (op0 - op) && OnlyWrote(old(put))
        invariant Source(window, from, op, d)
        invariant |o| <= |Out()| && Out() == CopyBack(o, |Out()| - |o|, d)
        decreases op
      {
        CopyByte(window, from, op, d, o);
        from := from + 1;
        op := op - 1;
        if op == 0 { break; }
      }
    }

    // What is left of the match, three bytes a round.
    method CopyThrees(src: array<Byte>, from0: nat, len0: nat, d: nat, ghost o: seq<Byte>)
      requires Space() && window != output && len0 <= left && Source(src, from0, len0, d)
      requires 1 <= d <= |o| <= |Out()| && Out() == CopyBack(o, |Out()| - |o|, d)
      modifies `put, `left, output
      ensures Space() && put == old(put) + len0 && OnlyWrote(old(put))
      ensures |o| <= |Out()| && Out() == CopyBack(o, |Out()| - |o|, d)
    {
      hide Out, CopyBack, Source;
      var from, len := from0, len0;
      while len > 2
        invariant Space() && 0 <= len <= left && put == old(put) + (len0 - len) && OnlyWrote(old(put))
        invariant Source(src, from, len, d)
        invariant |o| <= |Out()| && Out() == CopyBack(o, |Out()| - |o|, d)
      {
        SourceFits(src, from, len, d);
        CopyByte(src, from, len, d, o);
        SourceFits(src, from + 1, len - 1, d);
        CopyByte(src, from + 1, len - 1, d, o);
        SourceFits(src, from + 2, len - 2, d);
        CopyByte(src, from + 2, len - 2, d, o);
        from := from + 3;
        len := len - 3;
      }
      if len > 0 {
        SourceFits(src, from, len, d);
        CopyByte(src, from, len, d, o);
        if len > 1 {
          SourceFits(src, from + 1, len - 1, d);
          CopyByte(src, from + 1, len - 1, d, o);
        }
      }
    }

    lemma SourceFits(src: array<Byte>, from: nat, n: nat, d: nat)
      requires Space() && Source(src, from, n, d) && n > 0 && d >= 1
      ensures from < src.Length
    {
    }

    // Some from the window, the rest from the output.
    method CopyPart(from0: nat, op: nat, len0: nat, d: nat, ghost o: seq<Byte>)
      returns (src: array<Byte>, from: nat, len: nat)
      requires Space() && window != output && 1 <= op && len0 <= left && Source(window, from0, op, d)
      requires d == op + (put - start)
      requires 1 <= d <= |o| <= |Out()| && Out() == CopyBack(o, |Out()| - |o|, d)
      modifies `put, `left, output
      ensures Space() && len <= len0 && put == old(put) + (len0 - len) && OnlyWrote(old(put)) && Source(src, from, len, d)
      ensures |o| <= |Out()| && Out() == CopyBack(o, |Out()| - |o|, d)
    {
      hide Out, CopyBack;
      if op < len0 {
        len := len0 - op;
        CopyRun(from0, op, d, o);
        src, from := output, put - d;
      } else {
        SourceLess(window, from0, op, len0, d);
        src, from, len := window, from0, len0;
      }
    }

    lemma WindowSource(k: nat, d: nat)
      requires Space() && window.Length == WSIZE && window != output
      requires WindowHolds(window[..], wsize, whave, write, hist) && 1 <= k <= whave && d == k + (put - start)
      ensures k <= wsize == WSIZE && k <= |hist|
      ensures if write < k then Source(window, wsize + write - k, k - write, d) else Source(window, write - k, k, d)
    {
      hide WindowHolds;
      WindowSlice(window[..], wsize, whave, write, hist, k);
    }

    // The three places the match can start in the window.
    method FastCopyWindow(dist: nat, len0: nat)
      requires Space() && window.Length == WSIZE && window != output && len0 <= left
      requires WindowHolds(window[..], wsize, whave, write, hist)
      requires put - start < dist <= whave + (put - start)
      modifies `put, `left, output
      ensures Space() && put == old(put) + len0 && OnlyWrote(old(put))
      ensures Out() == CopyBack(old(Out()), len0, dist)
    {
      hide Out, CopyBack, WindowHolds, Slot, Source;
      var op, len := dist - (put - start), len0;
      WindowSource(op, dist);
      ghost var o := Out();
      CopyBackNone(o, dist);
      var src, from := window, 0;
      if write == 0 {
        // very common case
        src, from, len := CopyPart(wsize - op, op, len, dist, o);
      } else if write < op {
        // wrap around window
        src, from, len := CopyWrapped(op, len, dist, o);
      } else {
        // contiguous in window
        src, from, len := CopyPart(write - op, op, len, dist, o);
      }
      CopyThrees(src, from, len, dist, o);
    }

    method CopyWrapped(op0: nat, len0: nat, d: nat, ghost o: seq<Byte>)
      returns (src: array<Byte>, from: nat, len: nat)
      requires Space() && window.Length == WSIZE && window != output && len0 <= left
      requires WindowHolds(window[..], wsize, whave, write, hist)
      requires 1 <= write < op0 <= whave && d == op0 + (put - start)
      requires 1 <= d <= |o| <= |Out()| && Out() == CopyBack(o, |Out()| - |o|, d)
      modifies `put, `left, output
      ensures Space() && len <= len0 && put == old(put) + (len0 - len) && OnlyWrote(old(put)) && Source(src, from, len, d)
      ensures |o| <= |Out()| && Out() == CopyBack(o, |Out()| - |o|, d)
    {
      hide Out, CopyBack, WindowHolds, Slot, Source;
      WindowSource(op0, d);
      var op := op0 - write;
      src, from, len := window, wsize + write - op0, len0;
      if op < len {
        len := len - op;
        CopyRun(from, op, d, o);
        WindowSource(write, d);
        src, from, len := CopyPart(0, write, len, d, o);
      } else {
        SourceLess(window, from, op, len, d);
      }
    }

    // ---- inffast.c: one literal or match, and the loop ----

    method FastCopy(dist: nat, len: nat, stray: Byte)
      requires Space() && WindowOk() && 3 <= len <= left && mode == LEN
      requires 1 <= dist <= WSIZE
      modifies `mode, `put, `left, `strayed, output
      ensures Space() && OnlyWrote(old(put)) && put <= old(put) + len
      ensures mode == if dist > |old(Out())| then BAD else LEN
      ensures mode == LEN ==> Out() == CopyBack(old(Out()), len, dist)
      ensures mode == BAD ==> Out() == old(Out())
      ensures StraysIf(dist)
    {
      hide Out, CopyBack, WindowHolds;
      WindowLimit(window[..], wsize, whave, write, hist, dist, put - start);
      var op := put - start;
      if dist > op {
        op := dist - op;
        if op > whave {
          mode := BAD;
        } else {
          FastCopyWindow(dist, len);
        }
      } else {
        CopyDirect(dist, len, stray);
      }
    }

    method FastDistance(len: nat, stray: Byte)
      requires Regs() && Space() && Tables() && Fresh(bits) && Avail() >= 28 && mode == LEN
      requires WindowOk() && 3 <= len <= left
      modifies `mode, `hold, `bits, `next, `used, `put, `left, `strayed, output
      ensures Regs() && Space() && Fresh(bits) && Avail() < old(Avail()) && used + Stream() == old(used + Stream())
      ensures OnlyWrote(old(put)) && put <= old(put) + len
      ensures mode == LEN || mode == BAD
      ensures ReachAt(lit, dist, mode, AtStart, Stream(), Out(), old(After(lit, dist, AtDist(len), Stream(), Out())))
      ensures StraysIf(old(Distance(lit, dist, AtDist(len), Stream())))
    {
      hide Live, Distance, Out, CopyBack, WindowOk, After, Stream, TableAt, Symbol, ToBits, Decoded, Fresh, Pow2, Get, ReachAt, LongCode;
      ghost var s, o := Stream(), Out();
      var e := FastSymbol(LenArray(), distcode, distbits, distTab, DISTS, dist);
      FastDistOp(lit, dist, len, s, Stream(), o, e);
      if e.op / 16 % 2 == 1 {
        FastDistBits(len, e.val, e.op % 16, stray);
      } else {
        mode := BAD;
        BadReach(lit, dist, Stream(), o);
      }
    }

    method FastDistBits(len: nat, d: nat, extra: nat, stray: Byte)
      requires Regs() && Space() && Fresh(bits) && Avail() >= 13 && mode == LEN
      requires WindowOk() && 3 <= len <= left && extra <= 13 && 1 <= d && d + Pow2(extra) <= WSIZE + 1
      modifies `mode, `hold, `bits, `next, `used, `put, `left, `strayed, output
      ensures Regs() && Space() && Fresh(bits) && Avail() <= old(Avail()) && used + Stream() == old(used + Stream())
      ensures OnlyWrote(old(put)) && put <= old(put) + len
      ensures mode == LEN || mode == BAD
      ensures ReachAt(lit, dist, mode, AtStart, Stream(), Out(), old(After(lit, dist, AtDistBits(len, d, extra), Stream(), Out())))
      ensures StraysIf(old(Distance(lit, dist, AtDistBits(len, d, extra), Stream())))
    {
      hide Distance, Out, CopyBack, WindowOk, After, Stream, TableAt, Symbol, ToBits, Decoded, Fresh, Pow2, Get, ReachAt, LongCode;
      ghost var s, o := Stream(), Out();
      var v := FastExtra(extra);
      FastCopy(d + v, len, stray);
      DistanceBits(lit, dist, len, d, extra, s);
      FastDistReach(lit, dist, mode, len, d, extra, s, Stream(), o, Out(), v);
    }

    method FastLength(val: nat, extra: nat, stray: Byte)
      requires Regs() && Space() && Tables() && Fresh(bits) && Avail() >= 33 && mode == LEN
      requires WindowOk() && left >= 258 && extra <= 5 && 3 <= val && val + Pow2(extra) <= 259
      modifies `mode, `hold, `bits, `next, `used, `put, `left, `strayed, output
      ensures Regs() && Space() && Fresh(bits) && Avail() < old(Avail()) && used + Stream() == old(used + Stream())
      ensures OnlyWrote(old(put)) && put <= old(put) + 258
      ensures mode == LEN || mode == BAD
      ensures ReachAt(lit, dist, mode, AtStart, Stream(), Out(), old(After(lit, dist, AtLength(val, extra), Stream(), Out())))
      ensures StraysIf(old(Distance(lit, dist, AtLength(val, extra), Stream())))
    {
      hide Distance, Out, CopyBack, WindowOk, After, Stream, TableAt, Symbol, ToBits, Decoded, Fresh, Pow2, Get, ReachAt, LongCode,
           Tables;
      ghost var s := Stream();
      AfterLength(lit, dist, val, extra, s, Out());
      var len: nat := val;
      if extra != 0 {
        var v := FastExtra(extra);
        DistanceLength(lit, dist, val, extra, s);
        len := len + v;
      } else {
        GetNone(s);
        DistanceLength(lit, dist, val, extra, s);
      }
      FastDistance(len, stray);
    }

    // One round of the loop.
    method FastElement(stray: Byte)
      requires Regs() && Space() && Tables() && mode == LEN && Avail() >= 48 && left >= 258
      requires Fresh(bits) || (Symbol(lit, ToBits(hold, bits)) == None && LongCode(lit))
      requires WindowOk()
      modifies `mode, `hold, `bits, `next, `used, `put, `left, `strayed, output
      ensures Regs() && Space() && Fresh(bits) && Avail() < old(Avail()) && used + Stream() == old(used + Stream())
      ensures OnlyWrote(old(put)) && put <= old(put) + 258
      ensures mode == LEN || mode == TYPE || mode == BAD
      ensures ReachAt(lit, dist, mode, AtStart, Stream(), Out(), old(After(lit, dist, AtStart, Stream(), Out())))
      ensures StraysIf(old(Distance(lit, dist, AtStart, Stream())))
    {
      hide Live, Distance, Out, CopyBack, WindowOk, After, Stream, TableAt, Symbol, ToBits, Decoded, Fresh, Pow2, Get, ReachAt, LongCode;
      ghost var s := Stream();
      var e := FastSymbol(LenArray(), lencode, lenbits, lenTab, LENS, lit);
      FastAct(e, stray, s);
    }

    method FastAct(e: Code, stray: Byte, ghost s: seq<bool>)
      requires Regs() && Space() && Tables() && Fresh(bits) && Avail() >= 33 && mode == LEN && left >= 258
      requires Decoded(LENS, lit, s, Stream(), e) && WindowOk()
      modifies `mode, `hold, `bits, `next, `used, `put, `left, `strayed, output
      ensures Regs() && Space() && Fresh(bits) && Avail() <= old(Avail()) && used + Stream() == old(used + Stream())
      ensures OnlyWrote(old(put)) && put <= old(put) + 258
      ensures mode == LEN || mode == TYPE || mode == BAD
      ensures ReachAt(lit, dist, mode, AtStart, Stream(), Out(), old(After(lit, dist, AtStart, s, Out())))
      ensures StraysIf(Distance(lit, dist, AtStart, s))
    {
      hide Live, Distance, Out, CopyBack, WindowOk, After, Stream, TableAt, Symbol, ToBits, Decoded, Fresh, Pow2, Get, ReachAt, LongCode,
           Tables;
      ghost var o := Out();
      FastLenOp(lit, dist, s, Stream(), o, e);
      if e.op == 0 {
        Emit(e.val);
        LiteralReach(lit, dist, Stream(), Out());
      } else if e.op / 16 % 2 == 1 {
        FastLength(e.val, e.op % 16, stray);
      } else if e.op / 32 % 2 == 1 {
        mode := TYPE;
        EndReach(lit, dist, Stream(), o);
      } else {
        mode := BAD;
        BadReach(lit, dist, Stream(), o);
      }
    }

    // inflate_fast(): whole elements, while 6 bytes of input and 258 of space
    // remain, then hand back the bytes not used.
    method InflateFast(stray: Byte) returns (ghost n: nat)
      requires Regs() && Space() && Tables() && Tight() && WindowOk() && mode == LEN
      requires next + 6 <= |input| && left >= 258
      modifies `mode, `hold, `bits, `next, `used, `put, `left, `strayed, output
      ensures Regs() && Space() && bits < 8 && used + Stream() == old(used + Stream()) && |Stream()| < |old(Stream())|
      ensures OnlyWrote(old(put)) && (mode == LEN || mode == TYPE || mode == BAD)
      ensures Ran(old(strayed), last, old(Stream()), old(Out()), n) && (mode == LEN ==> n > 0)
    {
      hide Rounds, Strays, Resume, Where, Out, WindowOk, Stream, Symbol, ToBits, Fresh, LongCode, Tables, Tight, Regs,
           Space, OnlyWrote;
      ReadyToTake();
      StreamLength();
      n := FastLoop(stray);
      ReturnBytes();
      StreamLength();
    }

    method FastLoop(stray: Byte) returns (ghost n: nat)
      requires Regs() && Space() && Tables() && WindowOk() && mode == LEN && next + 6 <= |input| && left >= 258
      requires Fresh(bits) || (Symbol(lit, ToBits(hold, bits)) == None && LongCode(lit))
      modifies `mode, `hold, `bits, `next, `used, `put, `left, `strayed, output
      ensures Regs() && Space() && Fresh(bits) && used + Stream() == old(used + Stream()) && Avail() < old(Avail())
      ensures OnlyWrote(old(put)) && (mode == LEN || mode == TYPE || mode == BAD)
      ensures Ran(old(strayed), last, old(Stream()), old(Out()), n) && (mode == LEN ==> n > 0)
    {
      hide Ran, Out, WindowOk, Stream, Symbol, ToBits, Fresh, LongCode, Tables, Regs, Space;
      ghost var s, o, was := Stream(), Out(), strayed;
      SeparateWindow();
      n := 0;
      RanNone(s, o);
      while true
        invariant Regs() && Space() && Tables() && WindowOk() && mode == LEN && next + 6 <= |input| && left >= 258
        invariant Fresh(bits) || (Symbol(lit, ToBits(hold, bits)) == None && LongCode(lit))
        invariant used + Stream() == old(used + Stream()) && Ran(was, last, s, o, n)
        invariant OnlyWrote(old(put)) && Avail() <= old(Avail())
        decreases Avail()
      {
        n := FastTurn(stray, was, s, o, n);
        if mode != LEN || next + 6 > |input| || left < 258 { break; }
      }
    }

    lemma RanNone(s: seq<bool>, o: seq<Byte>)
      requires mode == LEN && s == Stream() && o == Out()
      ensures Ran(strayed, last, s, o, 0)
    {
      hide Rounds, Strays, Resume, Where, Out, Stream;
      RoundsNone(lit, dist, s, o);
      StraysNone(lit, dist, s, o, |hist| + 1);
    }

    // One turn of the loop, after n0 elements.
    method FastTurn(stray: Byte, ghost was: bool, ghost s: seq<bool>, ghost o: seq<Byte>, ghost n0: nat) returns (ghost n: nat)
      requires Regs() && Space() && Tables() && mode == LEN && Avail() >= 48 && left >= 258 && WindowOk()
      requires Fresh(bits) || (Symbol(lit, ToBits(hold, bits)) == None && LongCode(lit))
      requires Ran(was, last, s, o, n0)
      modifies `mode, `hold, `bits, `next, `used, `put, `left, `strayed, output
      ensures Regs() && Space() && Fresh(bits) && Avail() < old(Avail()) && used + Stream() == old(used + Stream())
      ensures OnlyWrote(old(put)) && (mode == LEN || mode == TYPE || mode == BAD)
      ensures Ran(was, last, s, o, n) && n == if mode == LEN then n0 + 1 else n0
    {
      hide Distance, Strays, Resume, Where, Out, WindowOk, After, Stream, Symbol, ToBits, Fresh, ReachAt, LongCode, Tables,
           Rounds, Regs;
      ghost var s1, o1 := Stream(), Out();
      StreamLength();
      MadeSoFar();
      FastElement(stray);
      StrayStep(lit, dist, last, mode, s, o, s1, o1, Stream(), Out(), n0, |hist| + 1);
      RoundsMore(lit, dist, mode, s, o, s1, o1, Stream(), Out(), n0);
      n := if mode == LEN then n0 + 1 else n0;
    }

    // n elements from (s, o) on have led here, and whether one of them strayed
    // or one to come will; was says whether a read had gone outside before.
    ghost predicate Ran(was: bool, last: bool, s: seq<bool>, o: seq<Byte>, n: nat)
      reads this, output
    {
      var k := |hist| + 1;
      && Rounds(lit, dist, mode, s, o, Stream(), Out(), n)
      && (strayed <==> was || (Strays(lit, dist, s, o, n, k) && (base + start) % 2 == 1))
      && (Strays(lit, dist, s, o, n, k) ==> put + left - start >= 259)
      && (k in Resume(lit, dist, last, Where(LEN, s, o)).spots <==>
          Strays(lit, dist, s, o, n, k) || k in Resume(lit, dist, last, Where(mode, Stream(), Out())).spots)
    }

    lemma MadeSoFar()
      requires Space()
      ensures |Out()| == |hist| + put - start
    {
    }

    lemma StreamLength()
      requires Regs()
      ensures |Stream()| == Avail()
    {
    }

    lemma SeparateWindow()
      requires WindowOk()
      ensures window != output
    {
    }

    lemma ReadyToTake()
      requires Regs() && Tight() && mode == LEN
      ensures Fresh(bits) || (Symbol(lit, ToBits(hold, bits)) == None && LongCode(lit))
    {
      hide Symbol, ToBits, Backed;
      if bits < 8 { BackedNone(hold, bits, input, next, bits); }
    }

    // len = bits >> 3; in -= len; bits -= len << 3; hold &= (1U << bits) - 1;
    method ReturnBytes()
      requires Regs() && Fresh(bits)
      modifies `hold, `bits, `next
      ensures Regs() && Stream() == old(Stream()) && Avail() == old(Avail()) && bits < 8
    {
      hide ToBits, Pow2, FromBytes, Unread, Low;
      GiveBack(hold, bits, input, next);
      var len := bits / 8;
      next := next - len;
      bits := bits - 8 * len;
      hold := Low(hold, bits);
    }

    // Every pass of the switch uses input, fills space or falls to a later case.
    twostate predicate Advanced()
      reads `hold, `bits, `next, `input, `left, `mode
    {
      || |Stream()| < |old(Stream())|
      || (|Stream()| == |old(Stream())| && (left < old(left) || (left == old(left) && Turn(mode) < Turn(old(mode)))))
    }

    // ---- the slow way through the same elements ----

    // One pass of the switch of inflate() inside a compressed block, when
    // inflate_fast does not apply.
    method StepElement() returns (leave: bool)
      requires ElementOk() && Tables() && Tight() && WindowOk() && InFlight()
      modifies `mode, `hold, `bits, `next, `used, `length, `offset, `extra, `put, `left, output
      ensures ElementOk() && Tight() && used + Stream() == old(used + Stream()) && OnlyWrote(old(put))
      ensures put + left == old(put) + old(left)
      ensures leave ==> mode == old(mode) && Stream() == old(Stream()) && Out() == old(Out()) && Pend() == old(Pend())
      ensures leave ==> if mode == LIT || mode == MATCH then left == 0 else Starved()
      ensures !leave ==> (InFlight() || mode == TYPE || mode == BAD) && Reaches(old(Element()))
      ensures !leave ==> Advanced() && (mode == LEN ==> bits < 8)
    {
      hide Out, WindowOk, Stream, Tables, ElementOk, Tight, Reaches, Element, Starved, PendOf;
      match mode
      case LEN => leave := StepLen();
      case LENEXT => leave := StepLenExt();
      case DIST => leave := StepDist();
      case DISTEXT => leave := StepDistExt();
      case MATCH => leave := StepMatch();
      case LIT => leave := StepLit();
    }

    // One element by the slow cases LEN to MATCH.
    method SlowRound() returns (leave: bool)
      requires ElementOk() && Tables() && Tight() && WindowOk() && mode == LEN
      modifies `mode, `hold, `bits, `next, `used, `length, `offset, `extra, `put, `left, output
      ensures ElementOk() && Tight() && used + Stream() == old(used + Stream()) && OnlyWrote(old(put))
      ensures leave ==> next == |input| || left == 0
      ensures !leave ==> mode == LEN || mode == TYPE || mode == BAD
      ensures !leave ==> ReachAt(lit, dist, mode, AtStart, Stream(), Out(), old(After(lit, dist, AtStart, Stream(), Out())))
    {
      hide ReachAt, Out, WindowOk, Stream, Tables, ElementOk, Tight, PendOf, After, Reaches, Element, Fields, Turn;
      ghost var a := After(lit, dist, AtStart, Stream(), Out());
      SeparateWindow();
      AtElement();
      leave := StepToward(a);
      while !leave && mode != LEN && mode != TYPE && mode != BAD
        invariant ElementOk() && Tables() && Tight() && WindowOk()
        invariant used + Stream() == old(used + Stream()) && OnlyWrote(old(put))
        invariant if leave then next == |input| || left == 0 else (InFlight() || mode == TYPE || mode == BAD) && Reaches(a)
        decreases !leave, |Stream()|, left, Turn(mode)
      {
        StillReaches(a);
        leave := StepToward(a);
      }
      if !leave { Arrived(a); }
    }

    lemma AtElement()
      requires mode == LEN
      ensures Element() == After(lit, dist, AtStart, Stream(), Out())
    {
      hide After, Stream, Out;
    }

    // One pass, towards where the element leads.
    method StepToward(ghost a: Point) returns (leave: bool)
      requires ElementOk() && Tables() && Tight() && WindowOk() && InFlight() && Element() == a
      modifies `mode, `hold, `bits, `next, `used, `length, `offset, `extra, `put, `left, output
      ensures ElementOk() && Tight() && used + Stream() == old(used + Stream()) && OnlyWrote(old(put))
      ensures leave ==> next == |input| || left == 0
      ensures !leave ==> (InFlight() || mode == TYPE || mode == BAD) && Reaches(a) && Advanced()
    {
      hide Out, WindowOk, Stream, Tables, ElementOk, Tight, Reaches, Element, After, PendOf;
      leave := StepElement();
    }

    lemma StillReaches(a: Point)
      requires Reaches(a) && mode != LEN && mode != TYPE && mode != BAD
      ensures Element() == a
    {
      hide After;
    }

    lemma Arrived(a: Point)
      requires Reaches(a) && (mode == LEN || mode == TYPE || mode == BAD)
      ensures ReachAt(lit, dist, mode, AtStart, Stream(), Out(), a)
    {
      hide After;
    }

    // Up to m elements by the slow cases.
    method SlowRounds(m: nat) returns (leave: bool, ghost n: nat)
      requires ElementOk() && Tables() && Tight() && WindowOk() && mode == LEN
      modifies `mode, `hold, `bits, `next, `used, `length, `offset, `extra, `put, `left, output
      ensures ElementOk() && Tight() && used + Stream() == old(used + Stream()) && OnlyWrote(old(put)) && n <= m
      ensures leave ==> next == |input| || left == 0
      ensures !leave ==> mode == TYPE || mode == BAD || (mode == LEN && n == m)
      ensures !leave ==> Rounds(lit, dist, mode, old(Stream()), old(Out()), Stream(), Out(), n)
    {
      hide Out, WindowOk, Stream, Tables, ElementOk, Tight, After, ReachAt, Rounds;
      ghost var s, o := Stream(), Out();
      n, leave := 0, false;
      RoundsNone(lit, dist, s, o);
      SeparateWindow();
      for i := 0 to m
        invariant ElementOk() && Tables() && Tight() && WindowOk() && mode == LEN && n == i
        invariant used + Stream() == old(used + Stream()) && OnlyWrote(old(put))
        invariant Rounds(lit, dist, LEN, s, o, Stream(), Out(), n)
      {
        ghost var s1, o1 := Stream(), Out();
        leave := SlowRound();
        if leave { return; }
        RoundsMore(lit, dist, mode, s, o, s1, o1, Stream(), Out(), n);
        if mode != LEN { return; }
        n := n + 1;
      }
      leave := false;
    }

    // ---- blocks ----

    // Where the decoder stands, in terms of the reference.
    ghost function Here(): Config
      reads `mode, `last, `length, `offset, `extra, `nlen, `ndist, `ncode, `have, `cl, `lit, `dist, lens
    {
      match mode
      case HEAD | TYPE | TYPEDO => InBlocks(last)
      case STORED => InStoredHeader(last)
      case COPY => InStored(length, last)
      case TABLE => InDynamic(last)
      case LENLENS => InCodeLens(Header(nlen, ndist, ncode), Sent(lens[..], have), last)
      case CODELENS => InLengths(Header(nlen, ndist, ncode), cl, Prefix(lens[..], have), last)
      case CHECK | DONE => Finished
      case BAD => Failed
      case _ => InElement(lit, dist, last, Pend())
    }

    // What the reference makes of the rest.
    ghost function Future(): View
      reads `mode, `last, `length, `offset, `extra, `nlen, `ndist, `ncode, `have, `cl, `lit, `dist, `hold, `bits,
            `next, `input, `start, `put, `left, `output, `hist, lens, output
    {
      Rest(Here(), Stream(), Out())
    }

    // No input left, and the reference needs more than the bits held.
    ghost predicate Stuck()
      reads `mode, `last, `length, `offset, `extra, `nlen, `ndist, `ncode, `have, `cl, `lit, `dist, `hold, `bits,
            `next, `input, `start, `put, `left, `output, `hist, lens, output
    {
      next == |input| && Rest(Here(), ToBits(hold, bits), Out()) == Waits(Here(), ToBits(hold, bits), Out())
    }

    ghost predicate FixedTables()
      reads fixedCodes
    {
      && TableAt(fixedCodes, 0, fixLenTab, 9, LENS, FixedLit())
      && TableAt(fixedCodes, fixAt, fixDistTab, 5, DISTS, FixedDist())
    }

    // BYTEBITS
    method ByteBits()
      requires Regs()
      modifies `hold, `bits, `used
      ensures Regs() && bits == old(bits) - old(bits) % 8 && bits % 8 == 0
      ensures Stream() == Align(old(Stream())) && used + Stream() == old(used + Stream())
    {
      hide Stream, Align, Get;
      AlignDrops();
      DropBits(bits % 8);
    }

    lemma AlignDrops()
      requires Regs()
      ensures bits % 8 <= |Stream()| && Align(Stream()) == Stream()[bits % 8..]
    {
      hide ToBits, FromBytes;
      assert |Stream()| % 8 == bits % 8;
    }

    // fixedtables()
    method UseFixedTables()
      requires FixedTables()
      modifies `fixed, `lencode, `distcode, `lenbits, `distbits, `lit, `dist, `lenTab, `distTab
      ensures Tables() && lit == FixedLit() && dist == FixedDist()
    {
      hide FixedLit, FixedDist, TableAt;
      fixed := true;
      lencode, lenbits, distcode, distbits := 0, 9, fixAt, 5;
      lit, dist, lenTab, distTab := FixedLit(), FixedDist(), fixLenTab, fixDistTab;
    }

    // case TYPEDO
    method StepType() returns (leave: bool)
      requires Regs() && bits < 8 && (mode == TYPE || mode == TYPEDO) && FixedTables()
      modifies `mode, `last, `hold, `bits, `next, `used, `fixed, `lencode, `distcode, `lenbits, `distbits,
               `lit, `dist, `lenTab, `distTab
      ensures Regs() && bits < 8 && used + Stream() == old(used + Stream())
      ensures Future() == old(Future())
      ensures leave ==> mode == old(mode) && Stuck() && Stream() == old(Stream())
      ensures !leave ==> (mode == CHECK && |Stream()| <= |old(Stream())|) ||
                         ((mode == STORED || mode == TABLE || mode == LEN || mode == BAD) && |Stream()| < |old(Stream())|)
      ensures mode == LEN ==> Tables()
    {
      hide ToBits, Unread, Stream, Out, Rest, Here, Tables, FixedTables, Future, Stuck;
      HereInBlocks();
      FutureHere();
      if last {
        EndBlocks();
        FutureHere();
        return false;
      }
      leave := StartBlock();
      FutureHere();
      if leave {
        HereInBlocks();
        BlockStuck();
      }
    }

    lemma FutureHere()
      ensures Future() == Rest(Here(), Stream(), Out())
    {
      hide Rest, Here;
    }

    lemma BlockStuck()
      requires mode == TYPE || mode == TYPEDO
      requires !last && bits < 3 && next == |input|
      ensures Stuck()
    {
      hide Rest, ToBits;
      BlockHeaderShort(ToBits(hold, bits), Out());
    }

    method StartBlock() returns (leave: bool)
      requires Regs() && bits < 8 && !last && (mode == TYPE || mode == TYPEDO) && FixedTables()
      modifies `mode, `last, `hold, `bits, `next, `used, `fixed, `lencode, `distcode, `lenbits, `distbits,
               `lit, `dist, `lenTab, `distTab
      ensures Regs() && bits < 8 && used + Stream() == old(used + Stream())
      ensures forall o: seq<Byte> :: Rest(Here(), Stream(), o) == old(Rest(InBlocks(false), Stream(), o))
      ensures leave ==> mode == old(mode) && last == old(last) && bits < 3 && next == |input| && Stream() == old(Stream())
      ensures !leave ==> (mode == STORED || mode == TABLE || mode == LEN || mode == BAD) && |Stream()| < |old(Stream())|
      ensures mode == LEN ==> Tables()
    {
      hide ToBits, Unread, Stream, Rest, BlockOf, Here, Tables, FixedTables;
      HereInBlocks();
      var ok := NeedBits(3);
      if !ok { return true; }
      var kind := ReadBlockType();
      SetBlockType(kind);
      leave := false;
    }

    method EndBlocks()
      requires Regs() && bits < 8
      modifies `mode, `hold, `bits, `used
      ensures Regs() && bits == 0 && used + Stream() == old(used + Stream()) && |Stream()| <= |old(Stream())|
      ensures mode == CHECK && Rest(Here(), Stream(), Out()) == old(Rest(InBlocks(true), Stream(), Out()))
    {
      hide Stream, Out, Rest, Here, Align;
      LastBlock(Stream(), Out());
      ByteBits();
      mode := CHECK;
      HereFinished();
    }

    lemma HereFinished()
      requires mode == CHECK || mode == DONE
      ensures Here() == Finished
    {
    }

    method ReadBlockType() returns (kind: nat)
      requires Regs() && bits >= 3
      modifies `last, `hold, `bits, `used
      ensures Regs() && bits == old(bits) - 3 && used + Stream() == old(used + Stream()) && |Stream()| < |old(Stream())|
      ensures forall o: seq<Byte> :: Rest(InBlocks(false), old(Stream()), o) == Rest(BlockOf(kind, last), Stream(), o)
    {
      hide ToBits, Pow2, Shr, Low, Stream, Get, Rest, BlockOf;
      ghost var s := Stream();
      StreamLength();
      forall o: seq<Byte> { BlockHeader(s, o); }
      last := Low(hold, 1) == 1;
      DropBits(1);
      kind := Low(hold, 2);
      DropBits(2);
    }

    lemma HereInBlocks()
      requires mode == TYPE || mode == TYPEDO || mode == HEAD
      ensures Here() == InBlocks(last)
    {
    }

    method SetBlockType(kind: nat)
      requires FixedTables()
      modifies `mode, `fixed, `lencode, `distcode, `lenbits, `distbits, `lit, `dist, `lenTab, `distTab
      ensures mode == STORED || mode == TABLE || mode == LEN || mode == BAD
      ensures mode == LEN ==> Tables()
      ensures Here() == BlockOf(kind, last)
    {
      hide FixedLit, FixedDist, Tables, FixedTables;
      if kind == 0 {
        mode := STORED;
      } else if kind == 1 {
        UseFixedTables();
        mode := LEN;
      } else if kind == 2 {
        mode := TABLE;
      } else {
        mode := BAD;
      }
    }

    // case STORED
    method StepStored() returns (leave: bool)
      requires Regs() && mode == STORED
      modifies `mode, `hold, `bits, `next, `used, `length
      ensures Regs() && used + Stream() == old(used + Stream()) && |Stream()| <= |old(Stream())|
      ensures Future() == old(Future())
      ensures leave ==> mode == STORED && Stuck()
      ensures !leave ==> mode == BAD || (mode == COPY && bits == 0 && |Stream()| < |old(Stream())|)
    {
      hide ToBits, Pow2, Unread, Shr, Low, Stream, Out, Get, Rest, Align, Here;
      HereStored();
      StoredAligned(last, Stream(), Out());
      ByteBits();
      var ok := NeedBits(32);
      if !ok {
        StoredAligned(last, ToBits(hold, bits), Out());
        HeldAligned();
        return true;
      }
      TakeStoredLength();
      leave := false;
    }

    lemma HeldAligned()
      requires bits % 8 == 0
      ensures Align(ToBits(hold, bits)) == ToBits(hold, bits)
    {
      hide ToBits;
    }

    lemma HereStored()
      requires mode == STORED
      ensures Here() == InStoredHeader(last)
    {
    }

    method TakeStoredLength()
      requires Regs() && bits == 32
      modifies `mode, `hold, `bits, `used, `length
      ensures Regs() && used + Stream() == old(used + Stream()) && |Stream()| <= |old(Stream())|
      ensures mode == BAD || (mode == COPY && bits == 0 && |Stream()| < |old(Stream())|)
      ensures forall o: seq<Byte> :: Rest(InStoredHeader(last), old(Stream()), o) == Rest(Here(), Stream(), o)
    {
      hide ToBits, Pow2, Shr, Low, Get, Rest, FromBytes, Unread;
      ghost var s := Stream();
      HeldHalves(hold, input, next);
      forall o: seq<Byte> { StoredLengths(last, s, o); }
      if Low(hold, 16) != 0xffff - Shr(hold, 16) {
        mode := BAD;
        forall o: seq<Byte> { RestFailed(s, o); }
        return;
      }
      length := Low(hold, 16);
      used := used + s[..32];
      hold, bits := 0, 0;
      assert s[..32] + s[32..] == s;
      mode := COPY;
    }

    // case COPY
    method StepCopy() returns (leave: bool)
      requires Regs() && Space() && bits == 0 && mode == COPY
      modifies `mode, `next, `used, `length, `put, `left, output
      ensures Regs() && Space() && used + Stream() == old(used + Stream()) && OnlyWrote(old(put))
      ensures Future() == old(Future())
      ensures leave ==> mode == COPY && length > 0 && (left == 0 || Stuck()) && Stream() == old(Stream())
      ensures !leave ==> (mode == COPY && |Stream()| < |old(Stream())|) || (mode == TYPE && Stream() == old(Stream()))
    {
      hide ToBits, FromBytes, Unread, Stream, Out, Rest, Here;
      HereCopy();
      StoredEnd(last, Stream(), Out());
      var copy := length;
      if copy == 0 {
        mode := TYPE;
        HereInBlocks();
        return false;
      }
      if copy > |input| - next { copy := |input| - next; }
      if copy > left { copy := left; }
      if copy == 0 {
        NothingHeld(hold);
        StoredEnd(last, [], Out());
        return true;
      }
      CopyStored(copy);
      HereCopy();
      leave := false;
    }

    lemma NothingHeld(h: nat)
      ensures ToBits(h, 0) == []
    {
    }

    lemma HereCopy()
      requires mode == COPY
      ensures Here() == InStored(length, last)
    {
    }

    // zmemcpy(put, next, copy) and its book-keeping
    method CopyStored(copy: nat)
      requires Regs() && Space() && bits == 0 && 0 < copy <= left && next + copy <= |input| && copy <= length
      modifies `next, `used, `length, `put, `left, output
      ensures Regs() && Space() && used + Stream() == old(used + Stream()) && OnlyWrote(old(put))
      ensures |Stream()| < |old(Stream())|
      ensures Rest(InStored(length, last), Stream(), Out()) == old(Rest(InStored(length, last), Stream(), Out()))
    {
      hide ToBits, FromBytes, Unread, Out, Rest;
      ghost var b := input[next..next + copy];
      StreamLength();
      BytesFront(hold, input, next, copy);
      StoredCopy(length, last, b, Unread(hold, 0, input, next + copy), Out());
      CopyInput(copy);
      assert used + (FromBytes(b) + Unread(hold, 0, input, next + copy)) ==
             (used + FromBytes(b)) + Unread(hold, 0, input, next + copy);
      used := used + FromBytes(b);
      next := next + copy;
      length := length - copy;
      StreamLength();
    }

    method CopyInput(copy: nat)
      requires Space() && copy <= left && next + copy <= |input|
      modifies `put, `left, output
      ensures Space() && put == old(put) + copy && OnlyWrote(old(put))
      ensures Out() == old(Out()) + input[next..next + copy]
    {
      hide Out;
      assert input[next..next] == [] && old(Out()) + [] == old(Out());
      for i := 0 to copy
        invariant Space() && put == old(put) + i && OnlyWrote(old(put))
        invariant Out() == old(Out()) + input[next..next + i]
      {
        Emit(input[next + i]);
        assert old(Out()) + input[next..next + i] + [input[next + i]] == old(Out()) + input[next..next + (i + 1)];
      }
    }

    // ---- dynamic blocks: the code lengths ----

    ghost predicate Counts()
      reads `nlen, `ndist, `ncode
    {
      257 <= nlen <= 286 && 1 <= ndist <= 30 && 4 <= ncode <= 19
    }

    // case TABLE
    method StepTable() returns (leave: bool)
      requires Regs() && mode == TABLE && bits < 14
      modifies `mode, `hold, `bits, `next, `used, `nlen, `ndist, `ncode, `have
      ensures Regs() && used + Stream() == old(used + Stream())
      ensures Future() == old(Future())
      ensures leave ==> mode == TABLE && Stuck() && bits < 14 && Stream() == old(Stream())
      ensures !leave ==> (mode == BAD || (mode == LENLENS && Counts() && have == 0)) && bits < 8 && |Stream()| < |old(Stream())|
    {
      hide ToBits, Pow2, Unread, Shr, Low, Stream, Out, Get, Rest, Here;
      HereTable();
      var ok := NeedBits(14);
      if !ok {
        DynamicShort(last, ToBits(hold, bits), Out());
        return true;
      }
      TakeCounts();
      leave := false;
    }

    lemma HereTable()
      requires mode == TABLE
      ensures Here() == InDynamic(last)
    {
    }

    method TakeCounts()
      requires Regs() && bits >= 14
      modifies `mode, `hold, `bits, `used, `nlen, `ndist, `ncode, `have
      ensures Regs() && used + Stream() == old(used + Stream()) && bits == old(bits) - 14 && |Stream()| < |old(Stream())|
      ensures mode == BAD || (mode == LENLENS && Counts() && have == 0)
      ensures forall o: seq<Byte> :: Rest(InDynamic(last), old(Stream()), o) == Rest(Here(), Stream(), o)
    {
      hide ToBits, Pow2, Shr, Low, Get, Rest, Stream;
      ReadCounts();
      have := 0;
      if nlen > 286 || ndist > 30 {
        mode := BAD;
        forall o: seq<Byte> { RestFailed(Stream(), o); }
      } else {
        mode := LENLENS;
        SentNone(lens[..]);
      }
    }

    method ReadCounts()
      requires Regs() && bits >= 14
      modifies `hold, `bits, `used, `nlen, `ndist, `ncode
      ensures Regs() && used + Stream() == old(used + Stream()) && bits == old(bits) - 14 && |Stream()| < |old(Stream())|
      ensures 257 <= nlen && 1 <= ndist && 4 <= ncode <= 19
      ensures forall o: seq<Byte> :: old(Rest(InDynamic(last), Stream(), o)) ==
                if nlen > 286 || ndist > 30 then Failure(o) else Rest(InCodeLens(Header(nlen, ndist, ncode), [], last), Stream(), o)
    {
      hide ToBits, Get, Rest, Stream;
      ghost var s := Stream();
      StreamLength();
      var v := TakeBits(5);
      nlen := v + 257;
      ghost var s1 := Stream();
      v := TakeBits(5);
      ndist := v + 1;
      ghost var s2 := Stream();
      v := TakeBits(4);
      ncode := v + 4;
      forall o: seq<Byte> { DynamicCounts(last, s, s1, s2, Stream(), Header(nlen, ndist, ncode), o); }
    }

    // BITS(n); DROPBITS(n)
    method TakeBits(n: nat) returns (v: nat)
      requires Regs() && n <= bits
      modifies `hold, `bits, `used
      ensures Regs() && bits == old(bits) - n && used + Stream() == old(used + Stream())
      ensures |old(Stream())| >= n && v == Get(old(Stream()), n) && Stream() == old(Stream())[n..]
      ensures n == 3 ==> v <= 7
      ensures n == 4 ==> v <= 15
      ensures n == 5 ==> v <= 31
    {
      hide ToBits, Pow2, Shr, Low, Get, Stream;
      SmallLow(hold, n);
      v := Low(hold, n);
      DropBits(n);
    }

    ghost predicate CodeTable()
      reads `fixed, `lencode, `lenTab, `lenbits, `cl, codes
    {
      && !fixed && lencode == 0 && TableAt(codes, 0, lenTab, lenbits, CODES, cl)
      && |cl| == 19 && Usable(cl, false)
      && (forall i | 0 <= i < 19 :: cl[i] <= 7) && (Empty(cl) || forall i | 0 <= i < 19 :: cl[i] <= lenbits)
    }

    // The lengths received so far.
    ghost predicate LensSent()
      reads `have, lens
    {
      lens.Length == 320 && have <= 19 && forall i | 0 <= i < have :: lens[ORDER[i]] <= 7
    }

    // NEEDBITS(3); lens[order[have++]] = BITS(3); DROPBITS(3);
    method SendOne() returns (leave: bool)
      requires Regs() && bits < 8 && LensSent() && have < ncode <= 19
      modifies `hold, `bits, `next, `used, `have, lens
      ensures Regs() && bits < 8 && LensSent() && used + Stream() == old(used + Stream()) && |Stream()| <= |old(Stream())|
      ensures leave ==> bits < 3 && next == |input| && have == old(have)
      ensures !leave ==> have == old(have) + 1
      ensures forall o: seq<Byte> :: var h := Header(nlen, ndist, ncode);
                Rest(InCodeLens(h, Sent(lens[..], have), last), Stream(), o) ==
                old(Rest(InCodeLens(h, Sent(lens[..], have), last), Stream(), o))
    {
      hide ToBits, Pow2, Shr, Low, Get, Rest, Stream, Sent;
      var ok := NeedBits(3);
      if !ok { return true; }
      ghost var h, got, s := Header(nlen, ndist, ncode), Sent(lens[..], have), Stream();
      StreamLength();
      SentLength(lens[..], have);
      forall o: seq<Byte> { CodeLensStep(h, got, last, s, o); }
      SmallLow(hold, 3);
      StoreSent(Low(hold, 3));
      DropBits(3);
      leave := false;
    }

    method StoreSent(v: nat)
      requires LensSent() && have < 19 && v <= 7
      modifies `have, lens
      ensures LensSent() && have == old(have) + 1 && Sent(lens[..], have) == old(Sent(lens[..], have)) + [v]
    {
      hide Sent;
      SentStore(lens[..], have, v);
      ghost var l := lens[..];
      lens[ORDER[have]] := v;
      assert lens[..] == l[ORDER[have] := v];
      have := have + 1;
    }

    ghost predicate Buffers()
    {
      lens.Length == 320 && work.Length == 288 && lens != work && codes.Length == ENOUGH && codes != fixedCodes
    }

    // case LENLENS
    method StepLenLens() returns (leave: bool)
      requires Regs() && mode == LENLENS && bits < 8 && Counts() && LensSent() && have <= ncode && Buffers()
      modifies `mode, `hold, `bits, `next, `used, `have, `fixed, `lencode, `lenTab, `lenbits, `cl, lens, work, codes
      ensures Regs() && bits < 8 && used + Stream() == old(used + Stream()) && |Stream()| <= |old(Stream())|
      ensures Future() == old(Future())
      ensures leave ==> mode == LENLENS && LensSent() && have < ncode && Stuck()
      ensures !leave ==> mode == BAD || (mode == CODELENS && CodeTable() && have == 0)
    {
      hide ToBits, Pow2, Unread, Shr, Low, Stream, Out, Get, Rest, Here, CodeTable, Sent, LensSent;
      HereLenLens();
      leave := SendLengths();
      if leave {
        HereLenLens();
        StillSending();
        return;
      }
      FinishLenLens();
    }

    lemma StillSending()
      requires LensSent() && have < ncode && bits < 3
      ensures Rest(InCodeLens(Header(nlen, ndist, ncode), Sent(lens[..], have), last), ToBits(hold, bits), Out()) ==
              Waits(InCodeLens(Header(nlen, ndist, ncode), Sent(lens[..], have), last), ToBits(hold, bits), Out())
    {
      hide Rest, Sent, ToBits;
      SentLength(lens[..], have);
      CodeLensStep(Header(nlen, ndist, ncode), Sent(lens[..], have), last, ToBits(hold, bits), Out());
    }

    method SendLengths() returns (leave: bool)
      requires Regs() && bits < 8 && LensSent() && have <= ncode <= 19
      modifies `hold, `bits, `next, `used, `have, lens
      ensures Regs() && bits < 8 && LensSent() && used + Stream() == old(used + Stream()) && |Stream()| <= |old(Stream())|
      ensures leave ==> bits < 3 && next == |input| && have < ncode
      ensures !leave ==> have == ncode
      ensures forall o: seq<Byte> :: var h := Header(nlen, ndist, ncode);
                Rest(InCodeLens(h, Sent(lens[..], have), last), Stream(), o) ==
                old(Rest(InCodeLens(h, Sent(lens[..], have), last), Stream(), o))
    {
      hide ToBits, Stream, Rest, Sent, LensSent;
      leave := false;
      while have < ncode && !leave
        invariant Regs() && bits < 8 && used + Stream() == old(used + Stream()) && |Stream()| <= |old(Stream())|
        invariant LensSent() && have <= ncode && (leave ==> bits < 3 && next == |input| && have < ncode)
        invariant forall o: seq<Byte> :: var h := Header(nlen, ndist, ncode);
                    Rest(InCodeLens(h, Sent(lens[..], have), last), Stream(), o) ==
                    old(Rest(InCodeLens(h, Sent(lens[..], have), last), Stream(), o))
        decreases ncode - have, !leave
      {
        leave := SendOne();
      }
    }

    method FinishLenLens()
      requires Regs() && LensSent() && have == ncode && Buffers()
      modifies `mode, `have, `fixed, `lencode, `lenTab, `lenbits, `cl, lens, work, codes
      ensures mode == BAD || (mode == CODELENS && CodeTable() && have == 0)
      ensures Rest(Here(), Stream(), Out()) ==
              old(Rest(InCodeLens(Header(nlen, ndist, ncode), Sent(lens[..], have), last), Stream(), Out()))
    {
      hide ToBits, Stream, Out, Rest, Here, CodeTable, Sent, Regs, Usable, Unordered, ValidLens;
      SentLength(lens[..], have);
      CodeLensEnd(Header(nlen, ndist, ncode), Sent(lens[..], have), last, Stream(), Out());
      ZeroRest();
      BuildCodeTable();
      HereCodeLens();
      RestFailed(Stream(), Out());
    }

    lemma HereLenLens()
      requires mode == LENLENS
      ensures Here() == InCodeLens(Header(nlen, ndist, ncode), Sent(lens[..], have), last)
    {
    }

    lemma HereCodeLens()
      ensures mode == CODELENS && have == 0 ==> Here() == InLengths(Header(nlen, ndist, ncode), cl, [], last)
      ensures mode == BAD ==> Here() == Failed
    {
      hide Sent;
    }

    // while (have < 19) lens[order[have++]] = 0;
    method ZeroRest()
      requires LensSent()
      modifies `have, lens
      ensures have == 19 && lens[..19] == Unordered(old(Sent(lens[..], have))) && ValidLens(lens[..19])
      ensures forall i | 0 <= i < 19 :: lens[i] <= 7
    {
      hide Unordered, Sent;
      ghost var n, got := have, Sent(lens[..], have);
      SentAre(lens[..], have);
      while have < 19
        invariant n <= have <= 19 && lens.Length == 320
        invariant forall k | 0 <= k < have :: lens[ORDER[k]] == if k < n then got[k] else 0
      {
        ZeroOne(n, got);
      }
      UnorderedStored(got, lens[..19]);
      forall i | 0 <= i < 19
        ensures lens[i] <= 7
      {
        InAnyOrder(lens[..], got, n, i);
      }
    }

    method ZeroOne(ghost n: nat, ghost got: seq<nat>)
      requires n == |got| <= have < 19 && lens.Length == 320
      requires forall k | 0 <= k < have :: lens[ORDER[k]] == if k < n then got[k] else 0
      modifies `have, lens
      ensures have == old(have) + 1 && n <= have <= 19
      ensures forall k | 0 <= k < have :: lens[ORDER[k]] == if k < n then got[k] else 0
    {
      hide Sent;
      SentStore(lens[..], have, 0);
      lens[ORDER[have]] := 0;
      have := have + 1;
    }

    lemma InAnyOrder(l: seq<nat>, got: seq<nat>, n: nat, i: nat)
      requires i < 19 <= |l| && n <= |got| && (forall k | 0 <= k < n :: got[k] <= 7)
      requires forall k | 0 <= k < 19 :: l[ORDER[k]] == if k < n then got[k] else 0
      ensures l[i] <= 7
    {
      OrderPlaces(i);
    }

    method BuildCodeTable()
      requires Buffers() && forall i | 0 <= i < 19 :: lens[i] <= 7
      modifies `mode, `have, `fixed, `lencode, `lenTab, `lenbits, `cl, work, codes
      ensures if Usable(lens[..19], false) then mode == CODELENS && have == 0 && CodeTable() && cl == lens[..19]
              else mode == BAD
    {
      hide Usable, Decodes, Empty;
      TableSpaces();
      fixed, lencode := false, 0;
      var ret, t1;
      ret, t1, lenbits := InflateTable(CODES, lens, 0, 19, codes, 0, 7, work);
      assert lens[0..0 + 19] == lens[..19];
      if ret != 0 {
        mode := BAD;
        return;
      }
      cl, lenTab := lens[..19], codes[0..t1];
      have := 0;
      mode := CODELENS;
    }

    // ---- case CODELENS ----

    // Lengths so far.
    ghost predicate LensOk()
      reads `have, `nlen, `ndist, `ncode, `cl, lens
    {
      && lens.Length == 320 && Counts() && have <= nlen + ndist
      && (forall i | 0 <= i < have :: lens[i] <= MAXBITS)
    }

    ghost predicate ItemTight()
      reads `hold, `bits, `cl
    {
      bits < 8 || (ItemShort(cl, ToBits(hold, bits)) && !Empty(cl) && bits < 14)
    }

    ghost function ItemsRest(o: seq<Byte>): View
      reads `nlen, `ndist, `ncode, `cl, `have, `last, `hold, `bits, `next, `input, lens
    {
      Rest(InLengths(Header(nlen, ndist, ncode), cl, Prefix(lens[..], have), last), Stream(), o)
    }

    // e is the symbol at the front of the stream.
    ghost predicate ItemSymbol(e: Code)
      reads `hold, `bits, `next, `input, `cl
    {
      if Empty(cl) then e == INVALID
      else
        var r := Symbol(cl, Stream());
        r.Some? && e.val == r.value < 19 && e.bits == cl[r.value]
    }

    method LookupItem() returns (ok: bool, e: Code)
      requires Regs() && CodeTable() && ItemTight()
      modifies `hold, `bits, `next
      ensures Regs() && Stream() == old(Stream()) && next >= old(next)
      ensures !ok ==> next == |input| && ItemTight() && ItemShort(cl, ToBits(hold, bits))
      ensures ok ==> 1 <= e.bits <= bits && e.bits <= 7 && ItemSymbol(e) && bits < e.bits + ItemExtra(e.val) + 8
      ensures ok && e.val >= 16 ==> !Empty(cl)
    {
      hide ToBits, Pow2, FromBytes, Unread, Decodes, Shr, Low, Finds, Symbol, Meaning, Stream, Settled, Usable, Empty;
      ghost var d;
      ok, e, d := FirstLevel(codes, lencode, lenbits, lenTab, CODES, cl);
      SettleSymbol(lenTab, lenbits, CODES, cl, d);
      CodesFound(lenTab, lenbits, cl, hold, d);
      ItemSettled(d);
    }

    lemma ItemSettled(d: Code)
      requires next <= |input| && Settled(CODES, cl, d) && |cl| == 19 && d.bits <= 7
      requires if Empty(cl) then d == INVALID else d.op == 0
      ensures bits < d.bits ==> ItemTight() && ItemShort(cl, ToBits(hold, bits))
      ensures d.bits <= bits ==> ItemSymbol(d)
      ensures d.bits <= bits && ItemTight() ==> bits < d.bits + ItemExtra(d.val) + 8
    {
      hide ToBits, Symbol, Stream, LongCode, Empty;
    }

    // The bits held are not the whole item.
    ghost predicate ItemStuck()
      reads `hold, `bits, `next, `input, `cl
    {
      next == |input| && ItemTight() && ItemShort(cl, ToBits(hold, bits))
    }

    // state->lens[state->have++] = this.val
    method TakeOne(e: Code)
      requires Regs() && ItemSymbol(e) && e.val < 16 && 1 <= e.bits <= bits && LensOk() && have < nlen + ndist
      modifies `hold, `bits, `used, `have, lens
      ensures Regs() && bits == old(bits) - e.bits && used + Stream() == old(used + Stream())
      ensures |Stream()| < |old(Stream())| && LensOk() && have == old(have) + 1
      ensures forall o: seq<Byte> :: ItemsRest(o) == old(ItemsRest(o))
    {
      hide ToBits, Pow2, Shr, Low, Get, Rest, Stream, Symbol;
      ghost var s, got := Stream(), lens[..have];
      StreamLength();
      if Empty(cl) { EmptyItem(cl, got, s); } else { ItemOf(cl, got, s); }
      DropBits(e.bits);
      lens[have] := e.val;
      have := have + 1;
      assert lens[..have] == got + [e.val];
      forall o: seq<Byte> { ItemAdds(Header(nlen, ndist, ncode), cl, got, last, s, Stream(), [e.val], o); }
    }

    // while (copy--) state->lens[state->have++] = len
    method RepeatLength(len: nat, copy: nat)
      requires LensOk() && len <= MAXBITS && !Empty(cl) && have + copy <= nlen + ndist
      modifies `have, lens
      ensures LensOk() && have == old(have) + copy
      ensures lens[..have] == old(lens[..have]) + Run(len, copy)
    {
      hide Empty;
      ghost var l, n := lens[..], have;
      for i := 0 to copy
        invariant LensOk() && have == n + i && lens[..n] == l[..n]
        invariant forall k | n <= k < have :: lens[k] == len
      {
        lens[have] := len;
        have := have + 1;
      }
    }

    // Symbols 16, 17 and 18, all their bits being held.
    method TakeRepeat(e: Code)
      requires Regs() && ItemSymbol(e) && !Empty(cl) && 16 <= e.val && mode == CODELENS
      requires 1 <= e.bits && e.bits + ItemExtra(e.val) <= bits && LensOk() && have < nlen + ndist
      modifies `mode, `hold, `bits, `used, `have, lens
      ensures Regs() && bits <= old(bits) && used + Stream() == old(used + Stream()) && |Stream()| < |old(Stream())|
      ensures mode == CODELENS || mode == BAD
      ensures mode == CODELENS ==> bits == old(bits) - e.bits - ItemExtra(e.val) && LensOk() && have > old(have)
      ensures forall o: seq<Byte> :: old(ItemsRest(o)) == if mode == BAD then Failure(o) else ItemsRest(o)
    {
      hide ToBits, Get, Rest, Stream, Symbol, Empty, LensOk, ItemsRest;
      ghost var s, got := Stream(), Prefix(lens[..], have);
      ghost var h := Header(nlen, ndist, ncode);
      forall o: seq<Byte> ensures ItemsRest(o) == Rest(InLengths(h, cl, got, last), s, o) { ItemsAre(o); }
      StreamLength();
      DropBits(e.bits);
      ghost var s1 := Stream();
      StreamLength();
      var ok, len, copy := ReadRepeat(e.val);
      StoreRepeat(e.val, ok, len, copy, got, s, s1);
      assert h == Header(nlen, ndist, ncode) && cl == old(cl) && last == old(last);
    }

    method StoreRepeat(val: nat, ok: bool, len: nat, copy: nat, ghost got: seq<nat>, ghost s: seq<bool>, ghost s1: seq<bool>)
      requires LensOk() && have < nlen + ndist && mode == CODELENS && 16 <= val < 19
      requires !Empty(cl) && Symbol(cl, s) == Some(val) && s1 == s[cl[val]..] && |s1| >= ItemExtra(val)
      requires got == Prefix(lens[..], have) && (ok <==> val != 16 || have > 0)
      requires ok ==> len == if val == 16 then lens[have - 1] else 0
      requires ok ==> copy == (if val <= 17 then 3 else 11) + Get(s1, ItemExtra(val)) && Stream() == s1[ItemExtra(val)..]
      modifies `mode, `have, lens
      ensures mode == CODELENS || mode == BAD
      ensures mode == CODELENS ==> ok && LensOk() && have > old(have)
      ensures forall o: seq<Byte> :: Rest(InLengths(Header(nlen, ndist, ncode), cl, got, last), s, o) ==
                                     if mode == BAD then Failure(o) else ItemsRest(o)
    {
      hide ToBits, Get, Rest, Stream, Symbol, Empty, LensOk, ReadItem, Run, ItemsRest;
      LensCount();
      ghost var h := Header(nlen, ndist, ncode);
      assert got == lens[..have];
      if !ok || have + copy > nlen + ndist {
        mode := BAD;
        forall o: seq<Byte> { RepeatRest(h, cl, got, last, s, val, if ok then len else 0, o); }
        return;
      }
      RepeatLength(len, copy);
      LensCount();
      assert Prefix(lens[..], have) == got + Run(len, copy);
      forall o: seq<Byte>
        ensures Rest(InLengths(h, cl, got, last), s, o) == ItemsRest(o)
      {
        RepeatRest(h, cl, got, last, s, val, len, o);
        ItemsAre(o);
      }
    }

    lemma ItemsAre(o: seq<Byte>)
      ensures ItemsRest(o) == Rest(InLengths(Header(nlen, ndist, ncode), cl, Prefix(lens[..], have), last), Stream(), o)
    {
    }

    method ReadRepeat(val: nat) returns (ok: bool, len: nat, copy: nat)
      requires Regs() && 16 <= val < 19 && ItemExtra(val) <= bits && LensOk()
      modifies `hold, `bits, `used
      ensures Regs() && used + Stream() == old(used + Stream()) && bits <= old(bits) && |Stream()| <= |old(Stream())|
      ensures ok <==> val != 16 || have > 0
      ensures ok ==> bits == old(bits) - ItemExtra(val) && len == if val == 16 then lens[have - 1] else 0
      ensures ok ==> |old(Stream())| >= ItemExtra(val) && Stream() == old(Stream())[ItemExtra(val)..]
      ensures ok ==> copy == (if val <= 17 then 3 else 11) + Get(old(Stream()), ItemExtra(val))
    {
      hide ToBits, Pow2, Shr, Low, Get, Stream, Empty;
      ok, len, copy := true, 0, 0;
      if val == 16 {
        if have == 0 { return false, 0, 0; }
        len := lens[have - 1];
        copy := 3 + Low(hold, 2);
        DropBits(2);
      } else if val == 17 {
        copy := 3 + Low(hold, 3);
        DropBits(3);
      } else {
        copy := 11 + Low(hold, 7);
        DropBits(7);
      }
    }

    // One turn of the loop of CODELENS.
    method StepItem() returns (leave: bool)
      requires Regs() && CodeTable() && ItemTight() && LensOk() && have < nlen + ndist && mode == CODELENS
      modifies `mode, `hold, `bits, `next, `used, `have, lens
      ensures Regs() && used + Stream() == old(used + Stream()) && |Stream()| <= |old(Stream())|
      ensures mode == CODELENS || mode == BAD
      ensures leave ==> mode == CODELENS && ItemStuck() && LensOk() && have == old(have)
      ensures !leave && mode == CODELENS ==> bits < 8 && LensOk() && have > old(have)
      ensures forall o: seq<Byte> :: old(ItemsRest(o)) == if mode == BAD then Failure(o) else ItemsRest(o)
    {
      hide ToBits, Pow2, Rest, Stream, Symbol, Empty, LensOk, CodeTable, Prefix, ItemShort, ItemSymbol, ItemTight;
      var ok, e := LookupItem();
      assert forall o: seq<Byte> :: ItemsRest(o) == old(ItemsRest(o));
      if !ok { return true; }
      leave := false;
      if e.val < 16 {
        TakeOne(e);
      } else {
        leave := NeedRepeat(e);
        assert forall o: seq<Byte> :: ItemsRest(o) == old(ItemsRest(o));
        if leave { return; }
        TakeRepeat(e);
      }
    }

    // NEEDBITS(this.bits + 2), 3 or 7
    method NeedRepeat(e: Code) returns (leave: bool)
      requires Regs() && CodeTable() && ItemSymbol(e) && !Empty(cl) && 1 <= e.bits <= 7
      requires bits < e.bits + ItemExtra(e.val) + 8
      modifies `hold, `bits, `next
      ensures Regs() && Stream() == old(Stream()) && ItemSymbol(e)
      ensures leave ==> ItemStuck()
      ensures !leave ==> e.bits + ItemExtra(e.val) <= bits < e.bits + ItemExtra(e.val) + 8
    {
      hide ToBits, Pow2, FromBytes, Unread, Empty, Usable, TableAt, Stream, Symbol, ItemShort;
      var ok := NeedBits(e.bits + ItemExtra(e.val));
      if !ok { HeldItem(e); }
      leave := !ok;
    }

    lemma HeldItem(e: Code)
      requires Regs() && CodeTable() && ItemSymbol(e) && !Empty(cl) && bits < e.bits + ItemExtra(e.val)
      ensures ItemShort(cl, ToBits(hold, bits))
    {
      hide ToBits, FromBytes, Usable, Empty, Symbol, Finds, Low, OverSubscribed;
      var held := ToBits(hold, bits);
      var r := Symbol(cl, held);
      if r.Some? {
        PrefixFree(cl, r.value, Symbol(cl, Stream()).value, Stream());
      }
    }

    // case CODELENS
    method StepCodeLens() returns (leave: bool)
      requires Regs() && mode == CODELENS && CodeTable() && ItemTight() && LensOk() && have < nlen + ndist && Buffers()
      modifies `mode, `hold, `bits, `next, `used, `have, `lencode, `lenbits, `distcode, `distbits,
               `lit, `dist, `lenTab, `distTab, lens, work, codes
      ensures Regs() && used + Stream() == old(used + Stream()) && |Stream()| <= |old(Stream())|
      ensures Future() == old(Future())
      ensures leave ==> mode == CODELENS && CodeTable() && ItemTight() && LensOk() && have < nlen + ndist && Stuck()
      ensures !leave ==> mode == BAD || (mode == LEN && Tables() && bits < 8)
    {
      hide ToBits, Pow2, Unread, Stream, Out, Rest, Here, CodeTable, LensOk, ItemTight, ItemsRest, ItemShort, Tables;
      HereItems();
      ghost var o := Out();
      leave := ReadLengths();
      assert Out() == o;
      if leave {
        HereItems();
        ItemsStuck();
        return;
      }
      if mode == BAD {
        HereCodeLens();
        RestFailed(Stream(), o);
        return;
      }
      BuildTables();
    }

    lemma HereItems()
      requires mode == CODELENS
      ensures Here() == InLengths(Header(nlen, ndist, ncode), cl, Prefix(lens[..], have), last)
      ensures Future() == ItemsRest(Out())
    {
    }

    lemma ItemsStuck()
      requires mode == CODELENS && ItemStuck() && LensOk() && have < nlen + ndist
      ensures Stuck()
    {
      hide Rest, ItemShort, ToBits, Empty;
      HereItems();
      ItemShortWaits(Header(nlen, ndist, ncode), cl, Prefix(lens[..], have), last, ToBits(hold, bits), Out());
    }

    // while (state->have < state->nlen + state->ndist) ...
    method ReadLengths() returns (leave: bool)
      requires Regs() && CodeTable() && ItemTight() && LensOk() && have < nlen + ndist && mode == CODELENS
      modifies `mode, `hold, `bits, `next, `used, `have, lens
      ensures Regs() && used + Stream() == old(used + Stream()) && |Stream()| <= |old(Stream())|
      ensures mode == CODELENS || mode == BAD
      ensures leave ==> mode == CODELENS && ItemStuck() && LensOk() && have < nlen + ndist
      ensures !leave && mode == CODELENS ==> bits < 8 && LensOk() && have == nlen + ndist
      ensures forall o: seq<Byte> :: old(ItemsRest(o)) == if mode == BAD then Failure(o) else ItemsRest(o)
    {
      hide ToBits, Stream, LensOk, CodeTable, ItemShort, ItemsRest;
      leave := false;
      LensCount();
      while have < nlen + ndist && mode == CODELENS && !leave
        invariant Regs() && used + Stream() == old(used + Stream()) && |Stream()| <= |old(Stream())| && CodeTable()
        invariant mode == CODELENS || mode == BAD
        invariant leave ==> mode == CODELENS && ItemStuck() && LensOk() && have < nlen + ndist
        invariant !leave && mode == CODELENS ==> (bits < 8 || have < nlen + ndist) && ItemTight() && LensOk() && have <= nlen + ndist
        invariant forall o: seq<Byte> :: old(ItemsRest(o)) == if mode == BAD then Failure(o) else ItemsRest(o)
        decreases mode == CODELENS, nlen + ndist - have, !leave
      {
        leave := StepItem();
        if !leave && mode == CODELENS { LensCount(); }
      }
    }

    lemma LensCount()
      requires LensOk()
      ensures have <= nlen + ndist && have <= lens.Length && (forall i | 0 <= i < have :: lens[i] <= MAXBITS)
    {
      hide Empty;
    }

    // Build the code tables.
    method BuildTables()
      requires Regs() && mode == CODELENS && CodeTable() && LensOk() && have == nlen + ndist && Buffers()
      modifies `mode, `lencode, `lenbits, `distcode, `distbits, `lit, `dist, `lenTab, `distTab, work, codes
      ensures mode == BAD || (mode == LEN && Tables())
      ensures forall o: seq<Byte> :: Rest(Here(), Stream(), o) == old(ItemsRest(o))
    {
      hide Stream, Rest, TableAt, Usable, LensOk, Here, ItemsRest, Regs;
      SplitLens();
      forall o: seq<Byte> { LastLengths(o); }
      ghost var l, d := lens[0..0 + nlen], lens[nlen..nlen + ndist];
      var ok := BuildBoth();
      if !ok {
        mode := BAD;
        HereCodeLens();
        forall o: seq<Byte> { RestFailed(Stream(), o); }
        return;
      }
      lit, dist := l, d;
      mode := LEN;
      HereLen();
    }

    lemma LastLengths(o: seq<Byte>)
      requires LensOk() && have == nlen + ndist
      ensures have <= lens.Length
      ensures ItemsRest(o) ==
              if Usable(lens[0..0 + nlen], true) && Usable(lens[nlen..nlen + ndist], true)
              then Rest(InElement(lens[0..0 + nlen], lens[nlen..nlen + ndist], last, AtStart), Stream(), o) else Failure(o)
    {
      hide Rest, Stream, Usable, Empty;
      SplitLens();
      LengthsEnd(Header(nlen, ndist, ncode), cl, lens[..have], last, Stream(), o);
    }

    lemma SplitLens()
      requires LensOk() && have == nlen + ndist
      ensures have <= lens.Length && Prefix(lens[..], have) == lens[..have] && nlen <= have
      ensures lens[..have][..nlen] == lens[0..0 + nlen] && lens[..have][nlen..] == lens[nlen..nlen + ndist]
    {
      hide Empty;
    }

    lemma HereLen()
      requires mode == LEN
      ensures Here() == InElement(lit, dist, last, AtStart)
    {
    }

    method BuildBoth() returns (ok: bool)
      requires LensOk() && Buffers() && have == nlen + ndist && !fixed
      modifies `lencode, `lenbits, `distcode, `distbits, `lenTab, `distTab, work, codes
      ensures ok <==> Usable(lens[0..0 + nlen], true) && Usable(lens[nlen..nlen + ndist], true)
      ensures ok ==> TableAt(codes, lencode, lenTab, lenbits, LENS, lens[0..0 + nlen])
      ensures ok ==> TableAt(codes, distcode, distTab, distbits, DISTS, lens[nlen..nlen + ndist])
    {
      hide Pow2, Decodes, Usable, Empty, LensOk;
      LensCount();
      CountsOk();
      ok := BuildLens();
      if ok {
        ghost var before := codes[..];
        ok := BuildDists();
        assert codes[0..|lenTab|] == before[0..|lenTab|];
      }
    }

    lemma CountsOk()
      requires LensOk()
      ensures Counts() && lens.Length == 320
    {
    }

    method BuildLens() returns (ok: bool)
      requires Counts() && Buffers() && forall i | 0 <= i < nlen :: lens[i] <= MAXBITS
      modifies `lencode, `lenbits, `distcode, `lenTab, work, codes
      ensures ok <==> Usable(lens[0..0 + nlen], true)
      ensures ok ==> TableAt(codes, lencode, lenTab, lenbits, LENS, lens[0..0 + nlen])
      ensures ok ==> lencode == 0 && distcode == |lenTab| <= 900
    {
      hide Pow2, Decodes, Usable, Empty;
      TableSpaces();
      lencode := 0;
      var ret, t1;
      ret, t1, lenbits := InflateTable(LENS, lens, 0, nlen, codes, 0, 9, work);
      if ret != 0 { return false; }
      lenTab := codes[0..t1];
      distcode := t1;
      ok := true;
    }

    method BuildDists() returns (ok: bool)
      requires Counts() && Buffers() && distcode <= 900
      requires forall i | nlen <= i < nlen + ndist :: lens[i] <= MAXBITS
      modifies `distbits, `distTab, work, codes
      ensures codes[..distcode] == old(codes[..distcode])
      ensures ok <==> Usable(lens[nlen..nlen + ndist], true)
      ensures ok ==> TableAt(codes, distcode, distTab, distbits, DISTS, lens[nlen..nlen + ndist])
    {
      hide Pow2, Decodes, Usable, Empty;
      TableSpaces();
      ghost var before := codes[..];
      var ret, t2;
      ret, t2, distbits := InflateTable(DISTS, lens, nlen, ndist, codes, distcode, 6, work);
      assert codes[..distcode] == before[..distcode];
      if ret != 0 { return false; }
      distTab := codes[distcode..t2];
      ok := true;
    }

    // ---- one pass of the switch ----

    // What each mode can rely on.
    ghost predicate ModeOk()
      reads `mode, `hold, `bits, `next, `input, `start, `put, `left, `output, `hist, `length, `offset, `extra,
            `nlen, `ndist, `ncode, `have, `cl, `lit, `dist, `fixed, `lencode, `lenTab, `lenbits,
            `distcode, `distTab, `distbits, lens, codes, fixedCodes
    {
      && Regs() && Space()
      && match mode
         case HEAD | COPY => bits == 0
         case TYPE | TYPEDO => bits < 8
         case TABLE => bits < 14
         case LENLENS => bits < 8 && Counts() && LensSent() && have <= ncode
         case CODELENS => CodeTable() && ItemTight() && LensOk() && have < nlen + ndist
         case STORED | CHECK | DONE | BAD => true
         case _ => Tables() && Tight() && Fields(mode, length, offset, extra, |hist| + put - start)
    }

    // Out of space, with a byte still to be put out.
    ghost predicate Full()
      reads `mode, `length, `left
    {
      left == 0 && (mode == LIT || mode == MATCH || (mode == COPY && length > 0))
    }

    ghost predicate Settles()
      reads `mode, `last, `length, `offset, `extra, `nlen, `ndist, `ncode, `have, `cl, `lit, `dist, `hold, `bits,
            `next, `input, `start, `put, `left, `output, `hist, lens, output
    {
      mode == DONE || mode == BAD || Full() || Stuck()
    }

    // A read has gone outside the buffers, or will in this call: the address is
    // odd, there is space enough for inflate_fast with one byte put out, and
    // with one byte put out the stream has a copy from distance 1.
    ghost predicate Danger()
      reads `mode, `last, `length, `offset, `extra, `nlen, `ndist, `ncode, `have, `cl, `lit, `dist, `hold, `bits,
            `next, `input, `start, `put, `left, `output, `hist, `strayed, `base, lens, output
    {
      Dangers(strayed, (base + start) % 2 == 1, put + left - start, |hist| + 1, Future())
    }

    // Bits for a whole byte are held at the start of an element only if they
    // were held when the call started.
    ghost predicate Brisk()
      reads `mode, `bits, `put, `start
    {
      mode == LEN ==> bits < 8 || put == start
    }

    // What every pass keeps: the stream, what the reference makes of it, and
    // whether a read goes outside the buffers.
    twostate predicate Passed(leave: bool)
      reads this, lens, codes, fixedCodes, output
    {
      && ModeOk() && used + Stream() == old(used + Stream()) && |Stream()| <= |old(Stream())|
      && Future().end == old(Future().end) && (Danger() <==> old(Danger())) && OnlyWrote(old(put))
      && (leave ==> Settles())
      && (!leave ==> Advanced() && (mode == LEN ==> bits < 8))
      && (old(mode) in {CHECK, DONE, BAD} ==> mode in {CHECK, DONE, BAD})
    }

    method PassType() returns (leave: bool)
      requires ModeOk() && (mode == TYPE || mode == TYPEDO) && FixedTables()
      modifies `mode, `last, `hold, `bits, `next, `used, `fixed, `lencode, `distcode, `lenbits, `distbits,
               `lit, `dist, `lenTab, `distTab
      ensures Passed(leave)
    {
      hide LensSent, LensOk, ItemTight, CodeTable, Danger, Stream, Future, Stuck, FixedTables, Tables;
      leave := StepType();
      SameDanger();
    }

    method PassStored() returns (leave: bool)
      requires ModeOk() && (mode == STORED || mode == COPY)
      modifies `mode, `hold, `bits, `next, `used, `length, `put, `left, output
      ensures Passed(leave)
    {
      hide Danger, Stream, Future, Stuck;
      if mode == STORED {
        leave := StepStored();
      } else {
        leave := StepCopy();
      }
      SameDanger();
    }

    method PassTable() returns (leave: bool)
      requires ModeOk() && mode == TABLE && Buffers()
      modifies `mode, `hold, `bits, `next, `used, `nlen, `ndist, `ncode, `have
      ensures Passed(leave)
    {
      hide Tables, Tight, Danger, Stream, Future, Stuck, CodeTable, LensOk;
      leave := StepTable();
      SameDanger();
    }

    method PassLenLens() returns (leave: bool)
      requires ModeOk() && mode == LENLENS && Buffers()
      modifies `mode, `hold, `bits, `next, `used, `have, `fixed, `lencode, `lenTab, `lenbits, `cl, lens, work, codes
      ensures Passed(leave)
    {
      hide Danger, Stream, Future, Stuck, CodeTable, ModeOk, LensSent, LensOk, ItemTight, Counts;
      LengthsMode();
      leave := StepLenLens();
      NoLengths();
      ModeForLengths();
      SameDanger();
    }

    lemma LengthsMode()
      requires ModeOk()
      ensures Regs() && Space()
      ensures mode == LENLENS ==> bits < 8 && Counts() && LensSent() && have <= ncode
      ensures mode == CODELENS ==> CodeTable() && ItemTight() && LensOk() && Counts() && have < nlen + ndist
    {
      hide CodeTable, ItemTight, LensSent, Tables, Tight;
    }

    lemma ModeForLengths()
      requires Regs() && Space() && (mode == LENLENS || mode == CODELENS || mode == LEN || mode == BAD)
      requires mode == LENLENS ==> bits < 8 && Counts() && LensSent() && have <= ncode
      requires mode == CODELENS ==> CodeTable() && ItemTight() && LensOk() && have < nlen + ndist
      requires mode == LEN ==> Tables() && bits < 8
      ensures ModeOk()
    {
      hide CodeTable, ItemTight, LensSent, LensOk, Tables;
    }

    lemma NoLengths()
      requires Counts() && Buffers()
      ensures have == 0 ==> LensOk() && have < nlen + ndist
      ensures bits < 8 ==> ItemTight()
    {
    }

    method PassCodeLens() returns (leave: bool)
      requires ModeOk() && mode == CODELENS && Buffers()
      modifies `mode, `hold, `bits, `next, `used, `have, `lencode, `lenbits, `distcode, `distbits,
               `lit, `dist, `lenTab, `distTab, lens, work, codes
      ensures Passed(leave)
    {
      hide Danger, Stream, Future, Stuck, CodeTable, LensOk, ItemTight, LensSent, ModeOk, Tables, Counts;
      LengthsMode();
      leave := StepCodeLens();
      ModeForLengths();
      SameDanger();
    }

    method PassElement() returns (leave: bool)
      requires ModeOk() && InFlight() && WindowOk() && Brisk()
      requires !(mode == LEN && next + 6 <= |input| && left >= 258)
      modifies `mode, `hold, `bits, `next, `used, `length, `offset, `extra, `put, `left, output
      ensures Passed(leave)
    {
      hide Stream, Out, Rest, Here, Tables, Tight, WindowOk, ElementOk, ModeOk, Future, Spot, Dangers, Settles, OnlyWrote,
           Advanced, Resume, Element;
      HereElement();
      ElementMode();
      NotHere();
      ghost var v, o := Future(), Out();
      ghost var spot := Spot(State(Here(), Stream(), Out()));
      leave := StepFuture();
      ElementMode();
      FewerSpots(strayed, (base + start) % 2 == 1, put + left - start, |hist| + 1, v, Future(), spot && !leave, |o|);
    }

    // One pass inside a compressed block, and what it leaves to come.
    method StepFuture() returns (leave: bool)
      requires ElementOk() && Tables() && Tight() && WindowOk() && InFlight()
      modifies `mode, `hold, `bits, `next, `used, `length, `offset, `extra, `put, `left, output
      ensures ElementOk() && Tight() && used + Stream() == old(used + Stream()) && OnlyWrote(old(put))
      ensures put + left == old(put) + old(left) && |Stream()| <= |old(Stream())|
      ensures InFlight() || mode == TYPE || mode == BAD
      ensures leave ==> Future() == old(Future()) && Settles()
      ensures !leave ==> Future() == Resume(lit, dist, last, old(Element())) && Advanced() && (mode == LEN ==> bits < 8)
    {
      hide Stream, Out, Rest, After, Pend, ReachAt, Reaches, Tables, Tight, WindowOk, ElementOk, Stuck, Starved, Resume,
           Turn, Spot, OnlyWrote, Here, Future, Element;
      ghost var a := Element();
      HereElement();
      FutureHere();
      leave := StepElement();
      if leave {
        HereElement();
        StarvedStuck();
        FutureHere();
      } else {
        ReachFuture(a);
      }
    }

    // The spot at the front is not one that inflate_fast gets to.
    lemma NotHere()
      requires ModeOk() && InFlight() && Brisk() && !(mode == LEN && next + 6 <= |input| && left >= 258)
      ensures Spot(State(Here(), Stream(), Out())) && |Out()| == |hist| + 1 ==> put + left - start < 259
    {
      hide Tables, Tight, Distance;
      StreamLength();
    }

    twostate lemma SameDanger()
      requires strayed == old(strayed) && base == old(base) && start == old(start) && hist == old(hist)
      requires put + left == old(put) + old(left) && Future() == old(Future())
      ensures Danger() <==> old(Danger())
    {
      hide Future;
    }

    // In a compressed block, or just after it.
    lemma ElementMode()
      requires InFlight() || mode == TYPE || mode == BAD
      ensures InFlight() && ModeOk() ==> ElementOk() && Tight() && Tables()
      ensures ElementOk() && Tight() && Tables() ==> ModeOk()
    {
      hide Tables, Fields;
    }

    lemma HereElement()
      requires InFlight()
      ensures Here() == InElement(lit, dist, last, Pend())
      ensures Future() == Seen(Spot(State(Here(), Stream(), Out())), |Out()|, Resume(lit, dist, last, Element()))
    {
      hide Resume, After, Out, Stream, Rest, Spot;
      RestElement(lit, dist, last, Pend(), Stream(), Out());
    }

    lemma StarvedStuck()
      requires InFlight()
      ensures Starved() ==> Stuck()
    {
      hide After, Out, Stream, ToBits, Rest, Pend, Distance;
      var held := ToBits(hold, bits);
      RestElement(lit, dist, last, Pend(), held, Out());
      DistanceWhole(lit, dist, held, Out());
    }

    lemma ReachFuture(a: Point)
      requires Reaches(a) && (InFlight() || mode == TYPE || mode == BAD) && ElementOk()
      ensures Future() == Resume(lit, dist, last, a)
    {
      hide After, Out, Stream, Rest, Spot;
      if mode == LEN || mode == TYPE || mode == BAD {
        FutureWhere();
      } else {
        HereElement();
        MidElement();
      }
    }

    lemma MidElement()
      requires InFlight() && mode != LEN && ElementOk()
      ensures !Spot(State(Here(), Stream(), Out()))
    {
      hide Out, Stream, Distance;
    }

    lemma FutureWhere()
      requires mode == LEN || mode == TYPE || mode == BAD
      ensures Future() == Resume(lit, dist, last, Where(mode, Stream(), Out()))
    {
      hide Out, Stream, Rest;
      RestFailed(Stream(), Out());
    }

    method PassFast(stray: Byte)
      requires ModeOk() && mode == LEN && WindowOk() && next + 6 <= |input| && left >= 258
      modifies `mode, `hold, `bits, `next, `used, `put, `left, `strayed, output
      ensures Passed(false)
    {
      hide Stream, Out, Rest, Here, Tables, WindowOk, Rounds, Tight, ModeOk, Fields, Turn, Strays, Resume,
           Where, Future, Dangers;
      FutureWhere();
      ElementMode();
      ghost var s, o, v := Stream(), Out(), Future();
      ghost var n := InflateFast(stray);
      FewBits();
      ElementMode();
      RoundsRest(lit, dist, last, mode, s, o, Stream(), Out(), n);
      FutureWhere();
      WhereEnds(s, o);
      RunDanger(old(strayed), strayed, (base + start) % 2 == 1, put + left - start, |hist| + 1, v, Future(),
                Strays(lit, dist, s, o, n, |hist| + 1));
    }

    lemma WhereEnds(s: seq<bool>, o: seq<Byte>)
      requires mode == LEN || mode == TYPE || mode == BAD
      ensures Resume(lit, dist, last, Where(LEN, s, o)).end == Rest(InElement(lit, dist, last, AtStart), s, o).end
      ensures Resume(lit, dist, last, Where(mode, Stream(), Out())).end ==
              if mode == LEN then Rest(InElement(lit, dist, last, AtStart), Stream(), Out()).end
              else if mode == TYPE then Rest(InBlocks(last), Stream(), Out()).end else Reject(Out())
    {
      hide Rest, Stream, Out;
    }

    lemma FewBits()
      ensures bits < 8 ==> Tight()
      ensures mode == LEN || mode == TYPE || mode == BAD ==> Fields(mode, length, offset, extra, |hist| + put - start)
    {
    }

    method Pass(stray: Byte) returns (leave: bool)
      requires ModeOk() && (InFlight() ==> WindowOk()) && FixedTables() && Buffers() && Brisk()
      modifies `mode, `last, `hold, `bits, `next, `used, `length, `offset, `extra, `fixed, `lencode, `distcode,
               `lenbits, `distbits, `ncode, `nlen, `ndist, `have, `lit, `dist, `lenTab, `distTab, `cl,
               `put, `left, `strayed, output, lens, work, codes
      ensures Passed(leave)
    {
      hide ModeOk, WindowOk, FixedTables, Passed;
      match mode
      case HEAD => leave := PassHead();
      case TYPE | TYPEDO => leave := PassType();
      case STORED | COPY => leave := PassStored();
      case TABLE => leave := PassTable();
      case LENLENS => leave := PassLenLens();
      case CODELENS => leave := PassCodeLens();
      case LEN =>
        PassRegs();
        if next + 6 <= |input| && left >= 258 {
          PassFast(stray);
          leave := false;
        } else {
          leave := PassElement();
        }
      case CHECK | DONE | BAD => leave := PassEnd();
      case _ => leave := PassElement();
    }

    lemma PassRegs()
      requires ModeOk()
      ensures next <= |input|
    {
    }

    // case HEAD, for raw deflate
    method PassHead() returns (leave: bool)
      requires ModeOk() && mode == HEAD
      modifies `mode
      ensures Passed(leave)
    {
      hide Danger, Stream, Out, Rest;
      mode := TYPEDO;
      leave := false;
      SameDanger();
    }

    method PassEnd() returns (leave: bool)
      requires ModeOk() && (mode == CHECK || mode == DONE || mode == BAD)
      modifies `mode
      ensures Passed(leave)
    {
      hide Danger, Stream, Out, Rest;
      leave := mode != CHECK;
      if mode == CHECK { mode := DONE; }
      SameDanger();
    }

    // ---- inflate() ----

    // No window is in use while nothing has been put out before this call,
    // nor is one needed once the stream has ended.
    ghost predicate WindowInv()
      reads `mode, `output, `wsize, `whave, `write, `hist, window
    {
      && window.Length == WSIZE && window != output
      && WindowHolds(window[..], wsize, whave, write, hist) && (wsize == 0 ==> hist == [] || mode in {CHECK, DONE, BAD})
    }

    ghost predicate Valid()
      reads this, lens, codes, fixedCodes, window
    {
      ModeOk() && WindowInv() && FixedTables() && Buffers()
    }

    // for (;;) switch (state->mode)
    method Loop(stray: Byte)
      requires Valid() && Brisk()
      modifies `mode, `last, `hold, `bits, `next, `used, `length, `offset, `extra, `fixed, `lencode, `distcode,
               `lenbits, `distbits, `ncode, `nlen, `ndist, `have, `lit, `dist, `lenTab, `distTab, `cl,
               `put, `left, `strayed, output, lens, work, codes
      ensures Valid() && used + Stream() == old(used + Stream()) && Future().end == old(Future()).end
      ensures OnlyWrote(old(put)) && Settles()
      ensures strayed <==> old(Danger())
    {
      hide Valid, Stream, Future, Settles, Danger, Brisk;
      var leave := false;
      while !leave
        invariant Valid() && used + Stream() == old(used + Stream()) && Future().end == old(Future()).end
        invariant OnlyWrote(old(put)) && (Danger() <==> old(Danger()))
        invariant if leave then Settles() else Brisk()
        decreases !leave, |Stream()|, left, Turn(mode)
      {
        leave := ValidPass(stray);
      }
      NoMoreDanger();
    }

    // Once the call has settled, nothing more strays in it.
    lemma NoMoreDanger()
      requires Valid() && Settles()
      ensures Danger() <==> strayed
    {
      hide FixedTables, WindowHolds, Tables, Tight, CodeTable, ItemTight, LensOk, LensSent, Unread, ToBits, Rest, Here;
      if Full() && put + left - start >= 259 {
        RestSpots(Here(), Stream(), Out(), |hist| + 1);
      }
      if mode == DONE { HereFinished(); }
      if mode == BAD { HereCodeLens(); }
      RestFailed(Stream(), Out());
      FinishedRest(Stream(), Out());
      if next == |input| { NothingLeft(hold, bits, input, next); }
    }

    method ValidPass(stray: Byte) returns (leave: bool)
      requires Valid() && Brisk()
      modifies `mode, `last, `hold, `bits, `next, `used, `length, `offset, `extra, `fixed, `lencode, `distcode,
               `lenbits, `distbits, `ncode, `nlen, `ndist, `have, `lit, `dist, `lenTab, `distTab, `cl,
               `put, `left, `strayed, output, lens, work, codes
      ensures Valid() && used + Stream() == old(used + Stream()) && OnlyWrote(old(put))
      ensures Future().end == old(Future()).end && (Danger() <==> old(Danger()))
      ensures if leave then Settles() else Advanced() && Brisk()
    {
      hide Danger, ModeOk, FixedTables, Stream, Future, Settles, WindowHolds, OnlyWrote, Advanced;
      leave := Pass(stray);
    }

    // ---- updatewindow() ----

    // zmemcpy(window + at, output + from, n), from this call's output
    method ToWindow(at: nat, from: nat, n: nat)
      requires Space() && window != output && at + n <= window.Length && start <= from && from + n <= put
      modifies window
      ensures window[..] == Patched(old(window[..]), at, output[start..put][from - start..from - start + n])
    {
      ghost var w, o := window[..], output[start..put];
      forall i | 0 <= i < n {
        window[at + i] := output[from + i];
      }
      ghost var r := Patched(w, at, o[from - start..from - start + n]);
      forall i | 0 <= i < window.Length
        ensures window[i] == r[i]
      {
        if at <= i < at + n {
          assert o[from - start + (i - at)] == output[from + (i - at)];
        } else {
          assert window[i] == w[i];
        }
      }
      assert window[..] == r && output[start..put] == o;
    }

    method UpdateWindow()
      requires Space() && window.Length == WSIZE && window != output
      requires WindowHolds(window[..], wsize, whave, write, hist) && (wsize == 0 ==> hist == [])
      modifies `wsize, `whave, `write, window
      ensures wsize == WSIZE && WindowHolds(window[..], wsize, whave, write, Out())
    {
      hide WindowHolds, Slot, Patched;
      if wsize == 0 {
        NewWindow(window[..]);
        wsize, write, whave := WSIZE, 0, 0;
      }
      WindowShape(window[..], wsize, whave, write, hist);
      var copy := put - start;
      if copy >= wsize {
        ghost var w := window[..];
        ToWindow(0, put - wsize, wsize);
        WindowReplaced(w, output[start..put], hist);
        write, whave := 0, wsize;
      } else {
        AddToWindow(copy);
      }
    }

    method AddToWindow(copy0: nat)
      requires Space() && window.Length == WSIZE && window != output && copy0 == put - start < wsize
      requires WindowHolds(window[..], wsize, whave, write, hist)
      modifies `whave, `write, window
      ensures WindowHolds(window[..], wsize, whave, write, Out())
    {
      hide WindowHolds, Slot, Patched;
      WindowShape(window[..], wsize, whave, write, hist);
      ghost var w, o := window[..], output[start..put];
      var copy := copy0;
      var dist := wsize - write;
      if dist > copy { dist := copy; }
      ToWindow(write, put - copy, dist);
      copy := copy - dist;
      if copy > 0 {
        ToWindow(0, put - copy, copy);
        WindowWrapped(w, whave, write, hist, o, dist, copy);
        write, whave := copy, wsize;
      } else {
        WindowAppended(w, whave, write, hist, o, dist);
        write := write + dist;
        if write == wsize { write := 0; }
        if whave < wsize { whave := whave + dist; }
      }
    }

    // ---- one call ----

    // flush is Z_FINISH or not; Z_BLOCK is not modelled.
    method Inflate(finish: bool, stray: Byte) returns (ret: Ret)
      requires Valid() && start == put
      modifies `mode, `last, `hold, `bits, `next, `used, `length, `offset, `extra, `fixed, `lencode, `distcode,
               `lenbits, `distbits, `ncode, `nlen, `ndist, `have, `lit, `dist, `lenTab, `distTab, `cl,
               `put, `left, `strayed, `start, `hist, `wsize, `whave, `write, output, lens, work, codes, window
      ensures Valid() && start == put && Settles()
      ensures used + Stream() == old(used + Stream()) && Future().end == old(Future()).end
      ensures OnlyWrote(old(put)) && put <= output.Length && hist == old(hist) + output[old(put)..put]
      ensures ret == ReturnCode(mode, finish || (next == old(next) && left == old(left)))
      ensures strayed <==> old(strayed) || ((base + old(put)) % 2 == 1 && old(left) >= 259 && |old(hist)| + 1 in old(Future()).spots)
    {
      hide Valid, Stream, Future, Settles, Out, Danger, ReturnCode, OnlyWrote;
      SeparateBuffers();
      DangerIs();
      var in0, out0 := next, left;
      Switch(stray);
      ret := ReturnCode(mode, finish || (next == in0 && left == out0));
      Leave(left != out0);
    }

    // From the start of the call to inf_leave.
    method Switch(stray: Byte)
      requires Valid() && start == put
      modifies `mode, `last, `hold, `bits, `next, `used, `length, `offset, `extra, `fixed, `lencode, `distcode,
               `lenbits, `distbits, `ncode, `nlen, `ndist, `have, `lit, `dist, `lenTab, `distTab, `cl,
               `put, `left, `strayed, output, lens, work, codes
      ensures Valid() && Settles() && put + left == old(put) + old(left) && old(put) <= put
      ensures used + Stream() == old(used + Stream()) && Future().end == old(Future()).end
      ensures OnlyWrote(old(put)) && (strayed <==> old(Danger()))
    {
      hide Valid, Stream, Future, Settles, Danger, Brisk;
      SkipCheck();
      Loop(stray);
    }

    lemma SeparateBuffers()
      requires Valid()
      ensures window != output
    {
    }

    lemma DangerIs()
      requires start == put
      ensures Danger() <==> strayed || ((base + start) % 2 == 1 && left >= 259 && |hist| + 1 in Future().spots)
    {
      hide Future;
    }

    // if (state->mode == TYPE) state->mode = TYPEDO;
    method SkipCheck()
      requires Valid() && start == put
      modifies `mode
      ensures Valid() && Future() == old(Future()) && (Danger() <==> old(Danger())) && Brisk()
    {
      hide WindowHolds, FixedTables, Stream, Out, Rest;
      if mode == TYPE { mode := TYPEDO; }
    }

    // inf_leave
    method Leave(changed: bool)
      requires Valid() && Settles() && (changed <==> put != start)
      modifies `start, `hist, `wsize, `whave, `write, window
      ensures Valid() && start == put && Settles() && Future() == old(Future())
      ensures old(start) <= put <= output.Length && hist == old(hist) + output[old(start)..put]
    {
      hide WindowHolds, FixedTables, Stream, Future, Settles, ModeOk;
      ModeSpace();
      assert !changed ==> hist + output[start..put] == hist;
      if wsize == 0 { NoWindow(window[..], whave, write, hist, Out()); }
      if wsize != 0 || (!(mode in {CHECK, DONE, BAD}) && changed) {
        UpdateWindow();
      }
      EndCall();
    }

    lemma ModeSpace()
      requires ModeOk()
      ensures Space()
    {
    }

    method EndCall()
      requires ModeOk() && Settles()
      modifies `start, `hist
      ensures ModeOk() && Settles() && start == put && Future() == old(Future())
      ensures Space() && hist == Out() == old(Out())
    {
      hide FixedTables, Tables, Stream, Rest, Here, Tight, Fields, LensOk, LensSent, ItemTight, CodeTable;
      hist := Out();
      start := put;
      assert output[put..put] == [] && Out() == hist;
    }

    // ---- around the calls ----

    // inflateInit2(-MAX_WBITS) and inflateReset().
    constructor ()
      ensures Valid() && start == put && mode == HEAD && input == [] && next == 0
      ensures fresh(output) && fresh(lens) && fresh(work) && fresh(codes) && fresh(window)
      ensures used == [] && hist == [] && !strayed && Stream() == [] && Here() == InBlocks(false) && Out() == []
    {
      hide Valid, Stream, Here, Out, Decodes;
      var fc, at;
      ghost var lt, dt;
      fc, at, lt, dt := BuildFixed();
      fixedCodes, fixAt, fixLenTab, fixDistTab := fc, at, lt, dt;
      lens, work, codes, window := new nat[320], new nat[288], new Code[ENOUGH], new Byte[WSIZE];
      output, put, left, start, base := new Byte[0], 0, 0, 0, 0;
      input, next, used, hist, strayed := [], 0, [], [], false;
      mode, last, hold, bits := HEAD, false, 0, 0;
      wsize, whave, write := 0, 0, 0;
      fixed, lencode, distcode := false, 0, 0;
      new;
      InitialState();
    }

    lemma InitialState()
      requires lens.Length == 320 && work.Length == 288 && lens != work && codes.Length == ENOUGH && codes != fixedCodes
      requires window.Length == WSIZE && window != output && FixedTables()
      requires output.Length == 0 && put == left == start == 0 && input == [] && next == 0 && hist == []
      requires mode == HEAD && !last && hold == bits == 0 && wsize == whave == write == 0
      ensures Valid() && Stream() == [] && Here() == InBlocks(false) && Out() == []
    {
      hide FixedTables;
      NothingLeft(hold, bits, input, next);
      NothingHeld(hold);
    }

    // Wherever the decoder stands, its codes are codes.
    lemma HereSound()
      requires ModeOk()
      ensures Sound(Here())
    {
      hide Tables, Tight, CodeTable, LensOk, ItemTight, Sent, LensSent, Proper, ValidLens;
      if InFlight() {
        TablesProper();
      } else if mode == CODELENS {
        LengthsProper();
      } else if mode == LENLENS {
        SentSmall();
      }
    }

    lemma TablesProper()
      requires Tables()
      ensures Proper(lit) && Proper(dist)
    {
      hide Finds, OverSubscribed;
    }

    lemma LengthsProper()
      requires CodeTable() && LensOk()
      ensures Proper(cl) && ValidLens(Prefix(lens[..], have))
    {
      hide Finds, OverSubscribed, Usable, Empty;
    }

    lemma SentSmall()
      requires LensSent()
      ensures forall x | x in Sent(lens[..], have) :: x <= 7
    {
      hide Sent;
      SentAre(lens[..], have);
    }

    // The caller supplies more input: decoding it from where the last call
    // stopped is decoding all of it.
    method Feed(more: seq<Byte>)
      requires Valid()
      modifies `input, `next
      ensures Valid() && Stream() == old(Stream()) + FromBytes(more)
      ensures Future() == Rest(old(Here()), Stream(), old(Out()))
      ensures Future().end == Continue(Firmware, old(Future()).end, FromBytes(more))
      ensures input == old(input[next..]) + more && next == 0
    {
      hide FixedTables, WindowHolds, Unread, Here, Out, Tables, Tight, Fields, CodeTable, ItemTight, LensOk, LensSent,
           FromBytes, Continue, Sound, Decode;
      HereSound();
      DecodeMore(Firmware, State(Here(), Stream(), Out()), FromBytes(more));
      MoreUnread(hold, bits, input, next, more);
      input, next := input[next..] + more, 0;
    }

    // ... and output space.
    method Give(buffer: array<Byte>, at: nat, space: nat, address: nat)
      requires Valid() && start == put && at + space <= buffer.Length && buffer != window
      modifies `output, `put, `left, `start, `base
      ensures Valid() && start == put == at && left == space && output == buffer && base == address
      ensures Future() == old(Future())
    {
      hide FixedTables, WindowHolds, Here, ModeOk, Stream, Rest, Out;
      MoveOut(buffer, at, space);
      base := address;
    }

    method MoveOut(buffer: array<Byte>, at: nat, space: nat)
      requires ModeOk() && start == put && at + space <= buffer.Length
      modifies `output, `put, `left, `start
      ensures ModeOk() && start == put == at && left == space && output == buffer && Out() == old(Out())
    {
      hide Here, Tables, Tight, Fields, CodeTable, ItemTight, LensOk, LensSent;
      assert output[start..put] == [] && hist + [] == hist;
      output, put, left, start := buffer, at, space, at;
      assert output[start..put] == [];
    }

    // Between calls: the stream has come to an end or an error with all its
    // output; or the space is full, with more to come; or all that the input
    // gives has been put out.
    lemma Verdict()
      requires Valid() && start == put && Settles()
      ensures var r := Future().end;
              if mode == DONE then r == Accept(hist, Stream())
              else if mode == BAD then r == Reject(hist)
              else (left == 0 && hist <= r.out && |hist| < |r.out|) ||
                   (next == |input| && r == More(Here(), Stream(), hist))
    {
      hide FixedTables, WindowHolds, Tables, Tight, CodeTable, ItemTight, LensOk, LensSent, Unread, ToBits, Rest;
      assert Out() == hist;
      RestGrows(Here(), Stream(), hist);
      if mode == DONE {
        FinishedRest(Stream(), hist);
      } else if mode == BAD {
        RestFailed(Stream(), hist);
      } else {
        if Full() { FullGrows(); }
        if next == |input| { NothingLeft(hold, bits, input, next); }
      }
    }

    lemma FullGrows()
      requires ModeOk() && start == put && Full()
      ensures |Rest(Here(), Stream(), hist).end.out| > |hist| || Stuck()
    {
      hide Tables, Tight, Unread, ToBits, Rest;
      assert Out() == hist;
      if mode == COPY {
        StreamLength();
        if |Stream()| >= 8 {
          StoredRestGrows(length, last, Stream(), hist);
        } else {
          NothingHeld(hold);
          StoredEnd(last, [], hist);
        }
      } else {
        PendingGrows(lit, dist, last, Pend(), Stream(), hist);
      }
    }
  }
}
