// Where the firmware's reading of the format departs from the standard, and
// what becomes of a stream there.
module Departures {
  import opened Types
  import opened Bits
  import opened Canonical
  import opened Rfc1951
  import opened InflateSpec
  import opened InflateMore

  // ---- states the standard goes through ----

  // After n steps.
  function Steps(s: State, n: nat): Option<State>
    decreases n
  {
    if n == 0 then Some(s)
    else
      match Next(Standard, s)
      case Go(t) => Steps(t, n - 1)
      case Halt(_) => None
  }

  ghost predicate Passes(p: State -> bool, s: State)
  {
    exists n :: Steps(s, n).Some? && p(Steps(s, n).value)
  }

  // The first of them with property p.
  function First(p: State -> bool, s: State): (r: Option<State>)
    ensures r.Some? ==> p(r.value)
    decreases |s.bits|, Turns(s.c)
  {
    if p(s) then Some(s)
    else
      match Next(Standard, s)
      case Go(t) => First(p, t)
      case Halt(_) => None
  }

  lemma {:induction false} FirstFound(p: State -> bool, s: State)
    ensures First(p, s).Some? <==> Passes(p, s)
    decreases |s.bits|, Turns(s.c)
  {
    hide Next, Turns;
    if p(s) {
      assert Steps(s, 0) == Some(s);
    } else {
      match Next(Standard, s)
      case Go(t) =>
        FirstFound(p, t);
        PassesNext(p, s, t);
      case Halt(_) =>
        assert forall n :: Steps(s, n).Some? ==> n == 0;
    }
  }

  lemma PassesNext(p: State -> bool, s: State, t: State)
    requires Next(Standard, s) == Go(t) && !p(s)
    ensures Passes(p, s) <==> Passes(p, t)
  {
    hide Next;
    if Passes(p, t) {
      var n: nat :| Steps(t, n).Some? && p(Steps(t, n).value);
      assert Steps(s, n + 1) == Steps(t, n);
    }
    if Passes(p, s) {
      var n: nat :| Steps(s, n).Some? && p(Steps(s, n).value);
      assert n > 0 && Steps(s, n) == Steps(t, n - 1);
    }
  }

  // ---- the two departures ----

  // The header of a block with its own codes gives lengths for more than 30
  // distance symbols: its second five bits are 30 or 31.
  predicate HighHeader(s: State)
  {
    s.c.InDynamic? && |s.bits| >= 14 && HeaderAt(s.bits).nlen <= 286 && HeaderAt(s.bits).ndist > 30
  }

  lemma HighBits(s: State)
    requires s.c.InDynamic? && |s.bits| >= 14
    ensures HighHeader(s) <==> Get(s.bits, 5) <= 29 && Get(s.bits[5..], 5) >= 30
  {
  }

  // Code lengths are to be read with a code that has no codewords.
  predicate Codeless(s: State)
  {
    s.c.InLengths? && |s.c.got| < s.c.h.nlen + s.c.h.ndist && Empty(s.c.cl) && s.bits != []
  }

  lemma SameNext(s: State)
    requires !HighHeader(s) && !Codeless(s)
    ensures Next(Firmware, s) == Next(Standard, s)
  {
    hide ReadFrom, Symbol, Usable, Unordered, CopyBack, Value, Align;
    if s.c.InLengths? && s.bits == [] { EmptySymbolFree(s.c.cl); }
  }

  lemma EmptySymbolFree(cl: seq<nat>)
    ensures Live(cl, [])
  {
  }

  // A code of no codewords is only met with no lengths read yet.
  predicate Fresh(s: State)
  {
    s.c.InLengths? && Empty(s.c.cl) ==> s.c.got == []
  }

  lemma NextFresh(s: State)
    requires Fresh(s)
    ensures var r := Next(Standard, s); r.Go? ==> Fresh(r.s)
  {
    hide ReadFrom, Symbol, Usable, Unordered, CopyBack, Value, Align, Live;
    if s.c.InLengths? && Empty(s.c.cl) { EmptySymbol(s.c.cl, s.bits); }
  }

  lemma FailedEnds(p: State -> bool, s: State)
    requires s.c == Failed
    ensures Decode(Standard, s) == Reject(s.out) == Decode(Firmware, s)
    ensures !p(s) ==> First(p, s) == None
  {
  }

  // The standard rejects there.
  lemma CodelessFails(s: State)
    requires Codeless(s)
    ensures Next(Standard, s) == Go(State(Failed, s.bits, s.out))
  {
    EmptySymbol(s.c.cl, s.bits);
  }

  // The firmware takes a bit for a length of zero, and rejects with the first
  // bit after the lengths, having put out nothing more.
  lemma {:induction false} CodelessRuns(h: Header, cl: seq<nat>, got: seq<nat>, last: bool, bits: seq<bool>, out: seq<Byte>)
    requires Empty(cl) && Empty(got) && |got| <= h.nlen + h.ndist
    ensures var r := Decode(Firmware, State(InLengths(h, cl, got, last), bits, out));
            && r.out == out && !r.Accept?
            && (r == Reject(out) <==> |got| + |bits| > h.nlen + h.ndist)
    decreases |bits|
  {
    hide Symbol, Live, Usable;
    var s := State(InLengths(h, cl, got, last), bits, out);
    if |got| == h.nlen + h.ndist {
      var lit, dist := got[..h.nlen], got[h.nlen..];
      EmptyUsable(lit);
      EmptyUsable(dist);
      assert Next(Firmware, s) == Go(State(InElement(lit, dist, last, AtStart), bits, out));
      NothingCoded(lit, dist, last, bits, out);
    } else if bits == [] {
      EmptySymbolFree(cl);
      EmptySymbol(cl, bits);
    } else {
      EmptyItem(cl, got, bits);
      assert Next(Firmware, s) == Go(State(InLengths(h, cl, got + [0], last), bits[1..], out));
      CodelessRuns(h, cl, got + [0], last, bits[1..], out);
    }
  }

  lemma EmptyUsable(lens: seq<nat>)
    requires Empty(lens)
    ensures Usable(lens, true)
  {
  }

  lemma NothingCoded(lit: seq<nat>, dist: seq<nat>, last: bool, bits: seq<bool>, out: seq<Byte>)
    requires Empty(lit)
    ensures var r := Decode(Firmware, State(InElement(lit, dist, last, AtStart), bits, out));
            r.out == out && !r.Accept? && (r == Reject(out) <==> bits != [])
  {
    hide Symbol, Live;
    EmptySymbol(lit, bits);
    if bits == [] {
      EmptySymbolFree(lit);
    } else {
      assert Next(Firmware, State(InElement(lit, dist, last, AtStart), bits, out)) == Go(State(Failed, bits, out));
      FailedEnds(HighHeader, State(Failed, bits, out));
    }
  }

  // ---- what becomes of a stream ----

  // A header of the first kind ends the firmware's decoding, with what was put
  // out before it.
  lemma {:induction false} HighRejected(s: State)
    requires First(HighHeader, s).Some?
    ensures var h := First(HighHeader, s).value;
            Decode(Firmware, s) == Reject(h.out) && h.out <= Decode(Standard, s).out
    decreases |s.bits|, Turns(s.c)
  {
    hide Turns, HeaderAt, Next;
    if HighHeader(s) {
      DecodeGrows(Standard, s);
      HighFails(s);
      FailedEnds(HighHeader, State(Failed, s.bits[14..], s.out));
    } else {
      if Codeless(s) {
        CodelessFails(s);
        FailedEnds(HighHeader, State(Failed, s.bits, s.out));
      }
      SameNext(s);
      HighRejected(Next(Standard, s).s);
    }
  }

  lemma HighFails(s: State)
    requires HighHeader(s)
    ensures Next(Firmware, s) == Go(State(Failed, s.bits[14..], s.out))
  {
  }

  // Without any, the two differ only after a departure of the second kind,
  // and then in nothing that is put out.
  lemma {:induction false} LowAgrees(s: State)
    requires First(HighHeader, s) == None && Fresh(s)
    ensures var std, own := Decode(Standard, s), Decode(Firmware, s);
            match First(Codeless, s)
            case None => own == std
            case Some(e) =>
              && std == Reject(e.out) && own.out == e.out && !own.Accept?
              && (own == std <==> |e.bits| > e.c.h.nlen + e.c.h.ndist)
    decreases |s.bits|, Turns(s.c)
  {
    hide Turns, HighHeader, Next;
    if Codeless(s) {
      CodelessFails(s);
      FailedEnds(Codeless, State(Failed, s.bits, s.out));
      CodelessRuns(s.c.h, s.c.cl, s.c.got, s.c.last, s.bits, s.out);
    } else {
      SameNext(s);
      NextFresh(s);
      match Next(Standard, s)
      case Go(t) => LowAgrees(t);
      case Halt(_) =>
    }
  }

  // The input ends inside lengths that no code was given for, before the
  // firmware notices.
  predicate LateError(s: State)
  {
    var e := First(Codeless, s);
    e.Some? && |e.value.bits| <= e.value.c.h.nlen + e.value.c.h.ndist
  }

  // Any stream: what the firmware makes of it, in terms of the standard.
  lemma Compared(bits: seq<bool>)
    ensures var std, own, s := Inflate(Standard, bits), Inflate(Firmware, bits), Begin(bits);
            match First(HighHeader, s)
            case Some(h) => own == Reject(h.out) && h.out <= std.out
            case None =>
              && own.out == std.out && (own.Accept? ==> own == std) && (std.Accept? ==> own == std)
              && (own.Reject? <==> std.Reject? && !LateError(s))
  {
    hide HighHeader, Codeless, Decode, First;
    var s := Begin(bits);
    if First(HighHeader, s).Some? { HighRejected(s); } else { LowAgrees(s); }
  }

  // Streams that the standard accepts: the firmware accepts them, with the same
  // output, if and only if no header gives lengths for more than 30 distance
  // symbols; otherwise it rejects them with the output up to that header.
  lemma AcceptedStreams(bits: seq<bool>)
    requires Inflate(Standard, bits).Accept?
    ensures Inflate(Firmware, bits) == Inflate(Standard, bits) <==> !Passes(HighHeader, Begin(bits))
    ensures var h := First(HighHeader, Begin(bits));
            && (h.Some? <==> Passes(HighHeader, Begin(bits)))
            && (h.Some? ==> Inflate(Firmware, bits) == Reject(h.value.out))
  {
    hide HighHeader, Codeless, Decode, Passes, First;
    var s := Begin(bits);
    FirstFound(HighHeader, s);
    if Passes(HighHeader, s) { HighRejected(s); } else { LowAgrees(s); }
  }

  // A header met in the input so far is met in all of it.
  lemma {:induction false} HighLasts(s: State, y: seq<bool>)
    requires Sound(s.c) && |y| % 8 == 0 && First(HighHeader, s).Some?
    ensures First(HighHeader, Longer(s, y)).Some?
    decreases |s.bits|, Turns(s.c)
  {
    hide Turns, Next, Sound;
    if HighHeader(s) {
      HighLonger(s, y);
    } else {
      NextSound(Standard, s);
      GoMore(Standard, s, y);
      HighLasts(Next(Standard, s).s, y);
    }
  }

  lemma HighLonger(s: State, y: seq<bool>)
    requires HighHeader(s)
    ensures HighHeader(Longer(s, y))
  {
    hide Get;
    var x := s.bits;
    GetMore(x, y, 5);
    GetMore(x[5..], y, 5);
    assert (x + y)[10..] == x[10..] + y;
    GetMore(x[10..], y, 4);
  }
}
