// Whole runs of the decoder: one call with everything at hand, as zunzip()
// makes, and any sequence of calls that splits the input and the output.
module InflateRuns {
  import opened Types
  import opened Rfc1951
  import opened BitStream
  import opened InflateSpec
  import opened InflateMore
  import opened InflateState
  import opened Inflate
  import opened Departures
  import Deflate
  import Samples
  import Witnesses

  // What the rules make of a stream of bytes.
  function Decoding(rules: Rules, data: seq<Byte>): Outcome
  {
    Rfc1951.Inflate(rules, FromBytes(data))
  }

  // The first block header in it that the standard reads and the firmware
  // refuses.
  function Refused(data: seq<Byte>): Option<State>
  {
    First(HighHeader, Begin(FromBytes(data)))
  }

  function Min(a: nat, b: nat): nat { if a <= b then a else b }

  // ---- one call ----

  // Where a run stands, against what the input so far decodes to.
  predicate Concluded(r: Outcome, mode: Mode, hist: seq<Byte>)
  {
    && hist <= r.out
    && (mode == DONE <==> r.Accept? && r.out == hist)
    && (mode == BAD <==> r == Reject(hist))
  }

  // One call with more bytes of input and out to fill.
  method Call(z: Inflater, more: seq<Byte>, out: array<Byte>, address: nat, finish: bool, stray: Byte) returns (ret: Ret, n: nat)
    requires z.Valid() && z.start == z.put && out != z.window
    modifies z, z.lens, z.work, z.codes, z.window, out
    ensures z.Valid() && z.start == z.put && n <= out.Length && out[n..] == old(out[n..])
    ensures z.Future().end == Continue(Firmware, old(z.Future()).end, FromBytes(more))
    ensures z.Future().end == Rest(old(z.Here()), old(z.Stream()) + FromBytes(more), old(z.Out())).end
    ensures z.hist == old(z.hist) + out[..n] && |z.hist| == Min(|old(z.hist)| + out.Length, |z.Future().end.out|)
    ensures Concluded(z.Future().end, z.mode, z.hist) && (finish ==> ret == ReturnCode(z.mode, true))
    ensures z.strayed <==>
            old(z.strayed) || (address % 2 == 1 && out.Length >= 259 &&
              |old(z.hist)| + 1 in Rest(old(z.Here()), old(z.Stream()) + FromBytes(more), old(z.Out())).spots)
  {
    hide FromBytes, Inflater.Valid, Inflater.Settles, Inflater.Future, Inflater.Stream, Inflater.Here, Inflater.Out,
         Rest, Continue;
    z.Feed(more);
    z.Give(out, 0, out.Length, address);
    ret := z.Inflate(finish, stray);
    z.Verdict();
    n := z.put;
    assert out[0..n] == out[..n];
    assert forall i | n <= i < out.Length :: out[i] == old(out[i]);
  }

  // What a call with all the input and n bytes of space returns.
  function FinishCode(r: Outcome, n: nat): Ret
  {
    if |r.out| > n || r.More? then Z_BUF_ERROR else if r.Accept? then Z_STREAM_END else Z_DATA_ERROR
  }

  // One call of inflate() with Z_FINISH, all input and the whole buffer.
  method InflateWhole(data: seq<Byte>, out: array<Byte>, address: nat, stray: Byte) returns (ret: Ret, n: nat, ghost strayed: bool)
    modifies out
    ensures n <= out.Length && out[n..] == old(out[n..])
    ensures var r := Decoding(Firmware, data);
            n == Min(|r.out|, out.Length) && out[..n] == r.out[..n] && ret == FinishCode(r, out.Length)
    ensures strayed <==> address % 2 == 1 && out.Length >= 259 && 1 in Spots(Begin(FromBytes(data)))
  {
    hide FromBytes, Inflater.Valid, Inflater.Future, Inflater.Stream, Inflater.Here, Inflater.Out, Rest, Continue, Spots,
         Rfc1951.Inflate;
    var z := new Inflater();
    FromStart(FromBytes(data));
    ret, n := Call(z, data, out, address, true, stray);
    strayed := z.strayed;
    assert [] + out[..n] == out[..n];
  }

  lemma FromStart(bits: seq<bool>)
    ensures Rest(InBlocks(false), [] + bits, []) == View(Rfc1951.Inflate(Firmware, bits), Spots(Begin(bits)))
  {
    hide Decode, Spots;
    assert [] + bits == bits;
  }

  // In terms of the standard.
  method InflateOnce(data: seq<Byte>, out: array<Byte>, address: nat, stray: Byte) returns (ret: Ret, n: nat, ghost strayed: bool)
    modifies out
    ensures n <= out.Length && out[n..] == old(out[n..])
    ensures match Refused(data)
            case None =>
              var r := Decoding(Standard, data);
              && n == Min(|r.out|, out.Length) && out[..n] == r.out[..n]
              && (ret == Z_STREAM_END <==> r.Accept? && n == |r.out|)
              && (ret == Z_DATA_ERROR <==> r.Reject? && n == |r.out| && !LateError(Begin(FromBytes(data))))
              && ret != Z_OK
            case Some(h) =>
              && n == Min(|h.out|, out.Length) && out[..n] == h.out[..n]
              && ret == if n == |h.out| then Z_DATA_ERROR else Z_BUF_ERROR
    ensures strayed <==> address % 2 == 1 && out.Length >= 259 && 1 in Spots(Begin(FromBytes(data)))
    ensures address % 2 == 0 ==> !strayed
  {
    hide FromBytes, Rfc1951.Inflate, First, LateError, Spots;
    Compared(FromBytes(data));
    ret, n, strayed := InflateWhole(data, out, address, stray);
  }

  // A stream that the standard accepts, with space for what it holds: it is
  // decoded if and only if no header has lengths for more than 30 distance
  // symbols, and otherwise refused with the output up to that header.
  method InflateAccepted(data: seq<Byte>, out: array<Byte>, address: nat, stray: Byte) returns (ret: Ret, n: nat)
    requires Decoding(Standard, data).Accept? && |Decoding(Standard, data).out| <= out.Length
    modifies out
    ensures n <= out.Length && (ret == Z_STREAM_END <==> !Passes(HighHeader, Begin(FromBytes(data))))
    ensures ret == Z_STREAM_END ==> out[..n] == Decoding(Standard, data).out
    ensures ret != Z_STREAM_END ==> ret == Z_DATA_ERROR && Refused(data).Some? && out[..n] == Refused(data).value.out
  {
    hide FromBytes, Rfc1951.Inflate, First, Passes;
    AcceptedStreams(FromBytes(data));
    Compared(FromBytes(data));
    ghost var strayed;
    ret, n, strayed := InflateWhole(data, out, address, stray);
  }

  // ---- any sequence of calls ----

  // Input offered by all the calls.
  function Given(calls: seq<(nat, nat)>): nat
  {
    if calls == [] then 0 else Given(calls[..|calls| - 1]) + calls[|calls| - 1].0
  }

  // The input given by then.
  function Known(data: seq<Byte>, calls: seq<(nat, nat)>): seq<Byte>
  {
    data[..Min(Given(calls), |data|)]
  }

  // How much has been put out after the calls: each adds what fits its space
  // of what the input given by then decodes to.
  function Made(rules: Rules, data: seq<Byte>, calls: seq<(nat, nat)>): nat
    decreases |calls|
  {
    if calls == [] then 0
    else
      Min(Made(rules, data, calls[..|calls| - 1]) + calls[|calls| - 1].1, |Decoding(rules, Known(data, calls)).out|)
  }

  // One of several calls: more bytes of input, a fresh buffer of that space.
  method OneCall(z: Inflater, more: seq<Byte>, space: nat, address: nat, stray: Byte) returns (got: seq<Byte>)
    requires z.Valid() && z.start == z.put
    modifies z, z.lens, z.work, z.codes, z.window
    ensures z.Valid() && z.start == z.put
    ensures z.Future().end == Continue(Firmware, old(z.Future()).end, FromBytes(more))
    ensures z.hist == old(z.hist) + got && |z.hist| == Min(|old(z.hist)| + space, |z.Future().end.out|)
    ensures Concluded(z.Future().end, z.mode, z.hist)
    ensures z.strayed <==>
            old(z.strayed) || (address % 2 == 1 && space >= 259 &&
              |old(z.hist)| + 1 in Rest(old(z.Here()), old(z.Stream()) + FromBytes(more), old(z.Out())).spots)
  {
    hide FromBytes, Inflater.Valid, Inflater.Future, Inflater.Stream, Inflater.Here, Inflater.Out, Rest, Continue, Concluded;
    var buffer := new Byte[space];
    var ret, n := Call(z, more, buffer, address, false, stray);
    got := buffer[..n];
  }

  // Any sequence of calls: each takes calls[i].0 more bytes of input, as far
  // as there are that many, and calls[i].1 bytes of fresh output space.
  method InflateInCalls(data: seq<Byte>, calls: seq<(nat, nat)>, address: nat, stray: Byte)
    returns (mode: Mode, total: seq<Byte>, ghost strayed: bool)
    ensures Made(Firmware, data, calls) <= |Decoding(Firmware, data).out|
    ensures total == Decoding(Firmware, data).out[..Made(Firmware, data, calls)]
    ensures Concluded(Decoding(Firmware, Known(data, calls)), mode, total)
    ensures Refused(data) == None ==>
              && Made(Standard, data, calls) <= |Decoding(Standard, data).out|
              && total == Decoding(Standard, data).out[..Made(Standard, data, calls)]
              && (mode == DONE <==>
                    var r := Decoding(Standard, Known(data, calls)); r.Accept? && |r.out| == Made(Standard, data, calls))
    ensures address % 2 == 0 ==> !strayed
  {
    hide Rfc1951.Inflate, FromBytes, Inflater.Valid, Inflater.Future, Inflater.Stream, Inflater.Here, Inflater.Out,
         Made, Given, Continue, Rest, First;
    var z := new Inflater();
    total, mode := [], z.mode;
    var next := 0;
    StartsEmpty(data, calls);
    z.FutureHere();
    for i := 0 to |calls|
      invariant z.Valid() && z.start == z.put && z.hist == total && z.mode == mode
      invariant fresh(z) && fresh(z.lens) && fresh(z.work) && fresh(z.codes) && fresh(z.window)
      invariant next == Min(Given(calls[..i]), |data|)
      invariant z.Future().end == Decoding(Firmware, data[..next])
      invariant |total| == Made(Firmware, data, calls[..i])
      invariant Concluded(Decoding(Firmware, data[..next]), mode, total)
      invariant address % 2 == 0 ==> !z.strayed
    {
      var n := if calls[i].0 < |data| - next then calls[i].0 else |data| - next;
      var got := OneCall(z, data[next..next + n], calls[i].1, address, stray);
      MoreKnown(data, next, n);
      OneMore(data, calls, i);
      next := next + n;
      total := total + got;
      mode := z.mode;
    }
    strayed := z.strayed;
    assert calls[..|calls|] == calls;
    MoreKnown(data, next, |data| - next);
    KnownGrows(data, next);
    if Refused(data) == None { MadeStandard(data, calls); }
  }

  lemma StartsEmpty(data: seq<Byte>, calls: seq<(nat, nat)>)
    ensures Given(calls[..0]) == 0 && Made(Firmware, data, calls[..0]) == 0
    ensures Rest(InBlocks(false), [], []).end == Decoding(Firmware, data[..0]) == More(InBlocks(false), [], [])
  {
    hide Rest, Decode;
    BlockHeaderShort([], []);
    FromStart([]);
    var none: seq<bool> := [];
    assert none + none == none;
  }

  lemma OneMore(data: seq<Byte>, calls: seq<(nat, nat)>, i: nat)
    requires i < |calls|
    ensures Given(calls[..i + 1]) == Given(calls[..i]) + calls[i].0
    ensures Made(Firmware, data, calls[..i + 1]) ==
            Min(Made(Firmware, data, calls[..i]) + calls[i].1, |Decoding(Firmware, Known(data, calls[..i + 1])).out|)
  {
    hide Decoding;
    assert calls[..i + 1][..i] == calls[..i];
  }

  // Decoding what is known and then n bytes more.
  lemma MoreKnown(data: seq<Byte>, next: nat, n: nat)
    requires next + n <= |data|
    ensures Decoding(Firmware, data[..next + n]) ==
            Continue(Firmware, Decoding(Firmware, data[..next]), FromBytes(data[next..next + n]))
  {
    hide FromBytes, Decode, Continue;
    FromBytesConcat(data[..next], data[next..next + n]);
    assert data[..next] + data[next..next + n] == data[..next + n];
    DecodeMore(Firmware, Begin(FromBytes(data[..next])), FromBytes(data[next..next + n]));
  }

  // What is known gives the front of what all of it gives.
  lemma KnownGrows(data: seq<Byte>, next: nat)
    requires next <= |data|
    ensures Decoding(Firmware, data[..next]).out <= Decoding(Firmware, data).out
  {
    hide FromBytes, Decode, Continue;
    MoreKnown(data, next, |data| - next);
    assert data[..next + (|data| - next)] == data;
    MoreGrows(Firmware, Decoding(Firmware, data[..next]), FromBytes(data[next..next + (|data| - next)]));
  }

  // No header refused in all the input is none refused in what is known.
  lemma KnownRefused(data: seq<Byte>, next: nat)
    requires next <= |data| && Refused(data) == None
    ensures Refused(data[..next]) == None
  {
    hide FromBytes, First, HighHeader;
    FromBytesConcat(data[..next], data[next..]);
    assert data[..next] + data[next..] == data;
    if Refused(data[..next]).Some? { HighLasts(Begin(FromBytes(data[..next])), FromBytes(data[next..])); }
  }

  lemma {:induction false} MadeStandard(data: seq<Byte>, calls: seq<(nat, nat)>)
    requires Refused(data) == None
    ensures Made(Standard, data, calls) == Made(Firmware, data, calls)
    ensures Decoding(Firmware, data).out == Decoding(Standard, data).out
    ensures var r, s := Decoding(Firmware, Known(data, calls)), Decoding(Standard, Known(data, calls));
            r.out == s.out && (r.Accept? <==> s.Accept?)
    decreases |calls|
  {
    hide Rfc1951.Inflate, FromBytes, First, Given;
    KnownRefused(data, Min(Given(calls), |data|));
    Compared(FromBytes(data));
    Compared(FromBytes(Known(data, calls)));
    if calls != [] { MadeStandard(data, calls[..|calls| - 1]); }
  }

  // Output space given once all the input has come.
  function LateSpace(need: nat, calls: seq<(nat, nat)>): nat
  {
    if calls == [] then 0
    else LateSpace(need, calls[..|calls| - 1]) + if Given(calls) >= need then calls[|calls| - 1].1 else 0
  }

  // Whatever came before, everything is put out once there has been space for
  // it after the last of the input.
  lemma {:induction false} AllMade(rules: Rules, data: seq<Byte>, calls: seq<(nat, nat)>)
    ensures Made(rules, data, calls) >= Min(LateSpace(|data|, calls), |Decoding(rules, data).out|)
    ensures if Given(calls) >= |data| then Made(rules, data, calls) <= |Decoding(rules, data).out|
            else LateSpace(|data|, calls) == 0
    decreases |calls|
  {
    hide Decoding;
    if calls != [] {
      AllMade(rules, data, calls[..|calls| - 1]);
      assert data[..|data|] == data;
    }
  }

  // ---- what was compressed ----

  // With any blocks, codes and matches it comes back; but a block with lengths
  // for more than 30 distance symbols is refused, after what comes before it.
  method Decompress(blocks: seq<Deflate.Block>, out: array<Byte>, address: nat, stray: Byte) returns (ret: Ret, n: nat)
    requires Deflate.AllValid(blocks) && Deflate.Text(blocks, []).Some?
    modifies out
    ensures n <= out.Length
    ensures if Deflate.AllModest(blocks) then
              var text := Deflate.Text(blocks, []).value;
              && (ret == Z_STREAM_END <==> |text| <= out.Length)
              && (|text| <= out.Length ==> out[..n] == text)
            else
              var text := Deflate.Before(blocks, []);
              && (ret == Z_DATA_ERROR <==> |text| <= out.Length)
              && (|text| <= out.Length ==> out[..n] == text)
  {
    hide Deflate.AllValid, Deflate.Text, Deflate.Compressed, Rfc1951.Inflate, FromBytes, Deflate.AllModest, Deflate.Before,
         Spots;
    Deflate.CompressedDecodes(Firmware, blocks);
    ghost var strayed;
    ret, n, strayed := InflateWhole(Deflate.Compressed(blocks), out, address, stray);
  }

  // A call on a real stream that reads the byte before the output buffer.
  method StrayingCall(stray: Byte) returns (ret: Ret, n: nat, ghost strayed: bool)
    ensures strayed
  {
    hide Deflate.Compressed, FromBytes, Spots, Witnesses.StrayBlocks, Deflate.AllValid, Rfc1951.Inflate;
    Witnesses.StrayStream();
    var out := new Byte[300];
    ret, n, strayed := InflateWhole(Deflate.Compressed(Witnesses.StrayBlocks()), out, 1, stray);
  }

  // A call on a stream given byte by byte.
  method LetterCall(stray: Byte) returns (ret: Ret, out: array<Byte>, n: nat)
    ensures ret == Z_STREAM_END && n == 1 && out.Length == 1 && out[0] == 65
  {
    hide FromBytes, Spots, Rfc1951.Inflate;
    Samples.LetterStream(Firmware);
    out := new Byte[1];
    ghost var strayed;
    ret, n, strayed := InflateWhole([0x05, 0xc0, 0x81, 0x08, 0x00, 0x00, 0x00, 0x00, 0x20, 0xb6, 0xfd, 0xa5, 0x4e], out, 0, stray);
    assert out[..n] == [65] && out[0] == out[..n][0];
  }

  // A call that refuses a stream the standard accepts.
  method RefusingCall(stray: Byte) returns (ret: Ret, n: nat)
    ensures ret == Z_DATA_ERROR && n == 0
    ensures Deflate.AllValid(Witnesses.WideBlocks()) && Decoding(Standard, Deflate.Compressed(Witnesses.WideBlocks())) == Accept([0], [])
  {
    hide Deflate.Compressed, FromBytes, Spots, Witnesses.WideBlocks, Deflate.AllValid, Rfc1951.Inflate;
    Witnesses.WideStream();
    var out := new Byte[1];
    ghost var strayed;
    ret, n, strayed := InflateWhole(Deflate.Compressed(Witnesses.WideBlocks()), out, 0, stray);
  }
}
