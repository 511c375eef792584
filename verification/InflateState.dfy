// The fields of the decoder of wtmi/compressed/inflate.c and inffast.c as
// values: modes, the window, an element in progress, and what table entries
// make of them.
module InflateState {
  import opened Types
  import opened Bits
  import opened Canonical
  import opened DecodeTable
  import opened TableSize
  import opened InfTrees
  import opened Rfc1951
  import opened InflateSpec
  import opened BitStream

  datatype Mode =
    | HEAD | TYPE | TYPEDO | STORED | COPY | TABLE | LENLENS | CODELENS
    | LEN | LENEXT | DIST | DISTEXT | MATCH | LIT | CHECK | DONE | BAD

  datatype Ret = Z_OK | Z_STREAM_END | Z_DATA_ERROR | Z_BUF_ERROR

  // ret of the case left, and Z_BUF_ERROR for Z_OK if nothing was done.
  function ReturnCode(mode: Mode, idle: bool): Ret
  {
    match mode
    case DONE => Z_STREAM_END
    case BAD => Z_DATA_ERROR
    case _ => if idle then Z_BUF_ERROR else Z_OK
  }

  const WSIZE: nat := 32768

  // The circular window holds the last bytes of the output so far.
  ghost predicate WindowHolds(w: seq<Byte>, wsize: nat, whave: nat, write: nat, hist: seq<Byte>)
  {
    if wsize == 0 then whave == 0 && write == 0
    else
      && wsize == WSIZE == |w| && write < wsize
      && whave == (if |hist| < wsize then |hist| else wsize)
      && (whave < wsize ==> write == whave)
      && forall i | 1 <= i <= whave :: w[Slot(wsize, write, i)] == hist[|hist| - i]
  }

  // Window index of the byte i places back.
  function Slot(wsize: nat, write: nat, i: nat): nat
    requires write < wsize && 1 <= i <= wsize
  {
    if i <= write then write - i else write + wsize - i
  }

  // e is the entry of the symbol at the front of s, and s' comes after it.
  ghost predicate Decoded(ct: CodeType, ls: seq<nat>, s: seq<bool>, s': seq<bool>, e: Code)
  {
    match Symbol(ls, s)
    case None => e.op == INVALID.op && !Live(ls, s)
    case Some(k) => k < MaxCodes(ct) && (e.op, e.val) == Meaning(ct, k) && s' == s[ls[k]..]
  }

  // A table link, as inflate_fast tells it.
  predicate FastLink(op: nat)
  {
    op != 0 && op / 16 % 2 == 0 && op / 64 % 2 == 0
  }

  lemma CopyBackNone(o: seq<Byte>, d: nat)
    requires 1 <= d <= |o|
    ensures CopyBack(o, 0, d) == o
  {
  }

  // The stretch of the window that MATCH reads holds the bytes k back.
  lemma WindowSlice(w: seq<Byte>, wsize: nat, whave: nat, write: nat, hist: seq<Byte>, k: nat)
    requires WindowHolds(w, wsize, whave, write, hist) && 1 <= k <= whave
    ensures k <= wsize == |w| && write < wsize && k <= |hist|
    ensures var m := if k > write then k - write else k;
            var from := if k > write then wsize - m else write - k;
            0 <= from && from + m <= |w| && m <= k && w[from..from + m] == hist[|hist| - k..|hist| - k + m]
  {
    var m := if k > write then k - write else k;
    var from := if k > write then wsize - m else write - k;
    forall j | from <= j < from + m
      ensures w[j] == hist[|hist| - k + (j - from)]
    {
      assert Slot(wsize, write, k - (j - from)) == j;
    }
    var a, b := w[from..from + m], hist[|hist| - k..|hist| - k + m];
    assert forall x | 0 <= x < m :: a[x] == w[from + x] && b[x] == hist[|hist| - k + ((from + x) - from)];
    assert a == b;
  }

  // ---- inffast.c ----

  // The tests of inflate_fast on op single out the links.
  lemma FastLinks(t: seq<Code>, root: nat, ct: CodeType, ls: seq<nat>, h: nat, d: Code)
    requires Decodes(t, root, ct, ls) && Finds(t, root, h, d) && ct != CODES
    ensures !FastLink(d.op)
  {
    hide Meaning, Finds;
    var e, k := Lookup(t, root, ct, ls, h);
    SameFind(t, root, h, d, e);
    if k.Some? { FastMeaning(ct, k.value); }
  }

  lemma FastMeaning(ct: CodeType, s: nat)
    requires ct != CODES && s < MaxCodes(ct)
    ensures !FastLink(Meaning(ct, s).0)
  {
    hide Meaning;
    if ct == LENS { LengthOp(s); } else { DistOp(s); }
  }

  // A code with more than one-bit codewords: bits that gave no symbol are
  // fewer than its codeword has.
  lemma LongSettles(t: seq<Code>, root: nat, ct: CodeType, ls: seq<nat>, h: nat, n: nat, h': nat, d: Code)
    requires Decodes(t, root, ct, ls) && Finds(t, root, h', d) && Low(h', n) == Low(h, n)
    ensures 1 <= d.bits <= 15
    ensures Symbol(ls, ToBits(h, n)) == None && LongCode(ls) ==> d.bits > n
  {
    hide Symbol, Finds, Meaning;
    var e, k := Lookup(t, root, ct, ls, h');
    SameFind(t, root, h', d, e);
    if d.bits <= n && k.Some? {
      SameMatch(ls, k.value, n, h, h');
      SymbolOfMatch(ls, k.value, h, n);
    }
  }

  lemma SameFind(t: seq<Code>, root: nat, h: nat, d: Code, e: Code)
    requires Finds(t, root, h, d) && Finds(t, root, h, e)
    ensures d == e
  {
  }

  lemma LinkIndex(tab: seq<Code>, at: nat, t: seq<Code>, root: nat, h: nat, d: Code, link: Code)
    requires at + |t| <= |tab| && tab[at..at + |t|] == t && Finds(t, root, h, d)
    requires Low(h, root) < |t| && t[Low(h, root)] == link && IsLink(link)
    ensures link.bits == root
    ensures var j := link.val + Low(Shr(h, root), link.op);
            && j < |t| && tab[at + j] == t[j]
            && t[j].op == d.op && t[j].val == d.val && t[j].bits + root == d.bits
  {
  }

  // The check against whave is the check against the whole output so far.
  lemma WindowLimit(w: seq<Byte>, wsize: nat, whave: nat, write: nat, hist: seq<Byte>, d: nat, made: nat)
    requires WindowHolds(w, wsize, whave, write, hist) && (wsize == 0 ==> hist == []) && d <= WSIZE
    ensures d > whave + made <==> d > |hist| + made
  {
  }

  lemma GetNone(s: seq<bool>)
    ensures Get(s, 0) == 0 && s[0..] == s
  {
  }

  lemma BadReach(lit: seq<nat>, dist: seq<nat>, s: seq<bool>, o: seq<Byte>)
    ensures ReachAt(lit, dist, BAD, AtStart, s, o, Broken(o))
  {
  }

  lemma EndReach(lit: seq<nat>, dist: seq<nat>, s: seq<bool>, o: seq<Byte>)
    ensures ReachAt(lit, dist, TYPE, AtStart, s, o, Point(s, o, true))
  {
  }

  lemma LiteralReach(lit: seq<nat>, dist: seq<nat>, s: seq<bool>, o: seq<Byte>)
    ensures ReachAt(lit, dist, LEN, AtStart, s, o, Point(s, o, false))
  {
  }

  // The tests of inflate_fast on the op of a literal/length entry.
  lemma FastLenOp(lit: seq<nat>, dist: seq<nat>, s: seq<bool>, s': seq<bool>, o: seq<Byte>, e: Code)
    requires Decoded(LENS, lit, s, s', e)
    ensures var a := After(lit, dist, AtStart, s, o);
            if e.op == 0 then e.val < 256 && a == Point(s', o + [e.val], false)
            else if e.op / 16 % 2 == 1 then
              a == After(lit, dist, AtLength(e.val, e.op % 16), s', o) &&
              e.op % 16 <= 5 && 3 <= e.val && e.val + Pow2(e.op % 16) <= 259
            else if e.op / 32 % 2 == 1 then a == Point(s', o, true)
            else a == Broken(o)
    ensures Distance(lit, dist, AtStart, s) ==
            if e.op != 0 && e.op / 16 % 2 == 1 then Distance(lit, dist, AtLength(e.val, e.op % 16), s') else 0
  {
    hide Symbol, Meaning, After, Live, Distance;
    AfterStart(lit, dist, s, o);
    DistanceStart(lit, dist, s);
    var r := Symbol(lit, s);
    if r.Some? {
      LengthOp(r.value);
      if r.value < 256 { AfterLiteral(lit, dist, r.value, s', o); }
      if r.value > 285 { LengthBad(r.value); }
    }
  }

  lemma AfterLiteral(lit: seq<nat>, dist: seq<nat>, b: Byte, s: seq<bool>, o: seq<Byte>)
    ensures After(lit, dist, AtLiteral(b), s, o) == Point(s, o + [b], false)
  {
  }

  lemma LengthBad(s: nat)
    requires 286 <= s < 288
    ensures Meaning(LENS, s).0 / 16 % 2 == 0
  {
  }

  lemma FastDistOp(lit: seq<nat>, dist: seq<nat>, len: nat, s: seq<bool>, s': seq<bool>, o: seq<Byte>, e: Code)
    requires Decoded(DISTS, dist, s, s', e)
    ensures var a := After(lit, dist, AtDist(len), s, o);
            if e.op / 16 % 2 == 1 then
              a == After(lit, dist, AtDistBits(len, e.val, e.op % 16), s', o) &&
              e.op % 16 <= 13 && 1 <= e.val && e.val + Pow2(e.op % 16) <= WSIZE + 1
            else a == Broken(o)
    ensures Distance(lit, dist, AtDist(len), s) ==
            if e.op / 16 % 2 == 1 then Distance(lit, dist, AtDistBits(len, e.val, e.op % 16), s') else 0
  {
    hide Symbol, Meaning, After, Live, Distance;
    AfterDist(lit, dist, len, s, o);
    DistanceDist(lit, dist, len, s);
    var r := Symbol(dist, s);
    if r.Some? {
      DistOp(r.value);
      if r.value > 29 { DistBad(r.value); }
    }
  }

  lemma DistBad(s: nat)
    requires 30 <= s < 32
    ensures Meaning(DISTS, s).0 / 16 % 2 == 0
  {
  }

  lemma FastDistReach(lit: seq<nat>, dist: seq<nat>, mode: Mode, len: nat, d: nat, extra: nat,
                      s: seq<bool>, s': seq<bool>, o: seq<Byte>, o': seq<Byte>, v: nat)
    requires |s| >= extra && v == Get(s, extra) && s' == s[extra..] && 1 <= d
    requires mode == if d + v > |o| then BAD else LEN
    requires o' == if mode == LEN then CopyBack(o, len, d + v) else o
    ensures ReachAt(lit, dist, mode, AtStart, s', o', After(lit, dist, AtDistBits(len, d, extra), s, o))
  {
    hide After, CopyBack;
    AfterDistBits(lit, dist, len, d, extra, s, o);
    AfterCopy(lit, dist, len, d + v, s', o);
  }

  // What order the cases of one pass come in.
  function Turn(mode: Mode): nat
  {
    match mode
    case HEAD | COPY | LENEXT | DISTEXT | LENLENS => 3
    case TYPE | TYPEDO | CODELENS => 2
    case TABLE | STORED | CHECK => 1
    case _ => 0
  }

  // ---- runs of elements ----

  // n whole elements of a block have brought the decoder from (s, o) to
  // (s', o'), or else the end of the block or an error after them has.
  ghost predicate Rounds(lit: seq<nat>, dist: seq<nat>, mode: Mode, s: seq<bool>, o: seq<Byte>, s': seq<bool>, o': seq<Byte>, n: nat)
  {
    match Elements(lit, dist, s, o, n)
    case None => false
    case Some(p) =>
      if mode == LEN then p == Point(s', o', false)
      else ReachAt(lit, dist, mode, AtStart, s', o', After(lit, dist, AtStart, p.bits, p.out))
  }

  lemma RoundsNone(lit: seq<nat>, dist: seq<nat>, s: seq<bool>, o: seq<Byte>)
    ensures Rounds(lit, dist, LEN, s, o, s, o, 0)
  {
  }

  lemma RoundsMore(lit: seq<nat>, dist: seq<nat>, mode: Mode, s: seq<bool>, o: seq<Byte>,
                   s1: seq<bool>, o1: seq<Byte>, s': seq<bool>, o': seq<Byte>, n: nat)
    requires Rounds(lit, dist, LEN, s, o, s1, o1, n)
    requires ReachAt(lit, dist, mode, AtStart, s', o', After(lit, dist, AtStart, s1, o1))
    requires mode == LEN || mode == TYPE || mode == BAD
    ensures Rounds(lit, dist, mode, s, o, s', o', if mode == LEN then n + 1 else n)
  {
    hide After, Elements;
    ElementsStep(lit, dist, s, o, n);
  }

  // Stream, output and mode after n elements do not depend on how they were
  // decoded.
  lemma RoundsAgree(lit: seq<nat>, dist: seq<nat>, s: seq<bool>, o: seq<Byte>, n: nat,
                    m1: Mode, s1: seq<bool>, o1: seq<Byte>, m2: Mode, s2: seq<bool>, o2: seq<Byte>)
    requires Rounds(lit, dist, m1, s, o, s1, o1, n) && Rounds(lit, dist, m2, s, o, s2, o2, n)
    requires m1 in {LEN, TYPE, BAD} && m2 in {LEN, TYPE, BAD} && (m1 == LEN <==> m2 == LEN)
    ensures m1 == m2 && o1 == o2 && (m1 != BAD ==> s1 == s2)
  {
    hide After, Elements;
  }

  // What the reference makes of the rest of the stream stays the same.
  lemma RoundsRest(lit: seq<nat>, dist: seq<nat>, last: bool, mode: Mode, s: seq<bool>, o: seq<Byte>,
                   s': seq<bool>, o': seq<Byte>, n: nat)
    requires Rounds(lit, dist, mode, s, o, s', o', n) && (mode == LEN || mode == TYPE || mode == BAD)
    ensures Rest(InElement(lit, dist, last, AtStart), s, o).end ==
            if mode == LEN then Rest(InElement(lit, dist, last, AtStart), s', o').end
            else if mode == TYPE then Rest(InBlocks(last), s', o').end else Reject(o')
  {
    hide Elements, After, Rest, Spot;
    ElementsRest(lit, dist, last, s, o, n);
    var p := Elements(lit, dist, s, o, n).value;
    RestElement(lit, dist, last, AtStart, p.bits, p.out);
  }

  // ---- elements that repeat the byte before them ----

  // After i elements from s on there are k bytes of output, and the next
  // element is a copy from distance 1.
  predicate StraysAt(lit: seq<nat>, dist: seq<nat>, s: seq<bool>, o: seq<Byte>, i: nat, k: nat)
  {
    match Elements(lit, dist, s, o, i)
    case None => false
    case Some(p) => |p.out| == k && Distance(lit, dist, AtStart, p.bits) == 1
  }

  predicate Strays(lit: seq<nat>, dist: seq<nat>, s: seq<bool>, o: seq<Byte>, n: nat, k: nat)
  {
    exists i | 0 <= i < n :: StraysAt(lit, dist, s, o, i, k)
  }

  lemma StraysMore(lit: seq<nat>, dist: seq<nat>, s: seq<bool>, o: seq<Byte>, s1: seq<bool>, o1: seq<Byte>, n: nat, k: nat)
    requires Rounds(lit, dist, LEN, s, o, s1, o1, n)
    ensures Strays(lit, dist, s, o, n + 1, k) <==>
            Strays(lit, dist, s, o, n, k) || (|o1| == k && Distance(lit, dist, AtStart, s1) == 1)
  {
    hide Elements, Distance;
    assert StraysAt(lit, dist, s, o, n, k) <==> |o1| == k && Distance(lit, dist, AtStart, s1) == 1;
  }

  // An element that is not whole, or is the end of the block, is none of them.
  lemma NoStray(lit: seq<nat>, dist: seq<nat>, mode: Mode, s: seq<bool>, o: seq<Byte>, s': seq<bool>, o': seq<Byte>)
    requires ReachAt(lit, dist, mode, AtStart, s', o', After(lit, dist, AtStart, s, o)) && |o| >= 1
    ensures mode == TYPE || mode == BAD ==> Distance(lit, dist, AtStart, s) != 1
  {
    hide After, Distance;
    DistanceWhole(lit, dist, s, o);
  }

  lemma StraysNone(lit: seq<nat>, dist: seq<nat>, s: seq<bool>, o: seq<Byte>, k: nat)
    ensures !Strays(lit, dist, s, o, 0, k)
  {
  }

  // A read has gone outside the buffers, or will: with k bytes of output, which
  // is one in this call, and an odd address there is still such an element to
  // come, and space enough for inflate_fast.
  predicate Dangers(strayed: bool, odd: bool, space: int, k: nat, v: View)
  {
    strayed || (odd && space >= 259 && k in v.spots)
  }

  lemma FewerSpots(strayed: bool, odd: bool, space: int, k: nat, v: View, v': View, spot: bool, n: nat)
    requires v == Seen(spot, n, v') && (spot && n == k ==> space < 259)
    ensures Dangers(strayed, odd, space, k, v) <==> Dangers(strayed, odd, space, k, v')
  {
  }

  // Some elements have gone by; run says whether one of them strayed, were the
  // address odd.
  lemma RunDanger(strayed: bool, strayed': bool, odd: bool, space: int, k: nat, v: View, v': View, run: bool)
    requires (strayed' <==> strayed || (run && odd)) && (run ==> space >= 259)
    requires k in v.spots <==> run || k in v'.spots
    ensures Dangers(strayed, odd, space, k, v) <==> Dangers(strayed', odd, space, k, v')
  {
  }

  // The end of whole elements, as a mode tells it.
  function Where(mode: Mode, s: seq<bool>, o: seq<Byte>): Point
  {
    if mode == BAD then Broken(o) else Point(s, o, mode == TYPE)
  }

  // One more element: whether it is one of them, and what that leaves of those
  // still to come.
  lemma StrayStep(lit: seq<nat>, dist: seq<nat>, last: bool, mode: Mode, s: seq<bool>, o: seq<Byte>,
                  s1: seq<bool>, o1: seq<Byte>, s': seq<bool>, o': seq<Byte>, n: nat, k: nat)
    requires Rounds(lit, dist, LEN, s, o, s1, o1, n) && |s1| >= 48 && k >= 1
    requires ReachAt(lit, dist, mode, AtStart, s', o', After(lit, dist, AtStart, s1, o1))
    requires mode == LEN || mode == TYPE || mode == BAD
    ensures var here := |o1| == k && Distance(lit, dist, AtStart, s1) == 1;
            && (Strays(lit, dist, s, o, if mode == LEN then n + 1 else n, k) <==> Strays(lit, dist, s, o, n, k) || here)
            && (k in Resume(lit, dist, last, Where(LEN, s1, o1)).spots <==>
                here || k in Resume(lit, dist, last, Where(mode, s', o')).spots)
  {
    hide After, Distance, Rest, Elements, Strays, Rounds;
    StraysMore(lit, dist, s, o, s1, o1, n, k);
    if |o1| == k { NoStray(lit, dist, mode, s1, o1, s', o'); }
    SpotStep(lit, dist, last, s1, o1, k);
  }

  // Where such an element is among those still to come.
  lemma SpotStep(lit: seq<nat>, dist: seq<nat>, last: bool, s: seq<bool>, o: seq<Byte>, k: nat)
    requires |s| >= 48
    ensures var c := InElement(lit, dist, last, AtStart);
            k in Rest(c, s, o).spots <==>
            (|o| == k && Distance(lit, dist, AtStart, s) == 1) ||
            k in Resume(lit, dist, last, After(lit, dist, AtStart, s, o)).spots
  {
    hide After, Distance, Rest, Resume;
    RestElement(lit, dist, last, AtStart, s, o);
  }

  // ---- code lengths as they come in ----

  function Sent(lens: seq<nat>, n: nat): seq<nat>
  {
    if n <= 19 <= |lens| then seq(n, i requires 0 <= i < n => lens[ORDER[i]]) else []
  }

  function Prefix(lens: seq<nat>, n: nat): seq<nat>
  {
    if n <= |lens| then lens[..n] else []
  }

  lemma BytesFront(hold: nat, input: seq<Byte>, next: nat, n: nat)
    requires next + n <= |input|
    ensures Unread(hold, 0, input, next) == FromBytes(input[next..next + n]) + Unread(hold, 0, input, next + n)
  {
    hide FromBytes;
    FromBytesConcat(input[next..next + n], input[next + n..]);
    assert input[next..next + n] + input[next + n..] == input[next..];
    assert ToBits(hold, 0) == [];
  }

  lemma NothingLeft(hold: nat, bits: nat, input: seq<Byte>, next: nat)
    requires next == |input|
    ensures Unread(hold, bits, input, next) == ToBits(hold, bits)
  {
    hide ToBits;
    assert input[next..] == [];
  }

  lemma SentLength(lens: seq<nat>, n: nat)
    requires n <= 19 <= |lens|
    ensures |Sent(lens, n)| == n
  {
  }

  lemma SentNone(lens: seq<nat>)
    ensures Sent(lens, 0) == []
  {
  }

  lemma SentAre(lens: seq<nat>, n: nat)
    requires n <= 19 <= |lens|
    ensures |Sent(lens, n)| == n && forall k | 0 <= k < n :: Sent(lens, n)[k] == lens[ORDER[k]]
  {
  }

  // The three tables of a dynamic block fit, well below ENOUGH - MAXD.
  lemma TableSpaces()
    ensures Space(7, 19) <= 1000
    ensures forall n: nat | n <= 286 :: Space(9, n) <= 900
    ensures forall n: nat | n <= 30 :: Space(6, n) <= 700
    ensures Space(9, 288) <= 900 && Space(5, 32) <= 1200
  {
    assert Pow2(3) == 8 && Pow2(6) == 8 * Pow2(3) && Pow2(9) == 8 * Pow2(6) && Pow2(10) == 2 * Pow2(9);
    assert Pow2(5) == 4 * Pow2(3) && Pow2(7) == 2 * Pow2(6) && Pow2(8) == 2 * Pow2(7);
  }

  // In a table of a code length code: no links, and a symbol for all bits.
  lemma CodesFound(t: seq<Code>, root: nat, cl: seq<nat>, h: nat, d: Code)
    requires Decodes(t, root, CODES, cl) && Finds(t, root, h, d) && Usable(cl, false)
    requires (forall i | 0 <= i < |cl| :: cl[i] <= 7) && (Empty(cl) || forall i | 0 <= i < |cl| :: cl[i] <= root)
    ensures d.bits <= root && d.bits <= 7
    ensures if Empty(cl) then d == INVALID else d.op == 0
  {
    hide Finds, Low;
    var e, k := Lookup(t, root, CODES, cl, h);
    SameFind(t, root, h, d, e);
    if Complete(cl) { var s := CompleteCovers(cl, h); }
  }

  // An item of the code lengths.
  lemma ItemAdds(h: Header, cl: seq<nat>, got: seq<nat>, last: bool, s: seq<bool>, s': seq<bool>, adds: seq<nat>, o: seq<Byte>)
    requires |got| + |adds| <= h.nlen + h.ndist && |adds| > 0
    requires ReadItem(Firmware, cl, got, s) == Item(adds, s')
    ensures Rest(InLengths(h, cl, got + adds, last), s', o) == Rest(InLengths(h, cl, got, last), s, o)
  {
    hide ReadItem, Rest;
    LengthsStep(h, cl, got, last, s, o);
  }

  lemma SentStore(lens: seq<nat>, n: nat, v: nat)
    requires n < 19 <= |lens|
    ensures Sent(lens[ORDER[n] := v], n + 1) == Sent(lens, n) + [v]
    ensures forall i | 0 <= i < n :: ORDER[i] != ORDER[n]
  {
    forall i: nat | i < n ensures ORDER[i] != ORDER[n] { if ORDER[i] == ORDER[n] { OrderInjective(i, n); } }
  }

  lemma SmallLow(h: nat, n: nat)
    ensures n == 3 ==> Low(h, n) <= 7
    ensures n == 4 ==> Low(h, n) <= 15
    ensures n == 5 ==> Low(h, n) <= 31
  {
    hide Low;
    assert Pow2(3) == 8 && Pow2(5) == 4 * Pow2(3);
  }

  // ---- updatewindow() ----

  lemma WindowShape(w: seq<Byte>, wsize: nat, whave: nat, write: nat, hist: seq<Byte>)
    requires WindowHolds(w, wsize, whave, write, hist) && wsize > 0
    ensures wsize == WSIZE == |w| && write < wsize && whave <= wsize
    ensures whave == if |hist| < wsize then |hist| else wsize
    ensures whave < wsize ==> write == whave
  {
  }

  lemma NoWindow(w: seq<Byte>, whave: nat, write: nat, hist: seq<Byte>, hist': seq<Byte>)
    requires WindowHolds(w, 0, whave, write, hist)
    ensures WindowHolds(w, 0, whave, write, hist')
  {
  }

  lemma NewWindow(w: seq<Byte>)
    requires |w| == WSIZE
    ensures WindowHolds(w, WSIZE, 0, 0, [])
  {
  }

  function Patched(w: seq<Byte>, at: nat, o: seq<Byte>): (r: seq<Byte>)
    requires at + |o| <= |w|
    ensures |r| == |w|
  {
    w[..at] + o + w[at + |o|..]
  }

  // The last WSIZE bytes of new output replace the window.
  lemma WindowReplaced(w: seq<Byte>, o: seq<Byte>, hist: seq<Byte>)
    requires |o| >= WSIZE == |w|
    ensures WindowHolds(Patched(w, 0, o[|o| - WSIZE..|o| - WSIZE + WSIZE]), WSIZE, WSIZE, 0, hist + o)
  {
    var w', h := Patched(w, 0, o[|o| - WSIZE..|o| - WSIZE + WSIZE]), hist + o;
    forall i | 1 <= i <= WSIZE
      ensures w'[Slot(WSIZE, 0, i)] == h[|h| - i]
    {
      assert w'[WSIZE - i] == o[|o| - i];
    }
  }

  // New output that reaches at most the end of the window.
  lemma WindowAppended(w: seq<Byte>, whave: nat, write: nat, hist: seq<Byte>, o: seq<Byte>, dist: nat)
    requires WindowHolds(w, WSIZE, whave, write, hist) && write + |o| <= WSIZE && dist == |o|
    ensures var write' := if write + dist == WSIZE then 0 else write + dist;
            WindowHolds(Patched(w, write, o[0..0 + dist]), WSIZE, if whave < WSIZE then whave + dist else WSIZE, write', hist + o)
  {
    var w' := Patched(w, write, o[0..0 + dist]);
    var write' := if write + |o| == WSIZE then 0 else write + |o|;
    var whave' := if whave < WSIZE then whave + |o| else WSIZE;
    var h := hist + o;
    forall i | 1 <= i <= whave'
      ensures w'[Slot(WSIZE, write', i)] == h[|h| - i]
    {
      var k := Slot(WSIZE, write', i);
      if i <= |o| {
        assert k == write + |o| - i && w'[k] == o[|o| - i];
      } else {
        assert k == Slot(WSIZE, write, i - |o|);
        assert w'[k] == w[k] == hist[|hist| - (i - |o|)];
      }
    }
  }

  // New output that goes round the end of the window.
  lemma WindowWrapped(w: seq<Byte>, whave: nat, write: nat, hist: seq<Byte>, o: seq<Byte>, dist: nat, copy: nat)
    requires WindowHolds(w, WSIZE, whave, write, hist) && dist == WSIZE - write && dist + copy == |o| < WSIZE
    ensures var w1 := Patched(w, write, o[0..0 + dist]);
            WindowHolds(Patched(w1, 0, o[dist..dist + copy]), WSIZE, WSIZE, copy, hist + o)
  {
    var w1 := Patched(w, write, o[0..0 + dist]);
    var w', h := Patched(w1, 0, o[dist..dist + copy]), hist + o;
    forall i | 1 <= i <= WSIZE
      ensures w'[Slot(WSIZE, copy, i)] == h[|h| - i]
    {
      var k := Slot(WSIZE, copy, i);
      if i <= copy {
        assert w'[k] == o[|o| - i];
      } else if i <= |o| {
        assert k == write + (|o| - i) && w'[k] == w1[k] == o[|o| - i];
      } else {
        assert k == Slot(WSIZE, write, i - |o|) && w'[k] == w1[k] == w[k] == hist[|hist| - (i - |o|)];
      }
    }
  }

  lemma SubSlice<T>(a: seq<T>, i: nat, b: seq<T>, j: nat, m: nat, c: nat)
    requires c <= m && i + m <= |a| && j + m <= |b| && a[i..i + m] == b[j..j + m]
    ensures a[i..i + c] == b[j..j + c]
  {
    assert a[i..i + c] == a[i..i + m][..c];
    assert b[j..j + c] == b[j..j + m][..c];
  }

  lemma MatchPend(length: nat, offset: nat, extra: nat, n: nat)
    requires Fields(MATCH, length, offset, extra, n)
    ensures 1 <= length && 1 <= offset <= WSIZE && offset <= n
  {
  }

  lemma MatchReach(lit: seq<nat>, dist: seq<nat>, s: seq<bool>, o: seq<Byte>, o': seq<Byte>, n: nat, copy: nat,
                   mode: Mode, length: nat, offset: nat, extra: nat)
    requires Fields(MATCH, n, offset, extra, |o|) && 1 <= copy <= n && length == n - copy
    requires o' == CopyBack(o, copy, offset) && mode == if length == 0 then LEN else MATCH
    ensures Fields(mode, length, offset, extra, |o'|)
    ensures ReachAt(lit, dist, mode, PendOf(mode, length, offset, extra), s, o',
                    After(lit, dist, PendOf(MATCH, n, offset, extra), s, o))
  {
    hide After, CopyBack;
    CopyBackAdd(o, copy, length, offset);
    AfterCopy(lit, dist, n, offset, s, o);
    AfterCopy(lit, dist, length, offset, s, o');
    if length == 0 { CopyBackNone(o', offset); }
  }

  lemma WindowReach(w: seq<Byte>, wsize: nat, whave: nat, write: nat, hist: seq<Byte>, d: nat, made: nat)
    requires WindowHolds(w, wsize, whave, write, hist) && (wsize == 0 ==> hist == [])
    requires d <= WSIZE && d <= |hist| + made
    ensures d <= whave + made
  {
  }

  // ---- the steps of an element, on values ----

  // Progress inside the current element.
  function PendOf(mode: Mode, length: nat, offset: nat, extra: nat): Pending
  {
    match mode
    case LENEXT => AtLength(length, extra)
    case DIST => AtDist(length)
    case DISTEXT => AtDistBits(length, offset, extra)
    case MATCH => AtCopy(length, offset)
    case LIT => if length < 256 then AtLiteral(length) else AtStart
    case _ => AtStart
  }

  // The fields of an element in progress, with outLen bytes of output so far.
  predicate Fields(mode: Mode, length: nat, offset: nat, extra: nat, outLen: int)
  {
    match mode
    case LENEXT => 3 <= length && extra <= 5 && length + Pow2(extra) <= 259
    case DIST => 3 <= length <= 258
    case DISTEXT => 3 <= length <= 258 && 1 <= offset && extra <= 13 && offset + Pow2(extra) <= WSIZE + 1
    case MATCH => 1 <= length <= 258 && 1 <= offset <= WSIZE && offset <= outLen
    case LIT => length < 256
    case _ => true
  }

  predicate LongCode(ls: seq<nat>)
  {
    exists i | 0 <= i < |ls| :: ls[i] > 1
  }

  // Too few bits are held for what comes next.
  predicate Needs(mode: Mode, extra: nat, lit: seq<nat>, dist: seq<nat>, held: seq<bool>)
  {
    || (mode == LEN && Symbol(lit, held) == None && (held == [] || LongCode(lit)))
    || (mode == DIST && Symbol(dist, held) == None)
    || (mode == DISTEXT && |held| < extra)
    || mode == BAD
  }

  predicate ReachAt(lit: seq<nat>, dist: seq<nat>, mode: Mode, e: Pending, bits: seq<bool>, out: seq<Byte>, a: Point)
  {
    if mode == BAD then a == Broken(out)
    else if mode == TYPE then a == Point(bits, out, true)
    else if mode == LEN then a == Point(bits, out, false)
    else mode in {LENEXT, DIST, DISTEXT, MATCH, LIT} && After(lit, dist, e, bits, out) == a
  }

  // The tests on op in mode LEN: literal, op & 32, op & 64, length base.
  function LenMode(op: nat): Mode
  {
    if op == 0 then LIT
    else if op / 32 % 2 == 1 then TYPE
    else if op / 64 % 2 == 1 then BAD
    else LENEXT
  }

  lemma StartPend(lit: seq<nat>, dist: seq<nat>, length: nat, offset: nat, extra: nat, bits: nat, held: seq<bool>)
    ensures PendOf(LEN, length, offset, extra) == AtStart
    ensures Needs(LEN, extra, lit, dist, held) ==> Symbol(lit, held) == None && (held == [] || LongCode(lit))
    ensures forall n: int :: Fields(LEN, length, offset, extra, n)
  {
  }

  lemma StartShort(lit: seq<nat>, dist: seq<nat>, length: nat, offset: nat, extra: nat, bits: nat, held: seq<bool>, out: seq<Byte>)
    requires Symbol(lit, held) == None && (held == [] || LongCode(lit)) && Live(lit, held)
    ensures Needs(LEN, extra, lit, dist, held) && After(lit, dist, AtStart, held, out) == Waiting(AtStart, held, out)
  {
    hide Symbol, Live, LongCode;
    AfterStart(lit, dist, held, out);
  }

  // What becomes of the entry found in mode LEN.
  lemma LenReach(lit: seq<nat>, dist: seq<nat>, s: seq<bool>, s': seq<bool>, out: seq<Byte>, e: Code,
                 mode: Mode, length: nat, offset: nat, extra: nat)
    requires Decoded(LENS, lit, s, s', e)
    requires length == e.val
    requires mode == LenMode(e.op) && (mode == LENEXT ==> extra == e.op % 16)
    ensures Fields(mode, length, offset, extra, |out|)
    ensures mode == BAD ==> forall held: seq<bool> :: Needs(mode, extra, lit, dist, held)
    ensures ReachAt(lit, dist, mode, PendOf(mode, length, offset, extra), s', out, After(lit, dist, AtStart, s, out))
    ensures mode == LIT || mode == LENEXT || mode == TYPE || mode == BAD
    ensures mode == BAD <==> !(e.op / 64 % 2 == 0 || mode == TYPE)
    ensures e.op == INVALID.op ==> mode == BAD
  {
    hide Symbol, Meaning, After, Pow2, LengthBase, LengthExtra, Live;
    AfterStart(lit, dist, s, out);
    var r := Symbol(lit, s);
    if r.Some? { LengthOp(r.value); }
  }

  lemma LenExtPend(lit: seq<nat>, dist: seq<nat>, length: nat, offset: nat, extra: nat, n: nat, held: seq<bool>)
    requires Fields(LENEXT, length, offset, extra, n)
    ensures PendOf(LENEXT, length, offset, extra) == AtLength(length, extra) && extra <= 5
    ensures !Needs(LENEXT, extra, lit, dist, held)
  {
  }

  lemma LenExtReach(lit: seq<nat>, dist: seq<nat>, s: seq<bool>, s': seq<bool>, out: seq<Byte>,
                    length0: nat, length: nat, offset: nat, extra: nat)
    requires Fields(LENEXT, length0, offset, extra, |out|) && |s| >= extra
    requires length == length0 + Get(s, extra) && s' == s[extra..]
    ensures Fields(DIST, length, offset, extra, |out|)
    ensures ReachAt(lit, dist, DIST, PendOf(DIST, length, offset, extra), s', out,
                    After(lit, dist, AtLength(length0, extra), s, out))
  {
    hide Symbol, After;
    AfterLength(lit, dist, length0, extra, s, out);
  }

  lemma DistPend(lit: seq<nat>, dist: seq<nat>, length: nat, offset: nat, extra: nat, n: nat, held: seq<bool>)
    requires Fields(DIST, length, offset, extra, n)
    ensures PendOf(DIST, length, offset, extra) == AtDist(length) && 3 <= length <= 258
    ensures Needs(DIST, extra, lit, dist, held) ==> Symbol(dist, held) == None
    ensures Symbol(dist, held) == None ==> Needs(DIST, extra, lit, dist, held)
  {
    hide Symbol;
  }

  lemma DistReach(lit: seq<nat>, dist: seq<nat>, s: seq<bool>, s': seq<bool>, out: seq<Byte>, e: Code,
                  mode: Mode, length: nat, offset: nat, extra: nat)
    requires Decoded(DISTS, dist, s, s', e)
    requires 3 <= length <= 258
    requires if e.op / 64 % 2 == 1 then mode == BAD else mode == DISTEXT && offset == e.val && extra == e.op % 16
    ensures Fields(mode, length, offset, extra, |out|)
    ensures mode == BAD ==> forall held: seq<bool> :: Needs(mode, extra, lit, dist, held)
    ensures ReachAt(lit, dist, mode, PendOf(mode, length, offset, extra), s', out, After(lit, dist, AtDist(length), s, out))
  {
    hide Symbol, Meaning, After, Live, DistBase, DistExtra;
    AfterDist(lit, dist, length, s, out);
    var r := Symbol(dist, s);
    if r.Some? { DistOp(r.value); }
  }

  lemma DistExtPend(lit: seq<nat>, dist: seq<nat>, length: nat, offset: nat, extra: nat, n: nat, held: seq<bool>)
    requires Fields(DISTEXT, length, offset, extra, n)
    ensures PendOf(DISTEXT, length, offset, extra) == AtDistBits(length, offset, extra) && extra <= 13
    ensures Needs(DISTEXT, extra, lit, dist, held) <==> |held| < extra
  {
  }

  lemma DistExtReach(lit: seq<nat>, dist: seq<nat>, s: seq<bool>, s': seq<bool>, out: seq<Byte>,
                     offset0: nat, mode: Mode, length: nat, offset: nat, extra: nat,
                     w: seq<Byte>, wsize: nat, whave: nat, write: nat, hist: seq<Byte>)
    requires Fields(DISTEXT, length, offset0, extra, |out|) && |s| >= extra
    requires offset == offset0 + Get(s, extra) && s' == s[extra..]
    requires WindowHolds(w, wsize, whave, write, hist) && (wsize == 0 ==> hist == []) && |hist| <= |out|
    requires mode == if offset > whave + (|out| - |hist|) then BAD else MATCH
    ensures Fields(mode, length, offset, extra, |out|)
    ensures mode == BAD ==> forall held: seq<bool> :: Needs(mode, extra, lit, dist, held)
    ensures ReachAt(lit, dist, mode, PendOf(mode, length, offset, extra), s', out,
                    After(lit, dist, AtDistBits(length, offset0, extra), s, out))
  {
    hide Symbol, After, CopyBack;
    AfterDistBits(lit, dist, length, offset0, extra, s, out);
    AfterCopy(lit, dist, length, offset, s', out);
  }

  lemma DistOp(s: nat)
    requires s < 32
    ensures var op := Meaning(DISTS, s).0;
            && (s <= 29 ==>
                  && op == 16 + DistExtra(s) && Meaning(DISTS, s).1 == DistBase(s) && op / 64 % 2 == 0
                  && DistExtra(s) <= 13 && 1 <= DistBase(s) && DistBase(s) + Pow2(DistExtra(s)) <= WSIZE + 1)
            && (s >= 30 ==> op / 64 % 2 == 1)
  {
    if s <= 29 { DistTable(s); }
  }

  // The op of a length/literal symbol, as the C code takes it apart.
  lemma LengthOp(s: nat)
    requires s < 288
    ensures var op := Meaning(LENS, s).0;
            && (s < 256 ==> op == 0 && Meaning(LENS, s).1 == s)
            && (s == 256 ==> op == 96)
            && (257 <= s <= 285 ==>
                  && op == 16 + LengthExtra(s) && Meaning(LENS, s).1 == LengthBase(s)
                  && LengthExtra(s) <= 5 && 3 <= LengthBase(s) && LengthBase(s) + Pow2(LengthExtra(s)) <= 259)
            && (s >= 286 ==> op / 64 % 2 == 1 && op / 32 % 2 == 0 && op != 0)
  {
    if 257 <= s <= 285 { LengthTable(s); }
  }

  lemma LongEntry(t: seq<Code>, root: nat, ct: CodeType, ls: seq<nat>, h: nat, d: Code)
    requires Decodes(t, root, ct, ls) && Finds(t, root, h, d)
    ensures d.bits <= 1 || LongCode(ls)
  {
    hide Meaning;
    var e, k := Lookup(t, root, ct, ls, h);
    if k.Some? { assert ls[k.value] == d.bits; }
  }

  // What the levels of a lookup show.
  lemma LookupRoot(tab: seq<Code>, at: nat, t: seq<Code>, root: nat, h: nat, d: Code)
    requires at + |t| <= |tab| && tab[at..at + |t|] == t && Finds(t, root, h, d) && d.bits >= 1
    ensures var i := Low(h, root);
            && i < |t| && tab[at + i] == t[i]
            && if IsLink(t[i]) then t[i].bits == root < d.bits else t[i] == d
  {
  }

  lemma LookupSub(tab: seq<Code>, at: nat, t: seq<Code>, root: nat, h: nat, d: Code, link: Code)
    requires at + |t| <= |tab| && tab[at..at + |t|] == t && Finds(t, root, h, d)
    requires Low(h, root) < |t| && t[Low(h, root)] == link && IsLink(link) && link.bits == root
    ensures var j := link.val + Shr(Low(h, link.bits + link.op), link.bits);
            && j < |t| && tab[at + j] == t[j]
            && t[j].op == d.op && t[j].val == d.val && t[j].bits + root == d.bits
  {
    hide Low, Shr;
    ShrLow(h, root, link.op);
    var j := link.val + Low(Shr(h, root), link.op);
    assert j < |t| && t[j] == tab[at..at + |t|][j] == tab[at + j];
  }
}
