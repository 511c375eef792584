// The two-level decoding tables of wtmi/compressed/inftrees.h: what an entry
// means, when a table decodes a code, and how far the table being filled is.
module DecodeTable {
  import opened Types
  import opened Bits
  import opened Canonical

  // A table entry.  The casts of the C code never lose bits: the field types
  // make Dafny check it.
  datatype Code = Code(op: u8, bits: u8, val: u16)

  datatype CodeType = CODES | LENS | DISTS

  const ENOUGH: nat := 2048
  const MAXD: nat := 592

  const LBASE: seq<u16> := [
    3, 4, 5, 6, 7, 8, 9, 10, 11, 13, 15, 17, 19, 23, 27, 31,
    35, 43, 51, 59, 67, 83, 99, 115, 131, 163, 195, 227, 258, 0, 0]
  const LEXT: seq<u8> := [
    16, 16, 16, 16, 16, 16, 16, 16, 17, 17, 17, 17, 18, 18, 18, 18,
    19, 19, 19, 19, 20, 20, 20, 20, 21, 21, 21, 21, 16, 201, 196]
  const DBASE: seq<u16> := [
    1, 2, 3, 4, 5, 7, 9, 13, 17, 25, 33, 49, 65, 97, 129, 193,
    257, 385, 513, 769, 1025, 1537, 2049, 3073, 4097, 6145,
    8193, 12289, 16385, 24577, 0, 0]
  const DEXT: seq<u8> := [
    16, 16, 16, 16, 17, 17, 18, 18, 19, 19, 20, 20, 21, 21, 22, 22,
    23, 23, 24, 24, 25, 25, 26, 26, 27, 27, 28, 28, 29, 29, 64, 64]

  // As many symbols as the static tables above provide for.
  function MaxCodes(t: CodeType): nat
  {
    match t case CODES => 19 case LENS => 288 case DISTS => 32
  }

  // What symbol s means, apart from the length of its code.
  function Meaning(t: CodeType, s: nat): (e: (u8, u16))
    requires s < MaxCodes(t)
    ensures e.0 == 0 || e.0 >= 16
  {
    match t
    case CODES => (0, s)
    case LENS =>
      if s < 256 then (0, s)
      else if s > 256 then
        assert LEXT[s - 257] >= 16;
        (LEXT[s - 257], LBASE[s - 257])
      else (96, 0)
    case DISTS =>
      assert DEXT[s] >= 16;
      (DEXT[s], DBASE[s])
  }

  // The entry that stands for symbol s, l bits long at its level.
  function Entry(t: CodeType, s: nat, l: u8): (e: Code)
    requires s < MaxCodes(t)
    ensures !IsLink(e)
  {
    Code(Meaning(t, s).0, l, Meaning(t, s).1)
  }

  const INVALID := Code(64, 1, 0)

  predicate IsSym(lens: seq<nat>, s: nat) { s < |lens| && lens[s] >= 1 }

  // op is a table link: non-zero, with its four high bits clear.
  predicate IsLink(e: Code) { 1 <= e.op < 16 }

  // What two-level lookup finds for accumulator h; bits counts both levels.
  ghost predicate Finds(r: seq<Code>, root: nat, h: nat, e: Code)
  {
    var i := Low(h, root);
    i < |r| &&
    if IsLink(r[i]) then
      var j := r[i].val + Low(Shr(h, root), r[i].op);
      r[i].bits == root && j < |r| &&
      e.op == r[j].op && e.val == r[j].val && e.bits == root + r[j].bits && r[j].bits >= 1 && !IsLink(r[j])
    else
      e == r[i]
  }

  // The table decodes the code: a codeword yields its symbol's entry and its
  // length, and every other bit pattern yields the invalid code marker.
  ghost predicate Decodes(r: seq<Code>, root: nat, t: CodeType, lens: seq<nat>)
  {
    && ValidLens(lens) && !OverSubscribed(lens) && |lens| <= MaxCodes(t) && 1 <= root <= MAXBITS
    && (forall h: nat, s: nat | Matches(lens, s, h) :: Finds(r, root, h, Entry(t, s, lens[s])))
    && (forall h: nat :: Decodable(lens, h) || (Finds(r, root, h, INVALID) && forall i | 0 <= i < |lens| :: lens[i] <= 1))
  }

  ghost predicate Decodable(lens: seq<nat>, h: nat)
  {
    exists s: nat :: Matches(lens, s, h)
  }

  // e at every index of a 2^size table at `at` whose low bits are idx.
  function Filled(r: seq<Code>, at: nat, idx: nat, bits: nat, size: nat, e: Code): seq<Code>
  {
    seq(|r|, i requires 0 <= i < |r| =>
      if at <= i < at + Pow2(size) && Low(i - at, bits) == idx then e else r[i])
  }

  // ---- the table while it is being filled ----

  // r[Low(RevCode(t), root)] links to t's sub-table.
  function Link(lens: seq<nat>, r: seq<Code>, root: nat, t: nat): Code
    requires IsSym(lens, t) && Pow2(root) <= |r|
  {
    r[Low(RevCode(lens, t), root)]
  }

  // Every index j of the 2^size table at `at` with the given low bits holds e.
  ghost predicate Cells(r: seq<Code>, at: nat, size: nat, bits: nat, idx: nat, e: Code)
  {
    at + Pow2(size) <= |r| && forall j: nat | j < Pow2(size) && Low(j, bits) == idx :: r[at + j] == e
  }

  // Every index that t's codeword leads to holds t's entry.
  ghost predicate Entered(r: seq<Code>, root: nat, ct: CodeType, lens: seq<nat>, t: nat)
    requires IsSym(lens, t) && Pow2(root) <= |r| && ValidLens(lens) && |lens| <= MaxCodes(ct)
  {
    var l, rc := lens[t], RevCode(lens, t);
    if l <= root then
      Cells(r, 0, root, l, rc, Entry(ct, t, l))
    else
      var k := Link(lens, r, root, t);
      && IsLink(k) && k.bits == root && l <= root + k.op && Pow2(root) <= k.val
      && Cells(r, k.val, k.op, l - root, Shr(rc, root), Entry(ct, t, l - root))
  }

  // Locals of the filling loop.  next is relative to *table; low is -1 until
  // the first sub-table.
  datatype Fill = Fill(next: nat, curr: nat, drop: nat, low: int, used: nat)

  // t's sub-table lies before the current one or is the current one.
  ghost predicate Behind(r: seq<Code>, root: nat, lens: seq<nat>, f: Fill, t: nat)
    requires IsSym(lens, t) && Pow2(root) <= |r|
  {
    var k := Link(lens, r, root, t);
    || k.val + Pow2(k.op) <= f.next
    || (Low(RevCode(lens, t), root) == f.low && k.val == f.next && k.op == f.curr)
  }

  // All symbols whose intervals start below x are in the table.
  ghost predicate EnteredBelow(r: seq<Code>, root: nat, ct: CodeType, lens: seq<nat>, f: Fill, x: nat)
    requires Pow2(root) <= |r| && ValidLens(lens) && |lens| <= MaxCodes(ct)
  {
    forall t: nat | IsSym(lens, t) && Start(lens, t) < x ::
      Entered(r, root, ct, lens, t) && (lens[t] > root ==> Behind(r, root, lens, f, t))
  }

  // The current table is the one that takes the entry of s.
  ghost predicate Opened(r: seq<Code>, root: nat, lens: seq<nat>, f: Fill, s: nat)
    requires IsSym(lens, s) && Pow2(root) <= |r|
  {
    && f.used == f.next + Pow2(f.curr) <= |r|
    && if lens[s] <= root then
         f.next == 0 && f.curr == root && f.drop == 0 && f.low == -1
       else
         var k := Link(lens, r, root, s);
         && f.drop == root && f.low == Low(RevCode(lens, s), root)
         && k.val == f.next && k.op == f.curr && k.bits == root && IsLink(k)
         && Pow2(root) <= f.next && lens[s] <= root + f.curr
  }

  // ---- entering a symbol disturbs no other ----

  lemma CellsFilled(r: seq<Code>, at: nat, size: nat, bits: nat, idx: nat, e: Code)
    requires at + Pow2(size) <= |r|
    ensures Cells(Filled(r, at, idx, bits, size, e), at, size, bits, idx, e)
  {
  }

  lemma CellsKept(r: seq<Code>, at: nat, size: nat, bits: nat, idx: nat, e: Code,
                  at2: nat, size2: nat, bits2: nat, idx2: nat, e2: Code)
    requires Cells(r, at, size, bits, idx, e)
    requires || at + Pow2(size) <= at2
             || at2 + Pow2(size2) <= at
             || (at == at2 && size == size2 && forall j: nat | Low(j, bits) == idx :: Low(j, bits2) != idx2)
    ensures Cells(Filled(r, at2, idx2, bits2, size2, e2), at, size, bits, idx, e)
  {
  }

  // Index j of the sub-table at root index low stands for low + (j << root).
  lemma SubIndex(lens: seq<nat>, t: nat, root: nat, l: nat, j: nat)
    requires IsSym(lens, t) && lens[t] == root + l
    requires Low(j, l) == Shr(RevCode(lens, t), root)
    ensures Matches(lens, t, Low(RevCode(lens, t), root) + Shl(j, root))
  {
    JoinLow(j, root, l, RevCode(lens, t));
  }

  lemma JoinLow(j: nat, a: nat, b: nat, x: nat)
    requires Low(j, b) == Shr(x, a)
    ensures Low(Low(x, a) + Shl(j, a), a + b) == x
  {
    var h := Low(x, a) + Shl(j, a);
    Join(Low(x, a), j, a);
    ShrLow(h, a, b);
    Split(x, a);
  }

  // Two symbols never share an index of the root table ...
  lemma RootApart(lens: seq<nat>, s: nat, t: nat)
    requires ValidLens(lens) && !OverSubscribed(lens) && IsSym(lens, s) && IsSym(lens, t) && s != t
    ensures forall j: nat | Low(j, lens[t]) == RevCode(lens, t) :: Low(j, lens[s]) != RevCode(lens, s)
  {
    forall j: nat | Low(j, lens[t]) == RevCode(lens, t)
      ensures Low(j, lens[s]) != RevCode(lens, s)
    {
      if Low(j, lens[s]) == RevCode(lens, s) { MatchesUnique(lens, s, t, j); }
    }
  }

  // ... nor of a sub-table.
  lemma SubApart(lens: seq<nat>, s: nat, t: nat, root: nat, ls: nat, lt: nat)
    requires ValidLens(lens) && !OverSubscribed(lens) && IsSym(lens, s) && IsSym(lens, t) && s != t
    requires lens[s] == root + ls && lens[t] == root + lt && ls > 0 && lt > 0
    requires Low(RevCode(lens, s), root) == Low(RevCode(lens, t), root)
    ensures forall j: nat | Low(j, lt) == Shr(RevCode(lens, t), root) :: Low(j, ls) != Shr(RevCode(lens, s), root)
  {
    hide Low, Shr, Rev, Codeword;
    forall j: nat | Low(j, lt) == Shr(RevCode(lens, t), root)
      ensures Low(j, ls) != Shr(RevCode(lens, s), root)
    {
      if Low(j, ls) == Shr(RevCode(lens, s), root) {
        SubIndex(lens, s, root, ls, j);
        SubIndex(lens, t, root, lt, j);
        MatchesUnique(lens, s, t, Low(RevCode(lens, t), root) + Shl(j, root));
      }
    }
  }

  // The index, below the current table, at which s is entered.
  function Idx(lens: seq<nat>, root: nat, s: nat): nat
    requires IsSym(lens, s)
  {
    if lens[s] <= root then RevCode(lens, s) else Shr(RevCode(lens, s), root)
  }

  function Depth(lens: seq<nat>, root: nat, s: nat): nat
    requires IsSym(lens, s)
  {
    if lens[s] <= root then lens[s] else lens[s] - root
  }

  function EnterOne(r: seq<Code>, root: nat, ct: CodeType, lens: seq<nat>, f: Fill, s: nat): seq<Code>
    requires IsSym(lens, s) && |lens| <= MaxCodes(ct) && ValidLens(lens)
  {
    Filled(r, f.next, Idx(lens, root, s), Depth(lens, root, s), f.curr, Entry(ct, s, Depth(lens, root, s)))
  }

  lemma EnteredSelf(r: seq<Code>, root: nat, ct: CodeType, lens: seq<nat>, f: Fill, s: nat)
    requires ValidLens(lens) && |lens| <= MaxCodes(ct) && IsSym(lens, s)
    requires Pow2(root) <= |r| && Opened(r, root, lens, f, s)
    ensures var r' := EnterOne(r, root, ct, lens, f, s);
            && Entered(r', root, ct, lens, s) && (lens[s] > root ==> Behind(r', root, lens, f, s))
            && Opened(r', root, lens, f, s)
  {
    var d := Depth(lens, root, s);
    CellsFilled(r, f.next, f.curr, d, Idx(lens, root, s), Entry(ct, s, d));
  }

  lemma KeptRoot(r: seq<Code>, root: nat, ct: CodeType, lens: seq<nat>, f: Fill, s: nat, t: nat)
    requires ValidLens(lens) && !OverSubscribed(lens) && |lens| <= MaxCodes(ct)
    requires IsSym(lens, s) && IsSym(lens, t) && s != t && lens[t] <= lens[s]
    requires Pow2(root) <= |r| && Opened(r, root, lens, f, s)
    requires lens[t] <= root && Entered(r, root, ct, lens, t)
    ensures Entered(EnterOne(r, root, ct, lens, f, s), root, ct, lens, t)
  {
    var d := Depth(lens, root, s);
    if lens[s] <= root { RootApart(lens, s, t); }
    hide Low, Shr, Rev, Meaning, RevCode;
    CellsKept(r, 0, root, lens[t], RevCode(lens, t), Entry(ct, t, lens[t]),
              f.next, f.curr, d, Idx(lens, root, s), Entry(ct, s, d));
  }

  lemma KeptSub(r: seq<Code>, root: nat, ct: CodeType, lens: seq<nat>, f: Fill, s: nat, t: nat)
    requires ValidLens(lens) && !OverSubscribed(lens) && |lens| <= MaxCodes(ct)
    requires IsSym(lens, s) && IsSym(lens, t) && s != t && lens[t] <= lens[s]
    requires Pow2(root) <= |r| && Opened(r, root, lens, f, s)
    requires lens[t] > root && Entered(r, root, ct, lens, t) && Behind(r, root, lens, f, t)
    ensures var r' := EnterOne(r, root, ct, lens, f, s);
            Link(lens, r', root, t) == Link(lens, r, root, t) && Entered(r', root, ct, lens, t)
  {
    hide Low, Shr, Rev, Meaning, RevCode, Cells, Filled;
    var k, lt, rc := Link(lens, r, root, t), lens[t] - root, RevCode(lens, t);
    var d, i := Depth(lens, root, s), Idx(lens, root, s);
    LinkKept(r, root, lens, f.next, i, d, f.curr, Entry(ct, s, d), t);
    if k.val + Pow2(k.op) > f.next { SubApart(lens, s, t, root, d, lt); }
    CellsKept(r, k.val, k.op, lt, Shr(rc, root), Entry(ct, t, lt), f.next, f.curr, d, i, Entry(ct, s, d));
  }

  lemma LinkKept(r: seq<Code>, root: nat, lens: seq<nat>,
                 at: nat, idx: nat, bits: nat, size: nat, e: Code, t: nat)
    requires IsSym(lens, t) && Pow2(root) <= |r| && Pow2(root) <= at
    ensures Link(lens, Filled(r, at, idx, bits, size, e), root, t) == Link(lens, r, root, t)
  {
  }

  lemma EnteredOther(r: seq<Code>, root: nat, ct: CodeType, lens: seq<nat>, f: Fill, s: nat, t: nat)
    requires ValidLens(lens) && !OverSubscribed(lens) && |lens| <= MaxCodes(ct)
    requires IsSym(lens, s) && IsSym(lens, t) && s != t && lens[t] <= lens[s]
    requires Pow2(root) <= |r| && Opened(r, root, lens, f, s)
    requires Entered(r, root, ct, lens, t) && (lens[t] > root ==> Behind(r, root, lens, f, t))
    ensures var r' := EnterOne(r, root, ct, lens, f, s);
            Entered(r', root, ct, lens, t) && (lens[t] > root ==> Behind(r', root, lens, f, t))
  {
    hide Low, Shr, Rev, Meaning, RevCode, Entered, EnterOne;
    if lens[t] <= root {
      KeptRoot(r, root, ct, lens, f, s, t);
    } else {
      KeptSub(r, root, ct, lens, f, s, t);
    }
  }

  // After s is entered, everything before the next symbol is in the table.
  lemma EnterStep(r: seq<Code>, root: nat, ct: CodeType, lens: seq<nat>, f: Fill, s: nat)
    requires ValidLens(lens) && !OverSubscribed(lens) && |lens| <= MaxCodes(ct) && IsSym(lens, s)
    requires Pow2(root) <= |r| && Opened(r, root, lens, f, s)
    requires EnteredBelow(r, root, ct, lens, f, Start(lens, s))
    ensures var r' := EnterOne(r, root, ct, lens, f, s);
            && Opened(r', root, lens, f, s)
            && EnteredBelow(r', root, ct, lens, f, Start(lens, s) + Width(lens, s))
  {
    var r' := EnterOne(r, root, ct, lens, f, s);
    EnteredSelf(r, root, ct, lens, f, s);
    forall t: nat | IsSym(lens, t) && Start(lens, t) < Start(lens, s) + Width(lens, s)
      ensures Entered(r', root, ct, lens, t) && (lens[t] > root ==> Behind(r', root, lens, f, t))
    {
      if t != s {
        StartDisjoint(lens, s, t);
        StartBefore(lens, t, s);
        EnteredOther(r, root, ct, lens, f, s, t);
      }
    }
  }

  lemma StartBefore(lens: seq<nat>, t: nat, s: nat)
    requires ValidLens(lens) && IsSym(lens, s) && IsSym(lens, t) && Start(lens, t) < Start(lens, s)
    ensures lens[t] <= lens[s]
  {
    if lens[s] < lens[t] { StartOrder(lens, s, t); }
  }

  // ---- starting a sub-table ----

  // The top root bits of a codeword's interval are its root table index.
  lemma TopBits(lens: seq<nat>, t: nat, root: nat)
    requires ValidLens(lens) && !OverSubscribed(lens) && IsSym(lens, t) && root <= MAXBITS
    ensures Shr(Start(lens, t), MAXBITS - root) == Rev(root, RevCode(lens, t))
  {
    var x, rc := Start(lens, t), RevCode(lens, t);
    RevShl(lens[t], MAXBITS - lens[t], Codeword(lens, t));
    RevRev(MAXBITS, x);
    StartBounds(lens, t);
    LowOfSmall(x, MAXBITS);
    RevPrefix(MAXBITS, root, rc);
  }

  lemma SameTop(lens: seq<nat>, s: nat, t: nat, root: nat)
    requires ValidLens(lens) && !OverSubscribed(lens) && IsSym(lens, s) && IsSym(lens, t) && root <= MAXBITS
    ensures Shr(Start(lens, s), MAXBITS - root) == Shr(Start(lens, t), MAXBITS - root) <==>
            Low(RevCode(lens, s), root) == Low(RevCode(lens, t), root)
  {
    TopBits(lens, s, root);
    TopBits(lens, t, root);
    RevLow(root, RevCode(lens, s));
    RevLow(root, RevCode(lens, t));
    if Rev(root, RevCode(lens, s)) == Rev(root, RevCode(lens, t)) {
      RevInjective(root, RevCode(lens, s), RevCode(lens, t));
    }
  }

  // No symbol before n uses the root index of n, when s (just before n) does not.
  lemma FreshLow(lens: seq<nat>, root: nat, s: nat, n: nat, t: nat)
    requires ValidLens(lens) && !OverSubscribed(lens) && 1 <= root <= MAXBITS
    requires IsSym(lens, s) && IsSym(lens, n) && IsSym(lens, t)
    requires Start(lens, t) <= Start(lens, s) < Start(lens, n)
    requires lens[n] > root
    requires lens[s] > root ==> Low(RevCode(lens, s), root) != Low(RevCode(lens, n), root)
    ensures lens[t] > root ==> Low(RevCode(lens, t), root) != Low(RevCode(lens, n), root)
    ensures lens[t] <= root ==> Low(Low(RevCode(lens, n), root), lens[t]) != RevCode(lens, t)
  {
    var rn := RevCode(lens, n);
    if lens[t] <= root {
      LowLow(rn, lens[t], root);
      LowOfSmall(rn, lens[n]);
      if Low(rn, lens[t]) == RevCode(lens, t) { MatchesUnique(lens, n, t, rn); }
    } else {
      if t != s {
        StartDisjoint(lens, t, s);
        StartBefore(lens, t, s);
      }
      SameTop(lens, s, n, root);
      SameTop(lens, t, n, root);
      ShrMono(Start(lens, t), Start(lens, s), MAXBITS - root);
      ShrMono(Start(lens, s), Start(lens, n), MAXBITS - root);
    }
  }

  lemma CellsUpdate(r: seq<Code>, at: nat, size: nat, bits: nat, idx: nat, e: Code, i: nat, k: Code)
    requires Cells(r, at, size, bits, idx, e) && i < |r|
    requires at <= i < at + Pow2(size) ==> Low(i - at, bits) != idx
    ensures Cells(r[i := k], at, size, bits, idx, e)
  {
  }

  // Linking a fresh root index to a fresh sub-table keeps every earlier entry.
  lemma OpenStep(r: seq<Code>, root: nat, ct: CodeType, lens: seq<nat>, f: Fill, s: nat, n: nat, k: Code, f': Fill)
    requires ValidLens(lens) && !OverSubscribed(lens) && |lens| <= MaxCodes(ct) && 1 <= root <= MAXBITS
    requires IsSym(lens, s) && IsSym(lens, n) && Start(lens, n) == Start(lens, s) + Width(lens, s)
    requires Pow2(root) <= |r| && Opened(r, root, lens, f, s) && lens[n] > root
    requires EnteredBelow(r, root, ct, lens, f, Start(lens, n))
    requires Low(RevCode(lens, n), root) != f.low
    requires f' == Fill(f.used, k.op, root, Low(RevCode(lens, n), root), f.used + Pow2(k.op))
    requires f'.used <= |r| && k.bits == root && k.val == f'.next && IsLink(k) && lens[n] <= root + k.op
    ensures var r' := r[Low(RevCode(lens, n), root) := k];
            && Opened(r', root, lens, f', n)
            && EnteredBelow(r', root, ct, lens, f', Start(lens, n))
  {
    hide Low, Shr, Rev, Codeword, RevCode, Cells, Entered, Start, Width;
    var low := Low(RevCode(lens, n), root);
    forall t: nat | IsSym(lens, t) && Start(lens, t) < Start(lens, n)
      ensures Entered(r[low := k], root, ct, lens, t) && (lens[t] > root ==> Behind(r[low := k], root, lens, f', t))
    {
      OpenKeeps(r, root, ct, lens, f, s, n, k, t);
    }
  }

  // A symbol entered before stays so.
  lemma OpenKeeps(r: seq<Code>, root: nat, ct: CodeType, lens: seq<nat>, f: Fill, s: nat, n: nat, k: Code, t: nat)
    requires ValidLens(lens) && !OverSubscribed(lens) && |lens| <= MaxCodes(ct) && 1 <= root <= MAXBITS
    requires IsSym(lens, s) && IsSym(lens, n) && Start(lens, n) == Start(lens, s) + Width(lens, s)
    requires Pow2(root) <= |r| && Opened(r, root, lens, f, s) && lens[n] > root
    requires EnteredBelow(r, root, ct, lens, f, Start(lens, n))
    requires Low(RevCode(lens, n), root) != f.low && IsSym(lens, t) && Start(lens, t) < Start(lens, n)
    ensures var low := Low(RevCode(lens, n), root);
            && low < |r| && Entered(r[low := k], root, ct, lens, t)
            && (lens[t] > root ==> Behind(r[low := k], root, lens,
                  Fill(f.used, k.op, root, low, f.used + Pow2(k.op)), t))
  {
    hide Low, Shr, Rev, Codeword, RevCode, Cells, Entered;
    StartDisjoint(lens, s, t);
    FreshLow(lens, root, s, n, t);
    LinkOther(r, root, ct, lens, f, t, Low(RevCode(lens, n), root), k);
  }

  lemma LinkOther(r: seq<Code>, root: nat, ct: CodeType, lens: seq<nat>, f: Fill, t: nat, low: nat, k: Code)
    requires ValidLens(lens) && |lens| <= MaxCodes(ct) && IsSym(lens, t)
    requires low < Pow2(root) <= |r| && Entered(r, root, ct, lens, t)
    requires lens[t] > root ==> Behind(r, root, lens, f, t)
    requires lens[t] > root ==> Low(RevCode(lens, t), root) != low
    requires lens[t] <= root ==> Low(low, lens[t]) != RevCode(lens, t)
    ensures var r' := r[low := k];
            && Entered(r', root, ct, lens, t)
            && (lens[t] > root ==> Link(lens, r', root, t).val + Pow2(Link(lens, r', root, t).op) <= f.next + Pow2(f.curr))
  {
    hide Low, Shr, Rev, Codeword, Meaning;
    var rc, l := RevCode(lens, t), lens[t];
    if l <= root {
      CellsUpdate(r, 0, root, l, rc, Entry(ct, t, l), low, k);
    } else {
      var q := Link(lens, r, root, t);
      CellsUpdate(r, q.val, q.op, l - root, Shr(rc, root), Entry(ct, t, l - root), low, k);
    }
  }

  // The current table also takes the next symbol when no new one is due.
  lemma StayStep(r: seq<Code>, root: nat, lens: seq<nat>, f: Fill, s: nat, n: nat)
    requires IsSym(lens, s) && IsSym(lens, n) && lens[s] <= lens[n]
    requires Pow2(root) <= |r| && Opened(r, root, lens, f, s)
    requires lens[n] > root ==> Low(RevCode(lens, n), root) == f.low && lens[n] <= root + f.curr
    ensures Opened(r, root, lens, f, n)
  {
  }

  // ---- reading a finished table ----

  lemma CellAt(r: seq<Code>, at: nat, size: nat, bits: nat, idx: nat, e: Code, x: nat)
    requires Cells(r, at, size, bits, idx, e) && bits <= size && Low(x, bits) == idx
    ensures at + Low(x, size) < |r| && r[at + Low(x, size)] == e
  {
    LowLow(x, bits, size);
  }

  lemma SubFinds(r: seq<Code>, root: nat, k: Code, l: nat, d: nat, x: nat, e: Code, h: nat)
    requires l == root + d && Low(h, l) == x && 1 <= d <= k.op
    requires Low(x, root) < |r| && r[Low(x, root)] == k && IsLink(k) && k.bits == root
    requires Cells(r, k.val, k.op, d, Shr(x, root), e) && !IsLink(e) && e.bits == d
    requires l < 0x100
    ensures Finds(r, root, h, Code(e.op, l, e.val))
  {
    hide Low, Shr, Pow2;
    LowLow(h, root, l);
    ShrLow(h, root, d);
    CellAt(r, k.val, k.op, d, Shr(x, root), e, Shr(h, root));
  }

  lemma EnteredFinds(r: seq<Code>, root: nat, ct: CodeType, lens: seq<nat>, s: nat, h: nat)
    requires ValidLens(lens) && |lens| <= MaxCodes(ct) && Pow2(root) <= |r|
    requires Matches(lens, s, h) && Entered(r, root, ct, lens, s)
    ensures Finds(r, root, h, Entry(ct, s, lens[s]))
  {
    hide Low, Shr, Pow2, Rev, Meaning;
    var l, rc := lens[s], RevCode(lens, s);
    if l <= root {
      CellAt(r, 0, root, l, rc, Entry(ct, s, l), h);
    } else {
      var k, d := Link(lens, r, root, s), l - root;
      SubFinds(r, root, k, l, d, rc, Entry(ct, s, d), h);
    }
  }
}
