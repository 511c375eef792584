// How much table space inflate_table takes.
//
// The check against ENOUGH in the C code is there because its sufficiency
// "has not been proven exhaustively".  It follows from the order of canonical
// codes: a sub-table whose shortest code is a bits below the root holds at
// least 2^a codes, and no sub-table starts with codes shorter than the
// longest of the one before.  So the sub-tables together exceed the number of
// symbols by less than the size of the last one.
module TableSize {
  import opened Bits
  import opened Canonical
  import opened DecodeTable

  // Table entries that inflate_table can use, at most.
  function Space(bits: nat, codes: nat): nat
    requires bits <= MAXBITS
  {
    (if Pow2(bits) > codes then Pow2(bits) else codes) + codes + Pow2(MAXBITS - bits)
  }

  // ---- neighbours in the sorted order ----

  lemma {:induction false} EmptyStretch(lens: seq<nat>, a: nat, b: nat)
    requires 1 <= a <= b <= MAXBITS + 1 && Below(lens, a) == Below(lens, b)
    ensures End(lens, a - 1) == End(lens, b - 1)
  {
    if a < b {
      BelowMono(lens, a, b - 1);
      EmptyStretch(lens, a, b - 1);
      ShlOne(MAXBITS - (b - 1));
    }
  }

  lemma NextStart(lens: seq<nat>, s: nat, t: nat)
    requires ValidLens(lens) && IsSym(lens, s) && IsSym(lens, t)
    requires Position(lens, t) == Position(lens, s) + 1
    ensures lens[s] <= lens[t]
    ensures lens[s] == lens[t] <==> Rank(lens, s) + 1 < Count(lens, lens[s])
    ensures Rank(lens, t) == if lens[s] == lens[t] then Rank(lens, s) + 1 else 0
    ensures Start(lens, t) == Start(lens, s) + Width(lens, s)
  {
    hide Shl, Pow2, Start, Count;
    RankBound(lens, s);
    RankBound(lens, t);
    StartIsEnd(lens, s);
    StartIsEnd(lens, t);
    var k := MAXBITS - lens[s];
    ShlLess(Rank(lens, s), Rank(lens, s) + 1, k);
    if lens[t] < lens[s] {
      BelowMono(lens, lens[t] + 1, lens[s]);
    } else if lens[s] < lens[t] {
      BelowMono(lens, lens[s] + 1, lens[t]);
      EmptyStretch(lens, lens[s] + 1, lens[t]);
      ShlOne(MAXBITS - lens[t]);
    }
  }

  lemma LastEnd(lens: seq<nat>, s: nat)
    requires ValidLens(lens) && IsSym(lens, s) && Position(lens, s) + 1 == Below(lens, MAXBITS + 1)
    ensures Start(lens, s) + Width(lens, s) == End(lens, MAXBITS)
    ensures Rank(lens, s) + 1 == Count(lens, lens[s])
  {
    RankBound(lens, s);
    StartIsEnd(lens, s);
    BelowMono(lens, lens[s] + 1, MAXBITS + 1);
    ShlLess(Rank(lens, s), Rank(lens, s) + 1, MAXBITS - lens[s]);
    EmptyStretch(lens, lens[s] + 1, MAXBITS + 1);
  }

  lemma PositionOrder(lens: seq<nat>, s: nat, t: nat)
    requires ValidLens(lens) && IsSym(lens, s) && IsSym(lens, t)
    requires Position(lens, s) <= Position(lens, t)
    ensures lens[s] <= lens[t]
  {
    if lens[t] < lens[s] {
      RankBound(lens, t);
      BelowMono(lens, lens[t] + 1, lens[s]);
    }
  }

  // From s on, every symbol is at most as wide as s.
  lemma {:induction false} GapCount(lens: seq<nat>, s: nat, n: nat)
    requires ValidLens(lens) && IsSym(lens, s) && IsSym(lens, n)
    requires Position(lens, s) <= Position(lens, n)
    ensures Start(lens, n) <= Start(lens, s) + Shl(Position(lens, n) - Position(lens, s), MAXBITS - lens[s])
    decreases Position(lens, n)
  {
    var k := MAXBITS - lens[s];
    var g := Position(lens, n) - Position(lens, s);
    if g == 0 {
      PositionInjective(lens, s, n);
    } else {
      PositionBound(lens, n);
      var m := AtPosition(lens, Position(lens, n) - 1, MAXBITS + 1);
      GapCount(lens, s, m);
      NextStart(lens, m, n);
      PositionOrder(lens, s, m);
      Pow2Mono(MAXBITS - lens[m], k);
      ShlLess(g - 1, g, k);
    }
  }

  lemma PositionBound(lens: seq<nat>, s: nat)
    requires ValidLens(lens) && IsSym(lens, s)
    ensures Position(lens, s) < Below(lens, MAXBITS + 1) <= |lens|
  {
    RankBound(lens, s);
    BelowMono(lens, lens[s] + 1, MAXBITS + 1);
    BelowBound(lens, MAXBITS + 1);
  }

  // So the points left after s bound the number of symbols left from below.
  lemma RestCount(lens: seq<nat>, s: nat)
    requires ValidLens(lens) && IsSym(lens, s)
    ensures Position(lens, s) < |lens|
    ensures End(lens, MAXBITS) <= Start(lens, s) + Shl(|lens| - Position(lens, s), MAXBITS - lens[s])
  {
    hide Shl, Pow2, End, Below, Count, Start;
    PositionBound(lens, s);
    var k, p := MAXBITS - lens[s], Position(lens, s);
    var z := AtPosition(lens, Below(lens, MAXBITS + 1) - 1, MAXBITS + 1);
    var g := Position(lens, z) - p;
    GapCount(lens, s, z);
    LastEnd(lens, z);
    PositionOrder(lens, s, z);
    Pow2Mono(MAXBITS - lens[z], k);
    ShlLess(g, g + 1, k);
    ShlMono(g + 1, |lens| - p, k);
  }

  // ---- sub-tables ----

  // Sub-table of size 2^curr for the codes that share the top root bits of s;
  // s0 is the first of them.
  ghost predicate Sized(lens: seq<nat>, root: nat, max: nat, f: Fill, s0: nat, s: nat)
    requires ValidLens(lens) && IsSym(lens, s0) && IsSym(lens, s) && root <= MAXBITS
  {
    var top := Shr(Start(lens, s), MAXBITS - root);
    && Start(lens, s0) == Shl(top, MAXBITS - root)
    && root < lens[s0] <= lens[s]
    && Snug(lens, root, max, f.curr, s0)
    && f.used < Pow2(root) + Position(lens, s0) + Pow2(lens[s0] - root) + Pow2(f.curr)
  }

  // curr is the least size at which codes from s0 on fill the sub-table.
  ghost predicate Snug(lens: seq<nat>, root: nat, max: nat, curr: nat, s0: nat)
    requires ValidLens(lens) && IsSym(lens, s0) && root <= MAXBITS
  {
    var end := Start(lens, s0) + Pow2(MAXBITS - root);
    && lens[s0] <= root + curr <= max <= MAXBITS
    && (root + curr == max || End(lens, root + curr) >= end)
    && (root + curr == lens[s0] || End(lens, root + curr - 1) < end)
  }

  // A symbol that starts before End(l) has at most l bits, and conversely.
  lemma StartVsEnd(lens: seq<nat>, s: nat, l: nat)
    requires ValidLens(lens) && IsSym(lens, s) && l <= MAXBITS
    ensures lens[s] <= l <==> Start(lens, s) < End(lens, l)
  {
    StartBounds(lens, s);
    if lens[s] <= l {
      EndMono(lens, lens[s], l);
    } else {
      EndMono(lens, l, lens[s] - 1);
    }
  }

  lemma FitsSub(lens: seq<nat>, root: nat, max: nat, f: Fill, s0: nat, s: nat)
    requires ValidLens(lens) && IsSym(lens, s0) && IsSym(lens, s) && root <= MAXBITS
    requires Sized(lens, root, max, f, s0, s) && lens[s] <= max
    ensures lens[s] <= root + f.curr
  {
    var b, x := MAXBITS - root, Start(lens, s);
    ShrInterval(x, Shr(x, b), b);
    if root + f.curr < max { StartVsEnd(lens, s, root + f.curr); }
  }

  // When the top root bits change, the previous prefix has been used up.
  lemma Crossing(lens: seq<nat>, root: nat, s: nat, n: nat)
    requires ValidLens(lens) && IsSym(lens, s) && IsSym(lens, n) && root <= MAXBITS
    requires Start(lens, n) == Start(lens, s) + Width(lens, s)
    requires lens[s] > root ==> Shr(Start(lens, s), MAXBITS - root) != Shr(Start(lens, n), MAXBITS - root)
    ensures Start(lens, n) == Shl(Shr(Start(lens, n), MAXBITS - root), MAXBITS - root)
    ensures lens[s] > root ==> Start(lens, n) == Shl(Shr(Start(lens, s), MAXBITS - root), MAXBITS - root) + Pow2(MAXBITS - root)
  {
    hide Low, Shr, Shl, Codeword, Pow2;
    var b, l, c := MAXBITS - root, lens[s], Codeword(lens, s);
    var k := MAXBITS - l;
    assert Start(lens, n) == Shl(c + 1, k) by { ShlLess(c, c + 1, k); }
    if l <= root {
      ShlShl(c + 1, root - l, b);
      ShlOne(b);
      Join(0, Shl(c + 1, root - l), b);
    } else {
      var p := Shr(Start(lens, s), b);
      ShrInterval(Start(lens, s), p, b);
      ShrInterval(Start(lens, n), p, b);
      ShlLess(p, p + 1, b);
      ShlShl(p + 1, l - root, k);
      var q := Shl(p + 1, l - root);
      if c >= q { ShlMono(q, c, k); }
      ShlMono(c + 1, q, k);
      ShlOne(b);
      Join(0, p + 1, b);
    }
  }

  // A sub-table holds at least as many codes as its shortest code suggests,
  // and the next one does not start shorter than this one ended.
  lemma SubCount(lens: seq<nat>, root: nat, max: nat, f: Fill, s0: nat, s: nat, n: nat)
    requires ValidLens(lens) && IsSym(lens, s0) && IsSym(lens, s) && IsSym(lens, n) && root <= MAXBITS
    requires Sized(lens, root, max, f, s0, s) && lens[s] <= lens[n]
    requires Position(lens, s0) <= Position(lens, n)
    requires Start(lens, n) == Shl(Shr(Start(lens, s), MAXBITS - root), MAXBITS - root) + Pow2(MAXBITS - root)
    ensures Position(lens, s0) + Pow2(lens[s0] - root) <= Position(lens, n)
    ensures root + f.curr <= lens[n]
  {
    hide Shl, Shr, Pow2, Start, Position, Count, End, Below;
    var a, k, g := lens[s0] - root, MAXBITS - lens[s0], Position(lens, n) - Position(lens, s0);
    GapCount(lens, s0, n);
    ShlPow2(a, k);
    if g < Pow2(a) { ShlLess(g, Pow2(a), k); ShlPositive(k); }
    if root + f.curr != lens[s0] { StartVsEnd(lens, n, root + f.curr - 1); }
  }

  lemma ShlPositive(k: nat)
    ensures Pow2(k) > 0
  {
  }

  // Space accounting when the sub-table for n is opened after that of s.
  lemma Accounting(lens: seq<nat>, root: nat, max: nat, f: Fill, s0: nat, s: nat, n: nat, f': Fill)
    requires ValidLens(lens) && IsSym(lens, s0) && IsSym(lens, s) && IsSym(lens, n) && root <= MAXBITS
    requires Start(lens, n) == Start(lens, s) + Width(lens, s) && Position(lens, n) == Position(lens, s) + 1
    requires Position(lens, s0) <= Position(lens, s)
    requires if lens[s] <= root then f.used == Pow2(root)
             else Sized(lens, root, max, f, s0, s) &&
                  Shr(Start(lens, s), MAXBITS - root) != Shr(Start(lens, n), MAXBITS - root)
    requires lens[n] > root && f'.used == f.used + Pow2(f'.curr) && Snug(lens, root, max, f'.curr, n)
    ensures Sized(lens, root, max, f', n, n)
  {
    hide Shl, Shr, Pow2, Start, Position, Count, End, Below, Snug;
    Crossing(lens, root, s, n);
    NextStart(lens, s, n);
    SnugBounds(lens, root, max, f'.curr, n);
    if lens[s] > root {
      SubCount(lens, root, max, f, s0, s, n);
      Pow2Mono(f.curr, lens[n] - root);
    }
  }

  lemma SnugBounds(lens: seq<nat>, root: nat, max: nat, curr: nat, s0: nat)
    requires ValidLens(lens) && IsSym(lens, s0) && root <= MAXBITS && Snug(lens, root, max, curr, s0)
    ensures lens[s0] <= root + curr <= max <= MAXBITS
  {
  }

  // A sub-table's stretch of points ends within the code.
  lemma RoomAfter(x: nat, w: nat, root: nat, b: nat)
    requires x == Shl(Shr(x, b), b) && w > 0 && x + w <= Pow2(root + b)
    ensures x + Pow2(b) <= Pow2(root + b)
  {
    hide Shl, Shr, Pow2;
    var top := Shr(x, b);
    ShlPow2(root, b);
    if top >= Pow2(root) {
      ShlMono(Pow2(root), top, b);
    } else {
      ShlLess(top, Pow2(root), b);
    }
  }

  lemma CodesAhead(lens: seq<nat>, root: nat, n: nat)
    requires ValidLens(lens) && Complete(lens) && IsSym(lens, n) && root < lens[n]
    requires Start(lens, n) == Shl(Shr(Start(lens, n), MAXBITS - root), MAXBITS - root)
    ensures Position(lens, n) + Pow2(lens[n] - root) <= |lens|
  {
    hide Shl, Shr, Pow2, Start, Position, Count, End, Below;
    var k, a := MAXBITS - lens[n], lens[n] - root;
    RestCount(lens, n);
    var g := |lens| - Position(lens, n);
    StartBounds(lens, n);
    RoomAfter(Start(lens, n), Width(lens, n), root, MAXBITS - root);
    ShlPow2(a, k);
    if g < Pow2(a) { ShlLess(g, Pow2(a), k); }
  }

  // The whole table stays within Space.
  lemma SpaceBound(lens: seq<nat>, bits: nat, root: nat, max: nat, f: Fill, n: nat)
    requires ValidLens(lens) && Complete(lens) && IsSym(lens, n) && bits <= root <= MAXBITS
    requires Sized(lens, root, max, f, n, n)
    requires Pow2(root) <= Pow2(bits) || Pow2(root) <= |lens|
    ensures f.used <= Space(bits, |lens|)
  {
    hide Shl, Shr, Pow2, Start, Position, Count, End, Below, Snug;
    CodesAhead(lens, root, n);
    SnugBounds(lens, root, max, f.curr, n);
    Pow2Mono(f.curr, MAXBITS - bits);
  }
}
