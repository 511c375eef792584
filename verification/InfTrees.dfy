// wtmi/compressed/inftrees.c: building the two-level decoding table.
module InfTrees {
  import opened Bits
  import opened Canonical
  import opened DecodeTable
  import opened TableSize

  // ---- the loops before the table is filled ----

  method CountLengths(lens: array<nat>, lo: nat, codes: nat) returns (count: array<nat>)
    requires lo + codes <= lens.Length && ValidLens(lens[lo..lo + codes])
    ensures fresh(count) && count.Length == MAXBITS + 1
    ensures forall l | 0 <= l <= MAXBITS :: count[l] == Count(lens[lo..lo + codes], l)
  {
    ghost var ls := lens[lo..lo + codes];
    count := new nat[MAXBITS + 1](_ => 0);
    for sym := 0 to codes
      invariant forall l | 0 <= l <= MAXBITS :: count[l] == Count(ls[..sym], l)
    {
      assert lens[lo + sym] == ls[sym];
      forall l | 0 <= l <= MAXBITS
        ensures Count(ls[..sym + 1], l) == Count(ls[..sym], l) + if ls[sym] == l then 1 else 0
      {
        CountStep(ls, sym, l);
      }
      count[lens[lo + sym]] := count[lens[lo + sym]] + 1;
    }
    assert ls[..codes] == ls;
  }

  // left: codes of the longest length not yet used.  A negative result stands
  // for the early return at the first over-subscribed length.
  method KraftLeft(count: array<nat>, ghost ls: seq<nat>) returns (left: int)
    requires count.Length == MAXBITS + 1
    requires forall l | 0 <= l <= MAXBITS :: count[l] == Count(ls, l)
    ensures left < 0 <==> OverSubscribed(ls)
    ensures left >= 0 ==> End(ls, MAXBITS) + left == Pow2(MAXBITS)
  {
    left := 1;
    ShlOne(MAXBITS);
    for l := 0 to MAXBITS
      invariant left >= 0 && KraftAt(ls, l, left)
    {
      ghost var before := left;
      left := 2 * left;
      left := left - count[l + 1];
      KraftStep(ls, l, before, left);
      if left < 0 { return; }
    }
  }

  // left of the codes of length len are still free.
  ghost predicate KraftAt(ls: seq<nat>, len: nat, left: nat)
    requires len <= MAXBITS
  {
    End(ls, len) + Shl(left, MAXBITS - len) == Pow2(MAXBITS)
  }

  lemma KraftStep(ls: seq<nat>, len: nat, left: nat, next: int)
    requires len < MAXBITS && KraftAt(ls, len, left) && next == 2 * left - Count(ls, len + 1)
    ensures next < 0 ==> OverSubscribed(ls)
    ensures next >= 0 ==> KraftAt(ls, len + 1, next)
  {
    KraftSum(End(ls, len), left, Count(ls, len + 1), MAXBITS - len - 1, Pow2(MAXBITS));
    EndMono(ls, len + 1, MAXBITS);
  }

  lemma KraftSum(e: nat, left: nat, c: nat, k: nat, total: nat)
    requires e + Shl(left, k + 1) == total
    ensures 2 * left < c ==> e + Shl(c, k) > total
    ensures 2 * left >= c ==> e + Shl(c, k) + Shl(2 * left - c, k) == total
  {
    ShlDouble(left, k);
    if 2 * left < c {
      ShlLess(2 * left, c, k);
    } else {
      ShlAdd(2 * left - c, c, k);
    }
  }

  // Counting sort: work lists the symbols by length, then by value.
  method SortSymbols(lens: array<nat>, lo: nat, codes: nat, count: array<nat>, work: array<nat>)
    requires lo + codes <= lens.Length && ValidLens(lens[lo..lo + codes]) && work.Length >= codes
    requires count.Length == MAXBITS + 1 && work != count && work != lens
    requires forall l | 0 <= l <= MAXBITS :: count[l] == Count(lens[lo..lo + codes], l)
    modifies work
    ensures SortedUpTo(lens[lo..lo + codes], work[..], codes)
  {
    hide SortedUpTo, Position, Below, Count, Rank;
    ghost var ls := lens[lo..lo + codes];
    NoneSorted(ls, work[..]);
    var offs := Offsets(count, ls);
    for sym := 0 to codes
      invariant forall l | 1 <= l <= MAXBITS :: offs[l] == Below(ls, l) + Count(ls[..sym], l)
      invariant SortedUpTo(ls, work[..], sym)
    {
      var l := lens[lo + sym];
      assert l == ls[sym];
      CountSteps(ls, sym);
      SortedStep(ls, work[..], sym);
      if l != 0 {
        PositionIs(ls, sym);
        work[offs[l]] := sym;
        offs[l] := offs[l] + 1;
      }
    }
  }

  method Offsets(count: array<nat>, ghost ls: seq<nat>) returns (offs: array<nat>)
    requires count.Length == MAXBITS + 1
    requires forall l | 0 <= l <= MAXBITS :: count[l] == Count(ls, l)
    ensures fresh(offs) && offs.Length == MAXBITS + 1
    ensures forall l | 1 <= l <= MAXBITS :: offs[l] == Below(ls, l)
  {
    offs := new nat[MAXBITS + 1](_ => 0);
    for len := 1 to MAXBITS
      invariant forall l | 1 <= l <= len :: offs[l] == Below(ls, l)
    {
      offs[len + 1] := offs[len] + count[len];
    }
  }

  lemma CountSteps(ls: seq<nat>, k: nat)
    requires k < |ls|
    ensures forall l: nat :: Count(ls[..k + 1], l) == Count(ls[..k], l) + if ls[k] == l then 1 else 0
  {
    forall l: nat
      ensures Count(ls[..k + 1], l) == Count(ls[..k], l) + if ls[k] == l then 1 else 0
    {
      CountStep(ls, k, l);
    }
  }

  ghost predicate SortedUpTo(lens: seq<nat>, work: seq<nat>, n: nat)
  {
    forall s: nat | s < n && IsSym(lens, s) ::
      Position(lens, s) < |work| && work[Position(lens, s)] == s
  }

  lemma NoneSorted(lens: seq<nat>, work: seq<nat>)
    ensures SortedUpTo(lens, work, 0)
  {
  }

  lemma PositionIs(lens: seq<nat>, s: nat)
    requires IsSym(lens, s)
    ensures Position(lens, s) == Below(lens, lens[s]) + Count(lens[..s], lens[s])
  {
  }

  lemma SortedStep(lens: seq<nat>, work: seq<nat>, sym: nat)
    requires ValidLens(lens) && sym < |lens| <= |work| && SortedUpTo(lens, work, sym)
    ensures lens[sym] == 0 ==> SortedUpTo(lens, work, sym + 1)
    ensures lens[sym] >= 1 ==>
              Position(lens, sym) < |work| && SortedUpTo(lens, work[Position(lens, sym) := sym], sym + 1)
  {
    if lens[sym] >= 1 {
      PositionBound(lens, sym);
      forall s: nat | s < sym && IsSym(lens, s)
        ensures Position(lens, s) != Position(lens, sym)
      {
        if Position(lens, s) == Position(lens, sym) { PositionInjective(lens, s, sym); }
      }
    }
  }

  // ---- elementary steps of the filling loop ----

  method Replicate(table: array<Code>, at: nat, idx: nat, bits: nat, size: nat, e: Code)
    requires bits <= size && idx < Pow2(bits) && at + Pow2(size) <= table.Length
    modifies table
    ensures table[..] == Filled(old(table[..]), at, idx, bits, size, e)
  {
    hide Pow2, Shl, Low;
    var incr := Pow2(bits);
    var fill := Pow2(size);
    ghost var n := Pow2(size - bits);
    Pow2Positive(size - bits);
    ShlPow2(size - bits, bits);
    ghost var was := table[..];
    while true
      invariant n > 0 && fill == Shl(n, bits) <= Pow2(size) && Replicas(was, table[..], at, idx, bits, size, e, fill)
      decreases n
    {
      ReplicaAt(n - 1, bits, idx);
      OneReplica(was, table[..], at, idx, bits, size, e, n - 1);
      fill := fill - incr;
      n := n - 1;
      table[at + idx + fill] := e;
      if fill == 0 { break; }
    }
  }

  // The entries from fill on are done.
  predicate Replicas(was: seq<Code>, r: seq<Code>, at: nat, idx: nat, bits: nat, size: nat, e: Code, fill: nat)
  {
    |r| == |was| &&
    forall i | 0 <= i < |r| ::
      r[i] == if at + fill <= i < at + Pow2(size) && Low(i - at, bits) == idx then e else was[i]
  }

  lemma OneReplica(was: seq<Code>, r: seq<Code>, at: nat, idx: nat, bits: nat, size: nat, e: Code, n: nat)
    requires idx < Pow2(bits) && Shl(n + 1, bits) <= Pow2(size) && at + Pow2(size) <= |r|
    requires Replicas(was, r, at, idx, bits, size, e, Shl(n + 1, bits))
    ensures Shl(n, bits) + idx < Shl(n + 1, bits)
    ensures Replicas(was, r[at + idx + Shl(n, bits) := e], at, idx, bits, size, e, Shl(n, bits))
  {
    hide Pow2, Shl, Low;
    ReplicaAt(n, bits, idx);
    var r' := r[at + idx + Shl(n, bits) := e];
    forall i | 0 <= i < |r|
      ensures r'[i] == if at + Shl(n, bits) <= i < at + Pow2(size) && Low(i - at, bits) == idx then e else was[i]
    {
      if at + Shl(n, bits) <= i < at + Shl(n + 1, bits) {
        assert Low(i - at, bits) == idx <==> i - at == Shl(n, bits) + idx;
      }
    }
  }

  lemma ReplicaAt(n: nat, bits: nat, idx: nat)
    requires idx < Pow2(bits)
    ensures Shl(n + 1, bits) == Shl(n, bits) + Pow2(bits)
    ensures n == 0 ==> Shl(n, bits) == 0
    ensures forall j: nat | Shl(n, bits) <= j < Shl(n, bits) + Pow2(bits) ::
              Low(j, bits) == idx <==> j == Shl(n, bits) + idx
  {
    ShlLess(n, n + 1, bits);
    ShlOne(bits);
    forall j: nat | Shl(n, bits) <= j < Shl(n, bits) + Pow2(bits)
      ensures Low(j, bits) == idx <==> j == Shl(n, bits) + idx
    {
      Join(j - Shl(n, bits), n, bits);
    }
  }

  // The "backwards increment": add one to the len-bit code that huff holds in
  // reverse.
  method BackIncrement(huff: nat, len: nat, ghost c: nat) returns (next: nat)
    requires 1 <= len && huff == Rev(len, c)
    ensures next == Rev(len, c + 1)
  {
    // incr == 1 << k, or 0 once k falls below 0
    var k: int := len - 1;
    ghost var q := c;
    LowOfSmall(huff, len);
    while k >= 0 && Bit(huff, k)
      invariant -1 <= k < len
      invariant Low(huff, k + 1) == Rev(k + 1, q)
      invariant Rev(len, c + 1) == Rev(k + 1, q + 1)
    {
      BitOfRev(huff, k, q);
      k := k - 1;
      q := q / 2;
    }
    if k >= 0 {
      BitOfRev(huff, k, q);
      next := Low(huff, k) + Pow2(k);
    } else {
      next := 0;
    }
  }

  lemma BitOfRev(huff: nat, k: nat, q: nat)
    requires Low(huff, k + 1) == Rev(k + 1, q)
    ensures Bit(huff, k) <==> q % 2 == 1
    ensures Low(huff, k) == Rev(k, q / 2)
    ensures Rev(k + 1, q + 1) == if Bit(huff, k) then Rev(k, q / 2 + 1) else Low(huff, k) + Pow2(k)
  {
    LowTop(k, huff);
    assert (q + 1) / 2 == if q % 2 == 1 then q / 2 + 1 else q / 2;
  }

  // huff & (1 << k)
  predicate Bit(huff: nat, k: nat) { Shr(huff, k) % 2 == 1 }

  // ---- walking the sorted symbols ----

  lemma RevCodeIsRev(ls: seq<nat>, s: nat)
    requires ValidLens(ls) && IsSym(ls, s)
    ensures RevCode(ls, s) == Rev(MAXBITS, Start(ls, s))
    ensures Rev(ls[s], Codeword(ls, s) + 1) == Rev(MAXBITS, Start(ls, s) + Width(ls, s))
  {
    hide Rev, Shl, Codeword;
    var c, k := Codeword(ls, s), MAXBITS - ls[s];
    RevShl(ls[s], k, c);
    RevShl(ls[s], k, c + 1);
    ShlLess(c, c + 1, k);
  }

  // huff holds the code of the sym-th sorted symbol, len bits long, and
  // count what is left of each length.
  ghost predicate Cursor(ls: seq<nat>, work: seq<nat>, count: seq<nat>, sym: nat, len: nat, huff: nat)
  {
    && ValidLens(ls) && sym < |work| && |count| == MAXBITS + 1
    && var s := work[sym];
    && IsSym(ls, s) && Position(ls, s) == sym && ls[s] == len && RevCode(ls, s) == huff
    && count[len] == Count(ls, len) - Rank(ls, s)
    && forall l | len < l <= MAXBITS :: count[l] == Count(ls, l)
  }

  ghost predicate MaxLen(ls: seq<nat>, max: nat)
  {
    1 <= max <= MAXBITS && Count(ls, max) > 0 && forall l | max < l <= MAXBITS :: Count(ls, l) == 0
  }

  ghost predicate Bounds(ls: seq<nat>, min: nat, max: nat)
  {
    && 1 <= min <= max && MaxLen(ls, max) && Count(ls, min) > 0
    && (forall l | 1 <= l < min :: Count(ls, l) == 0)
  }

  lemma {:induction false} SomeSymbol(ls: seq<nat>, work: seq<nat>, p: nat, l: nat) returns (s: nat)
    requires 1 <= l <= MAXBITS + 1 && p < Below(ls, l)
    requires SortedUpTo(ls, work, |ls|)
    ensures IsSym(ls, s) && Position(ls, s) == p && ls[s] < l && p < |work| && work[p] == s
  {
    s := AtPosition(ls, p, l);
  }

  lemma FirstCursor(ls: seq<nat>, work: seq<nat>, count: seq<nat>, min: nat, max: nat)
    requires ValidLens(ls) && SortedUpTo(ls, work, |ls|) && Bounds(ls, min, max) && |count| == MAXBITS + 1
    requires forall l | 0 <= l <= MAXBITS :: count[l] == Count(ls, l)
    ensures Cursor(ls, work, count, 0, min, 0) && Start(ls, work[0]) == 0
  {
    hide Rev, Shl, Codeword, RevCode, Start, Count, FirstCode, Rank, Position, End, Below;
    var s := FirstSymbol(ls, work, min, max);
    FirstStart(ls, s, min);
    RevCodeIsRev(ls, s);
    RevZero(MAXBITS);
  }

  lemma FirstSymbol(ls: seq<nat>, work: seq<nat>, min: nat, max: nat) returns (s: nat)
    requires ValidLens(ls) && SortedUpTo(ls, work, |ls|) && Bounds(ls, min, max)
    ensures IsSym(ls, s) && ls[s] == min && Rank(ls, s) == 0 && Position(ls, s) == 0 && |work| > 0 && work[0] == s
  {
    hide Shl, Codeword, Start, Count, FirstCode, Rank;
    BelowNone(ls, min);
    s := SomeSymbol(ls, work, 0, min + 1);
    if ls[s] < min { RankBound(ls, s); }
  }

  // The first symbol of the shortest length starts at point 0.
  lemma FirstStart(ls: seq<nat>, s: nat, min: nat)
    requires ValidLens(ls) && IsSym(ls, s) && ls[s] == min && Rank(ls, s) == 0
    requires forall l | 1 <= l < min :: Count(ls, l) == 0
    ensures Start(ls, s) == 0
  {
    hide Shl, Codeword, Start, Count, FirstCode, Rank;
    BelowNone(ls, min);
    EmptyStretch(ls, 1, min);
    StartIsEnd(ls, s);
    ShlOne(MAXBITS - min);
  }

  lemma {:induction false} RevZero(n: nat)
    ensures Rev(n, 0) == 0 && Rev(n, Pow2(n)) == 0
  {
    if n > 0 {
      RevZero(n - 1);
      assert Pow2(n) / 2 == Pow2(n - 1);
    }
  }

  lemma {:induction false} BelowNone(ls: seq<nat>, min: nat)
    requires min >= 1 && forall l | 1 <= l < min :: Count(ls, l) == 0
    ensures Below(ls, min) == 0
  {
    if min > 1 { BelowNone(ls, min - 1); }
  }

  lemma CursorCount(ls: seq<nat>, work: seq<nat>, count: seq<nat>, sym: nat, len: nat, huff: nat)
    requires Cursor(ls, work, count, sym, len, huff)
    ensures count[len] > 0
  {
    RankBound(ls, work[sym]);
  }

  // The step to the next symbol, as the loop takes it.
  lemma NextCursor(ls: seq<nat>, work: seq<nat>, count: seq<nat>, sym: nat, len: nat, huff: nat,
                   max: nat, next: nat, count': seq<nat>)
    requires Cursor(ls, work, count, sym, len, huff) && SortedUpTo(ls, work, |ls|)
    requires len <= max && MaxLen(ls, max)
    requires next == Rev(len, Codeword(ls, work[sym]) + 1)
    requires count[len] > 0 && count' == count[len := count[len] - 1]
    ensures var s := work[sym];
            if count'[len] == 0 && len == max then
              Start(ls, s) + Width(ls, s) == End(ls, MAXBITS) && next == Rev(MAXBITS, End(ls, MAXBITS))
            else
              && sym + 1 < |work| && IsSym(ls, work[sym + 1])
              && Cursor(ls, work, count', sym + 1, ls[work[sym + 1]], next)
              && (count'[len] != 0 ==> ls[work[sym + 1]] == len) && len <= ls[work[sym + 1]] <= max
              && Start(ls, work[sym + 1]) == Start(ls, s) + Width(ls, s)
  {
    hide Rev, Codeword, RevCode, Start, Count, FirstCode, Rank, Pow2, End, SortedUpTo, MaxLen, Position;
    if count'[len] == 0 && len == max {
      AtLast(ls, work, count, sym, len, huff, next);
    } else {
      AtNext(ls, work, count, sym, len, huff, max, next, count');
    }
  }

  // No symbol is left.
  lemma AtLast(ls: seq<nat>, work: seq<nat>, count: seq<nat>, sym: nat, max: nat, huff: nat, next: nat)
    requires Cursor(ls, work, count, sym, max, huff) && MaxLen(ls, max)
    requires next == Rev(max, Codeword(ls, work[sym]) + 1) && count[max] == 1
    ensures var s := work[sym];
            Start(ls, s) + Width(ls, s) == End(ls, MAXBITS) && next == Rev(MAXBITS, End(ls, MAXBITS))
  {
    hide Rev, Shl, Codeword, RevCode, Start, Count, FirstCode, Rank, Pow2, End;
    var s := work[sym];
    RankBound(ls, s);
    RevCodeIsRev(ls, s);
    BelowAbove(ls, max + 1);
    LastEnd(ls, s);
  }

  // The next symbol, of this length or a greater one.
  lemma AtNext(ls: seq<nat>, work: seq<nat>, count: seq<nat>, sym: nat, len: nat, huff: nat,
               max: nat, next: nat, count': seq<nat>)
    requires Cursor(ls, work, count, sym, len, huff) && SortedUpTo(ls, work, |ls|)
    requires len <= max && MaxLen(ls, max)
    requires next == Rev(len, Codeword(ls, work[sym]) + 1)
    requires count[len] > 0 && count' == count[len := count[len] - 1] && !(count'[len] == 0 && len == max)
    ensures var s := work[sym];
            && sym + 1 < |work| && IsSym(ls, work[sym + 1])
            && Cursor(ls, work, count', sym + 1, ls[work[sym + 1]], next)
            && (count'[len] != 0 ==> ls[work[sym + 1]] == len) && len <= ls[work[sym + 1]] <= max
            && Start(ls, work[sym + 1]) == Start(ls, s) + Width(ls, s)
  {
    hide Rev, Shl, Codeword, RevCode, Start, Count, FirstCode, Rank, Pow2, End;
    var s := work[sym];
    MoreBelow(ls, s, len, max, count'[len]);
    var n := SomeSymbol(ls, work, sym + 1, max + 1);
    hide Position;
    NextStart(ls, s, n);
    RevCodeIsRev(ls, s);
    RevCodeIsRev(ls, n);
  }

  lemma MoreBelow(ls: seq<nat>, s: nat, len: nat, max: nat, rest: nat)
    requires ValidLens(ls) && IsSym(ls, s) && ls[s] == len <= max && MaxLen(ls, max)
    requires rest == Count(ls, len) - Rank(ls, s) - 1 && !(rest == 0 && len == max)
    ensures Position(ls, s) + 1 < Below(ls, max + 1)
  {
    hide Count, Rank;
    RankBound(ls, s);
    BelowMono(ls, len + 1, max + 1);
    if len < max { BelowMono(ls, len + 1, max); }
  }

  lemma {:induction false} BelowAbove(ls: seq<nat>, l: nat)
    requires 1 <= l <= MAXBITS + 1 && forall k | l <= k <= MAXBITS :: Count(ls, k) == 0
    ensures Below(ls, MAXBITS + 1) == Below(ls, l)
    decreases MAXBITS + 1 - l
  {
    if l <= MAXBITS { BelowAbove(ls, l + 1); }
  }

  // ---- sub-table size ----

  method SubTableBits(count: array<nat>, len: nat, root: nat, max: nat, ghost ls: seq<nat>, ghost n: nat)
    returns (curr: nat)
    requires ValidLens(ls) && IsSym(ls, n) && ls[n] == len && count.Length == MAXBITS + 1
    requires 1 <= root < len <= max <= MAXBITS
    requires count[len] == Count(ls, len) - Rank(ls, n)
    requires forall l | len < l <= MAXBITS :: count[l] == Count(ls, l)
    ensures Snug(ls, root, max, curr, n)
  {
    curr := len - root;
    var left: int := Pow2(curr);
    ghost var end := Start(ls, n) + Pow2(MAXBITS - root);
    ghost var used := Start(ls, n);
    ShlPow2(curr, MAXBITS - len);
    while curr + root < max
      invariant len <= root + curr <= max
      invariant left > 0 && used + Shl(left, MAXBITS - (root + curr)) == end
      invariant used == if root + curr == len then Start(ls, n) else End(ls, root + curr - 1)
      decreases max - curr
    {
      UsedStep(ls, n, root + curr, used, left, count[root + curr]);
      used := End(ls, root + curr);
      left := left - count[curr + root];
      if left <= 0 { break; }
      curr := curr + 1;
      left := 2 * left;
    }
  }

  lemma UsedStep(ls: seq<nat>, n: nat, l: nat, used: nat, left: nat, c: nat)
    requires ValidLens(ls) && IsSym(ls, n) && ls[n] <= l < MAXBITS
    requires used == if l == ls[n] then Start(ls, n) else End(ls, l - 1)
    requires c == if l == ls[n] then Count(ls, l) - Rank(ls, n) else Count(ls, l)
    ensures used + Shl(c, MAXBITS - l) == End(ls, l)
    ensures left > c ==> End(ls, l) + Shl(2 * (left - c), MAXBITS - (l + 1)) == used + Shl(left, MAXBITS - l)
    ensures left <= c ==> End(ls, l) >= used + Shl(left, MAXBITS - l)
  {
    var k := MAXBITS - l;
    StartIsEnd(ls, n);
    RankBound(ls, n);
    if l == ls[n] { ShlAdd(Rank(ls, n), c, k); }
    if left > c {
      ShlAdd(c, left - c, k);
      ShlDouble(left - c, k - 1);
    } else {
      ShlMono(left, c, k);
    }
  }

  // ---- the filling loop ----

  lemma FilledSlice(t: seq<Code>, t0: nat, n: nat, at: nat, idx: nat, bits: nat, size: nat, e: Code)
    requires t0 + n <= |t| && at + Pow2(size) <= n
    ensures var t' := Filled(t, t0 + at, idx, bits, size, e);
            && t'[t0..t0 + n] == Filled(t[t0..t0 + n], at, idx, bits, size, e)
            && t'[..t0] == t[..t0] && t'[t0 + n..] == t[t0 + n..]
  {
  }

  // What the table holds when all symbols that start before point x are in
  // and the current table is the one for symbol s.
  ghost predicate Filling(r: seq<Code>, root: nat, max: nat, ct: CodeType, ls: seq<nat>, f: Fill,
                          s0: nat, s: nat, x: nat)
  {
    && ValidLens(ls) && !OverSubscribed(ls) && |ls| <= MaxCodes(ct) && 1 <= root <= MAXBITS && Pow2(root) <= |r|
    && IsSym(ls, s) && IsSym(ls, s0) && Position(ls, s0) <= Position(ls, s)
    && Opened(r, root, ls, f, s) && EnteredBelow(r, root, ct, ls, f, x)
    && if ls[s] <= root then f.used == Pow2(root) else Sized(ls, root, max, f, s0, s)
  }

  // Enter symbol s, whose code is huff, in the current table.
  method PutSymbol(table: array<Code>, t0: nat, ghost n: nat, ct: CodeType, s: nat, len: nat, huff: nat,
                   next: nat, curr: nat, drop: nat,
                   ghost root: nat, ghost max: nat, ghost ls: seq<nat>, ghost f: Fill, ghost s0: nat)
    requires IsSym(ls, s) && ValidLens(ls) && len == ls[s] && huff == RevCode(ls, s)
    requires t0 + n <= table.Length && Filling(table[t0..t0 + n], root, max, ct, ls, f, s0, s, Start(ls, s))
    requires f.next == next && f.curr == curr && f.drop == drop
    modifies table
    ensures table[..t0] == old(table[..t0]) && table[t0 + n..] == old(table[t0 + n..])
    ensures Filling(table[t0..t0 + n], root, max, ct, ls, f, s0, s, Start(ls, s) + Width(ls, s))
  {
    hide Low, Pow2, Rev, Meaning, Count, Filled, EnteredBelow, Sized, Start;
    ghost var r := table[t0..t0 + n];
    var e := Entry(ct, s, len - drop);
    IdxBound(ls, root, s);
    EnterStep(r, root, ct, ls, f, s);
    FilledSlice(table[..], t0, n, next, Shr(huff, drop), len - drop, curr, e);
    Replicate(table, t0 + next, Shr(huff, drop), len - drop, curr, e);
  }

  lemma IdxBound(ls: seq<nat>, root: nat, s: nat)
    requires IsSym(ls, s)
    ensures Idx(ls, root, s) < Pow2(Depth(ls, root, s))
  {
    if ls[s] > root { ShrBound(RevCode(ls, s), root, ls[s] - root); }
  }

  // Start the sub-table that symbol n, next after s, goes into.
  method OpenSub(table: array<Code>, t0: nat, ghost sp: nat, ct: CodeType, count: array<nat>,
                 len: nat, huff: nat, root: nat, max: nat, used: nat, ghost bits: nat,
                 ghost ls: seq<nat>, ghost f: Fill, ghost s0: nat, ghost s: nat, ghost n: nat)
    returns (curr: nat, full: bool)
    requires IsSym(ls, n) && IsSym(ls, s) && ValidLens(ls) && len == ls[n] && huff == RevCode(ls, n)
    requires bits <= MAXBITS && sp == Space(bits, |ls|) < 0x10000
    requires t0 + sp <= table.Length && Filling(table[t0..t0 + sp], root, max, ct, ls, f, s0, s, Start(ls, n))
    requires Start(ls, n) == Start(ls, s) + Width(ls, s) && Position(ls, n) == Position(ls, s) + 1
    requires bits <= root && (Pow2(root) <= Pow2(bits) || Pow2(root) <= |ls|) && Complete(ls)
    requires f.used == used && len > root && Low(huff, root) != f.low
    requires count.Length == MAXBITS + 1 && len <= max <= MAXBITS
    requires count[len] == Count(ls, len) - Rank(ls, n)
    requires forall l | len < l <= MAXBITS :: count[l] == Count(ls, l)
    modifies table
    ensures table[..t0] == old(table[..t0]) && table[t0 + sp..] == old(table[t0 + sp..])
    ensures used + Pow2(curr) <= sp
    ensures full <==> ct == LENS && used + Pow2(curr) >= ENOUGH - MAXD
    ensures !full ==>
            var f' := Fill(used, curr, root, Low(huff, root), used + Pow2(curr));
            Filling(table[t0..t0 + sp], root, max, ct, ls, f', n, n, Start(ls, n))
  {
    hide Low, Pow2, Rev, Meaning, Count, Filled, EnteredBelow, Sized, Start, Shr, Complete;
    curr := SubTableBits(count, len, root, max, ls, n);
    ghost var f' := Fill(used, curr, root, Low(huff, root), used + Pow2(curr));
    SameTop(ls, s, n, root);
    Accounting(ls, root, max, f, s0, s, n, f');
    SpaceBound(ls, bits, root, max, f', n);
    SnugBounds(ls, root, max, curr, n);
    full := ct == LENS && used + Pow2(curr) >= ENOUGH - MAXD;
    if full { return; }
    var k := Code(curr, root, used);
    ghost var r := table[t0..t0 + sp];
    OpenStep(r, root, ct, ls, f, s, n, k, f');
    table[t0 + Low(huff, root)] := k;
    assert table[t0..t0 + sp] == r[Low(huff, root) := k];
  }

  // Increment the code, count the symbol, move to the next one.  A returned
  // length of 0 stands for the end of the loop.
  method NextSymbol(lens: array<nat>, lo: nat, codes: nat, count: array<nat>, work: array<nat>,
                    sym: nat, len: nat, huff: nat, max: nat)
    returns (huff': nat, sym': nat, len': nat)
    requires lo + codes <= lens.Length && count != lens && count != work
    requires Cursor(lens[lo..lo + codes], work[..], count[..], sym, len, huff)
    requires SortedUpTo(lens[lo..lo + codes], work[..], codes)
    requires len <= max && MaxLen(lens[lo..lo + codes], max)
    modifies count
    ensures sym' == sym + 1 <= codes
    ensures len' == 0 ==> var ls := lens[lo..lo + codes];
            && Start(ls, work[sym]) + Width(ls, work[sym]) == End(ls, MAXBITS)
            && huff' == Rev(MAXBITS, End(ls, MAXBITS))
    ensures len' != 0 ==> var ls := lens[lo..lo + codes];
            && Cursor(ls, work[..], count[..], sym', len', huff') && len <= len' <= max
            && Start(ls, work[sym']) == Start(ls, work[sym]) + Width(ls, work[sym])
  {
    hide Low, Pow2, Rev, Count, Start, Shr, Shl, Position, Codeword, SortedUpTo, End, Rank, Width, MaxLen;
    ghost var ls := lens[lo..lo + codes];
    ghost var c0 := count[..];
    PositionBound(ls, work[sym]);
    huff' := BackIncrement(huff, len, Codeword(ls, work[sym]));
    CursorCount(ls, work[..], c0, sym, len, huff);
    count[len] := count[len] - 1;
    NextCursor(ls, work[..], c0, sym, len, huff, max, huff', count[..]);
    sym' := sym + 1;
    len' := len;
    if count[len] == 0 {
      if len == max {
        len' := 0;
      } else {
        len' := lens[lo + work[sym']];
      }
    }
  }

  // The main loop: process all codes and make table entries.
  method FillCodes(ct: CodeType, lens: array<nat>, lo: nat, codes: nat, table: array<Code>, t0: nat, ghost sp: nat,
                   ghost bits: nat, root: nat, min: nat, max: nat, count: array<nat>, work: array<nat>)
    returns (full: bool, used: nat, huff: nat, drop: nat, next: nat, low: int)
    requires lo + codes <= lens.Length && ValidLens(lens[lo..lo + codes]) && codes <= MaxCodes(ct)
    requires Complete(lens[lo..lo + codes]) || (Lone(lens[lo..lo + codes]) && max == 1)
    requires !OverSubscribed(lens[lo..lo + codes])
    requires Bounds(lens[lo..lo + codes], min, max) && min <= root <= MAXBITS
    requires bits <= MAXBITS && sp == Space(bits, codes) < 0x10000 && t0 + sp <= table.Length
    requires bits <= root || max == root
    requires Pow2(root) <= Pow2(bits) || Pow2(root) <= codes
    requires SortedUpTo(lens[lo..lo + codes], work[..], codes)
    requires count.Length == MAXBITS + 1 && count != lens && count != work
    requires forall l | 0 <= l <= MAXBITS :: count[l] == Count(lens[lo..lo + codes], l)
    modifies table, count
    ensures table[..t0] == old(table[..t0]) && table[t0 + sp..] == old(table[t0 + sp..])
    ensures full ==> ct == LENS && sp >= ENOUGH - MAXD
    ensures !full ==> Pow2(root) <= used <= sp && huff == Rev(MAXBITS, End(lens[lo..lo + codes], MAXBITS))
    ensures !full && max <= root ==> drop == 0 && next == 0
    ensures !full ==> AllEntered(table[t0..t0 + used], root, ct, lens[lo..lo + codes])
  {
    hide Low, Pow2, Rev, Count, EnteredBelow, Sized, Start, Shr, Complete, Lone, OverSubscribed, Shl,
         Opened, Position, Codeword, Bounds, SortedUpTo, End, Entered, Filling, Rank, Space;
    ghost var ls := lens[lo..lo + codes];
    full := false;
    huff := 0;
    var sym: nat, len: nat, curr: nat := 0, min, root;
    next, drop, low := 0, 0, -1;
    used := Pow2(root);
    FitsSpace(bits, root, codes);
    if ct == LENS && used >= ENOUGH - MAXD { return true, used, huff, drop, next, low; }
    FirstCursor(ls, work[..], count[..], min, max);
    ghost var s0, s := work[0], work[0];
    BoundsMax(ls, min, max);
    StartFilling(table[t0..t0 + sp], root, max, ct, ls, s);
    while true
      invariant Cursor(ls, work[..], count[..], sym, len, huff) && s == work[sym]
      invariant len <= max && used <= sp && (max <= root ==> drop == 0 && next == 0)
      invariant Filling(table[t0..t0 + sp], root, max, ct, ls, Fill(next, curr, drop, low, used), s0, s, Start(ls, s))
      invariant table[..t0] == old(table[..t0]) && table[t0 + sp..] == old(table[t0 + sp..])
      decreases codes - sym
    {
      ghost var f := Fill(next, curr, drop, low, used);
      PutSymbol(table, t0, sp, ct, work[sym], len, huff, next, curr, drop, root, max, ls, f, s0);
      huff, sym, len := NextSymbol(lens, lo, codes, count, work, sym, len, huff, max);
      if len == 0 { break; }
      ghost var n := work[sym];
      if len > root && Low(huff, root) != low {
        drop := root;
        next := used;
        var c, stop := OpenSub(table, t0, sp, ct, count, len, huff, root, max, used, bits, ls, f, s0, s, n);
        curr := c;
        used := used + Pow2(curr);
        if stop { return true, used, huff, drop, next, low; }
        low := Low(huff, root);
        s0 := n;
      } else {
        KeepFilling(table[t0..t0 + sp], root, max, ct, ls, f, s0, s, n);
      }
      s := n;
    }
    AllIn(table[t0..t0 + sp], root, max, ct, ls, Fill(next, curr, drop, low, used), s0, s);
    assert table[t0..t0 + sp][..used] == table[t0..t0 + used];
  }

  ghost predicate AllEntered(r: seq<Code>, root: nat, ct: CodeType, ls: seq<nat>)
  {
    && ValidLens(ls) && |ls| <= MaxCodes(ct) && Pow2(root) <= |r|
    && forall t: nat | IsSym(ls, t) :: Entered(r, root, ct, ls, t)
  }

  lemma FitsSpace(bits: nat, root: nat, codes: nat)
    requires bits <= MAXBITS && (Pow2(root) <= Pow2(bits) || Pow2(root) <= codes)
    ensures Pow2(root) <= Space(bits, codes)
  {
  }

  lemma BoundsMax(ls: seq<nat>, min: nat, max: nat)
    requires Bounds(ls, min, max)
    ensures 1 <= min <= max && MaxLen(ls, max)
  {
  }

  lemma StartFilling(r: seq<Code>, root: nat, max: nat, ct: CodeType, ls: seq<nat>, s: nat)
    requires ValidLens(ls) && !OverSubscribed(ls) && |ls| <= MaxCodes(ct) && 1 <= root <= MAXBITS
    requires Pow2(root) <= |r| && IsSym(ls, s) && ls[s] <= root && Start(ls, s) == 0
    ensures Filling(r, root, max, ct, ls, Fill(0, root, 0, -1, Pow2(root)), s, s, Start(ls, s))
  {
  }

  // No new sub-table is due: symbol n goes where s went.
  lemma KeepFilling(r: seq<Code>, root: nat, max: nat, ct: CodeType, ls: seq<nat>, f: Fill, s0: nat, s: nat, n: nat)
    requires IsSym(ls, s) && IsSym(ls, n) && ValidLens(ls)
    requires Filling(r, root, max, ct, ls, f, s0, s, Start(ls, n))
    requires Position(ls, n) == Position(ls, s) + 1 && ls[s] <= ls[n] <= max
    requires ls[n] > root ==> Low(RevCode(ls, n), root) == f.low
    ensures Filling(r, root, max, ct, ls, f, s0, n, Start(ls, n))
  {
    hide Low, Pow2, Rev, Count, EnteredBelow, Start, Shr, Shl, Entered, OverSubscribed, RevCode, End, Snug, Position;
    if ls[n] > root {
      SameTop(ls, s, n, root);
      FitsSub(ls, root, max, f, s0, n);
    }
    StayStep(r, root, ls, f, s, n);
  }

  lemma AllIn(r: seq<Code>, root: nat, max: nat, ct: CodeType, ls: seq<nat>, f: Fill, s0: nat, s: nat)
    requires ValidLens(ls) && Filling(r, root, max, ct, ls, f, s0, s, End(ls, MAXBITS))
    ensures Pow2(root) <= f.used <= |r| && AllEntered(r[..f.used], root, ct, ls)
  {
    hide Low, Pow2, Rev, Count, Start, Shr, Shl, OverSubscribed, RevCode, End, Position, Sized, Entered;
    assert Pow2(root) <= f.used by { Pow2Positive(f.curr); }
    forall t: nat | IsSym(ls, t)
      ensures Entered(r[..f.used], root, ct, ls, t)
    {
      StartBounds(ls, t);
      EnteredPrefix(r, root, ct, ls, t, f.used);
    }
  }

  lemma Pow2Positive(k: nat)
    ensures Pow2(k) > 0
  {
  }

  lemma EnteredPrefix(r: seq<Code>, root: nat, ct: CodeType, ls: seq<nat>, t: nat, used: nat)
    requires ValidLens(ls) && |ls| <= MaxCodes(ct) && IsSym(ls, t)
    requires Pow2(root) <= used <= |r| && Entered(r, root, ct, ls, t)
    requires ls[t] > root ==> var k := Link(ls, r, root, t); k.val + Pow2(k.op) <= used
    ensures Entered(r[..used], root, ct, ls, t)
  {
    hide Low, Pow2, Rev, Shr, RevCode;
  }

  // Mark the rest of an incomplete code's table as invalid.  Only a lone
  // one-bit code leaves a rest.
  method FillRest(table: array<Code>, t0: nat, huff0: nat, len0: nat, drop0: nat, root: nat, low: int, next0: nat)
    requires t0 + 2 <= table.Length
    requires huff0 == 0 || (huff0 == 1 && len0 == 1 && root == 1 && drop0 == 0 && next0 == 0)
    modifies table
    ensures table[..] == if huff0 == 0 then old(table[..]) else old(table[..])[t0 + 1 := INVALID]
  {
    var huff, len := huff0, len0;
    var drop: int, next: int := drop0, next0;
    var bits: int := len - drop;
    RevOne();
    while huff != 0
      invariant huff == huff0 || huff == 0
      invariant huff != 0 ==> len == 1 && drop == 0 && bits == 1 && next == 0 && table[..] == old(table[..])
      invariant huff == 0 ==>
        table[..] == if huff0 == 0 then old(table[..]) else old(table[..])[t0 + 1 := INVALID]
      decreases huff
    {
      if drop != 0 && Low(huff, root) != low {
        drop := 0;
        len := root;
        next := 0;
        bits := len;
      }
      table[t0 + next + Shr(huff, drop)] := Code(64, bits, 0);
      huff := BackIncrement(huff, len, 1);
    }
  }

  lemma RevOne()
    ensures Rev(1, 1) == 1 && Rev(1, 2) == 0 && Shr(1, 0) == 1
  {
  }

  // ---- the whole of inflate_table ----

  // A complete code, or one of one bit, entered in full, decodes.
  lemma CompleteDecodes(r: seq<Code>, root: nat, ct: CodeType, ls: seq<nat>)
    requires AllEntered(r, root, ct, ls) && Complete(ls) && 1 <= root <= MAXBITS
    ensures Decodes(r, root, ct, ls)
  {
    hide Entered;
    forall h: nat, s: nat | Matches(ls, s, h)
      ensures Finds(r, root, h, Entry(ct, s, ls[s]))
    {
      EnteredFinds(r, root, ct, ls, s, h);
    }
    forall h: nat
      ensures Decodable(ls, h)
    {
      var s := CompleteCovers(ls, h);
    }
  }

  lemma LoneDecodes(r: seq<Code>, ct: CodeType, ls: seq<nat>)
    requires AllEntered(r, 1, ct, ls) && ValidLens(ls) && Lone(ls) && !OverSubscribed(ls) && |r| >= 2
    ensures Decodes(r[1 := INVALID], 1, ct, ls)
  {
    var r' := r[1 := INVALID];
    var z := Nth(ls, 1, 0);
    LoneCode(ls, z);
    forall h: nat, s: nat | Matches(ls, s, h)
      ensures Finds(r', 1, h, Entry(ct, s, ls[s]))
    {
      LowOne(h);
      LoneCode(ls, s);
      EnteredFinds(r, 1, ct, ls, s, h);
    }
    forall h: nat
      ensures Decodable(ls, h) || Finds(r', 1, h, INVALID)
    {
      LowOne(h);
      if h % 2 == 0 { assert Matches(ls, z, h); }
    }
  }

  lemma LowOne(h: nat)
    ensures Low(h, 1) == h % 2
  {
  }

  lemma LoneCode(ls: seq<nat>, s: nat)
    requires Lone(ls) && IsSym(ls, s)
    ensures ls[s] == 1 && RevCode(ls, s) == 0
  {
    RankBound(ls, s);
    assert Codeword(ls, s) == 0;
  }

  lemma EmptyDecodes(r: seq<Code>, ct: CodeType, ls: seq<nat>)
    requires Empty(ls) && |ls| <= MaxCodes(ct) && |r| == 2 && r[0] == r[1] == INVALID
    ensures ValidLens(ls) && Decodes(r, 1, ct, ls)
  {
    EmptyEnd(ls, MAXBITS);
  }

  lemma {:induction false} EmptyEnd(ls: seq<nat>, l: nat)
    requires Empty(ls) && l <= MAXBITS
    ensures End(ls, l) == 0
  {
    if l > 0 {
      EmptyEnd(ls, l - 1);
      if Count(ls, l) > 0 { var s := Nth(ls, l, 0); }
      ShlOne(MAXBITS - l);
    }
  }

  // A complete code has at least 2^min symbols.
  lemma RootFits(ls: seq<nat>, min: nat, max: nat)
    requires ValidLens(ls) && Complete(ls) && Bounds(ls, min, max)
    ensures Pow2(min) <= |ls|
  {
    hide Shl, Pow2, Start, Position, Count, End, Below;
    var z := Nth(ls, min, 0);
    EndZero(ls);
    BelowNone(ls, min);
    StartIsEnd(ls, z);
    EmptyStretch(ls, 1, min);
    RestCount(ls, z);
    ShlOne(MAXBITS - min);
    ShlPow2(min, MAXBITS - min);
    var g := |ls| - Position(ls, z);
    Pow2Positive(MAXBITS - min);
    if g < Pow2(min) { ShlLess(g, Pow2(min), MAXBITS - min); }
  }

  lemma EndZero(ls: seq<nat>)
    ensures End(ls, 0) == 0 && Below(ls, 1) == 0
  {
  }

  method LengthBounds(count: array<nat>, root0: nat, ghost ls: seq<nat>) returns (min: nat, max: nat, root: nat)
    requires ValidLens(ls) && count.Length == MAXBITS + 1
    requires forall l | 0 <= l <= MAXBITS :: count[l] == Count(ls, l)
    ensures max == 0 <==> Empty(ls)
    ensures max > 0 ==> Bounds(ls, min, max)
    ensures max > 0 ==> root == (if root0 > max then max else if root0 < min then min else root0)
  {
    hide Count;
    root := root0;
    max := MAXBITS;
    while max >= 1 && count[max] == 0
      invariant 0 <= max <= MAXBITS
      invariant forall l | max < l <= MAXBITS :: Count(ls, l) == 0
    {
      max := max - 1;
    }
    if root > max { root := max; }
    min := 1;
    NoLengths(ls, max);
    if max == 0 { return; }
    while min <= MAXBITS && count[min] == 0
      invariant 1 <= min <= max
      invariant forall l | 1 <= l < min :: Count(ls, l) == 0
    {
      min := min + 1;
    }
    if root < min { root := min; }
  }

  lemma NoLengths(ls: seq<nat>, max: nat)
    requires ValidLens(ls) && max <= MAXBITS && forall l | max < l <= MAXBITS :: Count(ls, l) == 0
    requires max > 0 ==> Count(ls, max) > 0
    ensures max == 0 <==> Empty(ls)
    ensures forall i | 0 <= i < |ls| :: ls[i] <= max
  {
    forall i | 0 <= i < |ls|
      ensures ls[i] <= max
    {
      RankBound(ls, i);
    }
    if max > 0 { var z := Nth(ls, max, 0); }
  }

  method InflateTable(ct: CodeType, lens: array<nat>, lo: nat, codes: nat, table: array<Code>, t0: nat, bits: nat,
                      work: array<nat>)
    returns (ret: int, t1: nat, root: nat)
    requires lo + codes <= lens.Length && ValidLens(lens[lo..lo + codes]) && codes <= MaxCodes(ct)
    requires work != lens && work.Length >= codes
    requires bits <= MAXBITS && t0 + Space(bits, codes) <= table.Length && Space(bits, codes) < 0x10000
    modifies table, work
    ensures ret == -1 <==> !Usable(lens[lo..lo + codes], ct != CODES)
    ensures ret != -1 ==> ret == 0 || (ret == 1 && ct == LENS && Space(bits, codes) >= ENOUGH - MAXD)
    ensures forall i | 0 <= i < table.Length && !(t0 <= i < t0 + Space(bits, codes)) :: table[i] == old(table[i])
    ensures ret == 0 ==> t0 <= t1 <= t0 + Space(bits, codes)
    ensures ret == 0 ==> Decodes(table[t0..t1], root, ct, lens[lo..lo + codes])
    ensures ret == 0 && !Empty(lens[lo..lo + codes]) ==> RootFor(lens[lo..lo + codes], bits, root)
  {
    hide Low, Pow2, Rev, Count, Start, Shr, Complete, OverSubscribed, Shl, End, Finds, Bounds, SortedUpTo,
         Entered, AllEntered, Decodes, Lone, Empty;
    ghost var ls := lens[lo..lo + codes];
    // a root of no bits is raised to one bit or more
    ghost var asked := if bits == 0 then 1 else bits;
    ghost var sp := Space(asked, codes);
    SpaceAsked(bits, asked, codes);
    t1 := t0;
    var count := CountLengths(lens, lo, codes);
    var min, max;
    min, max, root := LengthBounds(count, bits, ls);
    if max == 0 {
      table[t0] := INVALID;
      table[t0 + 1] := INVALID;
      EmptyDecodes(table[t0..t0 + 2], ct, ls);
      return 0, t0 + 2, 1;
    }
    var left := KraftLeft(count, ls);
    KraftKinds(ls, min, max, left);
    if left < 0 { return -1, t0, root; }
    if left > 0 && (ct == CODES || max != 1) { return -1, t0, root; }
    SortSymbols(lens, lo, codes, count, work);
    BoundsOrder(ls, min, max);
    RootChoice(ls, asked, min, max, root);
    RootLens(ls, bits, min, max, root);
    var full, used, huff, drop, next, low :=
      FillCodes(ct, lens, lo, codes, table, t0, sp, asked, root, min, max, count, work);
    if full { return 1, t0, root; }
    FinalHuff(ls);
    if left > 0 { LoneDecodes(table[t0..t0 + used], ct, ls); }
    ghost var r := table[t0..t0 + used];
    FillRest(table, t0, huff, max, drop, root, low, next);
    if left == 0 {
      assert table[t0..t0 + used] == r;
      CompleteDecodes(r, root, ct, ls);
    } else {
      assert table[t0..t0 + used] == r[1 := INVALID];
    }
    return 0, t0 + used, root;
  }

  // The root index size: as asked for, forced to be within code lengths.
  ghost predicate RootFor(ls: seq<nat>, bits: nat, root: nat)
  {
    && (bits <= root || forall i | 0 <= i < |ls| :: ls[i] <= root)
    && (root <= bits || forall i | 0 <= i < |ls| && ls[i] > 0 :: ls[i] >= root)
  }

  lemma RootLens(ls: seq<nat>, bits: nat, min: nat, max: nat, root: nat)
    requires ValidLens(ls) && Bounds(ls, min, max)
    requires root == if bits > max then max else if bits < min then min else bits
    ensures RootFor(ls, bits, root)
  {
    hide Count;
    NoLengths(ls, max);
    forall i | 0 <= i < |ls| && ls[i] > 0
      ensures ls[i] >= min
    {
      RankBound(ls, i);
    }
  }

  // Which kind of code the number of unused points tells.
  lemma KraftKinds(ls: seq<nat>, min: nat, max: nat, left: int)
    requires ValidLens(ls) && Bounds(ls, min, max)
    requires left < 0 <==> OverSubscribed(ls)
    requires left >= 0 ==> End(ls, MAXBITS) + left == Pow2(MAXBITS)
    ensures !Empty(ls)
    ensures left < 0 ==> !Complete(ls) && !Lone(ls)
    ensures left == 0 ==> Complete(ls)
    ensures left > 0 ==> !Complete(ls) && (Lone(ls) <==> max == 1)
    ensures left > 0 && max == 1 ==> min == 1
  {
    hide Count, End, Shl;
    var z := Nth(ls, max, 0);
    if Lone(ls) { LoneEnd(ls); }
    if max == 1 {
      NoLengths(ls, max);
      LeftOfOne(ls);
    }
  }

  lemma {:induction false} EndFlat(ls: seq<nat>, l: nat)
    requires 1 <= l <= MAXBITS && forall k | 1 < k <= MAXBITS :: Count(ls, k) == 0
    ensures End(ls, l) == Shl(Count(ls, 1), MAXBITS - 1)
  {
    if l > 1 {
      EndFlat(ls, l - 1);
      ShlOne(MAXBITS - l);
    } else {
      EndZero(ls);
    }
  }

  lemma LoneEnd(ls: seq<nat>)
    requires Lone(ls)
    ensures End(ls, MAXBITS) == Pow2(MAXBITS - 1) < Pow2(MAXBITS)
  {
    forall k | 1 < k <= MAXBITS
      ensures Count(ls, k) == 0
    {
      if Count(ls, k) > 0 { var z := Nth(ls, k, 0); }
    }
    EndFlat(ls, MAXBITS);
    ShlOne(MAXBITS - 1);
  }

  // One-bit codes that leave room: just one of them.
  lemma LeftOfOne(ls: seq<nat>)
    requires MaxLen(ls, 1)
    ensures End(ls, MAXBITS) < Pow2(MAXBITS) <==> Count(ls, 1) == 1
  {
    hide Count;
    EndFlat(ls, MAXBITS);
    ShlOne(MAXBITS - 1);
    var c := Count(ls, 1);
    if c >= 2 {
      ShlMono(2, c, MAXBITS - 1);
      ShlDouble(1, MAXBITS - 1);
    }
  }

  lemma RootChoice(ls: seq<nat>, bits: nat, min: nat, max: nat, root: nat)
    requires ValidLens(ls) && Bounds(ls, min, max) && 1 <= bits <= MAXBITS
    requires Complete(ls) || max == 1
    requires root == if bits > max then max else if bits < min then min else bits
    ensures min <= root <= MAXBITS && (bits <= root || max == root)
    ensures Pow2(root) <= Pow2(bits) || Pow2(root) <= |ls|
    ensures max == 1 ==> root == 1 && Pow2(root) == 2
  {
    hide End, Count, Bounds, Complete, Pow2, ValidLens;
    BoundsOrder(ls, min, max);
    Pow2One();
    if root <= bits {
      Pow2Mono(root, bits);
    } else if Complete(ls) {
      RootFits(ls, min, max);
    }
  }

  lemma SpaceAsked(bits: nat, asked: nat, codes: nat)
    requires bits <= MAXBITS && asked == if bits == 0 then 1 else bits
    ensures 2 <= Space(asked, codes) <= Space(bits, codes)
  {
    hide Pow2;
    Pow2One();
    Pow2Mono(1, asked);
    assert Pow2(MAXBITS) == 2 * Pow2(MAXBITS - 1) && Pow2(0) == 1 by { Pow2Next(); }
    Pow2Mono(1, MAXBITS - 1);
  }

  lemma Pow2Next()
    ensures Pow2(MAXBITS) == 2 * Pow2(MAXBITS - 1) && Pow2(0) == 1
  {
  }

  lemma BoundsOrder(ls: seq<nat>, min: nat, max: nat)
    requires Bounds(ls, min, max)
    ensures 1 <= min <= max <= MAXBITS
  {
  }

  lemma Pow2One()
    ensures Pow2(1) == 2
  {
    assert Pow2(0) == 1;
  }

  lemma FinalHuff(ls: seq<nat>)
    ensures Complete(ls) ==> Rev(MAXBITS, End(ls, MAXBITS)) == 0
    ensures Lone(ls) ==> Rev(MAXBITS, End(ls, MAXBITS)) == 1
  {
    RevZero(MAXBITS);
    if Lone(ls) {
      LoneEnd(ls);
      ShlOne(MAXBITS - 1);
      RevShl(1, MAXBITS - 1, 1);
    }
  }
}
