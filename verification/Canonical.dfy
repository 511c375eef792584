// Canonical Huffman codes as section 3.2.2 of RFC 1951 defines them, and the
// geometry that the table builder relies on.
//
// A codeword of length l is drawn as an interval of 2^(15-l) points among the
// 2^15 points of MAXBITS-bit words.  Sorted by (length, symbol), the intervals
// of a code lie side by side from 0, so prefix-freeness is disjointness and
// completeness is reaching 2^15.
module Canonical {
  import opened Types
  import opened Bits

  const MAXBITS: nat := 15

  predicate ValidLens(lens: seq<nat>)
  {
    forall i | 0 <= i < |lens| :: lens[i] <= MAXBITS
  }

  // How many symbols have length l.
  function Count(lens: seq<nat>, l: nat): (c: nat)
    ensures c <= |lens|
  {
    if lens == [] then 0
    else Count(lens[..|lens| - 1], l) + if lens[|lens| - 1] == l then 1 else 0
  }

  // Step 2 of section 3.2.2: the numerically smallest code of length l.
  function FirstCode(lens: seq<nat>, l: nat): nat
    requires l >= 1
  {
    if l == 1 then 0 else 2 * (FirstCode(lens, l - 1) + Count(lens, l - 1))
  }

  // Step 3 of section 3.2.2: codes of one length go to symbols in order.
  function Codeword(lens: seq<nat>, s: nat): nat
    requires s < |lens| && lens[s] >= 1
  {
    FirstCode(lens, lens[s]) + Count(lens[..s], lens[s])
  }

  // The n-bit number c, most significant bit first: the order in which
  // Huffman codes are packed (section 3.1.1).
  function MsbFirst(c: nat, n: nat): (s: seq<bool>)
    ensures |s| == n
  {
    if n == 0 then [] else MsbFirst(c / 2, n - 1) + [c % 2 == 1]
  }

  function CodeBits(lens: seq<nat>, s: nat): seq<bool>
    requires s < |lens| && lens[s] >= 1
  {
    MsbFirst(Codeword(lens, s), lens[s])
  }

  // The symbol whose codeword starts the bit string, if any.
  function Symbol(lens: seq<nat>, bits: seq<bool>, n: nat := |lens|): (r: Option<nat>)
    requires n <= |lens|
    ensures r.Some? ==> r.value < n && lens[r.value] >= 1 && CodeBits(lens, r.value) <= bits
    ensures r.None? ==> forall s | 0 <= s < n && lens[s] >= 1 :: !(CodeBits(lens, s) <= bits)
  {
    if n == 0 then None
    else if lens[n - 1] >= 1 && CodeBits(lens, n - 1) <= bits then Some(n - 1)
    else Symbol(lens, bits, n - 1)
  }

  // Points used up by the codes of length at most l.
  function End(lens: seq<nat>, l: nat): nat
    requires l <= MAXBITS
  {
    if l == 0 then 0 else End(lens, l - 1) + Shl(Count(lens, l), MAXBITS - l)
  }

  predicate OverSubscribed(lens: seq<nat>) { End(lens, MAXBITS) > Pow2(MAXBITS) }
  predicate Complete(lens: seq<nat>) { End(lens, MAXBITS) == Pow2(MAXBITS) }

  predicate Empty(lens: seq<nat>) { forall i | 0 <= i < |lens| :: lens[i] == 0 }

  // One symbol, coded in one bit; section 3.2.7 provides for it.
  predicate Lone(lens: seq<nat>)
  {
    Count(lens, 1) == 1 && forall i | 0 <= i < |lens| :: lens[i] <= 1
  }

  // The sets of lengths that make a code to decode with.
  predicate Usable(lens: seq<nat>, lone: bool)
  {
    Empty(lens) || Complete(lens) || (lone && Lone(lens))
  }

  // Sum of the counts below length l: where length l starts when sorted.
  function Below(lens: seq<nat>, l: nat): nat
    requires l >= 1
  {
    if l == 1 then 0 else Below(lens, l - 1) + Count(lens, l - 1)
  }

  function Rank(lens: seq<nat>, s: nat): nat
    requires s < |lens|
  {
    Count(lens[..s], lens[s])
  }

  // Place of a symbol when sorted by length, then by value.
  function Position(lens: seq<nat>, s: nat): nat
    requires s < |lens| && lens[s] >= 1
  {
    Below(lens, lens[s]) + Rank(lens, s)
  }

  // First point of the symbol's interval.
  function Start(lens: seq<nat>, s: nat): nat
    requires ValidLens(lens) && s < |lens| && lens[s] >= 1
  {
    Shl(Codeword(lens, s), MAXBITS - lens[s])
  }

  function Width(lens: seq<nat>, s: nat): nat
    requires ValidLens(lens) && s < |lens|
  {
    Pow2(MAXBITS - lens[s])
  }

  // The codeword as it sits in the bit accumulator: first bit lowest.
  function RevCode(lens: seq<nat>, s: nat): nat
    requires s < |lens| && lens[s] >= 1
  {
    Rev(lens[s], Codeword(lens, s))
  }

  // The codeword of s is in the low bits of h.
  predicate Matches(lens: seq<nat>, s: nat, h: nat)
  {
    s < |lens| && lens[s] >= 1 && Low(h, lens[s]) == RevCode(lens, s)
  }

  // ---- counting ----

  lemma {:induction false} CountPrefix(lens: seq<nat>, k: nat, l: nat)
    requires k <= |lens|
    ensures Count(lens[..k], l) <= Count(lens, l)
    decreases |lens|
  {
    if k < |lens| {
      var init := lens[..|lens| - 1];
      assert init[..k] == lens[..k];
      CountPrefix(init, k, l);
    } else {
      assert lens[..k] == lens;
    }
  }

  lemma CountStep(lens: seq<nat>, k: nat, l: nat)
    requires k < |lens|
    ensures Count(lens[..k + 1], l) == Count(lens[..k], l) + if lens[k] == l then 1 else 0
  {
    assert lens[..k + 1][..k] == lens[..k];
  }

  lemma RankLess(lens: seq<nat>, s: nat, t: nat)
    requires s < t <= |lens|
    ensures Rank(lens, s) < Count(lens[..t], lens[s])
  {
    CountStep(lens, s, lens[s]);
    assert lens[..t][..s + 1] == lens[..s + 1];
    CountPrefix(lens[..t], s + 1, lens[s]);
  }

  lemma RankBound(lens: seq<nat>, s: nat)
    requires s < |lens|
    ensures Rank(lens, s) < Count(lens, lens[s])
  {
    RankLess(lens, s, |lens|);
    assert lens[..|lens|] == lens;
  }

  // The symbol of length l and rank r.
  lemma {:induction false} Nth(lens: seq<nat>, l: nat, r: nat) returns (s: nat)
    requires r < Count(lens, l)
    ensures s < |lens| && lens[s] == l && Rank(lens, s) == r
  {
    var k := |lens| - 1;
    if lens[k] == l && r == Count(lens[..k], l) {
      s := k;
    } else {
      s := Nth(lens[..k], l, r);
      assert lens[..k][..s] == lens[..s];
    }
  }

  lemma {:induction false} BelowMono(lens: seq<nat>, a: nat, b: nat)
    requires 1 <= a <= b
    ensures Below(lens, a) <= Below(lens, b)
  {
    if a < b { BelowMono(lens, a, b - 1); }
  }

  // Every place before the end of the sorted order holds a symbol.
  lemma {:induction false} AtPosition(lens: seq<nat>, k: nat, l: nat) returns (s: nat)
    requires l >= 1 && k < Below(lens, l)
    ensures s < |lens| && 1 <= lens[s] < l && Position(lens, s) == k
  {
    if k >= Below(lens, l - 1) {
      s := Nth(lens, l - 1, k - Below(lens, l - 1));
    } else {
      s := AtPosition(lens, k, l - 1);
    }
  }

  lemma PositionInjective(lens: seq<nat>, s: nat, t: nat)
    requires s < |lens| && lens[s] >= 1 && t < |lens| && lens[t] >= 1
    requires Position(lens, s) == Position(lens, t)
    ensures s == t
  {
    RankBound(lens, s);
    RankBound(lens, t);
    if lens[s] < lens[t] {
      BelowMono(lens, lens[s] + 1, lens[t]);
    } else if lens[t] < lens[s] {
      BelowMono(lens, lens[t] + 1, lens[s]);
    } else if s < t {
      RankLess(lens, s, t);
    } else if t < s {
      RankLess(lens, t, s);
    }
  }

  // No more sorted symbols than symbols.
  lemma {:induction false} BelowBound(lens: seq<nat>, l: nat)
    requires l >= 1
    ensures Below(lens, l) <= |lens|
  {
    if lens == [] {
      BelowEmpty(l);
    } else {
      BelowBound(lens[..|lens| - 1], l);
      BelowLast(lens, l);
    }
  }

  lemma {:induction false} BelowEmpty(l: nat)
    requires l >= 1
    ensures Below([], l) == 0
  {
    if l > 1 { BelowEmpty(l - 1); }
  }

  lemma {:induction false} BelowLast(lens: seq<nat>, l: nat)
    requires l >= 1 && lens != []
    ensures Below(lens, l) ==
            Below(lens[..|lens| - 1], l) + if 1 <= lens[|lens| - 1] < l then 1 else 0
  {
    if l > 1 { BelowLast(lens, l - 1); }
  }

  // ---- the intervals ----

  lemma {:induction false} FirstCodeIsEnd(lens: seq<nat>, l: nat)
    requires 1 <= l <= MAXBITS
    ensures Shl(FirstCode(lens, l), MAXBITS - l) == End(lens, l - 1)
  {
    if l == 1 {
      ShlOne(MAXBITS - 1);
    } else {
      FirstCodeIsEnd(lens, l - 1);
      var f, c := FirstCode(lens, l - 1), Count(lens, l - 1);
      ShlDouble(f + c, MAXBITS - l);
      ShlAdd(f, c, MAXBITS - l + 1);
    }
  }

  lemma {:induction false} EndMono(lens: seq<nat>, a: nat, b: nat)
    requires a <= b <= MAXBITS
    ensures End(lens, a) <= End(lens, b)
  {
    if a < b { EndMono(lens, a, b - 1); }
  }

  lemma StartIsEnd(lens: seq<nat>, s: nat)
    requires ValidLens(lens) && s < |lens| && lens[s] >= 1
    ensures Start(lens, s) == End(lens, lens[s] - 1) + Shl(Rank(lens, s), MAXBITS - lens[s])
  {
    FirstCodeIsEnd(lens, lens[s]);
    ShlAdd(FirstCode(lens, lens[s]), Rank(lens, s), MAXBITS - lens[s]);
  }

  // An interval lies within the stretch of its length.
  lemma StartBounds(lens: seq<nat>, s: nat)
    requires ValidLens(lens) && s < |lens| && lens[s] >= 1
    ensures Start(lens, s) == End(lens, lens[s] - 1) + Shl(Rank(lens, s), MAXBITS - lens[s])
    ensures Start(lens, s) + Width(lens, s) <= End(lens, lens[s]) <= End(lens, MAXBITS)
  {
    StartIsEnd(lens, s);
    RankBound(lens, s);
    ShlLess(Rank(lens, s), Count(lens, lens[s]), MAXBITS - lens[s]);
    EndMono(lens, lens[s], MAXBITS);
  }

  // Intervals come in the sorted order and do not overlap.
  lemma StartOrder(lens: seq<nat>, s: nat, t: nat)
    requires ValidLens(lens) && s < |lens| && lens[s] >= 1 && t < |lens| && lens[t] >= 1
    requires lens[s] < lens[t] || (lens[s] == lens[t] && s < t)
    ensures Start(lens, s) + Width(lens, s) <= Start(lens, t)
  {
    StartBounds(lens, s);
    StartBounds(lens, t);
    if lens[s] < lens[t] {
      EndMono(lens, lens[s], lens[t] - 1);
    } else {
      RankLess(lens, s, t);
      ShlLess(Rank(lens, s), Rank(lens, t), MAXBITS - lens[s]);
    }
  }

  // A symbol starting before another ends before it starts.
  lemma StartDisjoint(lens: seq<nat>, s: nat, t: nat)
    requires ValidLens(lens) && s < |lens| && lens[s] >= 1 && t < |lens| && lens[t] >= 1
    ensures s != t ==> Start(lens, s) != Start(lens, t)
    ensures Start(lens, s) < Start(lens, t) ==> Start(lens, s) + Width(lens, s) <= Start(lens, t)
  {
    if s != t {
      if lens[s] < lens[t] || (lens[s] == lens[t] && s < t) {
        StartOrder(lens, s, t);
      } else {
        StartOrder(lens, t, s);
      }
    }
  }

  lemma CodewordFits(lens: seq<nat>, s: nat)
    requires ValidLens(lens) && !OverSubscribed(lens) && s < |lens| && lens[s] >= 1
    ensures Codeword(lens, s) < Pow2(lens[s])
  {
    var l, c := lens[s], Codeword(lens, s);
    if c >= Pow2(l) {
      assert Start(lens, s) + Width(lens, s) <= Pow2(MAXBITS) by { StartBounds(lens, s); }
      ShlPow2(l, MAXBITS - l);
      ShlMono(Pow2(l), c, MAXBITS - l);
    }
  }

  // A codeword starts h exactly when the reversal of h falls in its interval.
  lemma MatchesIsInterval(lens: seq<nat>, s: nat, h: nat)
    requires ValidLens(lens) && !OverSubscribed(lens) && s < |lens| && lens[s] >= 1
    ensures Matches(lens, s, h) <==>
            Start(lens, s) <= Rev(MAXBITS, h) < Start(lens, s) + Width(lens, s)
  {
    var l, c := lens[s], Codeword(lens, s);
    CodewordFits(lens, s);
    LowOfSmall(c, l);
    RevPrefix(MAXBITS, l, h);
    ShrInterval(Rev(MAXBITS, h), c, MAXBITS - l);
    RevRev(l, h);
    RevRev(l, c);
    RevLow(l, h);
  }

  lemma MatchesUnique(lens: seq<nat>, s: nat, t: nat, h: nat)
    requires ValidLens(lens) && !OverSubscribed(lens)
    requires Matches(lens, s, h) && Matches(lens, t, h)
    ensures s == t
  {
    MatchesIsInterval(lens, s, h);
    MatchesIsInterval(lens, t, h);
    StartDisjoint(lens, s, t);
    StartDisjoint(lens, t, s);
  }

  // Every point below End(l) is in the interval of some symbol.
  lemma {:induction false} PointCovered(lens: seq<nat>, x: nat, l: nat) returns (s: nat)
    requires ValidLens(lens) && l <= MAXBITS && x < End(lens, l)
    ensures s < |lens| && 1 <= lens[s] <= l
    ensures Start(lens, s) <= x < Start(lens, s) + Width(lens, s)
  {
    if x < End(lens, l - 1) {
      s := PointCovered(lens, x, l - 1);
    } else {
      var k, d := MAXBITS - l, x - End(lens, l - 1);
      var r := Shr(d, k);
      ShrInterval(d, r, k);
      if r >= Count(lens, l) {
        ShlAdd(Count(lens, l), r - Count(lens, l), k);
      }
      s := Nth(lens, l, r);
      StartBounds(lens, s);
    }
  }

  // A complete code leaves no bit pattern undecodable.
  lemma CompleteCovers(lens: seq<nat>, h: nat) returns (s: nat)
    requires ValidLens(lens) && Complete(lens)
    ensures Matches(lens, s, h)
  {
    s := PointCovered(lens, Rev(MAXBITS, h), MAXBITS);
    MatchesIsInterval(lens, s, h);
  }

  // ---- bit lists against the accumulator ----

  lemma {:induction false} MsbFirstIsRev(c: nat, n: nat)
    ensures MsbFirst(c, n) == ToBits(Rev(n, c), n)
  {
    if n > 0 {
      MsbFirstIsRev(c / 2, n - 1);
      ToBitsAppend(Rev(n - 1, c / 2), n - 1, c % 2, 1);
      ShlOne(n - 1);
      assert ToBits(c % 2, 1) == [c % 2 == 1] + ToBits(0, 0);
    }
  }

  // Codeword s starts the n held bits iff all its bits are held and match.
  lemma CodeBitsMatch(lens: seq<nat>, s: nat, h: nat, n: nat)
    requires s < |lens| && lens[s] >= 1
    ensures CodeBits(lens, s) <= ToBits(h, n) <==> lens[s] <= n && Matches(lens, s, h)
  {
    var l, r := lens[s], RevCode(lens, s);
    MsbFirstIsRev(Codeword(lens, s), l);
    if l <= n {
      ToBitsSplit(h, l, n);
      var a, b := ToBits(h, l), CodeBits(lens, s);
      assert ToBits(h, n)[..l] == a && ToBits(h, n)[..l] == b <==> b <= ToBits(h, n);
      ValueToBits(h, l);
      ValueToBits(r, l);
      LowOfSmall(r, l);
      ToBitsLow(h, l);
    }
  }

  // The reference decoder finds the matching symbol and no other.
  lemma SymbolOfMatch(lens: seq<nat>, s: nat, h: nat, n: nat)
    requires ValidLens(lens) && !OverSubscribed(lens) && Matches(lens, s, h)
    ensures Symbol(lens, ToBits(h, n)) == if lens[s] <= n then Some(s) else None
  {
    CodeBitsMatch(lens, s, h, n);
    var r := Symbol(lens, ToBits(h, n));
    if r.Some? {
      CodeBitsMatch(lens, r.value, h, n);
      MatchesUnique(lens, s, r.value, h);
    }
  }

  lemma SymbolNone(lens: seq<nat>, h: nat, n: nat)
    requires ValidLens(lens) && forall s :: !Matches(lens, s, h)
    ensures Symbol(lens, ToBits(h, n)).None?
  {
    var r := Symbol(lens, ToBits(h, n));
    if r.Some? { CodeBitsMatch(lens, r.value, h, n); }
  }
}
