// Shifts, masks, bit strings and bit reversal over natural numbers.
//
// The decoder keeps its unread bits in an integer, least significant bit
// first; RFC 1951 describes the same stream as a list of bits.  This module
// relates the two views.  Shifts and masks are defined one bit at a time, so
// that everything below is proved by induction on the bit count.
module Bits {

  // 1 << n
  function Pow2(n: nat): (r: nat)
    ensures r > 0
  {
    if n == 0 then 1 else 2 * Pow2(n - 1)
  }

  // x >> n
  function Shr(x: nat, n: nat): (r: nat)
    ensures r <= x
  {
    if n == 0 then x else Shr(x / 2, n - 1)
  }

  // x << n
  function Shl(x: nat, n: nat): (r: nat)
    ensures r >= x
  {
    if n == 0 then x else 2 * Shl(x, n - 1)
  }

  // x & ((1 << n) - 1)
  function Low(x: nat, n: nat): (r: nat)
    ensures r < Pow2(n)
    ensures r <= x
  {
    if n == 0 then 0 else x % 2 + 2 * Low(x / 2, n - 1)
  }

  // The definitions are the usual arithmetic ones.
  lemma ShiftsAreArithmetic(x: nat, n: nat)
    ensures Shl(x, n) == x * Pow2(n)
    ensures Shr(x, n) == x / Pow2(n)
    ensures Low(x, n) == x % Pow2(n)
  {
    Split(x, n);
    ShlIsProduct(x, n);
    ShlIsProduct(Shr(x, n), n);
    var p, q, r := Pow2(n), Shr(x, n), Low(x, n);
    DivModUnique(x, p, q, r);
  }

  lemma {:induction false} ShlIsProduct(x: nat, n: nat)
    ensures Shl(x, n) == x * Pow2(n)
  {
    if n > 0 {
      ShlIsProduct(x, n - 1);
      assert x * (2 * Pow2(n - 1)) == 2 * (x * Pow2(n - 1));
    }
  }

  lemma MulMono(a: int, b: int, d: int)
    requires a <= b && d >= 0
    ensures a * d <= b * d
  {
    assert (b - a) * d >= 0;
  }

  lemma DivModUnique(x: int, d: int, q: int, r: int)
    requires d > 0 && x == q * d + r && 0 <= r < d
    ensures x / d == q && x % d == r
  {
    var q', r' := x / d, x % d;
    assert x == q' * d + r';
    if q > q' { MulMono(q' + 1, q, d); }
    if q < q' { MulMono(q + 1, q', d); }
  }

  lemma {:induction false} Pow2Mono(a: nat, b: nat)
    requires a <= b
    ensures Pow2(a) <= Pow2(b)
    ensures a < b ==> Pow2(a) < Pow2(b)
  {
    if a < b { Pow2Mono(a, b - 1); }
  }

  lemma {:induction false} Pow2Sum(a: nat, b: nat)
    ensures Pow2(a + b) == Pow2(a) * Pow2(b)
  {
    if b > 0 {
      Pow2Sum(a, b - 1);
      assert Pow2(a) * (2 * Pow2(b - 1)) == 2 * (Pow2(a) * Pow2(b - 1));
    }
  }

  // ---- shifting left ----

  lemma {:induction false} ShlAdd(a: nat, b: nat, n: nat)
    ensures Shl(a + b, n) == Shl(a, n) + Shl(b, n)
  {
    if n > 0 { ShlAdd(a, b, n - 1); }
  }

  lemma {:induction false} ShlOne(n: nat)
    ensures Shl(0, n) == 0 && Shl(1, n) == Pow2(n)
  {
    if n > 0 { ShlOne(n - 1); }
  }

  lemma ShlMono(a: nat, b: nat, n: nat)
    requires a <= b
    ensures Shl(a, n) <= Shl(b, n)
  {
    ShlAdd(a, b - a, n);
  }

  lemma ShlLess(a: nat, b: nat, n: nat)
    requires a < b
    ensures Shl(a, n) + Pow2(n) == Shl(a + 1, n) <= Shl(b, n)
  {
    ShlOne(n);
    ShlAdd(a, 1, n);
    ShlMono(a + 1, b, n);
  }

  lemma {:induction false} ShlShl(x: nat, a: nat, b: nat)
    ensures Shl(Shl(x, a), b) == Shl(x, a + b)
  {
    if b > 0 { ShlShl(x, a, b - 1); }
  }

  lemma ShlPow2(a: nat, b: nat)
    ensures Shl(Pow2(a), b) == Pow2(a + b)
  {
    ShlOne(a);
    ShlShl(1, a, b);
    ShlOne(a + b);
  }

  // Shifting out from the other end.
  lemma {:induction false} ShlDouble(x: nat, n: nat)
    ensures Shl(2 * x, n) == 2 * Shl(x, n)
  {
    if n > 0 { ShlDouble(x, n - 1); }
  }

  // ---- splitting a number into low and high bits ----

  lemma {:induction false} Split(x: nat, n: nat)
    ensures x == Low(x, n) + Shl(Shr(x, n), n)
  {
    if n > 0 { Split(x / 2, n - 1); }
  }

  lemma {:induction false} Join(r: nat, q: nat, n: nat)
    requires r < Pow2(n)
    ensures Low(r + Shl(q, n), n) == r
    ensures Shr(r + Shl(q, n), n) == q
  {
    if n > 0 {
      Join(r / 2, q, n - 1);
      var x := r + Shl(q, n);
      assert x / 2 == r / 2 + Shl(q, n - 1) && x % 2 == r % 2;
    }
  }

  lemma LowOfSmall(x: nat, n: nat)
    requires x < Pow2(n)
    ensures Low(x, n) == x && Shr(x, n) == 0
  {
    ShlOne(n);
    Join(x, 0, n);
  }

  lemma {:induction false} ShrShr(x: nat, a: nat, b: nat)
    ensures Shr(Shr(x, a), b) == Shr(x, a + b)
  {
    if a > 0 { ShrShr(x / 2, a - 1, b); }
  }

  lemma {:induction false} LowLow(x: nat, a: nat, b: nat)
    requires a <= b
    ensures Low(Low(x, b), a) == Low(x, a)
  {
    if a > 0 {
      LowHalf(x, b);
      LowLow(x / 2, a - 1, b - 1);
    }
  }

  lemma LowHalf(x: nat, b: nat)
    requires b > 0
    ensures Low(x, b) % 2 == x % 2 && Low(x, b) / 2 == Low(x / 2, b - 1)
  {
  }

  // Bits a .. a+b of x, taken either way round.
  lemma {:induction false} ShrLow(x: nat, a: nat, b: nat)
    ensures Shr(Low(x, a + b), a) == Low(Shr(x, a), b)
    ensures Low(x, a + b) == Low(x, a) + Shl(Low(Shr(x, a), b), a)
  {
    if a > 0 { ShrLow(x / 2, a - 1, b); }
  }

  lemma {:induction false} ShrBound(x: nat, a: nat, b: nat)
    requires x < Pow2(a + b)
    ensures Shr(x, a) < Pow2(b)
  {
    if a > 0 { ShrBound(x / 2, a - 1, b); }
  }

  lemma {:induction false} ShrMono(x: nat, y: nat, n: nat)
    requires x <= y
    ensures Shr(x, n) <= Shr(y, n)
  {
    if n > 0 { ShrMono(x / 2, y / 2, n - 1); }
  }

  // x >> n is c exactly when x lies in the c-th stretch of 2^n points.
  lemma ShrInterval(x: nat, c: nat, n: nat)
    ensures Shl(c, n) <= x < Shl(c, n) + Pow2(n) <==> Shr(x, n) == c
  {
    Split(x, n);
    var q := Shr(x, n);
    if q < c { ShlLess(q, c, n); }
    if c < q { ShlLess(c, q, n); }
  }

  // ---- bit strings ----

  // The n low bits of h, least significant first.
  function ToBits(h: nat, n: nat): (s: seq<bool>)
    ensures |s| == n
  {
    if n == 0 then [] else [h % 2 == 1] + ToBits(h / 2, n - 1)
  }

  // The number whose least significant bit comes first in s.
  function Value(s: seq<bool>): (h: nat)
    ensures h < Pow2(|s|)
  {
    if s == [] then 0 else (if s[0] then 1 else 0) + 2 * Value(s[1..])
  }

  lemma {:induction false} ValueToBits(h: nat, n: nat)
    ensures Value(ToBits(h, n)) == Low(h, n)
  {
    if n > 0 { ValueToBits(h / 2, n - 1); }
  }

  lemma {:induction false} ToBitsValue(s: seq<bool>)
    ensures ToBits(Value(s), |s|) == s
  {
    if s != [] {
      ToBitsValue(s[1..]);
      var v := Value(s);
      assert v % 2 == (if s[0] then 1 else 0) && v / 2 == Value(s[1..]);
    }
  }

  lemma {:induction false} ToBitsLow(h: nat, n: nat)
    ensures ToBits(Low(h, n), n) == ToBits(h, n)
  {
    if n > 0 { ToBitsLow(h / 2, n - 1); }
  }

  // Dropping the k low bits is a right shift by k.
  lemma {:induction false} ToBitsSplit(h: nat, k: nat, n: nat)
    requires k <= n
    ensures ToBits(h, n) == ToBits(h, k) + ToBits(Shr(h, k), n - k)
  {
    if k > 0 {
      ToBitsSplit(h / 2, k - 1, n - 1);
      var b, s, t := [h % 2 == 1], ToBits(h / 2, k - 1), ToBits(Shr(h, k), n - k);
      assert b + (s + t) == (b + s) + t;
    }
  }

  // Adding a value above the n bits already held appends its bits.
  lemma ToBitsAppend(h: nat, n: nat, b: nat, k: nat)
    requires h < Pow2(n)
    ensures ToBits(h + Shl(b, n), n + k) == ToBits(h, n) + ToBits(b, k)
  {
    var x := h + Shl(b, n);
    Join(h, b, n);
    ToBitsSplit(x, n, n + k);
    ToBitsLow(x, n);
  }

  // ---- reversal ----

  // The n low bits of h in the opposite order.
  function Rev(n: nat, h: nat): (r: nat)
    ensures r < Pow2(n)
  {
    if n == 0 then 0 else (if h % 2 == 1 then Pow2(n - 1) else 0) + Rev(n - 1, h / 2)
  }

  lemma {:induction false} RevLow(n: nat, h: nat)
    ensures Rev(n, Low(h, n)) == Rev(n, h)
  {
    if n > 0 { RevLow(n - 1, h / 2); }
  }

  // Zeros appended below a number vanish above its reversal.
  lemma {:induction false} RevShl(n: nat, k: nat, c: nat)
    ensures Rev(n + k, Shl(c, k)) == Rev(n, c)
  {
    if k > 0 { RevShl(n, k - 1, c); }
  }

  // Reversal built from the other end.
  lemma {:induction false} RevTop(n: nat, h: nat)
    ensures Rev(n + 1, h) == 2 * Rev(n, h) + Shr(h, n) % 2
  {
    if n > 0 { RevTop(n - 1, h / 2); }
  }

  // Dropping low bits of the reversal drops high bits of the number.
  lemma {:induction false} RevPrefix(m: nat, l: nat, h: nat)
    requires l <= m
    ensures Shr(Rev(m, h), m - l) == Rev(l, h)
  {
    if l < m {
      RevTop(m - 1, h);
      assert Rev(m, h) / 2 == Rev(m - 1, h);
      RevPrefix(m - 1, l, h);
    }
  }

  lemma {:induction false} LowTop(n: nat, h: nat)
    ensures Low(h, n + 1) == Low(h, n) + if Shr(h, n) % 2 == 1 then Pow2(n) else 0
  {
    if n > 0 { LowTop(n - 1, h / 2); }
  }

  lemma {:induction false} RevRev(n: nat, h: nat)
    ensures Rev(n, Rev(n, h)) == Low(h, n)
  {
    if n > 0 {
      RevTop(n - 1, h);
      var r := Rev(n, h);
      assert r / 2 == Rev(n - 1, h) && r % 2 == Shr(h, n - 1) % 2;
      RevRev(n - 1, h);
      LowTop(n - 1, h);
    }
  }

  lemma RevInjective(n: nat, a: nat, b: nat)
    requires Rev(n, a) == Rev(n, b)
    ensures Low(a, n) == Low(b, n)
  {
    RevRev(n, a);
    RevRev(n, b);
  }
}
