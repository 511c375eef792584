// wtmi/div64.h: 64 by 32 bit division as a multiplication by a reciprocal.
module Div64 {
  import opened Types
  import opened Bits

  const B31: nat := 0x8000_0000
  const B32: nat := 0x1_0000_0000
  const B63: nat := 0x8000_0000_0000_0000
  const B64: nat := 0x1_0000_0000_0000_0000

  // Unsigned 64-bit arithmetic wraps.
  function Wrap(x: nat): u64 { x % B64 }

  // ---- the high half of a product ----

  // m & ((1ULL << 63) | (1ULL << 31))
  predicate TopBits(m: u64)
  {
    m / B63 % 2 == 1 || m / B31 % 2 == 1
  }

  lemma MulBound(a: nat, b: nat, c: nat, d: nat)
    requires a <= c && b <= d
    ensures 0 <= a * b <= c * d
  {
    MulMono(a, c, b);
    MulMono(b, d, c);
  }

  function Mul(a: nat, b: nat): nat { a * b }

  // ((bias ? m : 0) + m * n) >> 64
  function HighProduct(m: int, n: int, bias: bool): int
  {
    ((if bias then m else 0) + m * n) / B64
  }

  // The product of two words by halves.
  lemma Halves(m: nat, n: nat, ml: nat, mh: nat, nl: nat, nh: nat)
    requires m == mh * B32 + ml && n == nh * B32 + nl
    ensures m * n == Mul(mh, nh) * B64 + (Mul(ml, nh) + Mul(mh, nl)) * B32 + Mul(ml, nl)
  {
    assert m * n == mh * B32 * n + ml * n;
    assert ml * n == ml * nh * B32 + ml * nl;
    assert mh * B32 * n == mh * n * B32;
    assert mh * n == mh * nh * B32 + mh * nl;
  }

  // Adding up the halves from below, with exact carries.
  lemma HighHalf(low: nat, cross: nat, high: nat)
    ensures (high * B64 + cross * B32 + low) / B64 == high + (low / B32 + cross) / B32
  {
    var a, b := low / B32, low % B32;
    var s := a + cross;
    var c, d := s / B32, s % B32;
    assert high * B64 + cross * B32 + low == (high + c) * B64 + (d * B32 + b);
    DivModUnique(high * B64 + cross * B32 + low, B64, high + c, d * B32 + b);
  }

  // An addition that wraps shows it by a sum below either term.
  lemma Carry(a: nat, b: nat)
    requires a < B64 && b < B64
    ensures Wrap(a + b) / B32 + (if Wrap(a + b) < a then B32 else 0) == (a + b) / B32
  {
    if a + b >= B64 {
      DivModUnique(a + b, B64, 1, a + b - B64);
      assert (a + b) / B32 == (a + b - B64) / B32 + B32;
    } else {
      DivModUnique(a + b, B64, 0, a + b);
    }
  }

  // __arch_xprod_64
  method XProd64(m: u64, n: u64, bias: bool) returns (res: u64)
    ensures res == HighProduct(m, n, bias)
  {
    hide Mul, HighProduct;
    res := ByHalves(m, n, bias, TopBits(m));
  }

  // The product from those of the halves; careful if a carry is looked for in
  // the cross products.
  method ByHalves(m: u64, n: u64, bias: bool, careful: bool) returns (res: u64)
    requires TopBits(m) ==> careful
    ensures res == HighProduct(m, n, bias)
  {
    hide Mul, HighProduct;
    var mlo, mhi, nlo, nhi := m % B32, m / B32, n % B32, n / B32;
    HalvesFit(m, n);
    HighByHalves(m, n, bias);
    res := LowWord(m, Mul(mlo, nlo), bias);
    res := CrossWord(res, Mul(mlo, nhi), Mul(mhi, nlo), careful);
    res := Wrap(res + Mul(mhi, nhi));
  }

  lemma HalvesFit(m: u64, n: u64)
    ensures var mlo, mhi, nlo, nhi := m % B32, m / B32, n % B32, n / B32;
            && Mul(mlo, nlo) <= (B32 - 1) * (B32 - 1) && Mul(mlo, nhi) <= (B32 - 1) * (B32 - 1)
            && Mul(mhi, nlo) <= (B32 - 1) * (B32 - 1)
            && (!TopBits(m) ==>
                  && m < B63 && Mul(mlo, nlo) <= (B31 - 1) * (B32 - 1)
                  && Mul(mlo, nhi) <= (B31 - 1) * (B32 - 1) && Mul(mhi, nlo) <= (B31 - 1) * (B32 - 1))
  {
    var mlo, mhi, nlo, nhi := m % B32, m / B32, n % B32, n / B32;
    MulBound(mlo, nlo, B32 - 1, B32 - 1);
    MulBound(mlo, nhi, B32 - 1, B32 - 1);
    MulBound(mhi, nlo, B32 - 1, B32 - 1);
    if !TopBits(m) { SmallHalves(m, n); }
  }

  lemma HighByHalves(m: u64, n: u64, bias: bool)
    ensures var mlo, mhi, nlo, nhi := m % B32, m / B32, n % B32, n / B32;
            var low, cross := (if bias then m else 0) + Mul(mlo, nlo), Mul(mlo, nhi) + Mul(mhi, nlo);
            HighProduct(m, n, bias) == Mul(mhi, nhi) + (low / B32 + cross) / B32 < B64
  {
    hide Mul;
    var mlo, mhi, nlo, nhi := m % B32, m / B32, n % B32, n / B32;
    Halves(m, n, mlo, mhi, nlo, nhi);
    HighHalf((if bias then m else 0) + Mul(mlo, nlo), Mul(mlo, nhi) + Mul(mhi, nlo), Mul(mhi, nhi));
    ProductFits(m, n, bias);
  }

  // The low product, with the bias, above its low word.
  method LowWord(m: u64, p: u64, bias: bool) returns (res: u64)
    requires p <= (B32 - 1) * (B32 - 1)
    requires !TopBits(m) ==> m < B63 && p <= (B31 - 1) * (B32 - 1)
    ensures res == ((if bias then m else 0) + p) / B32 <= 0x2_0000_0000 - 2
    ensures !TopBits(m) ==> res < B32
  {
    if !bias {
      res := p / B32;
    } else if !TopBits(m) {
      // both terms are too small for the sum to wrap
      res := Wrap(m + p) / B32;
    } else {
      Carry(m, p);
      res := Wrap(m + p);
      var tmp := if res < m then B32 else 0;
      res := res / B32 + tmp;
    }
  }

  // The cross products added in.  The first addition cannot carry: in the
  // worst case it reaches the largest 64-bit number.
  method CrossWord(res0: u64, p: u64, q: u64, careful: bool) returns (res: u64)
    requires p <= (B32 - 1) * (B32 - 1) && q <= (B32 - 1) * (B32 - 1) && res0 <= 0x2_0000_0000 - 2
    requires !careful ==> p <= (B31 - 1) * (B32 - 1) && q <= (B31 - 1) * (B32 - 1) && res0 < B32
    ensures res == (res0 + (p + q)) / B32
  {
    if !careful {
      // neither addition can wrap
      res := Wrap(res0 + p);
      res := Wrap(res + q);
      res := res / B32;
    } else {
      res := Wrap(res0 + p);
      var tmp := res;
      Carry(tmp, q);
      res := Wrap(res + q);
      tmp := if res < tmp then B32 else 0;
      res := res / B32 + tmp;
    }
  }

  // With bits 63 and 31 clear both halves are below 2^31.
  lemma SmallHalves(m: u64, n: u64)
    requires !TopBits(m)
    ensures m / B32 < B31 && m % B32 < B31 && m < B63
    ensures (m % B32) * (n % B32) <= (B31 - 1) * (B32 - 1)
    ensures (m % B32) * (n / B32) <= (B31 - 1) * (B32 - 1)
    ensures (m / B32) * (n % B32) <= (B31 - 1) * (B32 - 1)
  {
    MulBound(m % B32, n % B32, B31 - 1, B32 - 1);
    MulBound(m % B32, n / B32, B31 - 1, B32 - 1);
    MulBound(m / B32, n % B32, B31 - 1, B32 - 1);
  }

  lemma ProductFits(m: u64, n: u64, bias: bool)
    ensures ((if bias then m else 0) + m * n) / B64 < B64
  {
    MulBound(m, n, m, B64 - 1);
    assert m + m * (B64 - 1) == m * B64;
    var x := (if bias then m else 0) + m * n;
    assert x <= m * B64;
    assert x / B64 <= m;
  }

  // ---- when a scaled reciprocal divides exactly ----

  lemma DivDiv(x: nat, a: nat, c: nat)
    requires a > 0 && c > 0
    ensures a * c > 0 && x / a / c == x / (a * c)
  {
    var q, r := x / a, x % a;
    var t, u := q / c, q % c;
    assert a * c >= a by { MulMono(1, c, a); }
    assert q * a == t * (a * c) + u * a by { assert (t * c + u) * a == t * c * a + u * a; assert t * c * a == t * (a * c); }
    assert u * a + a <= a * c by { MulMono(u + 1, c, a); assert (u + 1) * a == u * a + a; }
    DivModUnique(x, a * c, t, u * a + r);
  }

  // n / b, squeezed out of scaled bounds.
  lemma Squeeze(y: nat, b: nat, q: nat, s: nat)
    requires b > 0 && s > 0
    requires q * b * s <= y * b < (q + 1) * b * s
    ensures y / s == q
  {
    assert q * b * s == q * s * b && (q + 1) * b * s == (q + 1) * s * b;
    if y < q * s { MulMono(y + 1, q * s, b); }
    if y >= (q + 1) * s { MulMono((q + 1) * s, y, b); }
    assert (q + 1) * s == q * s + s;
    DivModUnique(y, s, q, y - q * s);
  }

  // Without bias: m is the ceiling of s / b, s = p << 64, too big by e / b.
  lemma CeilingBounds(n: nat, b: nat, m: nat, s: nat, e: nat)
    requires b > 0 && s > 0 && m * b == s + e
    requires e * n < (b - n % b) * s
    ensures m * n / s == n / b
  {
    var q, r := n / b, n % b;
    Scaled(m, b, n, s, e);
    Quotient(n, b, s);
    MulMono(0, e, n);
    MulMono(0, r, s);
    Squeeze(m * n, b, q, s);
  }

  lemma Scaled(m: nat, b: nat, n: nat, s: nat, e: nat)
    requires m * b == s + e
    ensures m * n * b == s * n + e * n
  {
    assert m * n * b == (m * b) * n;
    assert (s + e) * n == s * n + e * n;
  }

  // s * n, by quotient and remainder of n.
  lemma Quotient(n: nat, b: nat, s: nat)
    requires b > 0
    ensures var q, r := n / b, n % b;
            && s * n == q * b * s + r * s && (b - r) * s == b * s - r * s
            && (q + 1) * b * s == q * b * s + b * s
  {
    var q, r := n / b, n % b;
    assert n == q * b + r;
    assert (q * b + r) * s == q * b * s + r * s;
    assert (q + 1) * b == q * b + b;
  }

  // The test on x, the largest n congruent to b - 1, decides for all n.
  lemma TestDecides(n: nat, b: nat, m: nat, p: nat, e: nat, x: nat)
    requires 2 <= b < 2 * p && m * b == p * B64 + e && e < b
    requires n % b == b - 1 ==> n <= x
    requires x % b == b - 1 && n < B64
    requires m * x / (p * B64) == x / b
    ensures m * n / (p * B64) == n / b
  {
    var s := p * B64;
    var r := n % b;
    if r == b - 1 {
      TestBound(b, m, s, e, x);
      MulMono(n, x, e);
      assert n * e == e * n && x * e == e * x;
      assert (b - r) * s == s;
    } else {
      MulMono(2, b - r, s);
      SmallError(e, n, b, p);
    }
    CeilingBounds(n, b, m, s, e);
  }

  lemma SmallError(e: nat, n: nat, b: nat, p: nat)
    requires e < b < 2 * p && n < B64
    ensures e * n < 2 * (p * B64)
  {
    MulBound(e, n, 2 * p, B64 - 1);
    assert 2 * p * (B64 - 1) == 2 * (p * B64) - 2 * p;
  }

  lemma TestBound(b: nat, m: nat, s: nat, e: nat, x: nat)
    requires b >= 1 && s > 0 && m * b == s + e && x % b == b - 1 && m * x / s == x / b
    ensures e * x < s
  {
    var q, y := x / b, m * x;
    var t := (q + 1) * s;
    BelowNext(y, s, q);
    Scaled(m, b, x, s, e);
    NextProduct(q, s, b, x);
    assert (y + 1) * b == y * b + b;
    if e * x >= s { MulMono(y + 1, t, b); }
  }

  lemma BelowNext(y: nat, s: nat, q: nat)
    requires s > 0 && y / s == q
    ensures y < (q + 1) * s
  {
    assert y == q * s + y % s;
    assert (q + 1) * s == q * s + s;
  }

  lemma NextProduct(q: nat, s: nat, b: nat, x: nat)
    requires x + 1 == q * b + b
    ensures (q + 1) * s * b == s * x + s
  {
    assert (q + 1) * b == x + 1;
    assert (q + 1) * s * b == s * ((q + 1) * b);
  }

  // If the test fails, the error is more than p.
  lemma TestFails(b: nat, m: nat, p: nat, e: nat, x: nat)
    requires b >= 2 && p > 0 && m * b == p * B64 + e && x % b == b - 1 && x < B64
    requires m * x / (p * B64) != x / b
    ensures e > p
  {
    if e <= p {
      MulBound(e, x, p, B64 - 1);
      assert p * (B64 - 1) == p * B64 - p;
      assert (b - x % b) * (p * B64) == p * B64;
      CeilingBounds(x, b, m, p * B64, e);
    }
  }

  // With bias: m is the floor of s / b, too small by d / b.
  lemma FloorBounds(n: nat, b: nat, m: nat, p: nat, d: nat)
    requires b > 0 && m * b + d == p * B64 && 0 < d <= p && n < B64
    ensures (m + m * n) / (p * B64) == n / b
  {
    var s, y := p * B64, m + m * n;
    ScaledBelow(m, b, n, s, d);
    MulBound(d, n + 1, p, B64);
    MulMono(1, n + 1, d);
    NextMultiple(n, b, s);
    Squeeze(y, b, n / b, s);
  }

  lemma ScaledBelow(m: nat, b: nat, n: nat, s: nat, d: nat)
    requires m * b + d == s
    ensures (m + m * n) * b == s * (n + 1) - d * (n + 1)
  {
    assert (m + m * n) * b == (m * b) * (n + 1);
    assert (s - d) * (n + 1) == s * (n + 1) - d * (n + 1);
  }

  // s * (n + 1), by quotient and remainder of n.
  lemma NextMultiple(n: nat, b: nat, s: nat)
    requires b > 0
    ensures var q, r := n / b, n % b;
            && s * (n + 1) == q * b * s + (r + 1) * s && s <= (r + 1) * s <= b * s
            && (q + 1) * b * s == q * b * s + b * s
  {
    var q, r := n / b, n % b;
    Quotient(n, b, s);
    assert s * (n + 1) == s * n + s;
    assert (r + 1) * s == r * s + s;
    MulMono(1, r + 1, s);
    MulMono(r + 1, b, s);
  }

  // ---- computing the reciprocals without 65-bit numbers ----

  // 2^64 as seen through ~0ULL / b and ~0ULL % b.
  lemma AllOnes(b: nat, p: nat)
    requires 0 < b < B64
    ensures var q, r := (B64 - 1) / b, (B64 - 1) % b + 1;
            B64 == q * b + r && q * p * b + r * p == p * B64 && r <= b
  {
    var q, r := (B64 - 1) / b, (B64 - 1) % b + 1;
    assert B64 == q * b + r;
    assert p * B64 == p * (q * b) + p * r;
    assert p * (q * b) == q * p * b && p * r == r * p;
  }

  lemma CeilingOf(b: nat, p: nat) returns (e: nat)
    requires 0 < b < B64
    ensures var m := (B64 - 1) / b * p + (((B64 - 1) % b + 1) * p + b - 1) / b;
            m * b == p * B64 + e && e < b
  {
    AllOnes(b, p);
    var q, r := (B64 - 1) / b, (B64 - 1) % b + 1;
    var c := (r * p + b - 1) / b;
    e := c * b - r * p;
    assert (q * p + c) * b == q * p * b + c * b;
  }

  lemma FloorOf(b: nat, p: nat) returns (d: nat)
    requires 0 < b < B64
    ensures var m := (B64 - 1) / b * p + ((B64 - 1) % b + 1) * p / b;
            m * b + d == p * B64 && d < b
  {
    AllOnes(b, p);
    var q, r := (B64 - 1) / b, (B64 - 1) % b + 1;
    var c := r * p / b;
    d := r * p % b;
    assert (q * p + c) * b == q * p * b + c * b;
  }

  // ---- bit tricks on words ----

  function And(a: nat, b: nat): nat
  {
    if a == 0 || b == 0 then 0 else (if a % 2 == 1 && b % 2 == 1 then 1 else 0) + 2 * And(a / 2, b / 2)
  }

  function Or(a: nat, b: nat): nat
    decreases a + b
  {
    if a == 0 && b == 0 then 0 else (if a % 2 == 1 || b % 2 == 1 then 1 else 0) + 2 * Or(a / 2, b / 2)
  }

  // -x in an n-bit word
  function Neg(x: nat, n: nat): nat
  {
    if 0 < x < Pow2(n) then Pow2(n) - x else 0
  }

  // How many zeros x ends in.
  function Trail(x: nat): nat
    requires x > 0
  {
    if x % 2 == 1 then 0 else 1 + Trail(x / 2)
  }

  // is_power_of_2()
  predicate IsPowerOf2(n: nat)
  {
    n != 0 && And(n, n - 1) == 0
  }

  // ilog2(), the chain of conditions for a constant
  function ILog2(n: u64): nat
  {
    if n < 2 then 0 else HighestBit(n, 63)
  }

  function HighestBit(n: nat, i: nat): nat
  {
    if i <= 1 then 1 else if Shr(n, i) % 2 == 1 then i else HighestBit(n, i - 1)
  }

  lemma {:induction false} HighestBitBounds(n: nat, i: nat)
    requires 2 <= n < Pow2(i + 1)
    ensures var k := HighestBit(n, i); 1 <= k <= i && Pow2(k) <= n < Pow2(k + 1)
    decreases i
  {
    hide Shr;
    if i <= 1 {
      assert Pow2(1) == 2;
    } else {
      ShrBound(n, i, 1);
      ShrInterval(n, Shr(n, i), i);
      ShlOne(i);
      assert Pow2(1) == 2;
      if Shr(n, i) % 2 == 0 { HighestBitBounds(n, i - 1); }
    }
  }

  // ilog2 gives the position of the highest bit.
  lemma ILog2Bounds(n: u64)
    requires n > 0
    ensures Pow2(ILog2(n)) <= n < Pow2(ILog2(n) + 1) && ILog2(n) < 64
  {
    Pow2Words();
    if n >= 2 { HighestBitBounds(n, 63); } else { assert Pow2(1) == 2; }
  }

  lemma Pow2Words()
    ensures Pow2(31) == B31 && Pow2(32) == B32 && Pow2(63) == B63 && Pow2(64) == B64
  {
    assert Pow2(8) == 0x100;
    assert Pow2(16) == 0x100 * Pow2(8);
    assert Pow2(24) == 0x100 * Pow2(16);
    assert Pow2(31) == 0x80 * Pow2(24);
    assert Pow2(40) == 0x100 * Pow2(32);
    assert Pow2(48) == 0x100 * Pow2(40);
    assert Pow2(56) == 0x100 * Pow2(48);
    assert Pow2(63) == 0x80 * Pow2(56);
  }

  lemma {:induction false} AndSelf(x: nat)
    ensures And(x, x) == x
  {
    if x > 0 { AndSelf(x / 2); }
  }

  lemma {:induction false} AndComplement(y: nat, k: nat)
    requires y < Pow2(k)
    ensures And(y, Pow2(k) - 1 - y) == 0
  {
    if k > 0 { AndComplement(y / 2, k - 1); }
  }

  // x & -x is the lowest bit of x.
  lemma {:induction false} AndNeg(x: nat, n: nat)
    requires 0 < x < Pow2(n)
    ensures And(x, Neg(x, n)) == Pow2(Trail(x))
  {
    var y := Pow2(n) - x;
    if x % 2 == 1 {
      assert y % 2 == 1 && y / 2 == Pow2(n - 1) - 1 - x / 2;
      AndComplement(x / 2, n - 1);
    } else {
      assert y % 2 == 0 && y / 2 == Pow2(n - 1) - x / 2;
      AndNeg(x / 2, n - 1);
    }
  }

  lemma {:induction false} TrailOfPow2(k: nat)
    ensures Trail(Pow2(k)) == k
  {
    if k > 0 { TrailOfPow2(k - 1); }
  }

  lemma {:induction false} LowestBit(x: nat)
    requires x > 0
    ensures Pow2(Trail(x)) <= x
    ensures And(x, x - 1) == 0 <==> x == Pow2(Trail(x))
  {
    if x % 2 == 1 {
      AndSelf(x / 2);
    } else {
      LowestBit(x / 2);
      assert (x - 1) / 2 == x / 2 - 1;
    }
  }

  // is_power_of_2 and ilog2 mean what their names say.
  lemma PowerOf2(n: u64)
    requires n > 0
    ensures IsPowerOf2(n) <==> n == Pow2(ILog2(n))
  {
    LowestBit(n);
    ILog2Bounds(n);
    var k, t := ILog2(n), Trail(n);
    if IsPowerOf2(n) {
      if k < t { Pow2Mono(k + 1, t); }
      if t < k { Pow2Mono(t, k); }
    }
    if n == Pow2(k) { TrailOfPow2(k); }
  }

  lemma {:induction false} AndMask(n: nat, k: nat)
    ensures And(n, Pow2(k) - 1) == Low(n, k)
  {
    if k > 0 {
      AndMask(n / 2, k - 1);
      assert (Pow2(k) - 1) / 2 == Pow2(k - 1) - 1;
      if n == 0 { LowZero(k); }
    }
  }

  lemma {:induction false} LowZero(k: nat)
    ensures Low(0, k) == 0
  {
    if k > 0 { LowZero(k - 1); }
  }

  // Only powers of two divide powers of two.
  lemma {:induction false} DividesPow2(b: nat, c: nat, k: nat)
    requires b > 0 && b * c == Pow2(k)
    ensures b == Pow2(Trail(b))
    decreases k
  {
    if k == 0 {
      if b > 1 { MulMono(1, c, b); }
    } else if b % 2 == 0 {
      assert b == 2 * (b / 2) && b / 2 * c == Pow2(k - 1);
      DividesPow2(b / 2, c, k - 1);
    } else {
      if c % 2 == 1 { OddProduct(b, c); }
      assert c == 2 * (c / 2) && b * c == 2 * (b * (c / 2));
      DividesPow2(b, c / 2, k - 1);
    }
  }

  lemma OddProduct(b: nat, c: nat)
    requires b % 2 == 1 && c % 2 == 1
    ensures b * c % 2 == 1
  {
    assert b * c == 2 * (b / 2 * c) + c;
  }

  // ---- how far m / p may be reduced ----

  // x & -x
  function Lowest64(x: u64): nat { And(x, Neg(x, 64)) }
  function Lowest32(x: u32): nat { And(x, Neg(x, 32)) }

  // The bits of ~(-(m & -m) | m >> 32) << 1: bit j + 1 stands for a zero bit j
  // of m >> 32 with j below the lowest bit of m.
  function ReductionBits(m: u64): u32
  {
    var bits := Or(Neg(Lowest64(m), 64) % B32, m / B32) % B32;
    (B32 - 1 - bits) * 2 % B32
  }

  lemma {:induction false} BitOr(a: nat, b: nat, i: nat)
    requires Shr(a, i) % 2 == 1
    ensures Shr(Or(a, b), i) % 2 == 1
  {
    if i > 0 {
      ShrZero(i);
      BitOr(a / 2, b / 2, i - 1);
    }
  }

  lemma {:induction false} ShrZero(i: nat)
    ensures Shr(0, i) == 0
  {
    if i > 0 { ShrZero(i - 1); }
  }

  lemma {:induction false} OrBound(a: nat, b: nat, n: nat)
    requires a < Pow2(n) && b < Pow2(n)
    ensures Or(a, b) < Pow2(n)
  {
    if n > 0 { OrBound(a / 2, b / 2, n - 1); }
  }

  lemma {:induction false} BitComplement(x: nat, n: nat, i: nat)
    requires x < Pow2(n) && i < n
    ensures Shr(Pow2(n) - 1 - x, i) % 2 == 1 - Shr(x, i) % 2
  {
    if i > 0 { BitComplement(x / 2, n - 1, i - 1); }
  }

  // -2^t has all bits from t on.
  lemma {:induction false} BitNeg(t: nat, n: nat, i: nat)
    requires t <= i < n
    ensures Pow2(t) <= Pow2(n) && Shr(Pow2(n) - Pow2(t), i) % 2 == 1
  {
    Pow2Mono(t, n);
    if t > 0 {
      BitNeg(t - 1, n - 1, i - 1);
    } else {
      BitComplement(0, n, i);
      ShrZero(i);
    }
  }

  lemma BitOfLow(x: nat, n: nat, i: nat)
    requires i < n
    ensures Shr(Low(x, n), i) % 2 == Shr(x, i) % 2
  {
    ShrLow(x, i, n - i);
    assert Low(Shr(x, i), n - i) % 2 == Shr(x, i) % 2;
  }

  lemma TopBitSet(n: nat, k: nat)
    requires Pow2(k) <= n < Pow2(k + 1)
    ensures Shr(n, k) == 1
  {
    ShlOne(k);
    ShrInterval(n, 1, k);
  }

  // The reduction taken is by zero bits at the end of m only.
  lemma ReductionIsTrailing(m: u64)
    requires m > 0 && ReductionBits(m) != 0
    ensures ILog2(ReductionBits(m)) <= Trail(m) && ILog2(ReductionBits(m)) < 32
  {
    hide And, Or, Shr, Low, Trail, Pow2;
    Pow2Words();
    AndNeg(m, 64);
    LowestBit(m);
    var t := Trail(m);
    var neg: nat := Neg(Pow2(t), 64) % B32;
    var hi := m / B32;
    OrBound(neg, hi, 32);
    var bits := Or(neg, hi);
    var y := B32 - 1 - bits;
    var z := y * 2 % B32;
    assert bits % B32 == bits;
    assert z == ReductionBits(m);
    ILog2Bounds(z);
    var k := ILog2(z);
    if k >= 32 { Pow2Mono(32, k); }
    if k > 0 { BitsAgree(neg, hi, t, k); }
  }

  lemma BitsAgree(neg: nat, hi: nat, t: nat, k: nat)
    requires neg < B32 && hi < B32 && 0 < k < 32 && neg == (B64 - Pow2(t)) % B32 && Pow2(t) <= B64
    requires var z := (B32 - 1 - Or(neg, hi) % B32) * 2 % B32; Pow2(k) <= z < Pow2(k + 1)
    ensures k <= t
  {
    hide Or, Shr, Low, Pow2;
    Pow2Words();
    OrBound(neg, hi, 32);
    var y := B32 - 1 - Or(neg, hi);
    BitComplement(Or(neg, hi), 32, k - 1);
    ShiftsAreArithmetic(2 * y, 32);
    BitOfLow(2 * y, 32, k);
    TopBitSet(2 * y % B32, k);
    ShrTwice(y, k);
    if t < k {
      Pow2Mono(t, 32);
      assert neg == B32 - Pow2(t);
      BitNeg(t, 32, k - 1);
      BitOr(neg, hi, k - 1);
    }
  }

  lemma ShrTwice(y: nat, k: nat)
    requires k > 0
    ensures Shr(2 * y, k) == Shr(y, k - 1)
  {
  }

  lemma {:induction false} TrailingZeros(x: nat, k: nat)
    requires x > 0 && k <= Trail(x)
    ensures Shr(x, k) * Pow2(k) == x
  {
    if k > 0 {
      TrailingZeros(x / 2, k - 1);
      Doubled(Shr(x / 2, k - 1), Pow2(k - 1));
    }
  }

  lemma Doubled(x: nat, y: nat)
    ensures x * (2 * y) == 2 * (x * y)
  {
  }

  // The zeros at the end of m are zeros at the end of p as well.
  lemma TrailWithin(m: u64, b: nat, l: nat, e: nat)
    requires m > 0 && m * b == B64 * Pow2(l) + e && 0 < e < Pow2(l + 1)
    ensures Trail(m) <= l
  {
    hide Trail, Shr;
    var t := Trail(m);
    Pow2Words();
    LowestBit(m);
    if t >= 64 { Pow2Mono(64, t); }
    TrailingZeros(m, t);
    Pow2Sum(64 - t, t);
    RemainderMultiple(m, B64, Shr(m, t), Pow2(64 - t), Pow2(t), b, Pow2(l), e);
    if t > l { Pow2Mono(l + 1, t); }
  }

  lemma RemainderMultiple(m: nat, s: nat, c: nat, g: nat, d: nat, b: nat, p: nat, e: nat)
    requires m == c * d && s == g * d && m * b == s * p + e && e > 0
    ensures e >= d
  {
    Factor(c, b, d);
    Factor(g, p, d);
    MultipleAbove(c * b, g * p, d, e);
  }

  lemma Factor(c: nat, b: nat, d: nat)
    ensures c * d * b == c * b * d
  {
  }

  lemma MultipleAbove(a: nat, c: nat, d: nat, e: nat)
    requires a * d == c * d + e && e > 0
    ensures e >= d
  {
    if a <= c { MulMono(a, c, d); } else { MulMono(c + 1, a, d); assert (c + 1) * d == c * d + d; }
  }

  // Reducing m / p by a common factor changes nothing.
  lemma Reduced(m: nat, p: nat, c: nat, n: nat)
    requires p > 0 && c > 0
    ensures m * c * n / (p * c * B64) == m * n / (p * B64)
  {
    assert p * c * B64 == p * B64 * c && m * c * n == m * n * c;
    var y, s := m * n, p * B64;
    var q, r := y / s, y % s;
    assert y * c == q * (s * c) + r * c by { assert (q * s + r) * c == q * s * c + r * c; assert q * s * c == q * (s * c); }
    assert r * c < s * c by { MulMono(r + 1, s, c); assert (r + 1) * c == r * c + c; }
    DivModUnique(y * c, s * c, q, r * c);
  }

  // ---- the reciprocal of b ----

  function Msb(b: u32): nat { Pow2(ILog2(b)) }

  // One less than the dividend with the highest result.
  function Largest(b: u32): int
    requires b > 0
  {
    (B64 - 1) / b * b - 1
  }

  function CeilingReciprocal(b: u32): int
    requires b > 0
  {
    (B64 - 1) / b * Msb(b) + (((B64 - 1) % b + 1) * Msb(b) + b - 1) / b
  }

  function FloorReciprocal(b: u32): int
    requires b > 0
  {
    (B64 - 1) / b * Msb(b) + ((B64 - 1) % b + 1) * Msb(b) / b
  }

  lemma MsbBounds(b: u32)
    requires b > 0
    ensures 1 <= Msb(b) <= b < 2 * Msb(b) && ILog2(b) < 32
    ensures IsPowerOf2(b) <==> b == Msb(b)
  {
    ILog2Bounds(b);
    PowerOf2(b);
    Pow2Words();
    if ILog2(b) >= 32 { Pow2Mono(32, ILog2(b)); }
  }

  lemma NoDivisor(b: u32, c: nat, k: nat)
    requires b > 0 && !IsPowerOf2(b)
    ensures b * c != Pow2(k)
  {
    if b * c == Pow2(k) {
      DividesPow2(b, c, k);
      LowestBit(b);
    }
  }

  // The ceiling is too big by 0 < e < b in units of 1 / b, and fits a word.
  lemma CeilingFacts(b: u32) returns (e: nat)
    requires b > 0 && !IsPowerOf2(b)
    ensures CeilingReciprocal(b) * b == Msb(b) * B64 + e && 0 < e < b && 0 < CeilingReciprocal(b) < B64
  {
    hide Pow2, ILog2, And;
    MsbBounds(b);
    var p, m := Msb(b), CeilingReciprocal(b);
    e := CeilingOf(b, p);
    FitsWord(m, b, p, e);
    if e == 0 { NotExact(b, m); }
  }

  lemma NotExact(b: u32, m: nat)
    requires b > 0 && !IsPowerOf2(b)
    ensures m * b != Msb(b) * B64
  {
    hide Pow2, ILog2, And;
    Pow2Words();
    Pow2Sum(ILog2(b), 64);
    assert b * m == m * b;
    NoDivisor(b, m, ILog2(b) + 64);
  }

  lemma FitsWord(m: int, b: nat, p: nat, e: nat)
    requires m * b == p * B64 + e && e < b < B64 && 1 <= p < b
    ensures 0 < m < B64
  {
    assert (p + 1) * B64 == p * B64 + B64;
    MulMono(p + 1, b, B64);
    if m >= B64 { MulMono(B64, m, b); }
    if m <= 0 { MulMono(m, 0, b); }
  }

  // x is the largest dividend that leaves b - 1.
  lemma LargestDividend(b: u32, n: u64)
    requires b > 0 && !IsPowerOf2(b)
    ensures var x := Largest(b);
            0 <= x < B64 && x % b == b - 1 && x / b == (B64 - 1) / b - 1 && (n % b == b - 1 ==> n <= x)
  {
    hide Pow2, ILog2, And;
    MsbBounds(b);
    var q, r := (B64 - 1) / b, (B64 - 1) % b;
    assert B64 - 1 == q * b + r && q >= 1;
    assert q * b == (q - 1) * b + b;
    var x := q * b - 1;
    DivModUnique(x, b, q - 1, b - 1);
    if r == b - 1 {
      assert B64 == b * (q + 1);
      Pow2Words();
      NoDivisor(b, q + 1, 64);
    }
    if n % b == b - 1 && n > x {
      var k := n / b;
      assert n == k * b + (b - 1);
      if k >= q { MulMono(q, k, b); } else { MulMono(k, q - 1, b); }
    }
  }

  // The test result: the high product divided by p.
  lemma ByHighProduct(m: nat, n: nat, bias: bool, p: nat)
    requires p > 0
    ensures p * B64 > 0
    ensures HighProduct(m, n, bias) / p == ((if bias then m else 0) + m * n) / (p * B64)
  {
    DivDiv((if bias then m else 0) + m * n, B64, p);
    assert B64 * p == p * B64;
  }

  // The odd part of b divides 2^64 - 1.
  lemma SpecialCase(b: u32, n: u64) returns (l: nat, o: nat)
    requires b > 0 && !IsPowerOf2(b)
    ensures l == Lowest32(b) > 0 && b / l == o > 0
    ensures (B64 - 1) % o == 0 ==> HighProduct((B64 - 1) / o, n / l, true) == n / b
  {
    hide And, HighProduct, Trail, Pow2;
    Pow2Words();
    AndNeg(b, 32);
    LowestBit(b);
    l := Pow2(Trail(b));
    TrailingZeros(b, Trail(b));
    o := Shr(b, Trail(b));
    OddPart(b, l, o);
    if (B64 - 1) % o == 0 { OddReciprocal(n, b, l, o); }
  }

  lemma OddPart(b: nat, l: nat, o: nat)
    requires o * l == b > 0 && l > 0
    ensures o > 0 && b / l == o
  {
    if o <= 0 { MulMono(o, 0, l); }
    DivModUnique(b, l, o, 0);
  }

  lemma OddReciprocal(n: u64, b: nat, l: nat, o: nat)
    requires o * l == b && o > 0 && l > 0 && (B64 - 1) % o == 0
    ensures b > 0 && HighProduct((B64 - 1) / o, n / l, true) == n / b
  {
    hide HighProduct;
    var m := (B64 - 1) / o;
    assert m * o == B64 - 1;
    FloorBounds(n / l, o, m, 1, 1);
    ByHighProduct(m, n / l, true, 1);
    DivDiv(n, l, o);
    assert l * o == b;
  }

  // The test fails: the floor, with bias.
  lemma BiasedCase(b: u32, n: u64)
    requires b > 0 && !IsPowerOf2(b)
    requires CeilingReciprocal(b) >= 0 && Largest(b) >= 0
    requires HighProduct(CeilingReciprocal(b), Largest(b), false) / Msb(b) != Largest(b) / b
    ensures 0 <= FloorReciprocal(b) < B64 && HighProduct(FloorReciprocal(b), n, true) / Msb(b) == n / b
  {
    hide Pow2, ILog2, And, HighProduct;
    var p, m, m', x := Msb(b), CeilingReciprocal(b), FloorReciprocal(b), Largest(b);
    MsbBounds(b);
    LargestDividend(b, n);
    var e := CeilingFacts(b);
    var d := FloorOf(b, p);
    ByHighProduct(m, x, false, p);
    TestFails(b, m, p, e, x);
    Difference(m, m', b, e, d, p * B64);
    FloorBounds(n, b, m', p, d);
    ByHighProduct(m', n, true, p);
  }

  lemma Difference(m: int, m': int, b: nat, e: nat, d: nat, s: nat)
    requires m * b == s + e && m' * b + d == s && 0 < e < b && d < b
    ensures m == m' + 1 && e + d == b
  {
    if m <= m' { MulMono(m, m', b); }
    assert (m' + 2) * b == m' * b + 2 * b;
    if m >= m' + 2 { MulMono(m' + 2, m, b); }
    assert (m' + 1) * b == m' * b + b;
  }

  // Both m and p end in k zeros if m does.
  lemma CommonZeros(b: u32, k: nat)
    requires b > 0 && !IsPowerOf2(b) && 0 < CeilingReciprocal(b) < B64 && k <= Trail(CeilingReciprocal(b))
    ensures var m, p := CeilingReciprocal(b), Msb(b);
            && Shr(m, k) == m / Pow2(k) && Shr(p, k) == p / Pow2(k)
            && Shr(m, k) * Pow2(k) == m && Shr(p, k) * Pow2(k) == p && Shr(p, k) > 0
  {
    hide ILog2, And, Shr, Trail;
    var p, m := Msb(b), CeilingReciprocal(b);
    MsbBounds(b);
    var e := CeilingFacts(b);
    assert p * B64 == B64 * p;
    TrailWithin(m, b, ILog2(b), e);
    TrailOfPow2(ILog2(b));
    TrailingZeros(m, k);
    TrailingZeros(p, k);
    ShiftsAreArithmetic(m, k);
    ShiftsAreArithmetic(p, k);
    if Shr(p, k) <= 0 { MulMono(Shr(p, k), 0, Pow2(k)); }
  }

  // The test passes: the ceiling, reduced by a common factor 2^k.
  lemma PlainCase(b: u32, n: u64, k: nat)
    requires b > 0 && !IsPowerOf2(b) && 0 < CeilingReciprocal(b) < B64 && Largest(b) >= 0
    requires HighProduct(CeilingReciprocal(b), Largest(b), false) / Msb(b) == Largest(b) / b
    requires k <= Trail(CeilingReciprocal(b))
    ensures Shr(Msb(b), k) > 0 && HighProduct(Shr(CeilingReciprocal(b), k), n, false) / Shr(Msb(b), k) == n / b
  {
    hide ILog2, And, HighProduct, Shr, Trail, Pow2;
    var p, m, x := Msb(b), CeilingReciprocal(b), Largest(b);
    MsbBounds(b);
    LargestDividend(b, n);
    var e := CeilingFacts(b);
    ByHighProduct(m, x, false, p);
    TestDecides(n, b, m, p, e, x);
    CommonZeros(b, k);
    Reduced(Shr(m, k), Shr(p, k), Pow2(k), n);
    ByHighProduct(Shr(m, k), n, false, Shr(p, k));
  }

  // A reciprocal computed without p << 64, which does not fit a word.
  lemma ReciprocalParts(b: u32, up: bool)
    requires b > 0
    ensures 0 <= (B64 - 1) / b * Msb(b) && 0 <= ((B64 - 1) % b + 1) * Msb(b)
    ensures (B64 - 1) / b * Msb(b) <= if up then CeilingReciprocal(b) else FloorReciprocal(b)
  {
    hide Msb;
    var q, r := (B64 - 1) / b, (B64 - 1) % b + 1;
    MulBound(0, 0, q, Msb(b));
    MulBound(0, 0, r, Msb(b));
    DivLess(r * Msb(b), b);
    DivLess(r * Msb(b) + b - 1, b);
  }

  lemma DivLess(a: nat, b: nat)
    requires b > 0
    ensures 0 <= a / b <= a
  {
    var q := a / b;
    assert a == q * b + a % b;
    if q < 0 { MulMono(q, -1, b); }
    MulBound(q, 1, q, b);
  }

  // m = ((p << 64) + b - 1) / b, or without the "+ b - 1"
  method Reciprocal(b: u32, p: u32, up: bool) returns (m: u64)
    requires b > 0 && p == Msb(b)
    requires 0 <= (if up then CeilingReciprocal(b) else FloorReciprocal(b)) < B64
    ensures m == if up then CeilingReciprocal(b) else FloorReciprocal(b)
  {
    hide Msb;
    ReciprocalParts(b, up);
    m := (B64 - 1) / b * p;
    if up {
      m := m + (((B64 - 1) % b + 1) * p + b - 1) / b;
    } else {
      m := m + ((B64 - 1) % b + 1) * p / b;
    }
  }

  // Bring m / p to lower terms, so that bit 31 of m is clear if it can be.
  method Reduce(m: u64, p: u32, ghost b: u32) returns (m': u64, p': u32)
    requires b > 0 && !IsPowerOf2(b) && m == CeilingReciprocal(b) > 0 && p == Msb(b) && Largest(b) >= 0
    requires HighProduct(m, Largest(b), false) / p == Largest(b) / b
    ensures p' > 0 && forall n: u64 :: HighProduct(m', n, false) / p' == n / b
  {
    hide Pow2, ILog2, HighProduct, Shr, Trail, ReductionBits, IsPowerOf2, CeilingReciprocal, Largest, Msb, And;
    var bits := ReductionBits(m);
    if bits == 0 {
      CommonZeros(b, Trail(m));
      forall n: u64 { PlainCase(b, n, Trail(m)); }
      Pow2Words();
      AndNeg(m, 64);
      p' := p / Lowest64(m);
      m' := m / Lowest64(m);
    } else {
      ReductionIsTrailing(m);
      CommonZeros(b, ILog2(bits));
      forall n: u64 { PlainCase(b, n, ILog2(bits)); }
      p' := Shr(p, ILog2(bits));
      m' := Shr(m, ILog2(bits));
    }
  }

  // __div64_const32
  method Div64Const32(n0: u64, b: u32) returns (res: u64)
    requires b > 0 && !IsPowerOf2(b)
    ensures res == n0 / b
  {
    hide ILog2, Lowest32, HighProduct, IsPowerOf2, CeilingReciprocal, FloorReciprocal, Largest, Msb;
    ghost var e := CeilingFacts(b);
    MsbBounds(b);
    LargestFits(b);
    // p is the highest bit of b
    var p: u32 := Msb(b);
    var m := Reciprocal(b, p, true);
    // see whether m is exact at x
    var x: u64 := Largest(b);
    res := ByHalves(m, x, false, true);
    DivLess(res, p);
    res := res / p;
    var n, bias;
    m, n, p, bias := Sanitize(n0, b, m, p, x, res);
    res := XProd64(m, n, bias);
    DivLess(res, p);
    res := res / p;
  }

  lemma LargestFits(b: u32)
    requires b > 0 && !IsPowerOf2(b)
    ensures 0 <= Largest(b) < B64
  {
    LargestDividend(b, 0);
  }

  // The three ways to divide: which one applies, and with what m, p and bias.
  method Sanitize(n0: u64, b: u32, m0: u64, p0: u32, x: u64, res: u64) returns (m: u64, n: u64, p: u32, bias: bool)
    requires b > 0 && !IsPowerOf2(b) && m0 == CeilingReciprocal(b) > 0 && p0 == Msb(b) > 0 && x == Largest(b)
    requires res == HighProduct(m0, x, false) / p0
    ensures p > 0 && HighProduct(m, n, bias) / p == n0 / b
  {
    hide ILog2, Lowest32, HighProduct, IsPowerOf2, CeilingReciprocal, FloorReciprocal, Largest, Msb;
    ghost var l, o := SpecialCase(b, n0);
    var lowest := Lowest32(b);
    var odd := b / lowest;
    DivLess(n0, lowest);
    DivLess(B64 - 1, odd);
    if (B64 - 1) % odd == 0 {
      n := n0 / lowest;
      m := (B64 - 1) / odd;
      p := 1;
      bias := true;
    } else if res != x / b {
      BiasedCase(b, n0);
      n, p, bias := n0, p0, true;
      m := Reciprocal(b, p, false);
    } else {
      m, p := Reduce(m0, p0, b);
      n, bias := n0, false;
    }
  }

  // do_div(n, base) for a constant base: what becomes of n, and the value.
  method DoDiv(n: u64, base: u32) returns (q: u64, rem: u32)
    requires base != 0
    ensures q == n / base && rem == n % base
  {
    hide Pow2, ILog2, Shr, Low, And, Trail;
    if IsPowerOf2(base) {
      PowerOf2(base);
      AndMask(n, ILog2(base));
      ShiftsAreArithmetic(n, ILog2(base));
      rem := And(n, base - 1);
      q := Shr(n, ILog2(base));
    } else {
      q := Div64Const32(n, base);
      // 32 bits are enough for the remainder
      LowRemainder(n, base);
      var lo: nat := q % B32 * base % B32;
      rem := (n % B32 + B32 - lo) % B32;
    }
  }

  // n - q * base modulo 2^32 is the remainder.
  lemma LowRemainder(n: u64, base: u32)
    requires base > 0
    ensures (n % B32 + B32 - n / base % B32 * base % B32) % B32 == n % base
  {
    var q, r := n / base, n % base;
    var k, d := LowProduct(q, base);
    assert n == q * base + r;
    LowSum(n, k, d, r);
  }

  // The low word of q * base is that of the product of the low word of q.
  lemma LowProduct(q: nat, base: nat) returns (k: nat, d: nat)
    ensures q * base == k * B32 + d && d == q % B32 * base % B32
  {
    var a, b := q / B32, q % B32;
    Distribute(a, b, base);
    k, d := a * base + b * base / B32, b * base % B32;
    assert k * B32 == a * base * B32 + b * base / B32 * B32;
  }

  lemma Distribute(a: nat, b: nat, base: nat)
    ensures (a * B32 + b) * base == a * base * B32 + b * base
  {
    assert a * B32 * base == a * base * B32;
  }

  lemma LowSum(n: nat, k: nat, d: nat, r: nat)
    requires n == k * B32 + d + r && d < B32 && r < B32
    ensures (n % B32 + B32 - d) % B32 == r
  {
  }
}
