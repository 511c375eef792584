// wtmi/crypto.c: numbers of seventeen 32-bit words, least significant first.
module BigNum {
  import opened Types
  import opened Bits

  const WORD: nat := 0x1_0000_0000
  const LONGS: nat := 17

  // 2^(32 n)
  function Power(n: nat): (r: nat)
    ensures r > 0
  {
    if n == 0 then 1 else WORD * Power(n - 1)
  }

  function Value(s: seq<u32>): nat
  {
    if s == [] then 0 else Value(s[..|s| - 1]) + s[|s| - 1] * Power(|s| - 1)
  }

  lemma ValueNext(s: seq<u32>, i: nat)
    requires i < |s|
    ensures Value(s[..i + 1]) == Value(s[..i]) + s[i] * Power(i)
  {
    assert s[..i + 1][..i] == s[..i];
  }

  lemma {:induction false} ValueBound(s: seq<u32>)
    ensures Value(s) < Power(|s|)
  {
    if s != [] {
      var n := |s| - 1;
      ValueBound(s[..n]);
      MulMono(s[n], WORD - 1, Power(n));
      assert (WORD - 1) * Power(n) == Power(n + 1) - Power(n);
    }
  }

  // ---- bn_cmp() ----

  // What lies above decides first.
  lemma {:induction false} SameAbove(a: seq<u32>, b: seq<u32>, i: nat)
    requires i <= |a| == |b| && a[i..] == b[i..]
    ensures Value(a) - Value(b) == Value(a[..i]) - Value(b[..i])
  {
    hide Power;
    if i == |a| {
      assert a[..i] == a && b[..i] == b;
    } else {
      var n := |a| - 1;
      assert a[n] == a[i..][n - i] == b[i..][n - i] == b[n];
      assert a[..n][i..] == a[i..][..n - i] == b[i..][..n - i] == b[..n][i..];
      SameAbove(a[..n], b[..n], i);
      assert a[..n][..i] == a[..i] && b[..n][..i] == b[..i];
    }
  }

  lemma Decides(a: seq<u32>, b: seq<u32>, i: nat)
    requires i < |a| == |b| && a[i + 1..] == b[i + 1..] && a[i] < b[i]
    ensures Value(a) < Value(b)
  {
    hide Power, Value;
    SameAbove(a, b, i + 1);
    ValueNext(a, i);
    ValueNext(b, i);
    ValueBound(a[..i]);
    MulMono(a[i] + 1, b[i], Power(i));
    assert (a[i] + 1) * Power(i) == a[i] * Power(i) + Power(i);
  }

  method Cmp(a: array<u32>, b: array<u32>) returns (r: int)
    requires a.Length == b.Length == LONGS
    ensures r == -1 || r == 0 || r == 1
    ensures r < 0 <==> Value(a[..]) < Value(b[..])
    ensures r == 0 <==> a[..] == b[..]
    ensures r == 0 <==> Value(a[..]) == Value(b[..])
  {
    hide Power, Value;
    var i := LONGS - 1;
    while i >= 0
      invariant -1 <= i < LONGS && a[i + 1..] == b[i + 1..]
    {
      assert a[..][i + 1..] == a[i + 1..] && b[..][i + 1..] == b[i + 1..];
      if a[i] < b[i] {
        Decides(a[..], b[..], i);
        return -1;
      } else if a[i] > b[i] {
        Decides(b[..], a[..], i);
        return 1;
      }
      assert a[i..] == [a[i]] + a[i + 1..] && b[i..] == [b[i]] + b[i + 1..];
      i := i - 1;
    }
    assert a[..] == a[0..] && b[..] == b[0..];
    r := 0;
  }

  // ---- words ----

  // __builtin_uadd_overflow()
  function UAdd(x: u32, y: u32): (u32, bool) { ((x + y) % WORD, x + y >= WORD) }

  // __builtin_usub_overflow()
  function USub(x: u32, y: u32): (u32, bool) { ((x - y) % WORD, x < y) }

  function Bit(b: bool): u32 { if b then 1 else 0 }

  // One word of the sum: the two carries exclude each other.
  lemma AddWord(d: u32, s: u32, carry: bool)
    ensures var (d1, c1) := UAdd(d, Bit(carry));
            var (d2, c2) := UAdd(d1, s);
            d2 + Bit(c1 || c2) * WORD == d + s + Bit(carry)
  {
  }

  lemma SubWord(d: u32, s: u32, borrow: bool)
    ensures var (d1, c1) := USub(d, s);
            var (d2, c2) := USub(d1, Bit(borrow));
            d2 - Bit(c1 || c2) * WORD == d - s - Bit(borrow)
  {
  }

  // ---- bn_add() ----

  lemma Carried(d: int, carry: int, d0: int, s: int, carry0: int, i: nat)
    requires d + carry * WORD == d0 + s + carry0
    ensures d * Power(i) + carry * Power(i + 1) == d0 * Power(i) + s * Power(i) + carry0 * Power(i)
  {
    var p := Power(i);
    assert carry * (WORD * p) == (carry * WORD) * p;
    assert (d + carry * WORD) * p == d * p + (carry * WORD) * p;
    assert (d0 + s + carry0) * p == d0 * p + s * p + carry0 * p;
  }

  // Every word of both numbers is used once, with the carry from below.
  method Add(dst: array<u32>, src: array<u32>, len: nat) returns (carry: bool)
    requires len <= dst.Length && len <= src.Length && dst != src
    modifies dst
    ensures Value(dst[..len]) + Bit(carry) * Power(len) == old(Value(dst[..len])) + Value(src[..len])
    ensures dst[len..] == old(dst[len..])
  {
    hide Power, Value, UAdd;
    ghost var d0 := dst[..];
    carry := false;
    NoWords();
    for i := 0 to len
      invariant Value(dst[..i]) + Bit(carry) * Power(i) == Value(d0[..i]) + Value(src[..i])
      invariant dst[i..] == d0[i..]
    {
      ghost var below, carry0 := dst[..i], carry;
      assert dst[i] == dst[i..][0] == d0[i];
      AddWord(dst[i], src[i], carry);
      var (d, c1) := UAdd(dst[i], Bit(carry));
      dst[i] := d;
      var (e, c2) := UAdd(dst[i], src[i]);
      dst[i] := e;
      carry := c1 || c2;
      assert dst[..i] == below;
      assert dst[i + 1..] == d0[i..][1..];
      Carried(e, Bit(carry), d0[i], src[i], Bit(carry0), i);
      ValueNext(dst[..], i);
      ValueNext(d0, i);
      ValueNext(src[..], i);
      assert dst[..][..i + 1] == dst[..i + 1] && dst[..][..i] == below;
      assert src[..][..i + 1] == src[..i + 1] && src[..][..i] == src[..i];
    }
    assert d0[..len] == old(dst[..len]);
  }

  lemma NoWords()
    ensures Value([]) == 0
  {
  }

  // ---- bn_modulo() ----

  // One subtraction of all words.
  method Subtract(dst: array<u32>, mod: array<u32>)
    requires dst.Length == mod.Length == LONGS && dst != mod && Value(dst[..]) >= Value(mod[..])
    modifies dst
    ensures Value(dst[..]) == old(Value(dst[..])) - Value(mod[..])
  {
    hide Power, Value, USub;
    ghost var d0 := dst[..];
    var borrow := false;
    NoWords();
    for i := 0 to LONGS
      invariant Value(dst[..i]) - Bit(borrow) * Power(i) == Value(d0[..i]) - Value(mod[..i])
      invariant dst[i..] == d0[i..]
    {
      ghost var below, borrow0 := dst[..i], borrow;
      assert dst[i] == dst[i..][0] == d0[i];
      SubWord(dst[i], mod[i], borrow);
      var (d, c1) := USub(dst[i], mod[i]);
      dst[i] := d;
      var (e, c2) := USub(dst[i], Bit(borrow));
      dst[i] := e;
      borrow := c1 || c2;
      assert dst[..i] == below;
      assert dst[i + 1..] == d0[i..][1..];
      Carried(d0[i], Bit(borrow), e, mod[i], Bit(borrow0), i);
      ValueNext(dst[..], i);
      ValueNext(d0, i);
      ValueNext(mod[..], i);
      assert dst[..][..i + 1] == dst[..i + 1] && dst[..][..i] == below;
      assert mod[..][..i + 1] == mod[..i + 1] && mod[..][..i] == mod[..i];
    }
    assert d0[..LONGS] == d0 && dst[..LONGS] == dst[..] && mod[..LONGS] == mod[..];
    ValueBound(dst[..]);
  }

  method Modulo(dst: array<u32>, mod: array<u32>)
    requires dst.Length == mod.Length == LONGS && dst != mod && Value(mod[..]) > 0
    modifies dst
    ensures Value(dst[..]) == old(Value(dst[..])) % Value(mod[..])
  {
    hide Power, Value;
    ghost var m := Value(mod[..]);
    var c := Cmp(dst, mod);
    while c >= 0
      invariant (c < 0 <==> Value(dst[..]) < m) && mod[..] == old(mod[..])
      invariant Value(dst[..]) % m == old(Value(dst[..])) % m
      decreases Value(dst[..])
    {
      Less(Value(dst[..]), m);
      Subtract(dst, mod);
      c := Cmp(dst, mod);
    }
    DivModUnique(Value(dst[..]), m, 0, Value(dst[..]));
  }

  lemma Less(x: nat, m: nat)
    requires x >= m > 0
    ensures (x - m) % m == x % m
  {
    var q, r := x / m, x % m;
    assert x - m == (q - 1) * m + r;
    DivModUnique(x - m, m, q - 1, r);
  }

  // ---- bn_addmod() ----

  // The carry out of the highest word is dropped.
  method AddMod(dst: array<u32>, src: array<u32>, mod: array<u32>)
    requires dst.Length == src.Length == mod.Length == LONGS && dst != src && dst != mod && Value(mod[..]) > 0
    modifies dst
    ensures var sum := old(Value(dst[..])) + Value(src[..]);
            Value(dst[..]) == sum % Power(LONGS) % Value(mod[..])
  {
    hide Power, Value;
    ghost var sum := Value(dst[..]) + Value(src[..]);
    assert dst[..LONGS] == dst[..] && src[..LONGS] == src[..];
    var carry := Add(dst, src, LONGS);
    assert dst[..LONGS] == dst[..];
    ValueBound(dst[..]);
    DivModUnique(sum, Power(LONGS), Bit(carry), Value(dst[..]));
    Modulo(dst, mod);
  }

  // That is the sum modulo m exactly when nothing was dropped or what was
  // dropped is a multiple of m.
  lemma AddModExact(a: seq<u32>, b: seq<u32>, m: nat)
    requires |a| == |b| == LONGS && m > 0
    ensures var sum := Value(a) + Value(b);
            sum % Power(LONGS) % m == sum % m <==> sum < Power(LONGS) || Power(LONGS) % m == 0
  {
    hide Power, Value;
    var sum, p := Value(a) + Value(b), Power(LONGS);
    ValueBound(a);
    ValueBound(b);
    if sum < p {
      DivModUnique(sum, p, 0, sum);
    } else {
      DivModUnique(sum, p, 1, sum - p);
      SameRemainder(sum - p, p, m);
    }
  }

  lemma SameRemainder(x: nat, p: nat, m: nat)
    requires m > 0
    ensures x % m == (x + p) % m <==> p % m == 0
  {
    var q, r := x / m, x % m;
    var q', r' := (x + p) / m, (x + p) % m;
    var k := q' - q;
    assert q' * m - q * m == k * m;
    if r == r' {
      assert p == k * m;
      DivModUnique(p, m, k, 0);
    }
    if p % m == 0 {
      var j := p / m;
      assert x + p == (q + j) * m + r by { assert (q + j) * m == q * m + j * m; }
      DivModUnique(x + p, m, q + j, r);
    }
  }
}
