// wtmi/compressed/adler32.c: the checksum of section 2.2 of RFC 1950, with the
// reductions modulo 65521 put off for as long as 32 bits allow.
module Adler32 {
  import opened Types
  import opened Bits

  const BASE: nat := 65521
  const NMAX: nat := 5552

  datatype Sums = Sums(s1: nat, s2: nat)

  datatype Buffer = Null | At(bytes: seq<Byte>)

  // ---- the definition: both sums are reduced after every byte ----

  function AddByte(s: Sums, b: Byte): Sums
  {
    var s1 := (s.s1 + b) % BASE;
    Sums(s1, (s.s2 + s1) % BASE)
  }

  function Checksum(s: Sums, data: seq<Byte>): Sums
    decreases |data|
  {
    if data == [] then s else Checksum(AddByte(s, data[0]), data[1..])
  }

  lemma {:induction false} ChecksumConcat(s: Sums, a: seq<Byte>, b: seq<Byte>)
    ensures Checksum(s, a + b) == Checksum(Checksum(s, a), b)
    decreases |a|
  {
    if a == [] {
      assert a + b == b;
    } else {
      ChecksumConcat(AddByte(s, a[0]), a[1..], b);
      assert (a + b)[1..] == a[1..] + b;
    }
  }

  // A checksum as one 32-bit number.
  function Packed(s: Sums): nat { s.s1 + 65536 * s.s2 }

  function Unpacked(adler: nat): Sums { Sums(adler % 65536, adler / 65536 % 65536) }

  predicate Reduced(s: Sums) { s.s1 < BASE && s.s2 < BASE }

  lemma PackedUnpacked(s: Sums)
    requires s.s1 < 65536 && s.s2 < 65536
    ensures Unpacked(Packed(s)) == s
  {
  }

  // ---- the same sums without reduction ----

  function Raw(s: Sums, data: seq<Byte>): Sums
    decreases |data|
  {
    if data == [] then s else Raw(Sums(s.s1 + data[0], s.s2 + s.s1 + data[0]), data[1..])
  }

  lemma {:induction false} RawConcat(s: Sums, a: seq<Byte>, b: seq<Byte>)
    ensures Raw(s, a + b) == Raw(Raw(s, a), b)
    decreases |a|
  {
    if a == [] {
      assert a + b == b;
    } else {
      RawConcat(Sums(s.s1 + a[0], s.s2 + s.s1 + a[0]), a[1..], b);
      assert (a + b)[1..] == a[1..] + b;
    }
  }

  function Mod(s: Sums): Sums { Sums(s.s1 % BASE, s.s2 % BASE) }

  // One reduction at the end is as good as one after every byte.
  lemma {:induction false} RawIsDeferred(s: Sums, t: Sums, data: seq<Byte>)
    requires Mod(s) == Mod(t)
    ensures Mod(Raw(s, data)) == Mod(Checksum(t, data))
    decreases |data|
  {
    if data != [] {
      DeferredByte(s, t, data[0]);
      RawIsDeferred(Sums(s.s1 + data[0], s.s2 + s.s1 + data[0]), AddByte(t, data[0]), data[1..]);
    }
  }

  lemma DeferredByte(s: Sums, t: Sums, b: Byte)
    requires Mod(s) == Mod(t)
    ensures Mod(Sums(s.s1 + b, s.s2 + s.s1 + b)) == Mod(AddByte(t, b))
  {
    var s1 := (t.s1 + b) % BASE;
    Congruent(s.s1, t.s1, b);
    Congruent(s.s2, t.s2, s.s1 + b);
    Congruent(s.s1 + b, s1, t.s2);
  }

  lemma Congruent(x: nat, y: nat, d: nat)
    requires x % BASE == y % BASE
    ensures (x + d) % BASE == (y + d) % BASE
  {
  }

  lemma {:induction false} ChecksumReduced(s: Sums, data: seq<Byte>)
    requires Reduced(s)
    ensures Reduced(Checksum(s, data)) && Mod(Checksum(s, data)) == Checksum(s, data)
    decreases |data|
  {
    if data != [] { ChecksumReduced(AddByte(s, data[0]), data[1..]); }
  }

  // ---- how large the sums get without reduction ----

  // 255n(n+1)/2 + (n+1)(BASE-1)
  function Worst(n: nat): nat { 255 * (n * (n + 1) / 2) + (n + 1) * (BASE - 1) }

  function Triangle(n: nat): nat { n * (n + 1) / 2 }

  lemma TriangleStep(n: nat)
    ensures Triangle(n + 1) == Triangle(n) + n + 1
  {
    assert (n + 1) * (n + 2) == n * (n + 1) + 2 * (n + 1);
  }

  lemma {:induction false} RawBound(s: Sums, data: seq<Byte>)
    ensures Raw(s, data).s1 <= s.s1 + 255 * |data|
    ensures Raw(s, data).s2 <= s.s2 + |data| * s.s1 + 255 * Triangle(|data|)
    decreases |data|
  {
    if data != [] {
      hide Triangle;
      var n, a := |data| - 1, s.s1 + data[0];
      RawBound(Sums(a, s.s2 + a), data[1..]);
      TriangleStep(n);
      assert n * a <= n * (s.s1 + 255) by { MulMono(a, s.s1 + 255, n); }
      assert n * (s.s1 + 255) == n * s.s1 + 255 * n;
      assert (n + 1) * s.s1 == n * s.s1 + s.s1;
    }
  }

  function Top(n: nat): (s: seq<Byte>)
    ensures |s| == n
  {
    if n == 0 then [] else [255] + Top(n - 1)
  }

  lemma {:induction false} TopReaches(s: Sums, n: nat)
    ensures Raw(s, Top(n)).s2 == s.s2 + n * s.s1 + 255 * Triangle(n)
    decreases n
  {
    if n > 0 {
      hide Triangle;
      TopReaches(Sums(s.s1 + 255, s.s2 + s.s1 + 255), n - 1);
      assert Top(n)[1..] == Top(n - 1);
      TriangleStep(n - 1);
      assert (n - 1) * (s.s1 + 255) == (n - 1) * s.s1 + 255 * (n - 1);
      assert n * s.s1 == (n - 1) * s.s1 + s.s1;
    } else {
      assert Triangle(0) == 0;
    }
  }

  predicate Fits(s: Sums) { s.s1 < 0x1_0000_0000 && s.s2 < 0x1_0000_0000 }

  lemma WorstMono(m: nat, n: nat)
    requires m <= n
    ensures Worst(m) <= Worst(n)
  {
    MulMono(m, n, m + 1);
    MulMono(m + 1, n + 1, n);
    assert m * (m + 1) <= n * (n + 1);
  }

  lemma WorstIs(n: nat)
    ensures Worst(n) == (BASE - 1) + n * (BASE - 1) + 255 * Triangle(n)
  {
  }

  // NMAX is the largest number of bytes for which no sum can leave 32 bits.
  lemma NmaxIsLargest(n: nat)
    ensures n <= NMAX <==>
            forall s: Sums, data: seq<Byte> | Reduced(s) && |data| == n :: Fits(Raw(s, data))
  {
    hide Worst, Triangle, Raw;
    if n <= NMAX {
      forall s: Sums, data: seq<Byte> | Reduced(s) && |data| == n
        ensures Fits(Raw(s, data))
      {
        BlockFits(s, data);
      }
    } else {
      var s, data := Sums(BASE - 1, BASE - 1), Top(n);
      TopReaches(s, n);
      WorstIs(n);
      WorstMono(NMAX + 1, n);
      WorstAtLimit();
      assert !Fits(Raw(s, data));
    }
  }

  lemma WorstAtLimit()
    ensures Worst(NMAX) < 0x1_0000_0000 <= Worst(NMAX + 1)
  {
  }

  lemma BlockFits(s: Sums, data: seq<Byte>)
    requires Reduced(s) && |data| <= NMAX
    ensures Fits(Raw(s, data))
  {
    hide Worst, Triangle, Raw;
    var n := |data|;
    RawBound(s, data);
    WorstIs(n);
    WorstMono(n, NMAX);
    WorstAtLimit();
    MulMono(s.s1, BASE - 1, n);
    Below32(Raw(s, data), s, n, n * s.s1, n * (BASE - 1), 255 * Triangle(n), Worst(n));
  }

  lemma Below32(raw: Sums, s: Sums, n: nat, p: nat, q: nat, t: nat, w: nat)
    requires Reduced(s) && n <= NMAX && p <= q && w == (BASE - 1) + q + t < 0x1_0000_0000
    requires raw.s1 <= s.s1 + 255 * n && raw.s2 <= s.s2 + p + t
    ensures Fits(raw)
  {
  }

  // ---- adler32() ----

  // unsigned long is 32 bits wide.
  function Add(x: nat, y: nat): nat { (x + y) % 0x1_0000_0000 }

  lemma RawNext(s: Sums, data: seq<Byte>, i: nat, j: nat)
    requires i <= j < |data|
    ensures var r, q := Raw(s, data[i..j]), Raw(s, data[i..j + 1]);
            q.s1 == r.s1 + data[j] && q.s2 == r.s2 + q.s1
  {
    assert data[i..j + 1] == data[i..j] + [data[j]];
    RawConcat(s, data[i..j], [data[j]]);
    assert [data[j]][1..] == [];
  }

  // DO1
  method Do1(adler0: nat, sum0: nat, buf: seq<Byte>, i: nat, ghost s: Sums, ghost from: nat) returns (adler: nat, sum2: nat)
    requires from <= i < |buf| && i < from + NMAX && Reduced(s) && Sums(adler0, sum0) == Raw(s, buf[from..i])
    ensures Sums(adler, sum2) == Raw(s, buf[from..i + 1])
  {
    hide Raw;
    RawNext(s, buf, from, i);
    BlockFits(s, buf[from..i + 1]);
    adler := Add(adler0, buf[i]);
    sum2 := Add(sum0, adler);
  }

  // DO16
  method Do16(adler0: nat, sum0: nat, buf: seq<Byte>, at: nat, ghost s: Sums, ghost from: nat) returns (adler: nat, sum2: nat)
    requires from <= at && at + 16 <= |buf| && at + 16 <= from + NMAX && Reduced(s)
    requires Sums(adler0, sum0) == Raw(s, buf[from..at])
    ensures Sums(adler, sum2) == Raw(s, buf[from..at + 16])
  {
    hide Raw;
    adler, sum2 := adler0, sum0;
    for i := 0 to 16
      invariant Sums(adler, sum2) == Raw(s, buf[from..at + i])
    {
      adler, sum2 := Do1(adler, sum2, buf, at + i, s, from);
    }
  }

  // From the sums at from, reduced, to those at to, reduced.
  lemma BlockDone(s: Sums, buf: seq<Byte>, from: nat, to: nat)
    requires from <= to <= |buf| && Reduced(s)
    ensures var t := Checksum(s, buf[..from]);
            Reduced(t) && Mod(Raw(t, buf[from..to])) == Checksum(s, buf[..to])
  {
    hide Raw, Checksum;
    var t := Checksum(s, buf[..from]);
    ChecksumReduced(s, buf[..from]);
    RawIsDeferred(t, t, buf[from..to]);
    ChecksumReduced(t, buf[from..to]);
    ChecksumConcat(s, buf[..from], buf[from..to]);
    assert buf[..from] + buf[from..to] == buf[..to];
  }

  // while (len--) { adler += *buf++; sum2 += adler; }
  method DoRest(adler0: nat, sum0: nat, buf: seq<Byte>, at: nat, ghost s: Sums, ghost from: nat) returns (adler: nat, sum2: nat)
    requires from <= at <= |buf| <= from + NMAX && Reduced(s) && Sums(adler0, sum0) == Raw(s, buf[from..at])
    ensures Sums(adler, sum2) == Raw(s, buf[from..])
  {
    hide Raw;
    adler, sum2 := adler0, sum0;
    var i := at;
    while i < |buf|
      invariant at <= i <= |buf| && Sums(adler, sum2) == Raw(s, buf[from..i])
    {
      adler, sum2 := Do1(adler, sum2, buf, i, s, from);
      i := i + 1;
    }
    assert buf[from..i] == buf[from..];
  }

  // Both halves of the starting value are reduced, as in every checksum.
  method Adler32(adler0: nat, buf: Buffer) returns (r: nat)
    requires adler0 < 0x1_0000_0000 && Reduced(Unpacked(adler0))
    ensures r == if buf.Null? then 1 else Packed(Checksum(Unpacked(adler0), buf.bytes))
  {
    hide Checksum, Raw;
    // a single byte needs no division
    if buf.At? && |buf.bytes| == 1 {
      r := OneByte(adler0 % 65536, adler0 / 65536 % 65536, buf.bytes);
      return;
    }
    if buf.Null? { return 1; }
    if |buf.bytes| < 16 {
      r := Short(adler0 % 65536, adler0 / 65536 % 65536, buf.bytes);
      return;
    }
    r := Long(adler0 % 65536, adler0 / 65536 % 65536, buf.bytes);
  }

  method OneByte(adler0: nat, sum0: nat, buf: seq<Byte>) returns (r: nat)
    requires Reduced(Sums(adler0, sum0)) && |buf| == 1
    ensures r == Packed(Checksum(Sums(adler0, sum0), buf))
  {
    var adler, sum2 := Add(adler0, buf[0]), sum0;
    if adler >= BASE { adler := adler - BASE; }
    sum2 := Add(sum2, adler);
    if sum2 >= BASE { sum2 := sum2 - BASE; }
    assert buf[1..] == [] && AddByte(Sums(adler0, sum0), buf[0]) == Sums(adler, sum2);
    r := Packed(Sums(adler, sum2));
  }

  method Short(adler0: nat, sum0: nat, buf: seq<Byte>) returns (r: nat)
    requires Reduced(Sums(adler0, sum0)) && |buf| < 16
    ensures r == Packed(Checksum(Sums(adler0, sum0), buf))
  {
    hide Raw, Checksum;
    ghost var s := Sums(adler0, sum0);
    StartBlock(s, buf, 0);
    var adler, sum2 := DoRest(adler0, sum0, buf, 0, s, 0);
    RawBound(s, buf);
    BlockDone(s, buf, 0, |buf|);
    Whole(s, buf);
    if adler >= BASE { adler := adler - BASE; }
    sum2 := sum2 % BASE;
    r := Packed(Sums(adler, sum2));
  }

  lemma StartBlock(s: Sums, buf: seq<Byte>, at: nat)
    requires at <= |buf|
    ensures Raw(s, buf[at..at]) == s && Checksum(s, buf[..0]) == s
  {
  }

  lemma Whole(s: Sums, buf: seq<Byte>)
    ensures buf[0..] == buf && buf[..|buf|] == buf && buf[0..|buf|] == buf && Checksum(s, buf[..0]) == s
  {
  }

  method Long(adler0: nat, sum0: nat, buf: seq<Byte>) returns (r: nat)
    requires Reduced(Sums(adler0, sum0))
    ensures r == Packed(Checksum(Sums(adler0, sum0), buf))
  {
    hide Raw, Checksum, Mod;
    ghost var s := Sums(adler0, sum0);
    var adler, sum2, at := adler0, sum0, 0;
    StartBlock(s, buf, 0);
    while |buf| - at >= NMAX
      invariant 0 <= at <= |buf| && Sums(adler, sum2) == Checksum(s, buf[..at])
    {
      adler, sum2 := Block(adler, sum2, buf, at, s);
      at := at + NMAX;
    }
    if at < |buf| {
      adler, sum2 := LastBlock(adler, sum2, buf, at, s);
    }
    Whole(s, buf);
    r := Packed(Sums(adler, sum2));
  }

  method Block(adler0: nat, sum0: nat, buf: seq<Byte>, at: nat, ghost s: Sums) returns (adler: nat, sum2: nat)
    requires at + NMAX <= |buf| && Reduced(s) && Sums(adler0, sum0) == Checksum(s, buf[..at])
    ensures Sums(adler, sum2) == Checksum(s, buf[..at + NMAX])
  {
    hide Raw, Checksum;
    adler, sum2 := adler0, sum0;
    ghost var t := Sums(adler, sum2);
    BlockDone(s, buf, at, at + NMAX);
    StartBlock(t, buf, at);
    var n, i := NMAX / 16, at;
    while n > 0
      invariant 0 <= n && i == at + NMAX - 16 * n && Sums(adler, sum2) == Raw(t, buf[at..i])
    {
      adler, sum2 := Do16(adler, sum2, buf, i, t, at);
      i := i + 16;
      n := n - 1;
    }
    adler := adler % BASE;
    sum2 := sum2 % BASE;
  }

  // fewer bytes than NMAX are left
  method LastBlock(adler0: nat, sum0: nat, buf: seq<Byte>, at: nat, ghost s: Sums) returns (adler: nat, sum2: nat)
    requires at <= |buf| < at + NMAX && Reduced(s) && Sums(adler0, sum0) == Checksum(s, buf[..at])
    ensures Sums(adler, sum2) == Checksum(s, buf[..|buf|])
  {
    hide Raw, Checksum;
    adler, sum2 := adler0, sum0;
    ghost var t := Sums(adler, sum2);
    BlockDone(s, buf, at, |buf|);
    StartBlock(t, buf, at);
    var i := at;
    while |buf| - i >= 16
      invariant at <= i <= |buf| && Sums(adler, sum2) == Raw(t, buf[at..i])
    {
      adler, sum2 := Do16(adler, sum2, buf, i, t, at);
      i := i + 16;
    }
    adler, sum2 := DoRest(adler, sum2, buf, i, t, at);
    assert buf[at..|buf|] == buf[at..];
    adler := adler % BASE;
    sum2 := sum2 % BASE;
  }

  // The checksum of a text is that of its second part started with that of its
  // first.
  lemma PackedConcat(adler: nat, a: seq<Byte>, b: seq<Byte>)
    requires Reduced(Unpacked(adler))
    ensures var first := Packed(Checksum(Unpacked(adler), a));
            Packed(Checksum(Unpacked(first), b)) == Packed(Checksum(Unpacked(adler), a + b))
  {
    hide Checksum;
    ChecksumReduced(Unpacked(adler), a);
    PackedUnpacked(Checksum(Unpacked(adler), a));
    ChecksumConcat(Unpacked(adler), a, b);
  }
}
