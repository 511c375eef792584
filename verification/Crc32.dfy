// CRC-32 as in section 8 of RFC 1952, and the two implementations of it:
// wtmi/compressed/crc32.c and wtmi/crc32.c.  Words are lists of bits, least
// significant first.
module Crc32 {
  import opened Types
  import opened Bits

  type Word = s: seq<bool> | |s| == 32 witness seq(32, i => false)

  // ---- the register ----

  function Xor(a: Word, b: Word): Word
  {
    seq(32, i requires 0 <= i < 32 => a[i] != b[i])
  }

  // c >> n
  function Shift(c: Word, n: nat): Word
  {
    seq(32, i requires 0 <= i < 32 => i + n < 32 && c[i + n])
  }

  function Zero(): Word { seq(32, i => false) }

  // The n low bits of a word, with zeros above.
  function Pad(s: seq<bool>): Word
    requires |s| <= 32
  {
    seq(32, i requires 0 <= i < 32 => i < |s| && s[i])
  }

  // The terms of the polynomial, except x^32.
  const TERMS: seq<nat> := [0, 1, 2, 4, 5, 7, 8, 10, 11, 12, 16, 22, 23, 26]

  // The pattern 0xedb88320: the coefficient of x^k is bit 31 - k.
  function Poly(): Word
  {
    seq(32, i requires 0 <= i < 32 => 31 - i in TERMS)
  }

  lemma PolyPattern()
    ensures Poly() == [false, false, false, false, false, true, false, false, true, true, false, false, false, false, false, true,
                       false, false, false, true, true, true, false, true, true, false, true, true, false, true, true, true]
  {
    assert TERMS == [0, 1, 2, 4, 5, 7, 8, 10, 11, 12, 16, 22, 23, 26];
  }

  // Multiplication by x, modulo the polynomial.
  function Step(c: Word): Word
  {
    if c[0] then Xor(Poly(), Shift(c, 1)) else Shift(c, 1)
  }

  function Steps(c: Word, n: nat): Word
    decreases n
  {
    if n == 0 then c else Steps(Step(c), n - 1)
  }

  // ---- the definition: one bit of the message at a time ----

  function Serial(c: Word, bits: seq<bool>): Word
    decreases |bits|
  {
    if bits == [] then c else Serial(Step(Xor(c, Pad(bits[..1]))), bits[1..])
  }

  function Crc(c: Word, data: seq<Byte>): Word
    decreases |data|
  {
    if data == [] then c else Crc(Serial(c, ToBits(data[0], 8)), data[1..])
  }

  lemma {:induction false} CrcConcat(c: Word, a: seq<Byte>, b: seq<Byte>)
    ensures Crc(c, a + b) == Crc(Crc(c, a), b)
    decreases |a|
  {
    hide Serial;
    if a == [] {
      assert a + b == b;
    } else {
      assert (a + b)[1..] == a[1..] + b;
      CrcConcat(Serial(c, ToBits(a[0], 8)), a[1..], b);
    }
  }

  // ---- many bits at once ----

  // What is shifted only, is not mixed with the polynomial.
  lemma StepShift(x: Word, y: Word)
    requires !y[0]
    ensures Step(Xor(x, y)) == Xor(Step(x), Shift(y, 1))
  {
    hide Poly;
    var a, b := Step(Xor(x, y)), Xor(Step(x), Shift(y, 1));
    assert Shift(Xor(x, y), 1) == Xor(Shift(x, 1), Shift(y, 1));
    assert forall i | 0 <= i < 32 :: a[i] == b[i];
  }

  lemma ShiftShift(y: Word, a: nat, b: nat)
    ensures Shift(Shift(y, a), b) == Shift(y, a + b)
  {
  }

  lemma {:induction false} StepsShift(x: Word, y: Word, n: nat)
    requires n <= 32 && forall i | 0 <= i < n :: !y[i]
    ensures Steps(Xor(x, y), n) == Xor(Steps(x, n), Shift(y, n))
    decreases n
  {
    hide Step, Xor;
    if n == 0 {
      assert Shift(y, 0) == y;
    } else {
      StepShift(x, y);
      StepsShift(Step(x), Shift(y, 1), n - 1);
      ShiftShift(y, 1, n - 1);
    }
  }

  lemma PadSplit(c: Word, bits: seq<bool>)
    requires 0 < |bits| <= 32
    ensures var y := Xor(Pad(bits), Pad(bits[..1]));
            && !y[0] && Xor(c, Pad(bits)) == Xor(Xor(c, Pad(bits[..1])), y) && Shift(y, 1) == Pad(bits[1..])
  {
  }

  // Up to 32 message bits can be added to the register before the steps.
  lemma {:induction false} SerialIsSteps(c: Word, bits: seq<bool>)
    requires |bits| <= 32
    ensures Serial(c, bits) == Steps(Xor(c, Pad(bits)), |bits|)
    decreases |bits|
  {
    hide Step, Xor, Pad, Shift;
    if bits == [] {
      XorNothing(c);
    } else {
      var d := Step(Xor(c, Pad(bits[..1])));
      SerialIsSteps(d, bits[1..]);
      PadSplit(c, bits);
      StepShift(Xor(c, Pad(bits[..1])), Xor(Pad(bits), Pad(bits[..1])));
    }
  }

  lemma XorNothing(c: Word)
    ensures Xor(c, Pad([])) == c && Xor(c, Zero()) == c
  {
  }

  // ---- the table ----

  function Entry(n: nat): Word { Steps(Pad(ToBits(n, 8)), 8) }

  // make_crc_table()
  method MakeCrcTable() returns (table: array<Word>)
    ensures fresh(table) && table.Length == 256 && forall n | 0 <= n < 256 :: table[n] == Entry(n)
  {
    hide Steps, Step;
    var poly := Zero();
    for n := 0 to |TERMS|
      invariant forall i | 0 <= i < 32 :: poly[i] <==> 31 - i in TERMS[..n]
    {
      assert TERMS[..n + 1] == TERMS[..n] + [TERMS[n]];
      poly := poly[31 - TERMS[n] := true];
    }
    assert TERMS[..|TERMS|] == TERMS;
    assert poly == Poly();
    table := new Word[256](i => Zero());
    for n := 0 to 256
      invariant forall i | 0 <= i < n :: table[i] == Entry(i)
    {
      var c := MakeEntry(n, poly);
      table[n] := c;
    }
  }

  method MakeEntry(n: nat, poly: Word) returns (c: Word)
    requires poly == Poly()
    ensures c == Entry(n)
  {
    hide Steps, Step;
    c := Pad(ToBits(n, 8));
    for k := 0 to 8
      invariant Steps(c, 8 - k) == Entry(n)
    {
      StepsMore(c, 7 - k);
      c := if c[0] then Xor(poly, Shift(c, 1)) else Shift(c, 1);
    }
    StepsNone(c);
  }

  lemma StepsNone(c: Word)
    ensures Steps(c, 0) == c
  {
  }

  lemma StepsMore(c: Word, n: nat)
    ensures Steps(c, n + 1) == Steps(if c[0] then Xor(Poly(), Shift(c, 1)) else Shift(c, 1), n)
  {
  }

  // tab[crc & 255] ^ (crc >> 8) is eight steps.
  lemma TableStep(c: Word)
    ensures Value(c[..8]) < 256
    ensures Xor(Entry(Value(c[..8])), Shift(c, 8)) == Steps(c, 8)
  {
    hide Steps, Step;
    assert Pow2(8) == 256;
    ToBitsValue(c[..8]);
    var x, y := Pad(c[..8]), Xor(c, Pad(c[..8]));
    assert Xor(x, y) == c && Shift(y, 8) == Shift(c, 8);
    StepsShift(x, y, 8);
  }

  // A table step with a byte, and a table step on its own.
  lemma ByteStep(c: Word, b: Byte)
    ensures var d := Xor(c, Pad(ToBits(b, 8)));
            && Value(d[..8]) < 256
            && Xor(Entry(Value(d[..8])), Shift(d, 8)) == Serial(c, ToBits(b, 8))
  {
    hide Steps, Serial, Pad, Xor, Shift, Entry;
    TableStep(Xor(c, Pad(ToBits(b, 8))));
    SerialIsSteps(c, ToBits(b, 8));
  }

  lemma CrcOne(c: Word, b: Byte)
    ensures Crc(c, [b]) == Serial(c, ToBits(b, 8))
  {
    hide Serial;
    assert [b][1..] == [];
  }

  // ---- 32 bits at a time ----

  // A 32-bit load, lowest address in the lowest byte.
  function Load(s: seq<Byte>): Word
    requires |s| == 4
  {
    ToBits(s[0], 8) + ToBits(s[1], 8) + ToBits(s[2], 8) + ToBits(s[3], 8)
  }

  lemma {:induction false} StepsAdd(c: Word, m: nat, n: nat)
    ensures Steps(Steps(c, m), n) == Steps(c, m + n)
    decreases m
  {
    hide Step;
    if m > 0 { StepsAdd(Step(c), m - 1, n); }
  }

  lemma {:induction false} SerialConcat(c: Word, a: seq<bool>, b: seq<bool>)
    ensures Serial(c, a + b) == Serial(Serial(c, a), b)
    decreases |a|
  {
    hide Step;
    if a == [] {
      assert a + b == b;
    } else {
      assert (a + b)[1..] == a[1..] + b && (a + b)[..1] == a[..1];
      SerialConcat(Step(Xor(c, Pad(a[..1]))), a[1..], b);
    }
  }

  // The whole word added, then 32 steps: four bytes.
  lemma WordStep(c: Word, s: seq<Byte>)
    requires |s| == 4
    ensures Steps(Xor(c, Load(s)), 32) == Crc(c, s)
  {
    hide Steps, Serial, Xor, Pad;
    var a, b, d, e := ToBits(s[0], 8), ToBits(s[1], 8), ToBits(s[2], 8), ToBits(s[3], 8);
    PadWord(Load(s));
    SerialIsSteps(c, Load(s));
    SerialConcat(c, a + b + d, e);
    SerialConcat(c, a + b, d);
    SerialConcat(c, a, b);
    CrcOne(c, s[0]);
    CrcFour(c, s);
  }

  lemma PadWord(w: Word)
    ensures Pad(w) == w
  {
  }

  lemma CrcFour(c: Word, s: seq<Byte>)
    requires |s| == 4
    ensures Crc(c, s) == Serial(Serial(Serial(Serial(c, ToBits(s[0], 8)), ToBits(s[1], 8)), ToBits(s[2], 8)), ToBits(s[3], 8))
  {
    hide Serial;
    assert s[1..][0] == s[1] && s[1..][1..] == s[2..] && s[2..][0] == s[2] && s[2..][1..] == s[3..];
    assert s[3..][0] == s[3] && s[3..][1..] == [];
    var c1 := Serial(c, ToBits(s[0], 8));
    var c2 := Serial(c1, ToBits(s[1], 8));
    var c3 := Serial(c2, ToBits(s[2], 8));
    assert Crc(c3, s[3..]) == Serial(c3, ToBits(s[3], 8));
    assert Crc(c2, s[2..]) == Crc(c3, s[3..]);
    assert Crc(c1, s[1..]) == Crc(c2, s[2..]);
  }

  // DO_CRC(0)
  method TableStep4(table: array<Word>, c0: Word) returns (c: Word)
    requires table.Length == 256 && forall n | 0 <= n < 256 :: table[n] == Entry(n)
    ensures c == Steps(c0, 32)
  {
    hide Steps, Entry, Xor, Shift;
    c := c0;
    StepsNone(c0);
    for i := 0 to 4
      invariant c == Steps(c0, 8 * i)
    {
      TableStep(c);
      StepsAdd(c0, 8 * i, 8);
      c := Xor(table[Value(c[..8])], Shift(c, 8));
    }
  }

  // crc = table[(crc ^ b) & 0xff] ^ (crc >> 8)
  method TableByte(table: array<Word>, c0: Word, b: Byte) returns (c: Word)
    requires table.Length == 256 && forall n | 0 <= n < 256 :: table[n] == Entry(n)
    ensures c == Crc(c0, [b])
  {
    hide Steps, Entry, Serial;
    ByteStep(c0, b);
    CrcOne(c0, b);
    var d := Xor(c0, Pad(ToBits(b, 8)));
    assert Shift(d, 8) == Shift(c0, 8);
    c := Xor(table[Value(d[..8])], Shift(c0, 8));
  }

  lemma CrcNext(c: Word, data: seq<Byte>, i: nat, n: nat)
    requires i + n <= |data|
    ensures Crc(Crc(c, data[..i]), data[i..i + n]) == Crc(c, data[..i + n])
  {
    CrcConcat(c, data[..i], data[i..i + n]);
    assert data[..i] + data[i..i + n] == data[..i + n];
  }

  // crc32_no_comp() of wtmi/compressed/crc32.c: right for every length and
  // every alignment of the buffer, whose first byte is at addr.
  method Crc32NoComp(table: array<Word>, crc0: Word, buf: seq<Byte>, addr: nat) returns (crc: Word)
    requires table.Length == 256 && forall n | 0 <= n < 256 :: table[n] == Entry(n)
    ensures crc == Crc(crc0, buf)
  {
    hide Steps, Entry, Crc, Xor;
    crc := crc0;
    var b, len := 0, |buf|;
    CrcNone(crc0);
    assert buf[..0] == [];
    // align it
    if (addr + b) % 4 != 0 && len > 0 {
      while true
        invariant b + len == |buf| && len > 0 && crc == Crc(crc0, buf[..b])
        decreases len
      {
        crc := TableByte(table, crc, buf[b]);
        assert [buf[b]] == buf[b..b + 1];
        CrcNext(crc0, buf, b, 1);
        b, len := b + 1, len - 1;
        if len == 0 || (addr + b) % 4 == 0 { break; }
      }
    }
    var rem := len % 4;
    len := len / 4;
    while len > 0
      invariant 0 <= len && b + 4 * len + rem == |buf| && crc == Crc(crc0, buf[..b])
    {
      var w := buf[b..b + 4];
      WordStep(crc, w);
      crc := TableStep4(table, Xor(crc, Load(w)));
      CrcNext(crc0, buf, b, 4);
      b, len := b + 4, len - 1;
    }
    // the up to three bytes after the last word
    len := rem;
    while len > 0
      invariant 0 <= len && b + len == |buf| && crc == Crc(crc0, buf[..b])
    {
      crc := TableByte(table, crc, buf[b]);
      assert [buf[b]] == buf[b..b + 1];
      CrcNext(crc0, buf, b, 1);
      b, len := b + 1, len - 1;
    }
    assert buf[..b] == buf;
  }

  lemma CrcNone(c: Word)
    ensures Crc(c, []) == c
  {
  }

  function Ones(): Word { seq(32, i => true) }

  // crc32() of wtmi/compressed/crc32.c: with ones complement before and after.
  method CrcComplemented(table: array<Word>, crc0: Word, p: seq<Byte>, addr: nat) returns (crc: Word)
    requires table.Length == 256 && forall n | 0 <= n < 256 :: table[n] == Entry(n)
    ensures crc == Xor(Crc(Xor(crc0, Ones()), p), Ones())
  {
    crc := Crc32NoComp(table, Xor(crc0, Ones()), p, addr);
    crc := Xor(crc, Ones());
  }

  // The complement does not stand in the way of continuing a sum.
  lemma ComplementedConcat(c: Word, a: seq<Byte>, b: seq<Byte>)
    ensures var d := Xor(Crc(Xor(c, Ones()), a), Ones());
            Xor(Crc(Xor(d, Ones()), b), Ones()) == Xor(Crc(Xor(c, Ones()), a + b), Ones())
  {
    var d := Crc(Xor(c, Ones()), a);
    assert Xor(Xor(d, Ones()), Ones()) == d;
    CrcConcat(Xor(c, Ones()), a, b);
  }

  // ---- crc32() of wtmi/crc32.c ----

  datatype Result = Sum(crc: Word) | Fault

  // Bytes up to the first aligned address.
  function Head(addr: nat): nat { (4 - addr % 4) % 4 }

  // What the function computes from the len bytes at buf, where the address of
  // mem[0] is a multiple of four.  If the buffer ends before an aligned
  // address, the unsigned length wraps and the loop over words runs off the
  // end of memory.  And the last bytes are taken from where the words began,
  // not from where they ended.
  function Firmware(c: Word, mem: seq<Byte>, buf: nat, len: nat): Result
    requires buf + len <= |mem|
  {
    var a := Head(buf);
    if len < a then Fault
    else
      var words := (len - a) / 4 * 4;
      var rem := (len - a) % 4;
      Sum(Crc(Crc(Crc(c, mem[buf..buf + a]), mem[buf + a..buf + a + words]), mem[buf + a..buf + a + rem]))
  }

  method Crc32Firmware(table: array<Word>, crc0: Word, mem: seq<Byte>, buf0: nat, len0: nat) returns (r: Result)
    requires table.Length == 256 && forall n | 0 <= n < 256 :: table[n] == Entry(n)
    requires buf0 + len0 <= |mem| < 0x8000_0000
    ensures r == Firmware(crc0, mem, buf0, len0)
  {
    hide Crc, Entry, Head;
    var ok, crc, buf, len := CrcHead(table, crc0, mem, buf0, len0);
    if !ok { return Fault; }
    crc, len := CrcWords(table, crc, mem, buf, len);
    crc := CrcBytes(table, crc, mem, buf, len);
    r := Sum(crc);
  }

  // while ((((size_t)buf) & 3) && len--) ...; fails when len wraps, because the
  // words of the next loop then lie beyond mem.
  method CrcHead(table: array<Word>, crc0: Word, mem: seq<Byte>, buf0: nat, len0: nat)
    returns (ok: bool, crc: Word, buf: nat, len: nat)
    requires table.Length == 256 && forall n | 0 <= n < 256 :: table[n] == Entry(n)
    requires buf0 + len0 <= |mem| < 0x8000_0000
    ensures ok <==> Head(buf0) <= len0
    ensures ok ==> buf == buf0 + Head(buf0) && len == len0 - Head(buf0) && crc == Crc(crc0, mem[buf0..buf])
  {
    hide Crc, Entry, Head;
    crc, buf, len := crc0, buf0, len0;
    CrcNone(crc0);
    assert mem[buf0..buf0] == [];
    HeadStep(buf0);
    while buf % 4 != 0
      invariant buf0 <= buf && buf - buf0 <= len0 && len == len0 - (buf - buf0)
      invariant Head(buf) == Head(buf0) - (buf - buf0) && crc == Crc(crc0, mem[buf0..buf])
      decreases Head(buf)
    {
      HeadStep(buf);
      if len == 0 { return false, crc, buf, len; }
      len := len - 1;
      crc := TableByte(table, crc, mem[buf]);
      CrcExtend(crc0, mem, buf0, buf, buf + 1);
      assert mem[buf..buf + 1] == [mem[buf]];
      buf := buf + 1;
    }
    HeadStep(buf);
    ok := true;
  }

  lemma HeadStep(buf: nat)
    ensures buf % 4 == 0 ==> Head(buf) == 0
    ensures buf % 4 != 0 ==> Head(buf + 1) == Head(buf) - 1
  {
  }

  // for (word = buf; len >= 4; len -= 4) ...
  method CrcWords(table: array<Word>, crc0: Word, mem: seq<Byte>, buf: nat, len0: nat) returns (crc: Word, len: nat)
    requires table.Length == 256 && forall n | 0 <= n < 256 :: table[n] == Entry(n)
    requires buf + len0 <= |mem|
    ensures len == len0 % 4 && crc == Crc(crc0, mem[buf..buf + len0 / 4 * 4])
  {
    hide Crc, Steps, Entry, Xor;
    crc, len := crc0, len0;
    var word := buf;
    CrcNone(crc0);
    assert mem[buf..buf] == [];
    while len >= 4
      invariant 0 <= len && word == buf + (len0 - len) && (len0 - len) % 4 == 0 && word + len <= |mem|
      invariant crc == Crc(crc0, mem[buf..word])
    {
      WordStep(crc, mem[word..word + 4]);
      crc := TableStep4(table, Xor(crc, Load(mem[word..word + 4])));
      CrcExtend(crc0, mem, buf, word, word + 4);
      len := len - 4;
      word := word + 4;
    }
    assert len0 - len == len0 / 4 * 4;
  }

  // while (len--) ...
  method CrcBytes(table: array<Word>, crc0: Word, mem: seq<Byte>, buf0: nat, len0: nat) returns (crc: Word)
    requires table.Length == 256 && forall n | 0 <= n < 256 :: table[n] == Entry(n)
    requires buf0 + len0 <= |mem|
    ensures crc == Crc(crc0, mem[buf0..buf0 + len0])
  {
    hide Crc, Entry;
    var buf, len := buf0, len0;
    crc := crc0;
    CrcNone(crc0);
    assert mem[buf0..buf0] == [];
    while len > 0
      invariant 0 <= len && buf == buf0 + (len0 - len) && buf + len <= |mem| && crc == Crc(crc0, mem[buf0..buf])
    {
      len := len - 1;
      crc := TableByte(table, crc, mem[buf]);
      CrcExtend(crc0, mem, buf0, buf, buf + 1);
      assert mem[buf..buf + 1] == [mem[buf]];
      buf := buf + 1;
    }
  }

  lemma CrcExtend(c: Word, mem: seq<Byte>, a: nat, b: nat, d: nat)
    requires a <= b <= d <= |mem|
    ensures Crc(Crc(c, mem[a..b]), mem[b..d]) == Crc(c, mem[a..d])
  {
    CrcConcat(c, mem[a..b], mem[b..d]);
    assert mem[a..b] + mem[b..d] == mem[a..d];
  }

  // Calls that give the right sum, by address and length: the head must fit,
  // and what follows must be words only or less than one word.
  predicate Served(addr: nat, len: nat)
  {
    Head(addr) <= len && (len - Head(addr) < 4 || (len - Head(addr)) % 4 == 0)
  }

  lemma ServedIsRight(c: Word, mem: seq<Byte>, buf: nat, len: nat)
    requires buf + len <= |mem| && Served(buf, len)
    ensures Firmware(c, mem, buf, len) == Sum(Crc(c, mem[buf..buf + len]))
  {
    hide Crc;
    var a := Head(buf);
    CrcExtend(c, mem, buf, buf + a, buf + len);
    var d := Crc(c, mem[buf..buf + a]);
    CrcNone(d);
    if len - a < 4 {
      assert mem[buf + a..buf + a + 0] == [];
    } else {
      CrcNone(Crc(d, mem[buf + a..buf + len]));
      assert mem[buf + a..buf + a + 0] == [];
    }
  }

  // For every other address and length there is a buffer with a wrong result.
  lemma NotServedIsWrong(c: Word, buf: nat, len: nat) returns (mem: seq<Byte>)
    requires !Served(buf, len)
    ensures |mem| == buf + len && Firmware(c, mem, buf, len) != Sum(Crc(c, mem[buf..buf + len]))
  {
    hide Crc;
    var zeros := Zeros(buf + len);
    if len < Head(buf) { return zeros; }
    mem := zeros[buf + len - 1 := 1];
    var a := Head(buf);
    var words, rem := (len - a) / 4 * 4, (len - a) % 4;
    var mid, end := buf + a + words, buf + len;
    var d := Crc(c, mem[buf..mid]);
    CrcExtend(c, mem, buf, buf + a, mid);
    CrcExtend(c, mem, buf, mid, end);
    CrcExtend(d, mem, mid, end - 1, end);
    // right: rem - 1 zeros and a one; computed: rem zeros
    var e := Crc(d, Zeros(rem - 1));
    assert mem[mid..end - 1] == Zeros(rem - 1) && mem[end - 1..end] == [1];
    assert mem[buf + a..buf + a + rem] == Zeros(rem - 1) + [0];
    CrcConcat(d, Zeros(rem - 1), [0]);
    LastByteMatters(e);
  }

  // Exactly for these does it compute the CRC, whatever the bytes.
  lemma ServedExactly(buf: nat, len: nat)
    ensures Served(buf, len) <==>
            forall c: Word, mem: seq<Byte> | |mem| == buf + len ::
              Firmware(c, mem, buf, len) == Sum(Crc(c, mem[buf..buf + len]))
  {
    hide Crc, Firmware;
    if Served(buf, len) {
      forall c: Word, mem: seq<Byte> | |mem| == buf + len
        ensures Firmware(c, mem, buf, len) == Sum(Crc(c, mem[buf..buf + len]))
      {
        ServedIsRight(c, mem, buf, len);
      }
    } else {
      var mem := NotServedIsWrong(Zero(), buf, len);
    }
  }

  function Zeros(n: nat): (s: seq<Byte>)
    ensures |s| == n && forall i | 0 <= i < n :: s[i] == 0
  {
    seq(n, i => 0)
  }

  lemma LastByteMatters(e: Word)
    ensures Crc(e, [0]) != Crc(e, [1])
  {
    hide Steps, Serial, Crc;
    CrcOne(e, 0);
    CrcOne(e, 1);
    SerialIsSteps(e, ToBits(0, 8));
    SerialIsSteps(e, ToBits(1, 8));
    var x, y := Xor(e, Pad(ToBits(0, 8))), Xor(e, Pad(ToBits(1, 8)));
    assert ToBits(0, 8)[0] == false && ToBits(1, 8)[0] == true;
    assert x[0] != y[0];
    if Steps(x, 8) == Steps(y, 8) { StepsInjective(x, y, 8); }
  }

  lemma {:induction false} StepsInjective(x: Word, y: Word, n: nat)
    requires Steps(x, n) == Steps(y, n)
    ensures x == y
    decreases n
  {
    hide Step;
    if n > 0 {
      StepsInjective(Step(x), Step(y), n - 1);
      StepInjective(x, y);
    }
  }

  // The highest bit of the pattern tells whether a one was shifted out.
  lemma StepInjective(x: Word, y: Word)
    requires Step(x) == Step(y)
    ensures x == y
  {
    hide Poly;
    TopOfPoly();
    assert Step(x)[31] == x[0] && Step(y)[31] == y[0];
    forall i | 0 <= i < 32
      ensures x[i] == y[i]
    {
      if i > 0 {
        assert Shift(x, 1)[i - 1] == x[i] && Shift(y, 1)[i - 1] == y[i];
        assert Step(x)[i - 1] == Step(y)[i - 1];
      }
    }
  }

  lemma TopOfPoly()
    ensures Poly()[31]
  {
    assert TERMS[0] == 0;
  }
}
