// Printing numbers (wtmi/stdio.c) and reading them back (wtmi/debug.c).
module Numbers {
  import opened Types
  import opened Bits

  const TWO_TO_THE_64: nat := 0x1_0000_0000_0000_0000
  const TWO_TO_THE_32: nat := 0x1_0000_0000

  // ---- divmod10(): the quotient by ten from shifts and additions ----

  function Wrap(x: nat): nat { x % TWO_TO_THE_64 }

  lemma Narrow(x: nat)
    requires x < TWO_TO_THE_64
    ensures Wrap(x) == x
  {
  }

  // q += q >> k
  function Grow(q: nat, k: nat): nat
    requires k > 0
  {
    q + q / k
  }

  function Tenth(n: nat): nat
  {
    Grow(Grow(Grow(Grow(n / 2 + n / 4, 16), 256), 0x1_0000), 0x1_0000_0000) / 8
  }

  // The estimate of a tenth is never too large, and low by at most one; on the
  // way to it nothing leaves 64 bits.
  lemma TenthIsClose(n: nat)
    requires n < TWO_TO_THE_64
    ensures 8 * Tenth(n) + 7 < TWO_TO_THE_64
    ensures Grow(Grow(Grow(Grow(n / 2 + n / 4, 16), 256), 0x1_0000), 0x1_0000_0000) < TWO_TO_THE_64
    ensures n / 10 - 1 <= Tenth(n) <= n / 10 && n - 10 * Tenth(n) < 20
  {
  }

  method DivMod10(n0: nat) returns (n: nat, digit: nat)
    requires n0 < TWO_TO_THE_64
    ensures n == n0 / 10 && digit == n0 % 10
  {
    hide Wrap, Grow;
    TenthIsClose(n0);
    var q := Wrap(n0 / 2 + n0 / 4);
    q := Wrap(Grow(q, 16));
    q := Wrap(Grow(q, 256));
    q := Wrap(Grow(q, 0x1_0000));
    q := Wrap(Grow(q, 0x1_0000_0000));
    GrowNarrow(n0);
    q := q / 8;
    var r := (n0 - 10 * q) % 256;
    Corrected(n0, q);
    n := q + (if r > 9 then 1 else 0);
    digit := r % 10;
  }

  lemma GrowNarrow(n: nat)
    requires n < TWO_TO_THE_64
    ensures Wrap(Grow(Wrap(Grow(Wrap(Grow(Wrap(Grow(Wrap(n / 2 + n / 4), 16)), 256)), 0x1_0000)), 0x1_0000_0000)) / 8 == Tenth(n)
  {
    hide Wrap;
    TenthIsClose(n);
    var q0 := n / 2 + n / 4;
    var q1 := Grow(q0, 16);
    var q2 := Grow(q1, 256);
    var q3 := Grow(q2, 0x1_0000);
    var q4 := Grow(q3, 0x1_0000_0000);
    Narrow(q4); Narrow(q3); Narrow(q2); Narrow(q1); Narrow(q0);
  }

  // The remainder of the low estimate is 10 to 19, and fits in eight bits.
  lemma Corrected(n: nat, q: nat)
    requires n / 10 - 1 <= q <= n / 10
    ensures var r := (n - 10 * q) % 256;
            n / 10 == q + (if r > 9 then 1 else 0) && n % 10 == r % 10
  {
    assert 0 <= n - 10 * q < 20;
  }

  // ---- do_number() ----

  datatype Flags = Flags(alt: bool, zeroPad: bool, adjust: bool, blank: bool, sign: bool)

  const DIGITS_L: string := "0123456789abcdef"
  const DIGITS_H: string := "0123456789ABCDEF"

  function Base(spec: char): (b: nat)
    ensures b in {2, 8, 10, 16}
  {
    match spec
    case 'X' => 16
    case 'p' => 16
    case 'x' => 16
    case 'o' => 8
    case 'b' => 2
    case _ => 10
  }

  function Prefix(f: Flags, spec: char): string
  {
    match spec
    case 'X' => if f.alt then "0X" else ""
    case 'p' => "0x"
    case 'x' => if f.alt then "0x" else ""
    case 'o' => if f.alt then "0" else ""
    case 'b' => if f.alt then "0b" else ""
    case _ => ""
  }

  function Alphabet(spec: char): (s: string)
    ensures |s| == 16
  {
    if spec == 'X' then DIGITS_H else DIGITS_L
  }

  // The digits of n, most significant first; none for zero.
  function Digits(n: nat, base: nat, alphabet: string): string
    requires 2 <= base <= 16 == |alphabet|
  {
    if n == 0 then "" else Digits(n / base, base, alphabet) + [alphabet[n % base]]
  }

  // No base needs more room than the 64 characters before the buffer's NUL.
  lemma {:induction false} DigitsFit(n: nat, base: nat, alphabet: string, k: nat)
    requires 2 <= base <= 16 == |alphabet| && n < Pow2(k)
    ensures |Digits(n, base, alphabet)| <= k
  {
    hide Pow2;
    if n > 0 {
      Smaller(n, base, k);
      DigitsFit(n / base, base, alphabet, k - 1);
    }
  }

  lemma Smaller(n: nat, base: nat, k: nat)
    requires 2 <= base && 0 < n < Pow2(k)
    ensures k > 0 && n / base < Pow2(k - 1)
  {
    var q := n / base;
    MulMono(2, base, q);
    assert 2 * q <= n;
  }

  function Copies(c: char, n: int): (s: string)
    ensures |s| == if n > 0 then n else 0
  {
    if n <= 0 then "" else Copies(c, n - 1) + [c]
  }

  function Max(a: int, b: int): int { if a > b then a else b }

  function Sign(f: Flags, negative: bool): string
  {
    if negative then "-" else if f.sign then "+" else if f.blank then " " else ""
  }

  // The digits shown; without a precision zero has one.
  function Shown(n: nat, spec: char, prec: int): string
  {
    var ds := Digits(n, Base(spec), Alphabet(spec));
    if prec <= -1 && ds == "" then "0" else ds
  }

  // Zeros asked for by the precision.
  function Lead(n: nat, spec: char, prec: int): int
  {
    if prec > -1 then Max(prec - |Shown(n, spec, prec)|, 0) else 0
  }

  // The text without padding to the width.
  function Minimal(f: Flags, prec: int, spec: char, n: nat, negative: bool): string
  {
    Sign(f, negative) + Prefix(f, spec) + Copies('0', Lead(n, spec, prec)) + Shown(n, spec, prec)
  }

  // The text: padded with zeros after the prefix, or with blanks at one end.
  function Text(f: Flags, width: int, prec: int, spec: char, n: nat, negative: bool): string
  {
    var text := Minimal(f, prec, spec, n, negative);
    var more := width - |text|;
    if prec <= -1 && f.zeroPad then
      Sign(f, negative) + Prefix(f, spec) + Copies('0', more) + Shown(n, spec, prec)
    else if f.adjust then text + Copies(' ', more)
    else Copies(' ', more) + text
  }

  lemma TextWidth(f: Flags, width: int, prec: int, spec: char, n: nat, negative: bool)
    ensures |Text(f, width, prec, spec, n, negative)| == Max(width, |Minimal(f, prec, spec, n, negative)|)
  {
    hide Shown, Sign, Prefix;
  }

  // ---- how the text looks ----

  // Digits and letters of one case; no blanks and no signs.
  predicate Plain(s: string, upper: bool)
  {
    forall c | c in s ::
      '0' <= c <= '9' || if upper then 'A' <= c <= 'F' || c == 'X' else 'a' <= c <= 'f' || c == 'x'
  }

  // A number with what stands for its sign: '-' in front of a negative one, and
  // what the flags ask for in front of another.
  predicate Signed(f: Flags, spec: char, negative: bool, t: string)
  {
    if negative || f.sign || f.blank then
      t != "" && t[0] == (if negative then '-' else if f.sign then '+' else ' ') && Plain(t[1..], spec == 'X')
    else Plain(t, spec == 'X')
  }

  // Such a number, and k blanks: after it with adjust, before it without.
  predicate Laid(f: Flags, spec: char, negative: bool, t: string, k: nat)
  {
    k <= |t| &&
    if f.adjust then Signed(f, spec, negative, t[..|t| - k]) && forall i | |t| - k <= i < |t| :: t[i] == ' '
    else Signed(f, spec, negative, t[k..]) && forall i | 0 <= i < k :: t[i] == ' '
  }

  lemma {:induction false} CopiesAre(c: char, n: int)
    ensures forall i | 0 <= i < n :: Copies(c, n)[i] == c
  {
    if n > 0 { CopiesAre(c, n - 1); }
  }

  lemma PlainZeros(n: int, upper: bool)
    ensures Plain(Copies('0', n), upper)
  {
    CopiesAre('0', n);
  }

  lemma PlainParts(n: nat, f: Flags, spec: char, prec: int)
    ensures Plain(Shown(n, spec, prec), spec == 'X') && Plain(Prefix(f, spec), spec == 'X')
  {
    DigitsFrom(n, Base(spec), Alphabet(spec));
    assert forall i | 0 <= i < 16 :: Plain([Alphabet(spec)[i]], spec == 'X');
  }

  lemma SignedText(f: Flags, spec: char, n: nat, prec: int, negative: bool, zeros: int)
    ensures Signed(f, spec, negative, Sign(f, negative) + Prefix(f, spec) + Copies('0', zeros) + Shown(n, spec, prec))
  {
    hide Prefix, Copies, Shown;
    PlainParts(n, f, spec, prec);
    PlainZeros(zeros, spec == 'X');
    var a, t := Sign(f, negative), Prefix(f, spec) + Copies('0', zeros) + Shown(n, spec, prec);
    assert a + t == Sign(f, negative) + Prefix(f, spec) + Copies('0', zeros) + Shown(n, spec, prec);
    assert (a + t)[|a|..] == t;
  }

  // What do_number() writes, on whichever side it pads.
  lemma TextLaid(f: Flags, width: int, prec: int, spec: char, n: nat, negative: bool) returns (k: nat)
    ensures Laid(f, spec, negative, Text(f, width, prec, spec, n, negative), k)
  {
    hide Shown, Sign, Prefix, Copies, Signed;
    var t := Text(f, width, prec, spec, n, negative);
    var more := width - |Minimal(f, prec, spec, n, negative)|;
    if prec <= -1 && f.zeroPad {
      k := 0;
      SignedText(f, spec, n, prec, negative, more);
      assert t[..|t|] == t == t[0..];
    } else {
      k := Max(more, 0);
      SignedText(f, spec, n, prec, negative, Lead(n, spec, prec));
      CopiesAre(' ', more);
      var text := Minimal(f, prec, spec, n, negative);
      if f.adjust { assert t[..|t| - k] == text; } else { assert t[k..] == text; }
    }
  }

  // while (number) ...: the digits end up in buf[p..64].
  method FillBuffer(buf: array<char>, number0: nat, base: nat, digits: string) returns (p: nat)
    requires buf.Length == 65 && number0 < TWO_TO_THE_64 && base in {2, 8, 10, 16} && |digits| == 16
    modifies buf
    ensures p <= 64 && buf[p..64] == Digits(number0, base, digits) && buf[64] == '\0'
  {
    hide Digits, Pow2;
    p := 64;
    buf[p] := '\0';
    var number := number0;
    Pow64();
    DigitsNone(base, digits);
    assert Digits(number0, base, digits) == Digits(number0, base, digits) + buf[64..64];
    while number != 0
      invariant p <= 64 && buf[64] == '\0' && 0 <= number < TWO_TO_THE_64 && number < Pow2(p)
      invariant Digits(number0, base, digits) == Digits(number, base, digits) + buf[p..64]
    {
      ghost var done := buf[p..64];
      Smaller(number, base, p);
      DigitsStep(number, base, digits, done);
      var digit;
      number, digit := NextDigit(number, base);
      p := p - 1;
      buf[p] := digits[digit];
      assert buf[p..64] == [digits[digit]] + done;
    }
  }

  method NextDigit(number0: nat, base: nat) returns (number: nat, digit: nat)
    requires number0 < TWO_TO_THE_64 && base in {2, 8, 10, 16}
    ensures number == number0 / base && digit == number0 % base
  {
    match base
    case 16 => Nibble(number0); digit := Low(number0, 4); number := Shr(number0, 4);
    case 8 => Nibble(number0); digit := Low(number0, 3); number := Shr(number0, 3);
    case 2 => Nibble(number0); digit := Low(number0, 1); number := Shr(number0, 1);
    case _ => number, digit := DivMod10(number0);
  }

  lemma Nibble(n: nat)
    ensures Low(n, 4) == n % 16 && Shr(n, 4) == n / 16
    ensures Low(n, 3) == n % 8 && Shr(n, 3) == n / 8
    ensures Low(n, 1) == n % 2 && Shr(n, 1) == n / 2
  {
    ShiftsAreArithmetic(n, 4);
    ShiftsAreArithmetic(n, 3);
    ShiftsAreArithmetic(n, 1);
    assert Pow2(1) == 2 && Pow2(2) == 4 && Pow2(3) == 8 && Pow2(4) == 16;
  }

  lemma Pow64()
    ensures Pow2(64) == TWO_TO_THE_64
  {
    assert Pow2(8) == 256;
    Squared(8, 0x100);
    Squared(16, 0x1_0000);
    Squared(32, 0x1_0000_0000);
  }

  lemma Squared(a: nat, p: nat)
    requires Pow2(a) == p
    ensures Pow2(a + a) == p * p
  {
    Pow2Sum(a, a);
  }

  lemma DigitsNone(base: nat, digits: string)
    requires 2 <= base <= 16 == |digits|
    ensures Digits(0, base, digits) == ""
  {
  }

  lemma DigitsStep(n: nat, base: nat, digits: string, tail: string)
    requires 2 <= base <= 16 == |digits| && n > 0
    ensures Digits(n, base, digits) + tail == Digits(n / base, base, digits) + ([digits[n % base]] + tail)
  {
  }

  lemma {:induction false} DigitsFrom(n: nat, base: nat, alphabet: string)
    requires 2 <= base <= 16 == |alphabet|
    ensures forall c | c in Digits(n, base, alphabet) :: c in alphabet
  {
    if n > 0 { DigitsFrom(n / base, base, alphabet); }
  }

  lemma NoNul(n: nat, spec: char)
    ensures '\0' !in Digits(n, Base(spec), Alphabet(spec))
  {
    DigitsFrom(n, Base(spec), Alphabet(spec));
  }

  // PUT(c), n times
  method PutMany(out0: string, c: char, n: int) returns (out: string)
    ensures out == out0 + Copies(c, n)
  {
    out := out0;
    var i := 0;
    while i < n
      invariant i <= Max(n, 0) && out == out0 + Copies(c, i)
    {
      out := out + [c];
      i := i + 1;
      assert Copies(c, i) == Copies(c, i - 1) + [c];
    }
    assert i == Max(n, 0);
  }

  // while (*p) PUT(*p++);
  method PutString(out0: string, buf: array<char>, p0: nat) returns (out: string)
    requires p0 <= 64 && buf.Length == 65 && buf[64] == '\0' && forall k | p0 <= k < 64 :: buf[k] != '\0'
    ensures out == out0 + buf[p0..64]
  {
    out := out0;
    var p := p0;
    while buf[p] != '\0'
      invariant p0 <= p <= 64 && out == out0 + buf[p0..p]
      decreases 64 - p
    {
      out := out + [buf[p]];
      p := p + 1;
    }
  }

  method Emit(f: Flags, negative: bool, pfx: string, zeros: int, spaces: int, buf: array<char>, p: nat) returns (out: string)
    requires p <= 64 && buf.Length == 65 && buf[64] == '\0' && forall k | p <= k < 64 :: buf[k] != '\0'
    ensures out == (if f.adjust then "" else Copies(' ', spaces)) + Sign(f, negative) + pfx
                   + Copies('0', zeros) + buf[p..64] + (if f.adjust then Copies(' ', spaces) else "")
  {
    hide Copies;
    out := "";
    if !f.adjust { out := PutMany(out, ' ', spaces); }
    if f.sign || f.blank || negative {
      out := out + [if negative then '-' else if f.sign then '+' else ' '];
    }
    out := out + pfx;
    out := PutMany(out, '0', zeros);
    out := PutString(out, buf, p);
    if f.adjust { out := PutMany(out, ' ', spaces); }
  }

  // What do_number() puts on the stream; it returns the number of characters.
  method DoNumber(f: Flags, width0: int, prec: int, spec: char, number: nat, negative: bool) returns (out: string)
    requires number < TWO_TO_THE_64
    ensures out == Text(f, width0, prec, spec, number, negative)
    ensures exists k :: Laid(f, spec, negative, out, k)
  {
    hide Digits, Copies, Prefix, Base, Alphabet, Text, Laid, Sign;
    var pfx := Prefix(f, spec);
    var buf := new char[65];
    var p := FillBuffer(buf, number, Base(spec), Alphabet(spec));
    NoNul(number, spec);
    assert forall k | p <= k < 64 :: buf[k] in buf[p..64];
    var len := 64 - p;
    var sign := if f.sign || f.blank || negative then 1 else 0;
    SignWidth(f, negative);
    var zeros, spaces, width;
    if prec > -1 {
      zeros := Max(prec - len, 0);
      var minlen := len + zeros + |pfx| + sign;
      width := Max(minlen, width0);
      spaces := width - minlen;
    } else {
      if len == 0 {
        p := p - 1;
        buf[p] := '0';
        len := len + 1;
      }
      var minlen := len + |pfx| + sign;
      width := Max(width0, minlen);
      if f.zeroPad {
        zeros, spaces := width - minlen, 0;
      } else {
        zeros, spaces := 0, width - minlen;
      }
    }
    assert buf[p..64] == Shown(number, spec, prec);
    out := Emit(f, negative, pfx, zeros, spaces, buf, p);
    TextIs(f, width0, prec, spec, number, negative, zeros, spaces);
    ghost var k := TextLaid(f, width0, prec, spec, number, negative);
  }

  lemma SignWidth(f: Flags, negative: bool)
    ensures |Sign(f, negative)| == if f.sign || f.blank || negative then 1 else 0
  {
  }

  lemma TextIs(f: Flags, width: int, prec: int, spec: char, n: nat, negative: bool, zeros: int, spaces: int)
    requires var more := width - |Minimal(f, prec, spec, n, negative)|;
             if prec > -1 then zeros == Lead(n, spec, prec) && spaces == Max(more, 0)
             else if f.zeroPad then zeros == Max(more, 0) && spaces == 0
             else zeros == 0 && spaces == Max(more, 0)
    ensures Text(f, width, prec, spec, n, negative)
            == (if f.adjust then "" else Copies(' ', spaces)) + Sign(f, negative) + Prefix(f, spec)
               + Copies('0', zeros) + Shown(n, spec, prec) + (if f.adjust then Copies(' ', spaces) else "")
  {
    hide Shown, Sign, Prefix, Copies;
    var more := width - |Minimal(f, prec, spec, n, negative)|;
    var a, pad, ds := Sign(f, negative) + Prefix(f, spec), Copies(' ', spaces), Shown(n, spec, prec);
    NoCopies(' ', more);
    NoCopies('0', more);
    NoCopies(' ', 0);
    var text := a + Copies('0', zeros) + ds;
    if f.adjust {
      assert "" + Sign(f, negative) + Prefix(f, spec) + Copies('0', zeros) + ds + pad == text + pad;
    } else {
      assert pad + Sign(f, negative) + Prefix(f, spec) + Copies('0', zeros) + ds + "" == pad + text;
    }
    if prec <= -1 && f.zeroPad { assert "" + text == text + "" == text; }
  }

  lemma NoCopies(c: char, n: int)
    ensures Copies(c, Max(n, 0)) == Copies(c, n) && (n <= 0 ==> Copies(c, n) == "")
  {
  }

  // ---- _number() ----

  // What a character counts as a digit; -1 for none.
  function DigitValue(c: char): int
  {
    if '0' <= c <= '9' then c as int - '0' as int
    else if 'a' <= c <= 'f' then c as int - 'a' as int + 10
    else if 'A' <= c <= 'F' then c as int - 'A' as int + 10
    else -1
  }

  predicate IsDigit(c: char, base: nat) { 0 <= DigitValue(c) < base }

  predicate AllDigits(s: string, base: nat) { forall c | c in s :: IsDigit(c, base) }

  function Positional(s: string, base: nat): nat
    requires AllDigits(s, base)
  {
    if s == "" then 0
    else
      var last := |s| - 1;
      assert s[last] in s && forall c | c in s[..last] :: c in s;
      Positional(s[..last], base) * base + DigitValue(s[last])
  }

  predicate HasHexPrefix(s: string) { |s| >= 2 && s[0] == '0' && s[1] in {'x', 'X'} }

  function Body(s: string, base: nat): string
  {
    if base == 16 && HasHexPrefix(s) then s[2..] else s
  }

  // A string of digits is the number it denotes, in 32 bits; anything else is
  // an error.
  function Parse(s: string, base: nat): Option<nat>
  {
    var body := Body(s, base);
    if AllDigits(body, base) then Some(Positional(body, base) % TWO_TO_THE_32) else None
  }

  // str is what stands before the NUL
  method Number(str: string, base: nat) returns (r: Option<nat>)
    ensures r == Parse(str, base)
  {
    hide Positional;
    var p := 0;
    if base == 16 && HasHexPrefix(str) { p := p + 2; }
    ghost var body := Body(str, base);
    ghost var p0 := p;
    assert body == str[p0..];
    var res := 0;
    NoDigits(base);
    assert body[..0] == "";
    while p < |str|
      invariant p0 <= p <= |str| && 0 <= res
      invariant AllDigits(body[..p - p0], base) && res == Positional(body[..p - p0], base) % TWO_TO_THE_32
    {
      assert body[p - p0] == str[p];
      res := res * base % TWO_TO_THE_32;
      var cur := DigitValue(str[p]);
      if cur < 0 || cur >= base {
        assert body[p - p0] in body;
        return None;
      }
      NextDigitRead(body, p - p0, base, TWO_TO_THE_32);
      res := (res + cur) % TWO_TO_THE_32;
      p := p + 1;
    }
    assert body[..p - p0] == body;
    r := Some(res);
  }

  lemma NoDigits(base: nat)
    ensures AllDigits("", base) && Positional("", base) == 0
  {
  }

  lemma NextDigitRead(s: string, i: nat, base: nat, m: nat)
    requires i < |s| && AllDigits(s[..i], base) && IsDigit(s[i], base) && m > 0
    ensures AllDigits(s[..i + 1], base)
    ensures Positional(s[..i + 1], base) % m == ((Positional(s[..i], base) % m) * base % m + DigitValue(s[i])) % m
  {
    assert s[..i + 1] == s[..i] + [s[i]];
    assert s[..i + 1][..i] == s[..i];
    assert AllDigits(s[..i + 1], base);
    var v := Positional(s[..i], base);
    MulMod(v, base, m);
    AddMod(v * base, DigitValue(s[i]), m);
  }

  lemma MulMod(x: nat, y: nat, m: nat)
    requires m > 0
    ensures (x % m) * y % m == x * y % m
  {
    var q, r := x / m, x % m;
    assert x * y == r * y + (q * y) * m by {
      assert x == q * m + r;
      assert x * y == (q * m) * y + r * y;
      assert (q * m) * y == (q * y) * m;
    }
    Multiples(r * y, q * y, m);
  }

  lemma AddMod(x: nat, y: nat, m: nat)
    requires m > 0
    ensures (x % m + y) % m == (x + y) % m
  {
    var q, r := x / m, x % m;
    assert x + y == (r + y) + q * m;
    Multiples(r + y, q, m);
  }

  lemma Multiples(x: nat, k: nat, m: nat)
    requires m > 0
    ensures (x + k * m) % m == x % m
  {
    var q, r := x / m, x % m;
    assert x + k * m == (q + k) * m + r by {
      assert (q + k) * m == q * m + k * m;
    }
    DivModUnique(x + k * m, m, q + k, r);
  }

  // ---- reading back what was printed ----

  lemma {:induction false} DigitsRead(n: nat, spec: char)
    ensures var b, ds := Base(spec), Digits(n, Base(spec), Alphabet(spec));
            AllDigits(ds, b) && Positional(ds, b) == n
  {
    hide Base, Alphabet;
    var b, a := Base(spec), Alphabet(spec);
    if n > 0 {
      DigitsRead(n / b, spec);
      var ds := Digits(n, b, a);
      var last := |ds| - 1;
      assert ds[..last] == Digits(n / b, b, a) && ds[last] == a[n % b];
      OneDigit(n % b, spec);
    }
  }

  lemma OneDigit(d: nat, spec: char)
    requires d < 16
    ensures DigitValue(Alphabet(spec)[d]) == d
  {
  }

  lemma OneMore(s: string, c: char, base: nat)
    requires AllDigits(s, base) && IsDigit(c, base)
    ensures AllDigits(s + [c], base) && Positional(s + [c], base) == Positional(s, base) * base + DigitValue(c)
  {
    hide IsDigit, DigitValue;
    assert (s + [c])[..|s|] == s;
  }

  lemma {:induction false} OnlyZeros(k: int, base: nat)
    requires base > 0
    ensures AllDigits(Copies('0', k), base) && Positional(Copies('0', k), base) == 0
  {
    hide AllDigits, Positional;
    if k > 0 {
      OnlyZeros(k - 1, base);
      OneMore(Copies('0', k - 1), '0', base);
    } else {
      NoDigits(base);
    }
  }

  lemma {:induction false} LeadingZeros(k: int, s: string, base: nat)
    requires AllDigits(s, base) && base > 0
    ensures var t := Copies('0', k) + s; AllDigits(t, base) && Positional(t, base) == Positional(s, base)
    decreases |s|
  {
    hide Copies, Positional, IsDigit;
    var zeros := Copies('0', k);
    if s == "" {
      OnlyZeros(k, base);
      NoDigits(base);
      assert zeros + s == zeros;
    } else {
      var last := |s| - 1;
      assert s[last] in s && forall c | c in s[..last] :: c in s;
      LeadingZeros(k, s[..last], base);
      OneMore(zeros + s[..last], s[last], base);
      OneMore(s[..last], s[last], base);
      assert s == s[..last] + [s[last]] && zeros + s == zeros + s[..last] + [s[last]];
    }
  }

  lemma Unpadded(f: Flags, width: int, prec: int, spec: char, n: nat) returns (k: int)
    requires !f.sign && !f.blank
    requires width <= |Minimal(f, prec, spec, n, false)| || (prec <= -1 && f.zeroPad)
    ensures Text(f, width, prec, spec, n, false) == Prefix(f, spec) + (Copies('0', k) + Shown(n, spec, prec))
  {
    hide Shown, Prefix, Copies;
    var text := Minimal(f, prec, spec, n, false);
    var more := width - |text|;
    k := if prec <= -1 && f.zeroPad then more else Lead(n, spec, prec);
    NoCopies(' ', more);
    assert text == Prefix(f, spec) + (Copies('0', Lead(n, spec, prec)) + Shown(n, spec, prec));
    assert text + "" == "" + text == text;
  }

  lemma ShownRead(n: nat, spec: char, prec: int)
    ensures AllDigits(Shown(n, spec, prec), Base(spec)) && Positional(Shown(n, spec, prec), Base(spec)) == n
  {
    hide Base, Alphabet, Digits;
    DigitsRead(n, spec);
    if Shown(n, spec, prec) == "0" { assert "0"[..0] == "" && Positional("0", Base(spec)) == 0; }
  }

  // The prefix of a number in its own base is skipped or harmless.
  lemma PrefixRead(f: Flags, spec: char, s: string)
    requires AllDigits(s, Base(spec)) && !(f.alt && spec == 'b')
    ensures Parse(Prefix(f, spec) + s, Base(spec)) == Some(Positional(s, Base(spec)) % TWO_TO_THE_32)
  {
    hide Positional;
    var b, pfx := Base(spec), Prefix(f, spec);
    if pfx == "" {
      assert pfx + s == s;
      assert |s| >= 2 ==> s[1] in s;
    } else if pfx == "0" {
      LeadingZeros(1, s, b);
      assert Copies('0', 1) == Copies('0', 0) + "0" == "0";
    } else {
      assert (pfx + s)[2..] == s;
    }
  }

  // Printed without a sign, without blanks and without the prefix of base 2.
  predicate Readable(f: Flags, width: int, prec: int, spec: char, n: nat, negative: bool)
  {
    && !f.sign && !f.blank && !negative && !(f.alt && spec == 'b')
    && (width <= |Minimal(f, prec, spec, n, negative)| || (prec <= -1 && f.zeroPad))
  }

  // What was printed in some base reads back in that base as its low 32 bits,
  // whatever zeros stand before it, if and only if it is readable.
  lemma ReadsBack(f: Flags, width: int, prec: int, spec: char, n: nat, negative: bool)
    ensures var text := Text(f, width, prec, spec, n, negative);
            if Readable(f, width, prec, spec, n, negative) then Parse(text, Base(spec)) == Some(n % TWO_TO_THE_32)
            else Parse(text, Base(spec)) == None
  {
    hide Text, Minimal, Shown, Prefix, Copies, Parse, Base;
    BaseBounds(spec);
    if Readable(f, width, prec, spec, n, negative) {
      var k := Unpadded(f, width, prec, spec, n);
      var ds := Shown(n, spec, prec);
      ShownRead(n, spec, prec);
      LeadingZeros(k, ds, Base(spec));
      PrefixRead(f, spec, Copies('0', k) + ds);
    } else {
      var c := Foreign(f, width, prec, spec, n, negative);
      ForeignIsError(Text(f, width, prec, spec, n, negative), c, Base(spec));
    }
  }

  lemma Foreign(f: Flags, width: int, prec: int, spec: char, n: nat, negative: bool) returns (c: char)
    requires !Readable(f, width, prec, spec, n, negative)
    ensures c in Text(f, width, prec, spec, n, negative)
    ensures c in {' ', '+', '-'} || (c == 'b' && Base(spec) == 2)
  {
    hide Shown, Copies, Lead;
    var text := Minimal(f, prec, spec, n, negative);
    var more := width - |text|;
    if negative || f.sign || f.blank {
      c := Sign(f, negative)[0];
    } else if f.alt && spec == 'b' {
      c := Prefix(f, spec)[1];
    } else {
      c := ' ';
      Blank(more);
    }
  }

  lemma Blank(n: int)
    requires n > 0
    ensures ' ' in Copies(' ', n)
  {
    var s := Copies(' ', n);
    assert s[|s| - 1] == ' ';
  }

  lemma ForeignIsError(s: string, c: char, base: nat)
    requires c in s && base <= 16 && (c in {' ', '+', '-'} || (c == 'b' && base == 2))
    ensures Parse(s, base) == None
  {
    hide Positional;
    var i :| 0 <= i < |s| && s[i] == c;
    var body := Body(s, base);
    if body != s { assert body[i - 2] == c; }
    assert c in body && !IsDigit(c, base);
  }

  lemma BaseBounds(spec: char)
    ensures 2 <= Base(spec) <= 16
  {
  }
}
