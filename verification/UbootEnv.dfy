// wtmi/uboot-env.c: reading the U-Boot environment, 64 KiB of flash, through
// a work buffer of 8 KiB.
module UbootEnv {
  import opened Types
  import opened Bits
  import opened Crc32

  const ENV_SIZE: nat := 0x10000
  const BUFFER_SIZE: nat := 0x2000
  const EQUALS: Byte := 61

  datatype Binding = Binding(name: seq<Byte>, value: seq<Byte>)

  // ---- the environment as one text ----

  // Where c first occurs in s; |s| if nowhere.
  function First(s: seq<Byte>, c: Byte): (i: nat)
    ensures i <= |s| && c !in s[..i]
    ensures i < |s| ==> s[i] == c
  {
    if s == [] || s[0] == c then 0
    else
      var i := 1 + First(s[1..], c);
      assert s[..i] == [s[0]] + s[1..][..i - 1];
      i
  }

  // The NUL-terminated entries before the first empty one.
  function Entries(s: seq<Byte>): seq<seq<Byte>>
    decreases |s|
  {
    var z := First(s, 0);
    if z == 0 || z == |s| then [] else [s[..z]] + Entries(s[z + 1..])
  }

  // Entries that assign, and with their NUL fit in the buffer.
  predicate Usable(e: seq<Byte>) { EQUALS in e && |e| + 1 <= BUFFER_SIZE }

  function Split(e: seq<Byte>): Binding
  {
    var q := First(e, EQUALS);
    Binding(e[..q], if q < |e| then e[q + 1..] else [])
  }

  function Bindings(es: seq<seq<Byte>>): seq<Binding>
  {
    if es == [] then [] else (if Usable(es[0]) then [Split(es[0])] else []) + Bindings(es[1..])
  }

  // Everything the environment binds, in order.
  function Whole(s: seq<Byte>): seq<Binding> { Bindings(Entries(s)) }

  // The same from the middle of an entry that is to be skipped.
  function Rest(s: seq<Byte>, skip: bool): seq<Binding>
  {
    if !skip then Whole(s)
    else
      var z := First(s, 0);
      if z == |s| then [] else Whole(s[z + 1..])
  }

  // ---- how the text unfolds, window by window ----

  lemma FirstIs(s: seq<Byte>, c: Byte, i: nat)
    requires i < |s| && s[i] == c && c !in s[..i]
    ensures First(s, c) == i
  {
  }

  lemma {:induction false} FirstNone(s: seq<Byte>, c: Byte, n: nat)
    requires n <= |s| && c !in s[..n]
    ensures First(s, c) == n + First(s[n..], c)
    decreases n
  {
    if n == 0 {
      assert s[0..] == s;
    } else {
      assert s[0] in s[..n];
      assert forall x | x in s[1..][..n - 1] :: x in s[..n];
      FirstNone(s[1..], c, n - 1);
      assert s[1..][n - 1..] == s[n..];
    }
  }

  lemma WholeStep(s: seq<Byte>, z: nat)
    requires 0 < z < |s| && s[z] == 0 && 0 !in s[..z]
    ensures Whole(s) == (if Usable(s[..z]) then [Split(s[..z])] else []) + Whole(s[z + 1..])
  {
    FirstIs(s, 0, z);
    assert Entries(s)[1..] == Entries(s[z + 1..]);
  }

  lemma WholeEnd(s: seq<Byte>)
    requires s == [] || s[0] == 0
    ensures Whole(s) == []
  {
    if s != [] { FirstIs(s, 0, 0); }
  }

  // A window without NUL: whatever starts here does not fit, or never ends.
  lemma WindowFull(s: seq<Byte>, n: nat, skip: bool)
    requires n <= |s| && 0 !in s[..n] && n > 0 && (n == BUFFER_SIZE || n == |s|)
    ensures Rest(s, skip) == Rest(s[n..], true)
  {
    hide Whole, First;
    FirstNone(s, 0, n);
    var z := First(s, 0);
    if z < |s| {
      assert s[n..][z - n + 1..] == s[z + 1..];
      if !skip { TooLong(s, z); }
    } else {
      WholeNone(s);
    }
  }

  lemma TooLong(s: seq<Byte>, z: nat)
    requires BUFFER_SIZE <= z < |s| && s[z] == 0 && 0 !in s[..z]
    ensures Whole(s) == Whole(s[z + 1..])
  {
    hide Whole, First;
    WholeStep(s, z);
    assert [] + Whole(s[z + 1..]) == Whole(s[z + 1..]);
  }

  lemma WholeNone(s: seq<Byte>)
    requires First(s, 0) == |s|
    ensures Whole(s) == []
  {
  }

  // ---- visiting ----

  // The callback's verdict, from all that it has been given so far.
  type Callback = seq<Binding> -> bool

  // All that the callback has been given, when it has been given done, the rest
  // of the bindings is bs, and the first refusal ends the visit.
  function Visited(done: seq<Binding>, bs: seq<Binding>, cb: Callback): seq<Binding>
    decreases |bs|
  {
    if bs == [] then done
    else
      var now := done + [bs[0]];
      if cb(now) then Visited(now, bs[1..], cb) else now
  }

  lemma {:induction false} VisitedAll(done: seq<Binding>, bs: seq<Binding>, cb: Callback)
    requires forall v :: cb(v)
    ensures Visited(done, bs, cb) == done + bs
    decreases |bs|
  {
    if bs != [] {
      VisitedAll(done + [bs[0]], bs[1..], cb);
      assert done + [bs[0]] + bs[1..] == done + bs;
    }
  }

  // memchr(buf + from, c, to - from); to if there is none
  method MemChr(buf: array<Byte>, c: Byte, from: nat, to: nat) returns (i: nat)
    requires from <= to <= buf.Length
    ensures from <= i <= to && (forall k | from <= k < i :: buf[k] != c) && (i < to ==> buf[i] == c)
  {
    i := from;
    while i < to && buf[i] != c
      invariant from <= i <= to && forall k | from <= k < i :: buf[k] != c
    {
      i := i + 1;
    }
  }

  // The string at buf + from, as the callback sees it; its NUL is at end.
  method CString(buf: array<Byte>, from: nat, ghost end: nat) returns (s: seq<Byte>)
    requires from <= end < buf.Length && buf[end] == 0 && forall k | from <= k < end :: buf[k] != 0
    ensures s == buf[from..end]
  {
    s := [];
    var i := from;
    while buf[i] != 0
      invariant from <= i <= end && s == buf[from..i]
      decreases end - i
    {
      s := s + [buf[i]];
      i := i + 1;
    }
  }

  // spi_nor_read()
  method ReadFlash(nor: seq<Byte>, pos: nat, buf: array<Byte>, len: nat)
    requires pos + len <= |nor| && len <= buf.Length
    modifies buf
    ensures buf[..len] == nor[pos..pos + len]
  {
    forall i | 0 <= i < len {
      buf[i] := nor[pos + i];
    }
  }

  // ---- uboot_env_for_each() ----

  datatype Verdict = Next | Stop

  // Of the text from at on everything is still to be visited.
  ghost predicate Going(nor: seq<Byte>, at: nat, skip: bool, visits: seq<Binding>, cb: Callback)
  {
    && 4 <= at <= ENV_SIZE == |nor|
    && Visited([], Whole(nor[4..]), cb) == Visited(visits, Rest(nor[at..], skip), cb)
  }

  lemma GoingStart(nor: seq<Byte>, cb: Callback)
    requires |nor| == ENV_SIZE
    ensures Going(nor, 4, false, [], cb)
  {
    hide Whole, Visited;
  }

  lemma GoingDone(nor: seq<Byte>, at: nat, skip: bool, visits: seq<Binding>, cb: Callback)
    requires Going(nor, at, skip, visits, cb) && Rest(nor[at..], skip) == []
    ensures visits == Visited([], Whole(nor[4..]), cb)
  {
    hide Whole, Rest;
    assert Visited(visits, [], cb) == visits;
  }

  lemma GoingEnd(nor: seq<Byte>, at: nat, skip: bool, visits: seq<Binding>, cb: Callback)
    requires Going(nor, at, skip, visits, cb)
    requires at == ENV_SIZE || (!skip && nor[at] == 0)
    ensures visits == Visited([], Whole(nor[4..]), cb)
  {
    hide Whole, Visited, First;
    var s := nor[at..];
    if at == ENV_SIZE {
      assert s == [];
      assert First(s, 0) == |s|;
    }
    WholeEnd(s);
    GoingDone(nor, at, skip, visits, cb);
  }

  lemma GoingSkipped(nor: seq<Byte>, at: nat, z: nat, visits: seq<Binding>, cb: Callback)
    requires Going(nor, at, true, visits, cb)
    requires at + z < ENV_SIZE && nor[at + z] == 0 && 0 !in nor[at..at + z]
    ensures Going(nor, at + z + 1, false, visits, cb)
  {
    hide Whole, Visited, First;
    var s := nor[at..];
    assert s[..z] == nor[at..at + z];
    FirstIs(s, 0, z);
    assert s[z + 1..] == nor[at + z + 1..];
  }

  // The window is full and holds no end of an entry.
  lemma GoingFull(nor: seq<Byte>, at: nat, len: nat, skip: bool, visits: seq<Binding>, cb: Callback)
    requires Going(nor, at, skip, visits, cb)
    requires 0 < len && at + len <= ENV_SIZE && (len == BUFFER_SIZE || at + len == ENV_SIZE)
    requires 0 !in nor[at..at + len]
    ensures Going(nor, at + len, true, visits, cb)
  {
    hide Whole, Visited, First, Rest;
    var s := nor[at..];
    assert s[..len] == nor[at..at + len];
    WindowFull(s, len, skip);
    assert s[len..] == nor[at + len..];
  }

  // One entry, with the binding it makes if any.
  lemma GoingEntry(nor: seq<Byte>, at: nat, z: nat, visits: seq<Binding>, cb: Callback)
    requires Going(nor, at, false, visits, cb)
    requires 0 < z < BUFFER_SIZE && at + z < ENV_SIZE && nor[at + z] == 0 && 0 !in nor[at..at + z]
    ensures EQUALS !in nor[at..at + z] ==> Going(nor, at + z + 1, false, visits, cb)
    ensures EQUALS in nor[at..at + z] ==>
              var now := visits + [Split(nor[at..at + z])];
              if cb(now) then Going(nor, at + z + 1, false, now, cb) else now == Visited([], Whole(nor[4..]), cb)
  {
    hide Whole, First, Split;
    var s, e := nor[at..], nor[at..at + z];
    assert s[..z] == e && s[z + 1..] == nor[at + z + 1..];
    WholeStep(s, z);
    var rest := Whole(s[z + 1..]);
    if EQUALS in e {
      assert ([Split(e)] + rest)[1..] == rest;
    } else {
      assert [] + rest == rest;
    }
  }

  // uboot_env_for_each() once the CRC has been found right; the second result
  // is what the callback has been given, in order
  method Scan(nor: seq<Byte>, buf: array<Byte>, cb: Callback) returns (ignored: nat, visits: seq<Binding>)
    requires |nor| == ENV_SIZE && buf.Length == BUFFER_SIZE
    modifies buf
    ensures visits == Visited([], Whole(nor[4..]), cb)
  {
    hide Whole, Visited, Going;
    // skip crc
    var pos := 4;
    var skip := false;
    ignored, visits := 0, [];
    GoingStart(nor, cb);
    while pos < ENV_SIZE
      invariant 4 <= pos <= ENV_SIZE && Going(nor, pos, skip, visits, cb)
    {
      var len := if BUFFER_SIZE < ENV_SIZE - pos then BUFFER_SIZE else ENV_SIZE - pos;
      ReadFlash(nor, pos, buf, len);
      var p, n, verdict;
      p, n, skip, visits, verdict := Window(nor, buf, pos, len, skip, visits, cb);
      ignored := ignored + n;
      if verdict == Stop { return; }
      if p == 0 {
        // the entry does not fit in the buffer
        GoingFull(nor, pos, len, skip, visits, cb);
        skip := true;
        ignored := ignored + 1;
        pos := pos + len;
      } else {
        pos := pos + p;
      }
    }
    GoingEnd(nor, pos, skip, visits, cb);
  }

  // buf[p..len] is as it was read from flash at pos.
  ghost predicate Unread(nor: seq<Byte>, buf: seq<Byte>, pos: nat, p: nat, len: nat)
  {
    && len <= |buf| && pos + len <= |nor|
    && forall k | p <= k < len :: buf[k] == nor[pos + k]
  }

  lemma NoNul(nor: seq<Byte>, buf: seq<Byte>, pos: nat, p: nat, z: nat, len: nat)
    requires Unread(nor, buf, pos, p, len) && p <= z <= len
    requires forall k | p <= k < z :: buf[k] != 0
    ensures 0 !in nor[pos + p..pos + z]
  {
    forall k | pos + p <= k < pos + z
      ensures nor[k] != 0
    {
      assert buf[k - pos] == nor[pos + (k - pos)];
    }
  }

  // The entry buf[p..z]: patch its '=', if any, and take the strings before and
  // after.
  method Assignment(buf: array<Byte>, p: nat, z: nat) returns (found: bool, b: Binding)
    requires p < z < buf.Length && buf[z] == 0 && forall k | p <= k < z :: buf[k] != 0
    modifies buf
    ensures found <==> EQUALS in old(buf[p..z])
    ensures found ==> b == Split(old(buf[p..z]))
    ensures forall k | z <= k < buf.Length :: buf[k] == old(buf[k])
  {
    hide First;
    ghost var e := buf[p..z];
    var q := MemChr(buf, EQUALS, p, z);
    found, b := q < z, Binding([], []);
    if found {
      assert e[q - p] == EQUALS;
      FirstIs(e, EQUALS, q - p);
      buf[q] := 0;
      var name := CString(buf, p, q);
      var value := CString(buf, q + 1, z);
      assert name == e[..q - p] && value == e[q - p + 1..];
      b := Binding(name, value);
    }
  }

  method Variable(nor: seq<Byte>, buf: array<Byte>, pos: nat, len: nat, p: nat, z: nat,
                  visits0: seq<Binding>, ignored0: nat, cb: Callback)
    returns (visits: seq<Binding>, ignored: nat, go: bool)
    requires buf.Length == BUFFER_SIZE && p < z < len <= BUFFER_SIZE && pos + len <= ENV_SIZE == |nor|
    requires Unread(nor, buf[..], pos, p, len) && buf[z] == 0 && forall k | p <= k < z :: buf[k] != 0
    requires Going(nor, pos + p, false, visits0, cb)
    modifies buf
    ensures Unread(nor, buf[..], pos, z + 1, len)
    ensures if go then Going(nor, pos + z + 1, false, visits, cb) else visits == Visited([], Whole(nor[4..]), cb)
  {
    hide Whole, Visited, Going, First, Split;
    visits, ignored, go := visits0, ignored0, true;
    ghost var e := nor[pos + p..pos + z];
    NoNul(nor, buf[..], pos, p, z, len);
    GoingEntry(nor, pos + p, z - p, visits, cb);
    assert e == buf[p..z];
    var found, b := Assignment(buf, p, z);
    if found {
      visits := visits + [b];
      go := cb(visits);
    } else {
      ignored := ignored + 1;
    }
  }

  // The entries that end in the buffer; those before buf[p] have been dealt with.
  method Window(nor: seq<Byte>, buf: array<Byte>, pos: nat, len: nat, skip0: bool, visits0: seq<Binding>, cb: Callback)
    returns (p: nat, ignored: nat, skip: bool, visits: seq<Binding>, verdict: Verdict)
    requires Going(nor, pos, skip0, visits0, cb) && buf.Length == BUFFER_SIZE
    requires 0 < len <= BUFFER_SIZE && 4 <= pos <= pos + len <= ENV_SIZE == |nor|
    requires buf[..len] == nor[pos..pos + len]
    modifies buf
    ensures verdict == Stop ==> visits == Visited([], Whole(nor[4..]), cb)
    ensures verdict == Next ==> p <= len && Going(nor, pos + p, skip, visits, cb)
    ensures verdict == Next && p == 0 ==> 0 !in nor[pos..pos + len]
  {
    hide Whole, Visited, Going, Unread;
    p, ignored, skip, visits, verdict := 0, 0, skip0, visits0, Next;
    var z := MemChr(buf, 0, p, len);
    AsRead(nor, buf[..], pos, len);
    if !skip && z < len && p == z {
      FlashByte(nor, buf[..], pos, p, p, len);
      GoingEnd(nor, pos, skip, visits, cb);
      verdict := Stop;
      return;
    }
    while z < len
      invariant p <= z <= len && Going(nor, pos + p, skip, visits, cb) && Unread(nor, buf[..], pos, p, len)
      invariant (forall k | p <= k < z :: buf[k] != 0) && (z < len ==> buf[z] == 0)
      invariant !skip && z < len ==> p < z
      invariant p < len ==> p < z || buf[p] == 0
      decreases len - p
    {
      if skip {
        NoNul(nor, buf[..], pos, p, z, len);
        FlashByte(nor, buf[..], pos, p, z, len);
        GoingSkipped(nor, pos + p, z - p, visits, cb);
        skip := false;
        UnreadLess(nor, buf[..], pos, p, z + 1, len);
      } else {
        var go;
        visits, ignored, go := Variable(nor, buf, pos, len, p, z, visits, ignored, cb);
        if !go { verdict := Stop; return; }
      }
      p := z + 1;
      if p == len || buf[p] == 0 { break; }
      z := MemChr(buf, 0, p, len);
    }
    if p < len && buf[p] == 0 {
      FlashByte(nor, buf[..], pos, p, p, len);
      GoingEnd(nor, pos + p, skip, visits, cb);
      verdict := Stop;
    } else if p == 0 {
      NoNul(nor, buf[..], pos, p, len, len);
    }
  }

  lemma AsRead(nor: seq<Byte>, buf: seq<Byte>, pos: nat, len: nat)
    requires len <= |buf| && pos + len <= |nor| && buf[..len] == nor[pos..pos + len]
    ensures Unread(nor, buf, pos, 0, len)
  {
    forall k | 0 <= k < len
      ensures buf[k] == nor[pos + k]
    {
      assert buf[..len][k] == nor[pos..pos + len][k];
    }
  }

  lemma FlashByte(nor: seq<Byte>, buf: seq<Byte>, pos: nat, p: nat, k: nat, len: nat)
    requires Unread(nor, buf, pos, p, len) && p <= k < len
    ensures pos + len <= |nor| && nor[pos + k] == buf[k]
  {
  }

  lemma UnreadLess(nor: seq<Byte>, buf: seq<Byte>, pos: nat, p: nat, q: nat, len: nat)
    requires Unread(nor, buf, pos, p, len) && p <= q
    ensures Unread(nor, buf, pos, q, len)
  {
  }

  // ---- uboot_env_check_crc() ----

  // The first four bytes are the CRC of the others.
  ghost predicate CrcMatches(nor: seq<Byte>)
    requires |nor| == ENV_SIZE
  {
    Xor(Crc(Ones(), nor[4..]), Ones()) == Load(nor[..4])
  }

  // A 32-bit number, lowest byte first.
  function Number(s: seq<Byte>): nat
    requires |s| == 4
  {
    var b0: nat, b1: nat, b2: nat, b3: nat := s[0], s[1], s[2], s[3];
    b0 + 0x100 * b1 + 0x1_0000 * b2 + 0x100_0000 * b3
  }

  // The complement of the CRC of the text, which starts from all ones.
  function Checksum(text: seq<Byte>): int { 0xffff_ffff - Value(Crc(Ones(), text)) }

  // What the check compares, as numbers.
  lemma CrcMatchesNumber(nor: seq<Byte>)
    requires |nor| == ENV_SIZE
    ensures CrcMatches(nor) <==> Number(nor[..4]) == Checksum(nor[4..])
  {
    hide Crc, Load, Xor, Ones, Value, ToBits, Number;
    var crc := Crc(Ones(), nor[4..]);
    var stored, not := Load(nor[..4]), Xor(crc, Ones());
    LoadNumber(nor[..4]);
    Complemented(crc);
    ToBitsValue(stored);
    ToBitsValue(not);
  }

  lemma Complemented(c: Word)
    ensures Value(Xor(c, Ones())) == 0xffff_ffff - Value(c)
  {
    Negation(c, Xor(c, Ones()));
    Pow2Words();
  }

  lemma {:induction false} Negation(s: seq<bool>, t: seq<bool>)
    requires |s| == |t| && forall i | 0 <= i < |s| :: t[i] == !s[i]
    ensures Value(s) + Value(t) == Pow2(|s|) - 1
    decreases |s|
  {
    if s != [] { Negation(s[1..], t[1..]); }
  }

  lemma {:induction false} ValueAppend(s: seq<bool>, t: seq<bool>)
    ensures Value(s + t) == Value(s) + Pow2(|s|) * Value(t)
    decreases |s|
  {
    if s == [] {
      assert s + t == t;
    } else {
      ValueAppend(s[1..], t);
      assert (s + t)[1..] == s[1..] + t;
      Twice(Pow2(|s| - 1), Value(t));
    }
  }

  lemma Twice(x: nat, y: nat)
    ensures 2 * x * y == 2 * (x * y)
  {
  }

  lemma Pow2Words()
    ensures Pow2(8) == 0x100 && Pow2(16) == 0x1_0000 && Pow2(24) == 0x100_0000 && Pow2(32) == 0x1_0000_0000
  {
    Pow2Sum(8, 8);
    Pow2Sum(16, 8);
    Pow2Sum(16, 16);
  }

  lemma LoadNumber(s: seq<Byte>)
    requires |s| == 4
    ensures Value(Load(s)) == Number(s)
  {
    hide Value, ToBits, Pow2;
    Pow2Words();
    forall i | 0 <= i < 4
      ensures Value(ToBits(s[i], 8)) == s[i]
    {
      ValueToBits(s[i], 8);
      LowOfSmall(s[i], 8);
    }
    var a, b, c, d := ToBits(s[0], 8), ToBits(s[1], 8), ToBits(s[2], 8), ToBits(s[3], 8);
    ValueAppend(a, b);
    ValueAppend(a + b, c);
    ValueAppend(a + b + c, d);
  }

  // The buffer is at an aligned address.
  method CrcChunk(table: array<Word>, nor: seq<Byte>, buf: array<Byte>, crc0: Word, pos: nat, len: nat) returns (crc: Word)
    requires table.Length == 256 && forall n | 0 <= n < 256 :: table[n] == Entry(n)
    requires pos + len <= |nor| && len <= buf.Length == BUFFER_SIZE && len % 4 == 0
    modifies buf
    ensures crc == Crc(crc0, nor[pos..pos + len])
  {
    hide Entry, Crc, Firmware;
    ReadFlash(nor, pos, buf, len);
    var sum := Crc32Firmware(table, crc0, buf[..], 0, len);
    ServedIsRight(crc0, buf[..], 0, len);
    assert buf[..][0..len] == nor[pos..pos + len];
    crc := sum.crc;
  }

  method CheckCrc(table: array<Word>, nor: seq<Byte>, buf: array<Byte>) returns (ok: bool)
    requires table.Length == 256 && forall n | 0 <= n < 256 :: table[n] == Entry(n)
    requires |nor| == ENV_SIZE && buf.Length == BUFFER_SIZE
    modifies buf
    ensures ok <==> CrcMatches(nor)
    ensures ok <==> Number(nor[..4]) == Checksum(nor[4..])
  {
    hide Entry, Crc, Xor, Load, Ones, Value, Number, Checksum;
    CrcMatchesNumber(nor);
    var stored := Load(nor[..4]);
    var crc := Ones();
    var pos := 4;
    CrcNone(Ones());
    assert nor[4..4] == [];
    while pos < ENV_SIZE
      invariant 4 <= pos <= ENV_SIZE && pos % 4 == 0 && crc == Crc(Ones(), nor[4..pos])
      invariant forall n | 0 <= n < 256 :: table[n] == Entry(n)
    {
      var len := if BUFFER_SIZE < ENV_SIZE - pos then BUFFER_SIZE else ENV_SIZE - pos;
      crc := CrcChunk(table, nor, buf, crc, pos, len);
      CrcExtend(Ones(), nor, 4, pos, pos + len);
      pos := pos + len;
    }
    assert nor[4..pos] == nor[4..];
    ok := Xor(crc, Ones()) == stored;
  }

  // uboot_env_for_each(): -1 unless the CRC matches
  method ForEach(table: array<Word>, nor: seq<Byte>, buf: array<Byte>, cb: Callback)
    returns (r: int, visits: seq<Binding>)
    requires table.Length == 256 && forall n | 0 <= n < 256 :: table[n] == Entry(n)
    requires |nor| == ENV_SIZE && buf.Length == BUFFER_SIZE
    modifies buf
    ensures r < 0 <==> !CrcMatches(nor)
    ensures visits == if CrcMatches(nor) then Visited([], Whole(nor[4..]), cb) else []
  {
    hide Entry, Whole, Visited, CrcMatches;
    var ok := CheckCrc(table, nor, buf);
    if !ok { return -1, []; }
    r, visits := Scan(nor, buf, cb);
  }

  // ---- uboot_env_get() ----

  // Some binding gives the name this value, and none before it the name.
  ghost predicate Binds(bs: seq<Binding>, name: seq<Byte>, value: seq<Byte>)
  {
    exists i | 0 <= i < |bs| :: bs[i] == Binding(name, value) && forall j | 0 <= j < i :: bs[j].name != name
  }

  ghost predicate Unbound(bs: seq<Binding>, name: seq<Byte>)
  {
    forall i | 0 <= i < |bs| :: bs[i].name != name
  }

  lemma BindsNext(b: Binding, bs: seq<Binding>, name: seq<Byte>, value: seq<Byte>)
    requires b.name != name && Binds(bs, name, value)
    ensures Binds([b] + bs, name, value)
  {
    var s := [b] + bs;
    var i :| 0 <= i < |bs| && bs[i] == Binding(name, value) && forall j | 0 <= j < i :: bs[j].name != name;
    forall j | 0 <= j < i + 1
      ensures s[j].name != name
    {
      if j > 0 { assert s[j] == bs[j - 1]; }
    }
    assert s[i + 1] == bs[i];
  }

  lemma UnboundNext(b: Binding, bs: seq<Binding>, name: seq<Byte>)
    requires b.name != name && Unbound(bs, name)
    ensures Unbound([b] + bs, name)
  {
  }

  // find_one_env(): goes on until the name is found.
  function FindOne(name: seq<Byte>): Callback
  {
    (visits: seq<Binding>) => visits == [] || visits[|visits| - 1].name != name
  }

  function Found(visits: seq<Binding>, name: seq<Byte>): Option<seq<Byte>>
  {
    if visits != [] && visits[|visits| - 1].name == name then Some(visits[|visits| - 1].value) else None
  }

  lemma {:induction false} FindOneFinds(done: seq<Binding>, bs: seq<Binding>, name: seq<Byte>)
    requires FindOne(name)(done)
    ensures match Found(Visited(done, bs, FindOne(name)), name)
            case Some(value) => Binds(bs, name, value)
            case None => Unbound(bs, name)
    decreases |bs|
  {
    hide Binds, Unbound;
    if bs == [] {
      NoneBound(name);
    } else if bs[0].name == name {
      FirstBinds(bs);
    } else {
      FindOneFinds(done + [bs[0]], bs[1..], name);
      assert bs == [bs[0]] + bs[1..];
      var r := Found(Visited(done, bs, FindOne(name)), name);
      if r.Some? { BindsNext(bs[0], bs[1..], name, r.value); } else { UnboundNext(bs[0], bs[1..], name); }
    }
  }

  lemma NoneBound(name: seq<Byte>)
    ensures Unbound([], name)
  {
  }

  lemma FirstBinds(bs: seq<Binding>)
    requires bs != []
    ensures Binds(bs, bs[0].name, bs[0].value)
  {
  }

  method Get(table: array<Word>, nor: seq<Byte>, buf: array<Byte>, name: seq<Byte>) returns (value: Option<seq<Byte>>)
    requires table.Length == 256 && forall n | 0 <= n < 256 :: table[n] == Entry(n)
    requires |nor| == ENV_SIZE && buf.Length == BUFFER_SIZE
    modifies buf
    ensures value.Some? ==> CrcMatches(nor) && Binds(Whole(nor[4..]), name, value.value)
    ensures value.None? ==> !CrcMatches(nor) || Unbound(Whole(nor[4..]), name)
  {
    hide Entry, Whole, CrcMatches, Binds, Unbound;
    var r, visits := ForEach(table, nor, buf, FindOne(name));
    if r < 0 { return None; }
    FindOneFinds([], Whole(nor[4..]), name);
    value := Found(visits, name);
  }

  // A name cannot be both bound and not, nor have two first values.
  lemma BindsOnce(bs: seq<Binding>, name: seq<Byte>, v: seq<Byte>, w: seq<Byte>)
    requires Binds(bs, name, v)
    ensures !Unbound(bs, name) && (Binds(bs, name, w) ==> v == w)
  {
    var i :| 0 <= i < |bs| && bs[i] == Binding(name, v) && forall j | 0 <= j < i :: bs[j].name != name;
    if Binds(bs, name, w) {
      var k :| 0 <= k < |bs| && bs[k] == Binding(name, w) && forall j | 0 <= j < k :: bs[j].name != name;
      assert i == k;
    }
  }

  // ---- what an environment written out in this format binds ----

  // Bindings that can be written: a name without '=' or NUL, a value without
  // NUL, and an entry that fits in the buffer.
  predicate Writable(b: Binding)
  {
    EQUALS !in b.name && 0 !in b.name && 0 !in b.value && |b.name| + |b.value| + 2 <= BUFFER_SIZE
  }

  function Written(b: Binding): seq<Byte> { b.name + [EQUALS] + b.value }

  // Entries with their NULs, an empty one, and any padding.
  function WrittenAll(bs: seq<Binding>, padding: seq<Byte>): seq<Byte>
  {
    if bs == [] then [0] + padding else Written(bs[0]) + [0] + WrittenAll(bs[1..], padding)
  }

  lemma {:induction false} WrittenRead(bs: seq<Binding>, padding: seq<Byte>)
    requires forall b | b in bs :: Writable(b)
    ensures Whole(WrittenAll(bs, padding)) == bs
    decreases |bs|
  {
    hide Whole, First, Usable, Split, Writable;
    var s := WrittenAll(bs, padding);
    if bs == [] {
      WholeEnd(s);
    } else {
      assert bs[0] in bs && forall b | b in bs[1..] :: b in bs;
      var e := Written(bs[0]);
      WrittenSplit(bs[0]);
      assert s[..|e|] == e && s[|e|] == 0 && s[|e| + 1..] == WrittenAll(bs[1..], padding);
      WholeStep(s, |e|);
      WrittenRead(bs[1..], padding);
      assert [bs[0]] + bs[1..] == bs;
    }
  }

  lemma WrittenSplit(b: Binding)
    requires Writable(b)
    ensures var e := Written(b); e != [] && 0 !in e && Usable(e) && Split(e) == b
  {
    hide First;
    var e := Written(b);
    assert e[|b.name|] == EQUALS && e[..|b.name|] == b.name && e[|b.name| + 1..] == b.value;
    FirstIs(e, EQUALS, |b.name|);
  }

  // The number n, lowest byte first.
  function NumberBytes(n: nat): (s: seq<Byte>)
    requires n <= 0xffff_ffff
    ensures |s| == 4 && Number(s) == n
  {
    var q := n / 0x100;
    var r := q / 0x100;
    [n % 0x100, q % 0x100, r % 0x100, r / 0x100]
  }

  // An image: four bytes of checksum, and the text.
  function Image(text: seq<Byte>): (image: seq<Byte>)
    ensures |image| == 4 + |text|
  {
    ChecksumFits(text);
    NumberBytes(Checksum(text)) + text
  }

  lemma ChecksumFits(text: seq<Byte>)
    ensures 0 <= Checksum(text) <= 0xffff_ffff
  {
    hide Crc, Value, Ones;
    Complemented(Crc(Ones(), text));
  }

  lemma ImagePasses(text: seq<Byte>)
    requires 4 + |text| == ENV_SIZE
    ensures CrcMatches(Image(text)) && Image(text)[4..] == text
  {
    hide Checksum, CrcMatches, Number, NumberBytes;
    ChecksumFits(text);
    var image := Image(text);
    assert image[..4] == NumberBytes(Checksum(text)) && image[4..] == text;
    CrcMatchesNumber(image);
  }

  // The value read for a name is the one written first for it.
  method GetWritten(table: array<Word>, bs: seq<Binding>, padding: seq<Byte>, buf: array<Byte>, name: seq<Byte>)
    returns (value: Option<seq<Byte>>)
    requires table.Length == 256 && forall n | 0 <= n < 256 :: table[n] == Entry(n)
    requires buf.Length == BUFFER_SIZE && (forall b | b in bs :: Writable(b)) && 4 + |WrittenAll(bs, padding)| == ENV_SIZE
    modifies buf
    ensures value.Some? <==> exists i | 0 <= i < |bs| :: bs[i].name == name
    ensures value.Some? ==>
              exists i | 0 <= i < |bs| ::
                bs[i] == Binding(name, value.value) && forall j | 0 <= j < i :: bs[j].name != name
  {
    hide Entry, Whole, CrcMatches, Image, WrittenAll, Writable;
    var text := WrittenAll(bs, padding);
    ImagePasses(text);
    WrittenRead(bs, padding);
    value := Get(table, Image(text), buf, name);
  }
}
