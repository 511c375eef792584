// wtmi/ebg.c: circular buffers of random bytes, and the streams they feed.
module Ebg {
  import opened Types

  // ---- a circular buffer, on values ----

  // The len bytes from pos on, round the end if need be.
  function Live(d: seq<Byte>, pos: nat, len: nat): (r: seq<Byte>)
    requires pos < |d| && len <= |d|
    ensures |r| == len
  {
    if pos + len <= |d| then d[pos..pos + len] else d[pos..] + d[..pos + len - |d|]
  }

  predicate InLive(k: int, size: nat, pos: nat, len: nat)
  {
    pos <= k < pos + len || k < pos + len - size
  }

  // No byte lingers outside the live region.
  predicate Clean(d: seq<Byte>, pos: nat, len: nat)
  {
    forall k | 0 <= k < |d| && !InLive(k, |d|, pos, len) :: d[k] == 0
  }

  // d with s at p
  function Put(d: seq<Byte>, p: nat, s: seq<Byte>): (r: seq<Byte>)
    requires p + |s| <= |d|
    ensures |r| == |d|
  {
    d[..p] + s + d[p + |s|..]
  }

  function Zeros(n: nat): (r: seq<Byte>)
    ensures |r| == n && forall i | 0 <= i < n :: r[i] == 0
  {
    seq(n, i => 0)
  }

  // Place of the i-th live byte.
  function Place(size: nat, pos: nat, i: nat): nat
  {
    if pos + i < size then pos + i else if pos + i < 2 * size then pos + i - size else 0
  }

  lemma LiveAt(d: seq<Byte>, pos: nat, len: nat, i: nat)
    requires pos < |d| && i < len <= |d|
    ensures Place(|d|, pos, i) < |d| && Live(d, pos, len)[i] == d[Place(|d|, pos, i)]
  {
  }

  lemma PutAt(d: seq<Byte>, p: nat, s: seq<Byte>, k: nat)
    requires p + |s| <= |d| && k < |d|
    ensures Put(d, p, s)[k] == if p <= k < p + |s| then s[k - p] else d[k]
  {
  }

  // Taking n bytes at the front and clearing them.
  lemma TakeFront(d: seq<Byte>, pos: nat, len: nat, n: nat)
    requires pos < |d| && n <= len <= |d| && pos + n <= |d|
    ensures var pos' := if pos + n == |d| then 0 else pos + n;
            && Live(d, pos, len)[..n] == d[pos..pos + n]
            && Live(Put(d, pos, Zeros(n)), pos', len - n) == Live(d, pos, len)[n..]
            && (Clean(d, pos, len) ==> Clean(Put(d, pos, Zeros(n)), pos', len - n))
  {
    hide Live, Put;
    var d' := Put(d, pos, Zeros(n));
    var pos' := if pos + n == |d| then 0 else pos + n;
    forall i | 0 <= i < n ensures Live(d, pos, len)[i] == d[pos..pos + n][i] { LiveAt(d, pos, len, i); }
    forall i | 0 <= i < len - n
      ensures Live(d', pos', len - n)[i] == Live(d, pos, len)[n..][i]
    {
      LiveAt(d', pos', len - n, i);
      LiveAt(d, pos, len, n + i);
      PutAt(d, pos, Zeros(n), Place(|d|, pos', i));
    }
    if Clean(d, pos, len) {
      forall k | 0 <= k < |d| && !InLive(k, |d|, pos', len - n) ensures d'[k] == 0 { PutAt(d, pos, Zeros(n), k); }
    }
  }

  // Adding s at the end, where it fits without going round.
  lemma PutBack(d: seq<Byte>, pos: nat, len: nat, p: nat, s: seq<Byte>)
    requires pos < |d| && len + |s| <= |d|
    requires p == (if pos + len < |d| then pos + len else pos + len - |d|) && p + |s| <= |d|
    ensures Live(Put(d, p, s), pos, len + |s|) == Live(d, pos, len) + s
    ensures Clean(d, pos, len) ==> Clean(Put(d, p, s), pos, len + |s|)
  {
    hide Live, Put;
    var d' := Put(d, p, s);
    forall i | 0 <= i < len + |s|
      ensures Live(d', pos, len + |s|)[i] == (Live(d, pos, len) + s)[i]
    {
      LiveAt(d', pos, len + |s|, i);
      PutAt(d, p, s, Place(|d|, pos, i));
      if i < len { LiveAt(d, pos, len, i); }
    }
    if Clean(d, pos, len) {
      forall k | 0 <= k < |d| && !InLive(k, |d|, pos, len + |s|) ensures d'[k] == 0 { PutAt(d, p, s, k); }
    }
  }

  lemma PutTwice(d: seq<Byte>, at: nat, s: seq<Byte>, n: nat)
    requires at + |s| <= |d| && n <= |s|
    ensures Put(Put(d, at, s[..n]), at + n, s[n..]) == Put(d, at, s)
  {
  }

  lemma ModSize(x: nat, size: nat)
    requires 0 < size && x < 2 * size
    ensures x % size == if x < size then x else x - size
  {
    if x >= size { assert x == 1 * size + (x - size); }
  }

  // ---- cbuf_t ----

  class CBuf {
    const data: array<Byte>
    var len: nat
    var pos: nat

    ghost predicate Valid()
      reads `len, `pos
    {
      0 < data.Length < 0x8000_0000 && len <= data.Length && pos < data.Length
    }

    ghost function Contents(): (r: seq<Byte>)
      reads `len, `pos, data
      ensures Valid() ==> |r| == len
    {
      if Valid() then Live(data[..], pos, len) else []
    }

    ghost predicate Wiped()
      reads `len, `pos, data
    {
      Clean(data[..], pos, len)
    }

    constructor (size: nat)
      requires 0 < size < 0x8000_0000
      ensures Valid() && Contents() == [] && Wiped() && fresh(data) && data.Length == size
    {
      data := new Byte[size](i => 0);
      len, pos := 0, 0;
    }

    // memcpy from, and bzero of, the n bytes at pos
    method MoveOut(dest: array<Byte>, at: nat, n: nat)
      requires Valid() && pos + n <= data.Length && at + n <= dest.Length && dest != data
      modifies data, dest
      ensures data[..] == Put(old(data[..]), pos, Zeros(n))
      ensures dest[..] == Put(old(dest[..]), at, old(data[pos..pos + n]))
    {
      forall i | 0 <= i < n {
        dest[at + i] := data[pos + i];
      }
      forall i | 0 <= i < n {
        data[pos + i] := 0;
      }
      assert dest[..] == Put(old(dest[..]), at, old(data[pos..pos + n]));
      assert data[..] == Put(old(data[..]), pos, Zeros(n));
    }

    // One stretch that does not go round.
    method Take(dest: array<Byte>, at: nat, n: nat)
      requires Valid() && n <= len && pos + n <= data.Length && at + n <= dest.Length && dest != data
      modifies `len, `pos, data, dest
      ensures Valid() && (old(Wiped()) ==> Wiped()) && len == old(len) - n
      ensures pos == if old(pos) + n == data.Length then 0 else old(pos) + n
      ensures dest[..] == Put(old(dest[..]), at, old(Contents())[..n])
      ensures Contents() == old(Contents())[n..]
    {
      hide Put, Live, Zeros, Clean;
      TakeFront(data[..], pos, len, n);
      ModSize(pos + n, data.Length);
      MoveOut(dest, at, n);
      len := len - n;
      pos := (pos + n) % data.Length;
    }

    method Pull(dest: array<Byte>, at: nat, len0: nat) returns (res: nat)
      requires Valid() && at + len0 <= dest.Length && dest != data
      modifies `len, `pos, data, dest
      ensures Valid() && (old(Wiped()) ==> Wiped())
      ensures res == if old(len) < len0 then old(len) else len0
      ensures dest[..] == Put(old(dest[..]), at, old(Contents())[..res])
      ensures Contents() == old(Contents())[res..]
    {
      hide Put, Live, Clean;
      var n := if len < len0 then len else len0;
      res := n;
      ghost var c, d := Contents(), dest[..];
      if pos + n > data.Length {
        // to the end of the buffer, and on from its start
        var tail := data.Length - pos;
        Take(dest, at, tail);
        n := n - tail;
        PutTwice(d, at, c[..res], tail);
        assert c[..res][..tail] == c[..tail] && c[..res][tail..] == c[tail..][..n];
        assert c[tail..][n..] == c[res..];
        Take(dest, at + tail, n);
      } else {
        Take(dest, at, n);
      }
    }

    function FreeSpace(): int
      reads `len
    {
      data.Length - len
    }

    // memcpy of n bytes of src to p
    method MoveIn(p: nat, src: seq<Byte>)
      requires p + |src| <= data.Length
      modifies data
      ensures data[..] == Put(old(data[..]), p, src)
    {
      forall i | 0 <= i < |src| {
        data[p + i] := src[i];
      }
      assert data[..] == Put(old(data[..]), p, src);
    }

    // One stretch at the end that does not go round.
    method Add(p: nat, src: seq<Byte>)
      requires Valid() && len + |src| <= data.Length && p + |src| <= data.Length
      requires p == if pos + len < data.Length then pos + len else pos + len - data.Length
      modifies `len, data
      ensures Valid() && (old(Wiped()) ==> Wiped()) && len == old(len) + |src|
      ensures Contents() == old(Contents()) + src
    {
      hide Put, Live, Clean;
      PutBack(data[..], pos, len, p, src);
      MoveIn(p, src);
      len := len + |src|;
    }

    method Push(src: seq<Byte>) returns (res: nat)
      requires Valid()
      modifies `len, data
      ensures Valid() && (old(Wiped()) ==> Wiped())
      ensures res == if old(FreeSpace()) < |src| then old(FreeSpace()) else |src|
      ensures Contents() == old(Contents()) + src[..res]
    {
      hide Put, Live, Clean;
      res := if FreeSpace() < |src| then FreeSpace() else |src|;
      ModSize(pos + len, data.Length);
      var p := (pos + len) % data.Length;
      if p + res > data.Length {
        var tail := data.Length - p;
        assert src[..res] == src[..tail] + src[tail..res];
        Add(p, src[..tail]);
        Add(0, src[tail..res]);
      } else {
        Add(p, src[..res]);
      }
    }
  }

  // ---- the two streams ----

  lemma PutInside(d: seq<Byte>, at: nat, s: seq<Byte>, t: seq<Byte>)
    requires at + |s| + |t| <= |d|
    ensures Put(Put(d, at, s), at + |s|, t) == Put(d, at, s + t)
  {
  }

  lemma PutSlice(d: seq<Byte>, at: nat, s: seq<Byte>)
    requires at + |s| <= |d|
    ensures var r := Put(d, at, s);
            r[at..at + |s|] == s && r[..at] == d[..at] && r[at + |s|..] == d[at + |s|..]
  {
  }

  // The bytes of these 16-bit values, in order: the low byte alone at an odd
  // start and at the end of an odd rest, otherwise low byte and high byte.
  ghost predicate Spread(s: seq<Byte>, odd: bool, vals: seq<nat>)
  {
    var first := if odd && s != [] then 1 else 0;
    && |vals| == first + (|s| - first + 1) / 2
    && (forall i | 0 <= i < first :: s[i] == vals[i] % 256)
    && (forall i | first <= i < |s| :: var v := vals[first + (i - first) / 2];
          s[i] == if (i - first) % 2 == 0 then v % 256 else v / 256)
  }

  lemma SpreadNone(odd: bool)
    ensures Spread([], odd, [])
  {
  }

  lemma SpreadTwo(s: seq<Byte>, odd: bool, vals: seq<nat>, val: nat)
    requires Spread(s, odd, vals) && val < 0x10000 && |s| % 2 == if odd then 1 else 0
    ensures Spread(s + [val % 256] + [val / 256], odd, vals + [val])
  {
    var t, w := s + [val % 256] + [val / 256], vals + [val];
    assert forall i | 0 <= i < |s| :: t[i] == s[i];
    assert forall i | 0 <= i < |vals| :: w[i] == vals[i];
  }

  // The first byte at an odd start, or the last one.
  lemma SpreadByte(s: seq<Byte>, odd: bool, vals: seq<nat>, val: nat)
    requires Spread(s, odd, vals) && val < 0x10000 && ((s == [] && odd) || |s| % 2 == if odd then 1 else 0)
    ensures Spread(s + [val % 256], odd, vals + [val])
  {
    var t, w := s + [val % 256], vals + [val];
    assert forall i | 0 <= i < |s| :: t[i] == s[i];
    assert forall i | 0 <= i < |vals| :: w[i] == vals[i];
  }

  // Of the bytes made, n more have been handed out.
  lemma HandOut(made: seq<Byte>, handed: seq<Byte>, rest: seq<Byte>, n: nat)
    requires made == handed + rest && n <= |rest|
    ensures made == handed + rest[..n] + rest[n..]
  {
    assert rest == rest[..n] + rest[n..];
  }

  lemma WholeRest(s: seq<Byte>)
    ensures [] + s[..|s|] == s
  {
  }

  class Generator {
    const ebg: CBuf
    const paranoid: CBuf
    // every 16-bit value the hardware has delivered
    ghost var delivered: seq<nat>
    // everything paranoid_rand_64() has returned, and paranoid_rand() has
    // handed out
    ghost var made: seq<Byte>
    ghost var handed: seq<Byte>

    ghost predicate Valid()
      reads this, ebg, paranoid, ebg.data, paranoid.data
    {
      && ebg.Valid() && paranoid.Valid() && ebg != paranoid && ebg.data != paranoid.data
      && ebg.data.Length == 4096 && paranoid.data.Length == 4096
      && ebg.Wiped() && paranoid.Wiped()
    }

    // What was made is what was handed out and what is queued, in order.
    ghost predicate Conserved()
      reads this, paranoid, paranoid.data
    {
      made == handed + paranoid.Contents()
    }

    constructor ()
      ensures Valid() && Conserved() && made == [] && fresh(ebg) && fresh(paranoid) && fresh(ebg.data) && fresh(paranoid.data)
    {
      ebg := new CBuf(4096);
      paranoid := new CBuf(4096);
      made, handed, delivered := [], [], [];
    }

    // The values delivered since there were n.
    ghost function Since(n: nat): seq<nat>
      reads `delivered
    {
      if n <= |delivered| then delivered[n..] else []
    }

    // The generator delivers 16 bits, or (not waiting) perhaps nothing.
    method EbgNext(wait: bool) returns (ok: bool, val: nat)
      modifies `delivered
      ensures val < 0x10000 && (wait ==> ok)
      ensures delivered == old(delivered) + if ok then [val] else []
    {
      ok, val := true, *;
      val := if val < 0x10000 then val else 0;
      if !wait { ok := *; }
      if ok { delivered := delivered + [val]; }
    }

    // ebg_rand_sync(): what is queued first, then new values; odd says whether
    // the buffer's address is.
    method EbgRandSync(buffer: array<Byte>, at0: nat, size0: nat, odd: bool)
      requires Valid() && at0 + size0 <= buffer.Length && buffer != ebg.data && buffer != paranoid.data
      modifies this`delivered, ebg, ebg.data, buffer
      ensures Valid() && old(delivered) <= delivered
      ensures var n := if old(ebg.len) < size0 then old(ebg.len) else size0;
              && ebg.Contents() == old(ebg.Contents())[n..]
              && buffer[at0..at0 + n] == old(ebg.Contents())[..n]
              // the others are the bytes of the values delivered meanwhile
              && Spread(buffer[at0 + n..at0 + size0], odd != (n % 2 == 1), Since(old(|delivered|)))
      ensures buffer[..at0] == old(buffer[..at0]) && buffer[at0 + size0..] == old(buffer[at0 + size0..])
    {
      hide Live, Clean, Put, Spread;
      ghost var b, c := buffer[..], ebg.Contents();
      var pull := ebg.Pull(buffer, at0, size0);
      PutSlice(b, at0, c[..pull]);
      ghost var b1 := buffer[..];
      FreshBytes(buffer, at0 + pull, size0 - pull, odd != (pull % 2 == 1));
      assert buffer[..at0] == buffer[..at0 + pull][..at0] && buffer[at0..at0 + pull] == buffer[..at0 + pull][at0..];
      assert b1[..at0] == b1[..at0 + pull][..at0] && b1[at0..at0 + pull] == b1[..at0 + pull][at0..];
      assert b[at0 + size0..] == b[at0 + pull..][size0 - pull..] && b1[at0 + size0..] == b1[at0 + pull..][size0 - pull..];
    }

    // A byte to come to an even address, then 16 bits at a time, then the rest.
    method FreshBytes(buffer: array<Byte>, at0: nat, size0: nat, odd: bool)
      requires at0 + size0 <= buffer.Length
      modifies `delivered, buffer
      ensures buffer[..at0] == old(buffer[..at0]) && buffer[at0 + size0..] == old(buffer[at0 + size0..])
      ensures old(delivered) <= delivered && Spread(buffer[at0..at0 + size0], odd, Since(old(|delivered|)))
    {
      hide Spread;
      ghost var n, b := |delivered|, buffer[..];
      var at, size := at0, size0;
      SpreadNone(odd);
      assert buffer[at0..at0] == [] && Since(n) == [];
      if size > 0 && odd {
        FreshByte(buffer, at, at0, odd, n);
        at, size := at + 1, size - 1;
      }
      while size > 1
        invariant 0 <= size && at + size == at0 + size0 && at0 <= at && (size > 0 ==> (at - at0) % 2 == if odd then 1 else 0)
        invariant old(delivered) <= delivered && Spread(buffer[at0..at], odd, Since(n))
        invariant buffer[..at0] == b[..at0] && buffer[at..] == b[at..]
      {
        FreshPair(buffer, at, at0, odd, n);
        at, size := at + 2, size - 2;
      }
      if size > 0 {
        FreshByte(buffer, at, at0, odd, n);
      }
    }

    // ebg_next(1, &val); *(u8 *)buffer = val & 0xff;
    method FreshByte(buffer: array<Byte>, at: nat, ghost at0: nat, ghost odd: bool, ghost n: nat)
      requires at0 <= at < buffer.Length && n <= |delivered| && Spread(buffer[at0..at], odd, Since(n))
      requires (at == at0 && odd) || (at - at0) % 2 == if odd then 1 else 0
      modifies `delivered, buffer
      ensures old(delivered) <= delivered && Spread(buffer[at0..at + 1], odd, Since(n))
      ensures buffer[..at0] == old(buffer[..at0]) && buffer[at + 1..] == old(buffer[at + 1..])
    {
      hide Spread;
      ghost var s, vals := buffer[at0..at], Since(n);
      var ok, val := EbgNext(true);
      buffer[at] := val % 256;
      SpreadByte(s, odd, vals, val);
      assert buffer[at0..at + 1] == s + [val % 256] && Since(n) == vals + [val];
    }

    // ebg_next(1, &val); *(u16 *)buffer = val;
    method FreshPair(buffer: array<Byte>, at: nat, ghost at0: nat, ghost odd: bool, ghost n: nat)
      requires at0 <= at && at + 1 < buffer.Length && n <= |delivered| && Spread(buffer[at0..at], odd, Since(n))
      requires (at - at0) % 2 == if odd then 1 else 0
      modifies `delivered, buffer
      ensures old(delivered) <= delivered && Spread(buffer[at0..at + 2], odd, Since(n))
      ensures buffer[..at0] == old(buffer[..at0]) && buffer[at + 2..] == old(buffer[at + 2..])
    {
      hide Spread;
      ghost var s, vals := buffer[at0..at], Since(n);
      var ok, val := EbgNext(true);
      buffer[at], buffer[at + 1] := val % 256, val / 256;
      SpreadTwo(s, odd, vals, val);
      assert buffer[at0..at + 2] == s + [val % 256] + [val / 256] && Since(n) == vals + [val];
    }

    // paranoid_rand_64(): some block of 64 bytes, from 512 bytes of entropy.
    method ParanoidRand64(tmp: array<Byte>) returns (block: seq<Byte>)
      requires Valid() && tmp.Length == 576 && tmp != ebg.data && tmp != paranoid.data
      modifies this`made, this`delivered, ebg, ebg.data, tmp
      ensures Valid() && |block| == 64 && made == old(made) + block && old(delivered) <= delivered
      // what is hashed: the oldest entropy, and new values if it is too little
      ensures var n := if old(ebg.len) < 512 then old(ebg.len) else 512;
              tmp[..n] == old(ebg.Contents())[..n] && Spread(tmp[n..512], n % 2 == 1, Since(old(|delivered|)))
      ensures ebg.Contents() == old(ebg.Contents())[if old(ebg.len) < 512 then old(ebg.len) else 512..]
    {
      EbgRandSync(tmp, 0, 512, false);
      block := *;
      block := if |block| == 64 then block else Zeros(64);
      made := made + block;
    }

    // got are the two bytes of the value delivered, low byte first, if there is
    // room for them and the generator has one.
    method EbgProcess(tmp: array<Byte>) returns (got: seq<Byte>)
      requires Valid() && Conserved() && tmp.Length == 576 && tmp != ebg.data && tmp != paranoid.data
      modifies this`made, this`delivered, ebg, ebg.data, paranoid, paranoid.data, tmp
      ensures Valid() && Conserved()
      // a block is made of 512 bytes of entropy when these and room for it are there
      ensures var block := old(ebg.len) >= 512 && old(paranoid.len) <= 4096 - 64;
              && |made| == |old(made)| + (if block then 64 else 0)
              && ebg.Contents() == old(ebg.Contents())[if block then 512 else 0..] + got
              && (|old(ebg.Contents())| - (if block then 512 else 0) > 4096 - 2 ==> got == [])
      ensures |got| <= 2
      ensures if got == [] then delivered == old(delivered)
              else exists val :: delivered == old(delivered) + [val] && val < 0x10000 && got == [val % 256, val / 256]
    {
      hide CBuf.Wiped, Live, Spread;
      got := [];
      if ebg.len >= 512 && paranoid.FreeSpace() >= 64 {
        MakeBlock(tmp);
      }
      if ebg.len > 4096 - 2 { return; }
      var ok, val := EbgNext(false);
      if !ok { return; }
      got := [val % 256, val / 256];
      var pushed := ebg.Push(got);
      assert got[..2] == got;
    }

    method MakeBlock(tmp: array<Byte>)
      requires Valid() && Conserved() && tmp.Length == 576 && tmp != ebg.data && tmp != paranoid.data
      requires ebg.len >= 512 && paranoid.len <= 4096 - 64
      modifies this`made, this`delivered, ebg, ebg.data, paranoid, paranoid.data, tmp
      ensures Valid() && Conserved() && |made| == |old(made)| + 64 && ebg.Contents() == old(ebg.Contents())[512..]
      ensures delivered == old(delivered)
    {
      hide CBuf.Wiped, Live;
      ghost var n := |delivered|;
      var block := ParanoidRand64(tmp);
      assert tmp[512..512] == [] && delivered[n..] == [];
      var pushed := paranoid.Push(block);
      assert block[..64] == block;
      assert made == handed + paranoid.Contents();
    }

    method ParanoidRand(buffer: array<Byte>, at0: nat, size0: nat, tmp: array<Byte>)
      requires Valid() && Conserved() && at0 + size0 <= buffer.Length && tmp.Length == 576
      requires buffer != ebg.data && buffer != paranoid.data && tmp != ebg.data && tmp != paranoid.data && tmp != buffer
      modifies this, ebg, ebg.data, paranoid, paranoid.data, buffer, tmp
      ensures Valid() && Conserved()
      // what the caller gets is what is recorded as handed out
      ensures handed == old(handed) + buffer[at0..at0 + size0]
      ensures buffer[..at0] == old(buffer[..at0]) && buffer[at0 + size0..] == old(buffer[at0 + size0..])
    {
      hide Live, Clean, Put, Valid, Conserved, CBuf.Wiped, CBuf.Valid, CBuf.Contents;
      ghost var b, c, h := buffer[..], paranoid.Contents(), handed;
      var pull := PullQueued(buffer, at0, size0);
      var at, size;
      ghost var more, last;
      at, size, more := WholeBlocks(buffer, at0 + pull, size0 - pull, tmp, b, at0, c[..pull]);
      last := LastBlock(buffer, at, size, tmp, b, at0, c[..pull] + more);
      ghost var got := c[..pull] + more + last;
      PutSlice(b, at0, got);
      assert handed == h + got;
    }

    method PullQueued(buffer: array<Byte>, at0: nat, size0: nat) returns (pull: nat)
      requires Valid() && Conserved() && at0 + size0 <= buffer.Length && buffer != ebg.data && buffer != paranoid.data
      modifies this`handed, paranoid, paranoid.data, buffer
      ensures Valid() && Conserved() && pull <= size0 && pull <= |old(paranoid.Contents())|
      ensures pull < size0 ==> paranoid.Contents() == []
      ensures buffer[..] == Put(old(buffer[..]), at0, old(paranoid.Contents())[..pull])
      ensures handed == old(handed) + old(paranoid.Contents())[..pull]
    {
      hide Live, Clean, Put, CBuf.Wiped;
      ghost var c := paranoid.Contents();
      pull := paranoid.Pull(buffer, at0, size0);
      HandOut(made, handed, c, pull);
      handed := handed + c[..pull];
    }

    method LastBlock(buffer: array<Byte>, at: nat, size: nat, tmp: array<Byte>,
                     ghost b: seq<Byte>, ghost at0: nat, ghost got: seq<Byte>)
      returns (ghost more: seq<Byte>)
      requires Valid() && Conserved() && at + size <= buffer.Length && tmp.Length == 576 && size < 64
      requires size > 0 ==> paranoid.Contents() == []
      requires buffer != ebg.data && buffer != paranoid.data && tmp != ebg.data && tmp != paranoid.data && tmp != buffer
      requires |b| == buffer.Length && at == at0 + |got| && buffer[..] == Put(b, at0, got)
      modifies this, ebg, ebg.data, paranoid, paranoid.data, buffer, tmp
      ensures Valid() && Conserved() && |more| == size && handed == old(handed) + more
      ensures buffer[..] == Put(b, at0, got + more)
    {
      hide Live, Clean, Put;
      more := [];
      assert got + more == got;
      if size > 0 {
        var dgst := ParanoidRand64(tmp);
        more := dgst[..size];
        CopyBlock(buffer, at, dgst[..size]);
        PutInside(b, at0, got, dgst[..size]);
        PushRest(dgst, size);
      }
    }

    // The rest of a block is queued.  It is never truncated, because the queue
    // is empty.
    method PushRest(dgst: seq<Byte>, size: nat)
      requires Valid() && |dgst| == 64 && size < 64 && made == handed + dgst && paranoid.Contents() == []
      modifies this`handed, paranoid, paranoid.data
      ensures Valid() && Conserved() && handed == old(handed) + dgst[..size]
    {
      hide Live, Clean, CBuf.Wiped;
      var pushed := paranoid.Push(dgst[size..]);
      assert pushed == 64 - size;
      HandOut(made, handed, dgst, size);
      WholeRest(dgst[size..]);
      handed := handed + dgst[..size];
    }

    // while (size >= 64) ...
    method WholeBlocks(buffer: array<Byte>, at1: nat, size1: nat, tmp: array<Byte>,
                       ghost b: seq<Byte>, ghost at0: nat, ghost got0: seq<Byte>)
      returns (at: nat, size: nat, ghost more: seq<Byte>)
      requires Valid() && Conserved() && at1 + size1 <= buffer.Length && tmp.Length == 576
      requires size1 > 0 ==> paranoid.Contents() == []
      requires buffer != ebg.data && buffer != paranoid.data && tmp != ebg.data && tmp != paranoid.data && tmp != buffer
      requires |b| == buffer.Length && at1 == at0 + |got0| && buffer[..] == Put(b, at0, got0)
      modifies this`made, this`handed, this`delivered, ebg, ebg.data, buffer, tmp
      ensures Valid() && Conserved() && size < 64 && at + size == at1 + size1 && at == at1 + |more|
      ensures size > 0 ==> paranoid.Contents() == []
      ensures buffer[..] == Put(b, at0, got0 + more) && handed == old(handed) + more
    {
      hide Live, Clean, Put;
      at, size, more := at1, size1, [];
      assert got0 + more == got0;
      while size >= 64
        invariant Valid() && Conserved() && at + size == at1 + size1 && at == at1 + |more| && 0 <= size
        invariant size > 0 ==> paranoid.Contents() == []
        invariant buffer[..] == Put(b, at0, got0 + more) && handed == old(handed) + more
      {
        var block := ParanoidRand64(tmp);
        CopyBlock(buffer, at, block);
        PutInside(b, at0, got0 + more, block);
        assert got0 + more + block == got0 + (more + block);
        more := more + block;
        handed := handed + block;
        at, size := at + 64, size - 64;
      }
    }

    // paranoid_rand() into a buffer of its own
    method RandBytes(size: nat, tmp: array<Byte>) returns (bytes: seq<Byte>)
      requires Valid() && Conserved() && tmp.Length == 576 && tmp != ebg.data && tmp != paranoid.data
      modifies this, ebg, ebg.data, paranoid, paranoid.data, tmp
      ensures Valid() && Conserved() && |bytes| == size && handed == old(handed) + bytes
    {
      hide Valid;
      var buffer := new Byte[size];
      ParanoidRand(buffer, 0, size, tmp);
      bytes := buffer[0..size];
    }

    method CopyBlock(buffer: array<Byte>, at: nat, s: seq<Byte>)
      requires at + |s| <= buffer.Length
      modifies buffer
      ensures buffer[..] == Put(old(buffer[..]), at, s)
    {
      forall i | 0 <= i < |s| {
        buffer[at + i] := s[i];
      }
      assert buffer[..] == Put(old(buffer[..]), at, s);
    }
  }

  // ---- runs ----

  datatype Request = Process | Rand(size: nat)

  // However entropy arrives and bytes are asked for, the bytes handed out and
  // those queued are the blocks made, each byte once and in order.
  method Run(g: Generator, requests: seq<Request>) returns (handedOut: seq<seq<Byte>>)
    requires g.Valid() && g.Conserved()
    modifies g, g.ebg, g.ebg.data, g.paranoid, g.paranoid.data
    ensures g.Valid() && g.made == g.handed + g.paranoid.Contents()
    ensures g.handed == old(g.handed) + Concat(handedOut)
  {
    hide Generator.Valid, Concat;
    handedOut := [];
    var tmp := new Byte[576];
    ConcatNone();
    assert old(g.handed) + [] == old(g.handed);
    for i := 0 to |requests|
      invariant g.Valid() && g.Conserved() && fresh(tmp) && tmp.Length == 576
      invariant g.handed == old(g.handed) + Concat(handedOut)
    {
      match requests[i]
      case Process => var got := g.EbgProcess(tmp);
      case Rand(size) =>
        var bytes := g.RandBytes(size, tmp);
        ConcatLast(handedOut, bytes);
        handedOut := handedOut + [bytes];
    }
  }

  lemma ConcatNone()
    ensures Concat([]) == []
  {
  }

  function Concat(s: seq<seq<Byte>>): seq<Byte>
  {
    if s == [] then [] else Concat(s[..|s| - 1]) + s[|s| - 1]
  }

  lemma ConcatLast(s: seq<seq<Byte>>, t: seq<Byte>)
    ensures Concat(s + [t]) == Concat(s) + t
  {
    assert (s + [t])[..|s|] == s;
  }
}
