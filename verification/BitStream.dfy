// The unread part of the stream: bits held in the accumulator, then bytes.
module BitStream {
  import opened Types
  import opened Bits
  import opened Rfc1951

  function FromBytes(s: seq<Byte>): (r: seq<bool>)
    ensures |r| == 8 * |s|
  {
    if s == [] then [] else ToBits(s[0], 8) + FromBytes(s[1..])
  }

  // The accumulator and what is left of the input.
  function Unread(hold: nat, bits: nat, input: seq<Byte>, next: nat): (r: seq<bool>)
    requires next <= |input|
    ensures |r| == bits + 8 * (|input| - next)
  {
    ToBits(hold, bits) + FromBytes(input[next..])
  }

  lemma PullStep(hold: nat, bits: nat, input: seq<Byte>, next: nat)
    requires next < |input| && hold < Pow2(bits)
    ensures hold + Shl(input[next], bits) < Pow2(bits + 8)
    ensures Unread(hold + Shl(input[next], bits), bits + 8, input, next + 1) ==
            Unread(hold, bits, input, next)
  {
    hide ToBits, Shl;
    var b := input[next];
    ToBitsAppend(hold, bits, b, 8);
    assert Pow2(8) == 256;
    ShlLess(b, 256, bits);
    ShlPow2(8, bits);
    var s := input[next..];
    assert s[0] == b && s[1..] == input[next + 1..];
    assert (ToBits(hold, bits) + ToBits(b, 8)) + FromBytes(s[1..]) ==
           ToBits(hold, bits) + (ToBits(b, 8) + FromBytes(s[1..]));
  }

  lemma DropStep(hold: nat, bits: nat, n: nat, input: seq<Byte>, next: nat)
    requires next <= |input| && hold < Pow2(bits) && n <= bits
    ensures Shr(hold, n) < Pow2(bits - n)
    ensures var u := Unread(hold, bits, input, next);
            && u[n..] == Unread(Shr(hold, n), bits - n, input, next)
            && u[..n] == ToBits(hold, n) && Get(u, n) == Low(hold, n)
  {
    hide ToBits, Shr;
    ShrBound(hold, n, bits - n);
    ToBitsSplit(hold, n, bits);
    ValueToBits(hold, n);
    var a, b, c := ToBits(hold, n), ToBits(Shr(hold, n), bits - n), FromBytes(input[next..]);
    var u := Unread(hold, bits, input, next);
    assert u == a + (b + c) by { assert (a + b) + c == a + (b + c); }
    assert u[..n] == a && u[n..] == b + c;
  }

  lemma {:induction false} FromBytesConcat(a: seq<Byte>, b: seq<Byte>)
    ensures FromBytes(a + b) == FromBytes(a) + FromBytes(b)
  {
    hide ToBits;
    if a == [] {
      assert a + b == b;
    } else {
      FromBytesConcat(a[1..], b);
      assert (a + b)[1..] == a[1..] + b;
      assert ToBits(a[0], 8) + (FromBytes(a[1..]) + FromBytes(b)) == (ToBits(a[0], 8) + FromBytes(a[1..])) + FromBytes(b);
    }
  }

  // More input goes to the end of the stream.
  lemma MoreUnread(hold: nat, bits: nat, input: seq<Byte>, next: nat, more: seq<Byte>)
    requires next <= |input|
    ensures Unread(hold, bits, input[next..] + more, 0) == Unread(hold, bits, input, next) + FromBytes(more)
  {
    hide ToBits, FromBytes;
    FromBytesConcat(input[next..], more);
    assert (input[next..] + more)[0..] == input[next..] + more;
    assert ToBits(hold, bits) + (FromBytes(input[next..]) + FromBytes(more)) ==
           (ToBits(hold, bits) + FromBytes(input[next..])) + FromBytes(more);
  }

  lemma FromBytesDrop(s: seq<Byte>, j: nat)
    requires j <= |s|
    ensures FromBytes(s)[8 * j..] == FromBytes(s[j..])
  {
    FromBytesConcat(s[..j], s[j..]);
    assert s[..j] + s[j..] == s;
  }

  // The last k bits held, as far as they make whole bytes, are the bytes of
  // this call's input just before next: they can be handed back.
  ghost predicate Backed(hold: nat, bits: nat, input: seq<Byte>, next: nat, k: nat)
    requires next <= |input|
  {
    k <= bits && k / 8 <= next &&
    ToBits(hold, bits)[bits - 8 * (k / 8)..] == FromBytes(input[next - k / 8..next])
  }

  lemma BackedNone(hold: nat, bits: nat, input: seq<Byte>, next: nat, k: nat)
    requires next <= |input| && k < 8 && k <= bits
    ensures Backed(hold, bits, input, next, k)
  {
    assert input[next..next] == [];
  }

  lemma BackedPull(hold: nat, bits: nat, input: seq<Byte>, next: nat, k: nat)
    requires next < |input| && hold < Pow2(bits) && Backed(hold, bits, input, next, k)
    ensures Backed(hold + Shl(input[next], bits), bits + 8, input, next + 1, k + 8)
  {
    hide ToBits, Shl, Pow2;
    var b, q := input[next], k / 8;
    ToBitsAppend(hold, bits, b, 8);
    FromBytesConcat(input[next - q..next], [b]);
    assert FromBytes([b]) == ToBits(b, 8) by { assert [b][1..] == []; }
    assert input[next - q..next] + [b] == input[next - q..next + 1];
    var w := ToBits(hold, bits);
    assert (w + ToBits(b, 8))[bits - 8 * q..] == w[bits - 8 * q..] + ToBits(b, 8);
  }

  lemma BackedDrop(hold: nat, bits: nat, n: nat, input: seq<Byte>, next: nat, k: nat, k': nat)
    requires next <= |input| && Backed(hold, bits, input, next, k) && n <= bits
    requires k' <= k && k' <= bits - n
    ensures Backed(Shr(hold, n), bits - n, input, next, k')
  {
    hide ToBits, Shr;
    ToBitsSplit(hold, n, bits);
    var q, q' := k / 8, k' / 8;
    var w, s := ToBits(hold, bits), input[next - q..next];
    FromBytesDrop(s, q - q');
    assert s[q - q'..] == input[next - q'..next];
    assert ToBits(Shr(hold, n), bits - n) == w[n..];
    DropDrop(w, bits - 8 * q, 8 * (q - q'));
    DropDrop(w, n, bits - n - 8 * q');
  }

  lemma DropDrop(w: seq<bool>, i: nat, j: nat)
    requires i + j <= |w|
    ensures w[i..][j..] == w[i + j..]
  {
  }

  // Handing the whole bytes back leaves the stream as it is.
  lemma GiveBack(hold: nat, bits: nat, input: seq<Byte>, next: nat)
    requires next <= |input| && Backed(hold, bits, input, next, bits)
    ensures var q := bits / 8;
            Unread(Low(hold, bits - 8 * q), bits - 8 * q, input, next - q) == Unread(hold, bits, input, next)
  {
    hide ToBits, Low, FromBytes;
    var q := bits / 8;
    var n := bits - 8 * q;
    ToBitsLow(hold, n);
    ToBitsSplit(hold, n, bits);
    FromBytesConcat(input[next - q..next], input[next..]);
    assert input[next - q..next] + (input[next..]) == input[next - q..];
    var w, f, g := ToBits(hold, bits), FromBytes(input[next - q..next]), FromBytes(input[next..]);
    assert w[..n] == ToBits(hold, n) && w == w[..n] + w[n..];
    assert (w[..n] + f) + g == w[..n] + (f + g);
  }

  // With 32 bits held: the two 16-bit halves, and what comes after them.
  lemma HeldHalves(hold: nat, input: seq<Byte>, next: nat)
    requires next <= |input| && hold < Pow2(32)
    ensures var u := Unread(hold, 32, input, next);
            && Get(u, 16) == Low(hold, 16) && Get(u[16..], 16) == Shr(hold, 16) <= 0xffff
            && |u| % 8 == 0 && u[32..] == Unread(0, 0, input, next)
  {
    hide ToBits, Shr, Low, FromBytes, Pow2;
    DropStep(hold, 32, 16, input, next);
    DropStep(Shr(hold, 16), 16, 16, input, next);
    LowOfSmall(Shr(hold, 16), 16);
    Pow2Sixteen();
    DropAll(hold, 32, input, next);
  }

  lemma Pow2Sixteen()
    ensures Pow2(16) == 0x10000
  {
    assert Pow2(8) == 256 && Pow2(16) == 256 * Pow2(8);
  }

  // INITBITS after all the bits held have been used.
  lemma DropAll(hold: nat, bits: nat, input: seq<Byte>, next: nat)
    requires next <= |input|
    ensures Unread(hold, bits, input, next)[bits..] == Unread(0, 0, input, next)
  {
    hide FromBytes;
    assert ToBits(0, 0) == [];
  }
}
