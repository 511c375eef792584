// wtmi/efuse.c: writing rows of one-time programmable fuses, with check bytes
// kept in shared rows.
module Efuse {
  import opened Secded

  const ROWS: nat := 44

  // Zero, -EINVAL, -ETIMEDOUT, -EACCES and -EIO.
  datatype Ret = Ok | Invalid | Timeout | Access | Io

  // Row and position (1 to 8) of a row's check byte; row -1 if it has none.
  function Placement(row: nat): (p: (int, nat))
    ensures p.0 == -1 || (0 <= p.0 < ROWS && 1 <= p.1 <= 8)
    // rows go to check bytes in order, eight to a row of these
    ensures row < 7 ==> p == (7, row + 1)
    ensures 8 <= row < 24 ==> p == (24 + (row - 8) / 8, (row - 8) % 8 + 1)
    ensures 26 <= row < 38 ==> p == (38 + (row - 26) / 8, (row - 26) % 8 + 1)
    ensures 40 <= row < 44 ==> p == (39, (row - 40) + 5)
    ensures p.0 == -1 <==> row in {7, 24, 25, 38, 39} || row >= ROWS
  {
    if row == 0 then (7, 1) else if row == 1 then (7, 2) else if row == 2 then (7, 3) else if row == 3 then (7, 4)
    else if row == 4 then (7, 5) else if row == 5 then (7, 6) else if row == 6 then (7, 7) else if row == 7 then (-1, 0)
    else if row == 8 then (24, 1) else if row == 9 then (24, 2) else if row == 10 then (24, 3) else if row == 11 then (24, 4)
    else if row == 12 then (24, 5) else if row == 13 then (24, 6) else if row == 14 then (24, 7) else if row == 15 then (24, 8)
    else if row == 16 then (25, 1) else if row == 17 then (25, 2) else if row == 18 then (25, 3) else if row == 19 then (25, 4)
    else if row == 20 then (25, 5) else if row == 21 then (25, 6) else if row == 22 then (25, 7) else if row == 23 then (25, 8)
    else if row == 24 then (-1, 0) else if row == 25 then (-1, 0) else if row == 26 then (38, 1) else if row == 27 then (38, 2)
    else if row == 28 then (38, 3) else if row == 29 then (38, 4) else if row == 30 then (38, 5) else if row == 31 then (38, 6)
    else if row == 32 then (38, 7) else if row == 33 then (38, 8) else if row == 34 then (39, 1) else if row == 35 then (39, 2)
    else if row == 36 then (39, 3) else if row == 37 then (39, 4) else if row == 38 then (-1, 0) else if row == 39 then (-1, 0)
    else if row == 40 then (39, 5) else if row == 41 then (39, 6) else if row == 42 then (39, 7) else if row == 43 then (39, 8)
    else (-1, 0)
  }

  predicate HasEcc(row: nat) { row < ROWS && Placement(row).0 != -1 }

  // Which row a check byte belongs to.
  function RowOf(p: (int, nat)): int
  {
    if p.0 == 7 then p.1 - 1
    else if p.0 == 24 then p.1 + 7
    else if p.0 == 25 then p.1 + 15
    else if p.0 == 38 then p.1 + 25
    else if p.1 <= 4 then p.1 + 33 else p.1 + 35
  }

  // No two rows share a check byte, and rows of check bytes have none.
  lemma PlacementInjective(r: nat, s: nat)
    requires HasEcc(r) && HasEcc(s) && Placement(r) == Placement(s)
    ensures r == s
  {
    PlacementInverse(r);
    PlacementInverse(s);
  }

  lemma PlacementInverse(r: nat)
    requires HasEcc(r)
    ensures RowOf(Placement(r)) == r && !HasEcc(Placement(r).0)
  {
    var e := Placement(r).0;
    assert e == 7 || e == 24 || e == 25 || e == 38 || e == 39;
  }

  // ---- words ----

  function OrWord(a: Word, b: Word): Word
  {
    seq(64, i requires 0 <= i < 64 => a[i] || b[i])
  }

  predicate Any(a: seq<bool>) { exists i | 0 <= i < |a| :: a[i] }

  predicate Within(a: CheckByte, b: CheckByte) { forall i | 0 <= i < 8 :: a[i] ==> b[i] }

  predicate Subset(a: Word, b: Word) { forall i | 0 <= i < 64 :: a[i] ==> b[i] }

  // secded_ecc(val) << ((pos - 1) * 8)
  function Placed(c: CheckByte, pos: nat): Word
    requires 1 <= pos <= 8
  {
    seq(64, i requires 0 <= i < 64 => (pos - 1) * 8 <= i < pos * 8 && c[i - (pos - 1) * 8])
  }

  // (eccval >> ((pos - 1) * 8)) & 0xff
  function StoredByte(w: Word, pos: nat): CheckByte
    requires 1 <= pos <= 8
  {
    w[(pos - 1) * 8..pos * 8]
  }

  // ---- what writing can do ----

  datatype State = State(rows: seq<Word>, locks: seq<bool>)

  // No bit is cleared, no lock is undone, and no locked row changes.
  ghost predicate Keeps(s: State, t: State)
  {
    && |s.rows| == |s.locks| == |t.rows| == |t.locks| == ROWS
    && forall r | 0 <= r < ROWS ::
         Subset(s.rows[r], t.rows[r]) && (s.locks[r] ==> t.locks[r] && t.rows[r] == s.rows[r])
  }

  lemma KeepsTransitive(s: State, t: State, u: State)
    requires Keeps(s, t) && Keeps(t, u)
    ensures Keeps(s, u)
  {
  }

  // Only row r differs.
  ghost predicate Only(s: State, t: State, r: int)
  {
    |s.rows| == |s.locks| == |t.rows| == |t.locks| == ROWS &&
    forall k | 0 <= k < ROWS && k != r :: t.rows[k] == s.rows[k] && t.locks[k] == s.locks[k]
  }

  // A row that is locked or masked, or whose check byte is locked or there.
  ghost predicate Closed(s: State, masked: seq<bool>, row: nat)
    requires |s.rows| == |s.locks| == |masked| == ROWS && HasEcc(row)
  {
    var e, pos := Placement(row).0, Placement(row).1;
    s.locks[row] || masked[row] || s.locks[e] || (!masked[e] && Any(StoredByte(s.rows[e], pos)))
  }

  class Fuses {
    const rows: array<Word>
    const locks: array<bool>
    const masked: seq<bool>      // unreadable in secure boot
    ghost var faults: nat        // how often the hardware has failed

    ghost predicate Valid()
    {
      rows.Length == ROWS && locks.Length == ROWS && |masked| == ROWS
    }

    ghost function View(): State
      reads rows, locks
    {
      State(rows[..], locks[..])
    }

    constructor (rows: array<Word>, locks: array<bool>, masked: seq<bool>)
      requires rows.Length == ROWS && locks.Length == ROWS && |masked| == ROWS
      ensures Valid() && this.rows == rows && this.locks == locks && this.masked == masked
    {
      this.rows, this.locks, this.masked := rows, locks, masked;
      faults := 0;
    }

    // ---- the hardware ----

    // A step that takes too long.
    ghost method Fail()
      modifies `faults
      ensures faults == old(faults) + 1
    {
      faults := faults + 1;
    }

    // A read may time out, and of a masked row it shows anything.
    method ReadRow(row: nat) returns (res: Ret, val: Word, lock: bool)
      requires Valid() && row < ROWS
      modifies `faults
      ensures res == Ok || res == Timeout
      ensures res == Ok ==> lock == locks[row] && (!masked[row] ==> val == rows[row])
      ensures faults == if res == Timeout then old(faults) + 1 else old(faults)
    {
      val, lock := *, *;
      res := Timeout;
      if * {
        Fail();
        return;
      }
      res, lock := Ok, locks[row];
      if !masked[row] { val := rows[row]; }
    }

    // Whether the check byte kept for a row is the one of its value.
    ghost predicate Checked(row: nat)
      requires Valid() && HasEcc(row)
      reads rows
    {
      StoredByte(rows[Placement(row).0], Placement(row).1) == Ecc(rows[row])
    }

    // A read that checks and corrects: what it shows is the hardware's word. It
    // fails if this is not the value of a row whose check byte is right.
    method ReadRowChecked(row: nat) returns (res: Ret, val: Word)
      requires Valid() && row < ROWS
      modifies `faults
      ensures res == Ok || res == Timeout || res == Io
      ensures faults >= old(faults)
      ensures faults == old(faults) <==> res != Timeout && (HasEcc(row) && !masked[row] && Checked(row) ==> res == Ok && val == rows[row])
    {
      var lock;
      if Placement(row).0 == -1 {
        res, val, lock := ReadRow(row);
        return;
      }
      res, val, lock := ReadRow(Placement(row).0);
      if res != Ok { return; }
      res, val, lock := ReadRow(row);
      if res != Ok { return; }
      val := *;
      if * { res := Io; }
      if !masked[row] && Checked(row) && (res == Io || val != rows[row]) { Fail(); }
    }

    // Programming sets some of the bits asked for, if the row is unlocked; all
    // of them, unless something fails.
    method RawWrite(row: nat, val: Word) returns (res: Ret)
      requires Valid() && row < ROWS
      modifies rows, `faults
      ensures res == Ok || res == Timeout
      ensures Keeps(old(View()), View()) && Only(old(View()), View(), row)
      ensures Subset(rows[row], OrWord(old(rows[row]), val))
      ensures faults >= old(faults)
      ensures faults == old(faults) <==> res == Ok && (locks[row] || rows[row] == OrWord(old(rows[row]), val))
    {
      res := Timeout;
      if * {
        Fail();
        return;
      }
      var v, l;
      res, v, l := ReadRow(row);
      if res != Ok { return; }
      for i := 0 to 64
        invariant Keeps(old(View()), View()) && Only(old(View()), View(), row) && faults >= old(faults)
        invariant Subset(rows[row], OrWord(old(rows[row]), val))
        invariant faults == old(faults) <==> locks[row] || forall k | 0 <= k < i && val[k] :: rows[row][k]
      {
        if val[i] {
          var burnt := *;
          if burnt && !locks[row] { rows[row] := rows[row][i := true]; }
          if !locks[row] && !rows[row][i] { Fail(); }
        }
      }
    }

    // Locks the row, unless something fails.
    method RawLock(row: nat) returns (res: Ret)
      requires Valid() && row < ROWS
      modifies locks, `faults
      ensures res == Ok || res == Timeout
      ensures Keeps(old(View()), View()) && Only(old(View()), View(), row)
      ensures faults >= old(faults)
      ensures faults == old(faults) <==> res == Ok && locks[row]
    {
      res := Timeout;
      if * {
        Fail();
        return;
      }
      var v, l;
      res, v, l := ReadRow(row);
      if res != Ok { return; }
      var burnt := *;
      if burnt { locks[row] := true; }
      if !locks[row] { Fail(); }
    }

    // ---- efuse_write_row_no_ecc() ----

    method WriteRowNoEcc(row: int, val0: Word, lock: bool) returns (res: Ret)
      requires Valid()
      modifies rows, locks, `faults
      ensures Keeps(old(View()), View()) && Only(old(View()), View(), row)
      ensures res == Invalid <==> !(0 <= row < ROWS)
      ensures faults >= old(faults)
      ensures 0 <= row < ROWS ==> Subset(rows[row], OrWord(old(rows[row]), val0)) && (!lock ==> locks[row] == old(locks[row]))
      ensures res == Ok && !old(locks[row]) && !masked[row] ==> rows[row] == OrWord(old(rows[row]), val0)
      ensures res == Ok && lock ==> locks[row]
      // refused only for a locked row, and failing only if the hardware fails
      ensures res == Access ==> old(locks[row]) && Any(val0)
      ensures 0 <= row < ROWS && old(locks[row]) ==> res == Timeout || res == if Any(val0) then Access else Ok
      ensures faults == old(faults) ==> res != Timeout
      ensures res == Io ==> faults >= old(faults) + 5
      ensures faults == old(faults) && res == Ok && !old(locks[row]) ==> rows[row] == OrWord(old(rows[row]), val0)
    {
      if row < 0 || row > 43 { return Invalid; }
      var val, l := *, *;
      res, val, l := ReadRow(row);
      if res != Ok { return; }
      if l { return if Any(val0) then Access else Ok; }
      if Any(val0) {
        res := WriteTries(row, val0, val);
        if res != Ok { return; }
      } else {
        assert OrWord(rows[row], val0) == rows[row];
      }
      if lock {
        res := LockTries(row);
      }
    }

    // Up to five attempts, each read back; one blind attempt if masked.
    method WriteTries(row: nat, val0: Word, val1: Word) returns (res: Ret)
      requires Valid() && row < ROWS && !locks[row] && Any(val0) && (!masked[row] ==> val1 == rows[row])
      modifies rows, `faults
      ensures Keeps(old(View()), View()) && Only(old(View()), View(), row) && faults >= old(faults)
      ensures res == Ok || res == Timeout || res == Io
      ensures Subset(rows[row], OrWord(old(rows[row]), val0))
      ensures res == Ok && !masked[row] ==> rows[row] == OrWord(old(rows[row]), val0)
      ensures faults == old(faults) ==> res == Ok && rows[row] == OrWord(old(rows[row]), val0)
      ensures res == Io ==> faults >= old(faults) + 5
    {
      var val, read := val0, val1;
      if !masked[row] { val := OrWord(val0, val1); }
      res := Ok;
      var tries := 0;
      while tries < 5
        invariant Keeps(old(View()), View()) && Only(old(View()), View(), row) && res == Ok
        invariant tries <= 5 && faults >= old(faults) + tries
        invariant Subset(rows[row], OrWord(old(rows[row]), val0))
        invariant !masked[row] ==> read == rows[row] && val == OrWord(old(rows[row]), val0)
      {
        res := RawWrite(row, val);
        if res != Ok { return; }
        if masked[row] { break; }
        var l;
        res, read, l := ReadRow(row);
        if res != Ok { return; }
        if val == read { break; }
        tries := tries + 1;
      }
      if !masked[row] && val != read { res := Io; }
    }

    method LockTries(row: nat) returns (res: Ret)
      requires Valid() && row < ROWS
      modifies locks, `faults
      ensures Keeps(old(View()), View()) && Only(old(View()), View(), row) && faults >= old(faults)
      ensures res == Ok || res == Timeout || res == Io
      ensures res == Ok ==> locks[row]
      ensures faults == old(faults) ==> res == Ok
      ensures res == Io ==> faults >= old(faults) + 5
    {
      res := Ok;
      var lock, tries := false, 0;
      while tries < 5
        invariant Keeps(old(View()), View()) && Only(old(View()), View(), row) && res == Ok && !lock
        invariant tries <= 5 && faults >= old(faults) + tries
      {
        res := RawLock(row);
        if res != Ok { return; }
        var v;
        res, v, lock := ReadRow(row);
        if res != Ok { return; }
        if lock { break; }
        tries := tries + 1;
      }
      if !lock { res := Io; }
    }

    // ---- efuse_write_row_with_ecc_lock() ----

    method WriteRowWithEccLock(row: int, val0: Word) returns (res: Ret)
      requires Valid()
      modifies rows, locks, `faults
      ensures Keeps(old(View()), View()) && faults >= old(faults)
      ensures res == Invalid <==> !(0 <= row < ROWS && HasEcc(row))
      ensures res == Invalid || res == Access ==> View() == old(View())
      // besides the row and the row of its check byte, nothing changes
      ensures 0 <= row < ROWS && HasEcc(row) ==>
                forall k | 0 <= k < ROWS && k != row && k != Placement(row).0 ::
                  rows[k] == old(rows[k]) && locks[k] == old(locks[k])
      // success: the row holds old | val and is locked
      ensures res == Ok ==> !masked[row] && !old(locks[row]) && locks[row] && rows[row] == OrWord(old(rows[row]), val0)
      // and its check byte is in place, beside the others
      ensures res == Ok && !masked[Placement(row).0] ==>
                var e, pos := Placement(row).0, Placement(row).1;
                && rows[e] == OrWord(old(rows[e]), Placed(Ecc(rows[row]), pos))
                && !Any(StoredByte(old(rows[e]), pos)) && locks[e] == old(locks[e])
      // refused only if it is closed, and always then, unless the hardware fails
      ensures 0 <= row < ROWS && HasEcc(row) ==>
                && (res == Access ==> Closed(old(View()), masked, row))
                && (Closed(old(View()), masked, row) ==> res == Access || res == Timeout)
      // nothing else fails with hardware that does not, except over a check byte
      // that cannot be seen and is another one
      ensures 0 <= row < ROWS && HasEcc(row) && faults == old(faults) ==>
                var e, pos := Placement(row).0, Placement(row).1;
                && res != Timeout
                && (res == Io ==> masked[e] && !Within(StoredByte(old(rows[e]), pos), Ecc(OrWord(old(rows[row]), val0))))
                && (res == Ok ==> rows[e] == OrWord(old(rows[e]), Placed(Ecc(rows[row]), pos)))
    {
      if row < 0 || row > 43 { return Invalid; }
      var e, pos := Placement(row).0, Placement(row).1;
      if e == -1 { return Invalid; }
      PlacementInverse(row);
      var val, read, lock := val0, *, *;
      res, read, lock := ReadRow(row);
      if res != Ok { return; }
      if lock || masked[row] { return Access; }
      var eccval;
      res, eccval, lock := ReadRow(e);
      if res != Ok { return; }
      if lock { return Access; }
      if !masked[e] && Any(StoredByte(eccval, pos)) { return Access; }
      val := OrWord(val, read);
      var check := SecdedEcc(val);
      eccval := Placed(check, pos);
      var i;
      res, i := ScanLocks(row, e);
      if res != Ok { return; }
      OrTwice(rows[row], val0);
      ghost var was := rows[e];
      res := WriteBoth(row, val, e, eccval, i == 45);
      if rows[e] == OrWord(was, eccval) && Within(StoredByte(was, pos), check) {
        CheckBytes(was, rows[e], check, pos, pos);
      }
    }

    // Looks for a row whose check byte shares row e and which is not locked.
    method ScanLocks(row: nat, e: int) returns (res: Ret, i: nat)
      requires Valid()
      modifies `faults
      ensures res == Ok || res == Timeout
      ensures i <= 44
      ensures faults == if res == Timeout then old(faults) + 1 else old(faults)
    {
      i, res := 0, Ok;
      while i < 44
        invariant 0 <= i <= 44 && res == Ok && faults == old(faults)
      {
        if i != row && Placement(i).0 == e && e != -1 {
          // the row of the check bytes is read here, not row i
          var w, lock;
          res, w, lock := ReadRow(Placement(i).0);
          if res != Ok { return; }
          if !lock { break; }
        }
        i := i + 1;
      }
    }

    method WriteBoth(row: nat, val: Word, e: nat, eccval: Word, lockEcc: bool) returns (res: Ret)
      requires Valid() && HasEcc(row) && e == Placement(row).0 && row != e && !locks[row] && !locks[e] && !masked[row]
      modifies rows, locks, `faults
      ensures Keeps(old(View()), View()) && faults >= old(faults)
      ensures res == Ok || res == Timeout || res == Io
      ensures forall k | 0 <= k < ROWS && k != row && k != e :: rows[k] == old(rows[k]) && locks[k] == old(locks[k])
      ensures res == Ok ==> locks[row] && rows[row] == OrWord(old(rows[row]), val)
      ensures res == Ok && !masked[e] ==> rows[e] == OrWord(old(rows[e]), eccval)
      ensures res == Ok && !lockEcc ==> locks[e] == old(locks[e])
      ensures faults == old(faults) ==>
                && res != Timeout && rows[row] == OrWord(old(rows[row]), val) && rows[e] == OrWord(old(rows[e]), eccval)
                && (res == Io ==> rows[row] != val || !Checked(row))
    {
      hide Keeps;
      ghost var s0 := View();
      res := WriteRowNoEcc(row, val, true);
      ghost var s1 := View();
      if res != Ok { return; }
      res := WriteRowNoEcc(e, eccval, lockEcc);
      KeepsTransitive(s0, s1, View());
      if res != Ok { return; }
      var read;
      res, read := ReadRowChecked(row);
      if res != Ok { return; }
      if read != val { res := Io; }
    }
  }

  lemma OrTwice(a: Word, b: Word)
    ensures OrWord(a, OrWord(b, a)) == OrWord(a, b) == OrWord(b, a)
  {
  }

  // The check byte just written is the row's, and all others stay.
  lemma CheckBytes(e: Word, e': Word, c: CheckByte, pos: nat, other: nat)
    requires 1 <= pos <= 8 && 1 <= other <= 8 && e' == OrWord(e, Placed(c, pos)) && Within(StoredByte(e, pos), c)
    ensures StoredByte(e', pos) == c
    ensures other != pos ==> StoredByte(e', other) == StoredByte(e, other)
  {
    forall i | 0 <= i < 8
      ensures StoredByte(e', pos)[i] == c[i]
    {
      assert StoredByte(e, pos)[i] ==> c[i];
    }
  }

  function CheckOf(rows: seq<Word>, r: nat): CheckByte
    requires |rows| == ROWS && HasEcc(r)
  {
    StoredByte(rows[Placement(r).0], Placement(r).1)
  }

  // After a successful write with ECC: the row has its check byte, and every
  // other row has the one it had.
  lemma ChecksAfterWrite(before: seq<Word>, after: seq<Word>, row: nat, other: nat)
    requires |before| == |after| == ROWS && HasEcc(row) && HasEcc(other)
    requires var e, pos := Placement(row).0, Placement(row).1;
             after[e] == OrWord(before[e], Placed(Ecc(after[row]), pos)) && !Any(StoredByte(before[e], pos))
    requires forall k | 0 <= k < ROWS && k != row && k != Placement(row).0 :: after[k] == before[k]
    ensures CheckOf(after, row) == Ecc(after[row])
    ensures other != row ==> CheckOf(after, other) == CheckOf(before, other)
  {
    hide Ecc, OrWord, Placed, StoredByte;
    var e, pos := Placement(row).0, Placement(row).1;
    CheckBytes(before[e], after[e], Ecc(after[row]), pos, Placement(other).1);
    PlacementInverse(other);
    if other != row && Placement(other).0 == e && Placement(other).1 == pos { PlacementInjective(row, other); }
  }

  // ---- efuse_write_secure_buffer() ----

  // The rows of the private key.
  function KeyRow(i: nat): (r: nat)
    requires i < 9
    ensures r < ROWS && HasEcc(r)
  {
    if i < 8 then 30 + i else 40
  }

  // A row's word, its lock, its check byte and the lock of that.
  function Kept(s: State, r: nat): (Word, bool, CheckByte, bool)
    requires |s.rows| == |s.locks| == ROWS && HasEcc(r)
  {
    (s.rows[r], s.locks[r], CheckOf(s.rows, r), s.locks[Placement(r).0])
  }

  // Written, with its check byte, and locked.
  ghost predicate Done(s: State, was: Word, r: nat, val: Word)
    requires |s.rows| == |s.locks| == ROWS && HasEcc(r)
  {
    s.rows[r] == OrWord(was, val) && s.locks[r] && CheckOf(s.rows, r) == Ecc(s.rows[r])
  }

  // The first n rows of the key have been written, the others are as they were.
  ghost predicate Written(before: State, s: State, key: seq<Word>, n: nat)
    requires |before.rows| == |before.locks| == |s.rows| == |s.locks| == ROWS && n <= 9 == |key|
  {
    && (forall k | 0 <= k < n :: Done(s, before.rows[KeyRow(k)], KeyRow(k), key[k]))
    && (forall k | n <= k < 9 :: Kept(s, KeyRow(k)) == Kept(before, KeyRow(k)))
  }

  lemma WrittenNext(before: State, s: State, t: State, key: seq<Word>, n: nat)
    requires |before.rows| == |before.locks| == |s.rows| == |s.locks| == |t.rows| == |t.locks| == ROWS
    requires n < 9 == |key| && Written(before, s, key, n) && Done(t, s.rows[KeyRow(n)], KeyRow(n), key[n])
    requires forall r | HasEcc(r) && r != KeyRow(n) :: Kept(t, r) == Kept(s, r)
    ensures Written(before, t, key, n + 1)
  {
    hide Ecc, OrWord, StoredByte, HasEcc;
    forall k | 0 <= k < 9 && k != n ensures Kept(t, KeyRow(k)) == Kept(s, KeyRow(k)) {}
    assert Kept(s, KeyRow(n)) == Kept(before, KeyRow(n));
  }

  lemma ClosedAlike(before: State, s: State, masked: seq<bool>, key: seq<Word>, n: nat)
    requires |before.rows| == |before.locks| == |s.rows| == |s.locks| == |masked| == ROWS
    requires n < 9 == |key| && Written(before, s, key, n)
    ensures Closed(s, masked, KeyRow(n)) == Closed(before, masked, KeyRow(n))
  {
    hide Done, HasEcc;
    assert Kept(s, KeyRow(n)) == Kept(before, KeyRow(n));
  }

  // A successful write with ECC, and what it leaves of another row.
  method WriteKeyRow(f: Fuses, r: nat, val: Word) returns (res: Ret)
    requires f.Valid() && HasEcc(r)
    modifies f.rows, f.locks, f`faults
    ensures Keeps(old(f.View()), f.View()) && f.faults >= old(f.faults)
    ensures res == Ok && !f.masked[Placement(r).0] ==> Done(f.View(), old(f.rows[r]), r, val)
    ensures res == Ok && !f.masked[Placement(r).0] ==> forall s | HasEcc(s) && s != r :: Kept(f.View(), s) == Kept(old(f.View()), s)
    ensures f.faults == old(f.faults) && !f.masked[Placement(r).0] ==> (res == Ok <==> !Closed(old(f.View()), f.masked, r))
  {
    hide Keeps, Ecc, OrWord, Placed, StoredByte;
    ghost var before := f.View();
    res := f.WriteRowWithEccLock(r, val);
    if res == Ok && !f.masked[Placement(r).0] {
      forall s | HasEcc(s) ensures s != r ==> Kept(f.View(), s) == Kept(before, s) {
        PlacementInverse(s);
        PlacementInverse(r);
        ChecksAfterWrite(before.rows, f.rows[..], r, s);
      }
      ChecksAfterWrite(before.rows, f.rows[..], r, r);
    }
  }

  type Half = s: seq<bool> | |s| == 32 witness seq(32, i => false)

  // The words of the key: two halves each, the low one first; the last has one.
  function KeyWord(priv: seq<Half>, i: nat): Word
    requires |priv| == 17 && i < 9
  {
    var low: seq<bool> := if i < 8 then priv[2 * i] else priv[16];
    var high: seq<bool> := if i < 8 then priv[2 * i + 1] else seq(32, k => false);
    low + high
  }

  // The private key, in nine rows which share two rows of check bytes. With
  // hardware that does not fail, all of it is written if the rows are open.
  method WriteSecureBuffer(f: Fuses, priv: seq<Half>) returns (res: Ret)
    requires f.Valid() && |priv| == 17
    modifies f.rows, f.locks, f`faults
    ensures Keeps(old(f.View()), f.View())
    ensures res == Ok && !f.masked[38] && !f.masked[39] ==> forall i | 0 <= i < 9 :: Done(f.View(), old(f.rows[KeyRow(i)]), KeyRow(i), KeyWord(priv, i))
    ensures f.faults == old(f.faults) && !f.masked[38] && !f.masked[39] ==> (res == Ok <==> forall i | 0 <= i < 9 :: !Closed(old(f.View()), f.masked, KeyRow(i)))
  {
    hide Keeps, Kept, Done, Closed, Written, HasEcc, KeyWord;
    ghost var key := seq(9, i requires 0 <= i < 9 => KeyWord(priv, i));
    ghost var before, seen := f.View(), !f.masked[38] && !f.masked[39];
    KeepsItself(before);
    WrittenNone(before, key);
    res := Ok;
    for i := 0 to 9
      invariant Keeps(before, f.View()) && f.faults >= old(f.faults) && res == Ok
      invariant seen ==> Written(before, f.View(), key, i)
      invariant seen && f.faults == old(f.faults) ==> forall k | 0 <= k < i :: !Closed(before, f.masked, KeyRow(k))
    {
      ghost var s := f.View();
      if seen { ClosedAlike(before, s, f.masked, key, i); }
      res := WriteKeyRow(f, KeyRow(i), KeyWord(priv, i));
      KeepsTransitive(before, s, f.View());
      if res != Ok { return; }
      if seen { WrittenNext(before, s, f.View(), key, i); }
    }
    if seen { WrittenAll(before, f.View(), key); }
  }

  lemma WrittenNone(s: State, key: seq<Word>)
    requires |s.rows| == |s.locks| == ROWS && |key| == 9
    ensures Written(s, s, key, 0)
  {
  }

  lemma WrittenAll(before: State, s: State, key: seq<Word>)
    requires |before.rows| == |before.locks| == |s.rows| == |s.locks| == ROWS && |key| == 9 && Written(before, s, key, 9)
    ensures forall i | 0 <= i < 9 :: Done(s, before.rows[KeyRow(i)], KeyRow(i), key[i])
  {
  }

  lemma KeepsItself(s: State)
    requires |s.rows| == |s.locks| == ROWS
    ensures Keeps(s, s)
  {
  }

  // ---- runs ----

  datatype Op = Write(row: int, val: Word, lock: bool) | WriteWithEcc(row: int, val: Word)

  // Whatever is written, in whatever order, and however the hardware fails.
  method Session(f: Fuses, ops: seq<Op>)
    requires f.Valid()
    modifies f.rows, f.locks, f`faults
    ensures Keeps(old(f.View()), f.View())
  {
    for i := 0 to |ops|
      invariant Keeps(old(f.View()), f.View())
    {
      var res;
      match ops[i]
      case Write(row, val, lock) => res := f.WriteRowNoEcc(row, val, lock);
      case WriteWithEcc(row, val) => res := f.WriteRowWithEccLock(row, val);
    }
  }
}
