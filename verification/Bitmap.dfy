/**
 ext2fs/bitops.h: single bits of a byte buffer, set and cleared in place.
 The 32-bit and the 64-bit forms differ in the type of the index only.
 */
module Bitmap {
  import opened Powers

  // Bit k of a byte.
  predicate Bit(b: bv8, k: nat)
    requires k < 8
  {
    (b >> k) & 1 == 1
  }

  // 1 << (nr & 7), as an unsigned char
  function Mask(k: nat): (m: bv8)
    requires k < 8
  {
    if k == 0 then 0x01 else if k == 1 then 0x02 else if k == 2 then 0x04 else if k == 3 then 0x08
    else if k == 4 then 0x10 else if k == 5 then 0x20 else if k == 6 then 0x40 else 0x80
  }

  // The numbers whose bit is one: bit nr is bit nr & 7 of byte nr >> 3.
  function Bits(bytes: seq<bv8>): (s: set<nat>)
    ensures forall nr :: nr in s <==> 0 <= nr < 8 * |bytes| && (bytes[nr / 8] >> (nr % 8)) & 1 == 1
  {
    set nr: nat | 0 <= nr < 8 * |bytes| && Bit(bytes[nr / 8], nr % 8)
  }

  function WithBit(bytes: seq<bv8>, nr: nat): seq<bv8>
    requires nr / 8 < |bytes|
  {
    bytes[nr / 8 := bytes[nr / 8] | Mask(nr % 8)]
  }

  function WithoutBit(bytes: seq<bv8>, nr: nat): seq<bv8>
    requires nr / 8 < |bytes|
  {
    bytes[nr / 8 := bytes[nr / 8] & !Mask(nr % 8)]
  }

  /** The mask of bit k is the byte that holds 2^k. */
  lemma MaskIsPower(k: nat)
    requires k < 8
    ensures Mask(k) == 1 << k
    ensures Mask(k) as int == Pow(2, k)
  {
    PowersToSeven();
  }

  lemma PowersToSeven()
    ensures Pow(2, 0) == 1 && Pow(2, 1) == 2 && Pow(2, 2) == 4 && Pow(2, 3) == 8
    ensures Pow(2, 4) == 16 && Pow(2, 5) == 32 && Pow(2, 6) == 64 && Pow(2, 7) == 128
  {
    assert Pow(2, 1) == 2 && Pow(2, 2) == 4 && Pow(2, 3) == 8 && Pow(2, 4) == 16;
    assert Pow(2, 5) == 32 && Pow(2, 6) == 64;
  }

  lemma MaskDigit(b: bv8, k: nat)
    requires k < 8
    ensures Bit(b, k) <==> b & Mask(k) != 0
  {
  }

  lemma OneByte(b: bv8, j: nat, k: nat)
    requires j < 8 && k < 8
    ensures Bit(b | Mask(k), j) <==> j == k || Bit(b, j)
    ensures Bit(b & !Mask(k), j) <==> j != k && Bit(b, j)
  {
    OneByteMasked(b, b | Mask(k), b & !Mask(k), j);
    OneMask(b, j, k);
  }

  lemma OneByteMasked(b: bv8, c: bv8, d: bv8, j: nat)
    requires j < 8
    ensures Bit(b, j) <==> b & Mask(j) != 0
    ensures Bit(c, j) <==> c & Mask(j) != 0
    ensures Bit(d, j) <==> d & Mask(j) != 0
  {
    MaskDigit(b, j);
    MaskDigit(c, j);
    MaskDigit(d, j);
  }

  lemma OneMask(b: bv8, j: nat, k: nat)
    requires j < 8 && k < 8
    ensures (b | Mask(k)) & Mask(j) != 0 <==> j == k || b & Mask(j) != 0
    ensures b & !Mask(k) & Mask(j) != 0 <==> j != k && b & Mask(j) != 0
  {
  }

  lemma SetBitIsInsert(bytes: seq<bv8>, nr: nat)
    requires nr < 8 * |bytes|
    ensures Bits(WithBit(bytes, nr)) == Bits(bytes) + {nr}
  {
    forall i: nat | i < 8 * |bytes|
      ensures i in Bits(WithBit(bytes, nr)) <==> i in Bits(bytes) || i == nr
    {
      InsertAt(bytes, nr, i);
    }
  }

  lemma InsertAt(bytes: seq<bv8>, nr: nat, i: nat)
    requires nr < 8 * |bytes| && i < 8 * |bytes|
    ensures i in Bits(WithBit(bytes, nr)) <==> i in Bits(bytes) || i == nr
  {
    OneByte(bytes[nr / 8], i % 8, nr % 8);
  }

  lemma ClearBitIsRemove(bytes: seq<bv8>, nr: nat)
    requires nr < 8 * |bytes|
    ensures Bits(WithoutBit(bytes, nr)) == Bits(bytes) - {nr}
  {
    forall i: nat | i < 8 * |bytes|
      ensures i in Bits(WithoutBit(bytes, nr)) <==> i in Bits(bytes) && i != nr
    {
      RemoveAt(bytes, nr, i);
    }
  }

  lemma RemoveAt(bytes: seq<bv8>, nr: nat, i: nat)
    requires nr < 8 * |bytes| && i < 8 * |bytes|
    ensures i in Bits(WithoutBit(bytes, nr)) <==> i in Bits(bytes) && i != nr
  {
    OneByte(bytes[nr / 8], i % 8, nr % 8);
  }

  // ext2fs_fast_set_bit
  method FastSetBit(nr: nat, addr: array<bv8>)
    requires nr < 0x1_0000_0000 && nr < 8 * addr.Length
    modifies addr
    ensures addr[..] == WithBit(old(addr[..]), nr)
    ensures Bits(addr[..]) == old(Bits(addr[..])) + {nr}
  {
    SetBitIsInsert(addr[..], nr);
    addr[nr / 8] := addr[nr / 8] | Mask(nr % 8);
  }

  // ext2fs_fast_clear_bit
  method FastClearBit(nr: nat, addr: array<bv8>)
    requires nr < 0x1_0000_0000 && nr < 8 * addr.Length
    modifies addr
    ensures addr[..] == WithoutBit(old(addr[..]), nr)
    ensures Bits(addr[..]) == old(Bits(addr[..])) - {nr}
  {
    ClearBitIsRemove(addr[..], nr);
    addr[nr / 8] := addr[nr / 8] & !Mask(nr % 8);
  }

  // ext2fs_fast_set_bit64
  method FastSetBit64(nr: nat, addr: array<bv8>)
    requires nr < 0x1_0000_0000_0000_0000 && nr < 8 * addr.Length
    modifies addr
    ensures addr[..] == WithBit(old(addr[..]), nr)
    ensures Bits(addr[..]) == old(Bits(addr[..])) + {nr}
  {
    SetBitIsInsert(addr[..], nr);
    addr[nr / 8] := addr[nr / 8] | Mask(nr % 8);
  }

  // ext2fs_fast_clear_bit64
  method FastClearBit64(nr: nat, addr: array<bv8>)
    requires nr < 0x1_0000_0000_0000_0000 && nr < 8 * addr.Length
    modifies addr
    ensures addr[..] == WithoutBit(old(addr[..]), nr)
    ensures Bits(addr[..]) == old(Bits(addr[..])) - {nr}
  {
    ClearBitIsRemove(addr[..], nr);
    addr[nr / 8] := addr[nr / 8] & !Mask(nr % 8);
  }

  /** On an index both types hold, the two widths do the same to equal buffers. */
  method SetWidthsAgree(nr: nat, a: array<bv8>, b: array<bv8>)
    requires nr < 0x1_0000_0000 && nr < 8 * a.Length && a != b && a[..] == b[..]
    modifies a, b
    ensures a[..] == b[..] == WithBit(old(a[..]), nr)
  {
    FastSetBit(nr, a);
    FastSetBit64(nr, b);
  }

  method ClearWidthsAgree(nr: nat, a: array<bv8>, b: array<bv8>)
    requires nr < 0x1_0000_0000 && nr < 8 * a.Length && a != b && a[..] == b[..]
    modifies a, b
    ensures a[..] == b[..] == WithoutBit(old(a[..]), nr)
  {
    FastClearBit(nr, a);
    FastClearBit64(nr, b);
  }

  // ---- Runs ----

  datatype Op = Set(nr: nat) | Clear(nr: nat)

  function RunBytes(bytes: seq<bv8>, ops: seq<Op>): (r: seq<bv8>)
    requires forall o <- ops :: o.nr < 8 * |bytes|
    ensures |r| == |bytes|
    decreases |ops|
  {
    if ops == [] then bytes
    else
      var done := RunBytes(bytes, ops[..|ops| - 1]);
      var o := ops[|ops| - 1];
      if o.Set? then WithBit(done, o.nr) else WithoutBit(done, o.nr)
  }

  // What the last operation on `nr` was, if any.
  predicate EndsSet(ops: seq<Op>, nr: nat, before: bool) {
    if ops == [] then before
    else if ops[|ops| - 1].nr == nr then ops[|ops| - 1].Set?
    else EndsSet(ops[..|ops| - 1], nr, before)
  }

  /** After any run of sets and clears, a bit of the buffer is one exactly when some
      operation set it and none behind that cleared it, or it was one and no
      operation cleared it. */
  lemma RunDecidesEveryBit(bytes: seq<bv8>, ops: seq<Op>, nr: nat)
    requires forall o <- ops :: o.nr < 8 * |bytes|
    requires nr < 8 * |bytes|
    ensures nr in Bits(RunBytes(bytes, ops)) <==>
              || (exists i :: 0 <= i < |ops| && ops[i] == Set(nr) && forall j :: i < j < |ops| ==> ops[j] != Clear(nr))
              || (nr in Bits(bytes) && forall j :: 0 <= j < |ops| ==> ops[j] != Clear(nr))
  {
    RunEnds(bytes, ops, nr);
    EndsSetIs(ops, nr, nr in Bits(bytes));
  }

  lemma {:induction false} EndsSetIs(ops: seq<Op>, nr: nat, before: bool)
    ensures EndsSet(ops, nr, before) <==>
              || (exists i :: 0 <= i < |ops| && ops[i] == Set(nr) && forall j :: i < j < |ops| ==> ops[j] != Clear(nr))
              || (before && forall j :: 0 <= j < |ops| ==> ops[j] != Clear(nr))
    decreases |ops|
  {
    if ops != [] {
      var n := |ops| - 1;
      var less := ops[..n];
      EndsSetIs(less, nr, before);
      if ops[n] != Set(nr) && ops[n] != Clear(nr) {
        if i :| 0 <= i < n && less[i] == Set(nr) && forall j :: i < j < n ==> less[j] != Clear(nr) {
          assert ops[i] == Set(nr) && forall j :: i < j < |ops| ==> ops[j] != Clear(nr);
        }
        if i :| 0 <= i < |ops| && ops[i] == Set(nr) && forall j :: i < j < |ops| ==> ops[j] != Clear(nr) {
          assert less[i] == Set(nr) && forall j :: i < j < n ==> less[j] != Clear(nr);
        }
        assert (forall j :: 0 <= j < n ==> less[j] != Clear(nr)) <==> forall j :: 0 <= j < |ops| ==> ops[j] != Clear(nr);
      }
    }
  }

  lemma {:induction false} RunEnds(bytes: seq<bv8>, ops: seq<Op>, nr: nat)
    requires forall o <- ops :: o.nr < 8 * |bytes|
    requires nr < 8 * |bytes|
    ensures nr in Bits(RunBytes(bytes, ops)) <==> EndsSet(ops, nr, nr in Bits(bytes))
    decreases |ops|
  {
    if ops != [] {
      var n := |ops| - 1;
      RunEnds(bytes, ops[..n], nr);
      var done := RunBytes(bytes, ops[..n]);
      assert ops[n] in ops;
      if ops[n].Set? {
        SetBitIsInsert(done, ops[n].nr);
      } else {
        ClearBitIsRemove(done, ops[n].nr);
      }
    }
  }

  /** A buffer is decided by its one-bits. */
  lemma SameBitsSameBytes(a: seq<bv8>, b: seq<bv8>)
    requires |a| == |b| && Bits(a) == Bits(b)
    ensures a == b
  {
    forall i | 0 <= i < |a|
      ensures a[i] == b[i]
    {
      forall k: nat | k < 8
        ensures Bit(a[i], k) <==> Bit(b[i], k)
      {
        assert (8 * i + k) / 8 == i && (8 * i + k) % 8 == k;
        assert 8 * i + k in Bits(a) <==> 8 * i + k in Bits(b);
      }
      ByteOfBits(a[i], b[i]);
    }
  }

  lemma ByteOfBits(a: bv8, b: bv8)
    requires forall k: nat | k < 8 :: Bit(a, k) <==> Bit(b, k)
    ensures a == b
  {
    assert Bit(a, 0) <==> Bit(b, 0);
    assert Bit(a, 1) <==> Bit(b, 1);
    assert Bit(a, 2) <==> Bit(b, 2);
    assert Bit(a, 3) <==> Bit(b, 3);
    assert Bit(a, 4) <==> Bit(b, 4);
    assert Bit(a, 5) <==> Bit(b, 5);
    assert Bit(a, 6) <==> Bit(b, 6);
    assert Bit(a, 7) <==> Bit(b, 7);
  }

  /** A run leaves the buffer byte for byte as it was exactly when every bit ends
      as it began. */
  lemma RunIsIdentity(bytes: seq<bv8>, ops: seq<Op>)
    requires forall o <- ops :: o.nr < 8 * |bytes|
    ensures RunBytes(bytes, ops) == bytes <==>
            forall nr: nat | nr < 8 * |bytes| :: EndsSet(ops, nr, nr in Bits(bytes)) <==> nr in Bits(bytes)
  {
    forall nr: nat | nr < 8 * |bytes|
      ensures nr in Bits(RunBytes(bytes, ops)) <==> EndsSet(ops, nr, nr in Bits(bytes))
    {
      RunEnds(bytes, ops, nr);
    }
    if forall nr: nat | nr < 8 * |bytes| :: EndsSet(ops, nr, nr in Bits(bytes)) <==> nr in Bits(bytes) {
      assert Bits(RunBytes(bytes, ops)) == Bits(bytes);
      SameBitsSameBytes(RunBytes(bytes, ops), bytes);
    }
  }
}
