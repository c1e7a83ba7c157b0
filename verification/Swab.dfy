/**
 ext2fs/bitops.h: the C versions of the byte swaps, which the ARM build uses,
 and the conversions between host order and a fixed one.
 */
module Swab {
  function Swab16(val: bv16): bv16 {
    (val >> 8) | (val << 8)
  }

  function Swab32(val: bv32): bv32 {
    (val >> 24) | ((val >> 8) & 0xFF00) | ((val << 8) & 0xFF0000) | (val << 24)
  }

  function Swab64(val: bv64): bv64 {
    (Swab32((val >> 32) as bv32) as bv64) | ((Swab32((val & 0xFFFF_FFFF) as bv32) as bv64) << 32)
  }

  // Byte k of a word.
  function Byte16(x: bv16, k: nat): bv8
    requires k < 2
  {
    if k == 0 then (x & 0xFF) as bv8 else (x >> 8) as bv8
  }

  function Byte32(x: bv32, k: nat): bv8
    requires k < 4
  {
    if k == 0 then (x & 0xFF) as bv8
    else if k == 1 then ((x >> 8) & 0xFF) as bv8
    else if k == 2 then ((x >> 16) & 0xFF) as bv8
    else (x >> 24) as bv8
  }

  // The bytes of a number, least significant first.
  function Bytes16(x: bv16): seq<bv8> {
    [Byte16(x, 0), Byte16(x, 1)]
  }

  function Bytes32(x: bv32): seq<bv8> {
    [Byte32(x, 0), Byte32(x, 1), Byte32(x, 2), Byte32(x, 3)]
  }

  function Bytes64(x: bv64): seq<bv8> {
    Bytes32((x & 0xFFFF_FFFF) as bv32) + Bytes32((x >> 32) as bv32)
  }

  function Reverse(s: seq<bv8>): (r: seq<bv8>)
    ensures |r| == |s|
    ensures forall i :: 0 <= i < |s| ==> r[i] == s[|s| - 1 - i]
  {
    if s == [] then [] else Reverse(s[1..]) + [s[0]]
  }

  lemma ReverseIs(s: seq<bv8>, t: seq<bv8>)
    requires |t| == |s| && forall i :: 0 <= i < |s| ==> t[i] == s[|s| - 1 - i]
    ensures t == Reverse(s)
  {
  }

  lemma Swab16Bits(x: bv16)
    ensures Byte16(Swab16(x), 0) == Byte16(x, 1) && Byte16(Swab16(x), 1) == Byte16(x, 0)
    ensures Swab16(Swab16(x)) == x
  {
  }

  lemma Swab32Bits(x: bv32)
    ensures Byte32(Swab32(x), 0) == Byte32(x, 3) && Byte32(Swab32(x), 3) == Byte32(x, 0)
    ensures Byte32(Swab32(x), 1) == Byte32(x, 2) && Byte32(Swab32(x), 2) == Byte32(x, 1)
    ensures Swab32(Swab32(x)) == x
  {
  }

  lemma TwoBytes(x: bv16, y: bv16)
    requires Byte16(y, 0) == Byte16(x, 1) && Byte16(y, 1) == Byte16(x, 0)
    ensures Bytes16(y) == Reverse(Bytes16(x))
  {
    ReverseIs([Byte16(x, 0), Byte16(x, 1)], [Byte16(y, 0), Byte16(y, 1)]);
  }

  lemma FourBytes(x: bv32, y: bv32)
    requires Byte32(y, 0) == Byte32(x, 3) && Byte32(y, 3) == Byte32(x, 0)
    requires Byte32(y, 1) == Byte32(x, 2) && Byte32(y, 2) == Byte32(x, 1)
    ensures Bytes32(y) == Reverse(Bytes32(x))
  {
    ReverseIs(Bytes32(x), Bytes32(y));
  }

  /** Each swap reverses the bytes of its argument, and undoes itself. */
  lemma Swab16Reverses(x: bv16)
    ensures Bytes16(Swab16(x)) == Reverse(Bytes16(x))
    ensures Swab16(Swab16(x)) == x
  {
    Swab16Bits(x);
    TwoBytes(x, Swab16(x));
  }

  lemma Swab32Reverses(x: bv32)
    ensures Bytes32(Swab32(x)) == Reverse(Bytes32(x))
    ensures Swab32(Swab32(x)) == x
  {
    Swab32Bits(x);
    FourBytes(x, Swab32(x));
  }

  lemma Halves(a: bv32, b: bv32)
    ensures var x := (a as bv64) | ((b as bv64) << 32);
            (x & 0xFFFF_FFFF) as bv32 == a && (x >> 32) as bv32 == b
  {
  }

  lemma HalvesTogether(x: bv64)
    ensures (((x & 0xFFFF_FFFF) as bv32) as bv64) | ((((x >> 32) as bv32) as bv64) << 32) == x
  {
  }

  lemma ReverseAppend(s: seq<bv8>, t: seq<bv8>)
    ensures Reverse(s + t) == Reverse(t) + Reverse(s)
  {
    ReverseIs(s + t, Reverse(t) + Reverse(s));
  }

  lemma Swab64Reverses(x: bv64)
    ensures Bytes64(Swab64(x)) == Reverse(Bytes64(x))
    ensures Swab64(Swab64(x)) == x
  {
    var low, high := (x & 0xFFFF_FFFF) as bv32, (x >> 32) as bv32;
    Halves(Swab32(high), Swab32(low));
    Swab32Reverses(low);
    Swab32Reverses(high);
    ReverseAppend(Bytes32(low), Bytes32(high));
    HalvesTogether(x);
  }

  // ---- Host order: WORDS_BIGENDIAN or not ----

  datatype Order = Little | Big

  // How a host of order `o` lays a number out in memory.
  function Stored16(o: Order, x: bv16): seq<bv8> {
    if o.Little? then Bytes16(x) else Reverse(Bytes16(x))
  }

  function Stored32(o: Order, x: bv32): seq<bv8> {
    if o.Little? then Bytes32(x) else Reverse(Bytes32(x))
  }

  function Stored64(o: Order, x: bv64): seq<bv8> {
    if o.Little? then Bytes64(x) else Reverse(Bytes64(x))
  }

  /** What lies in memory, byte by byte: the low eight bits first on a little-endian
      host and last on a big-endian one. */
  lemma MemoryIs(x: bv16, y: bv32, z: bv64)
    ensures Stored16(Little, x) == [(x & 0xFF) as bv8, ((x >> 8) & 0xFF) as bv8]
    ensures Stored16(Big, x) == [((x >> 8) & 0xFF) as bv8, (x & 0xFF) as bv8]
    ensures Stored32(Little, y) ==
            [(y & 0xFF) as bv8, ((y >> 8) & 0xFF) as bv8, ((y >> 16) & 0xFF) as bv8, ((y >> 24) & 0xFF) as bv8]
    ensures Stored32(Big, y) ==
            [((y >> 24) & 0xFF) as bv8, ((y >> 16) & 0xFF) as bv8, ((y >> 8) & 0xFF) as bv8, (y & 0xFF) as bv8]
    ensures var low, high := (z & 0xFFFF_FFFF) as bv32, ((z >> 32) & 0xFFFF_FFFF) as bv32;
            && Stored64(Little, z) == Stored32(Little, low) + Stored32(Little, high)
            && Stored64(Big, z) == Stored32(Big, high) + Stored32(Big, low)
  {
    TopByte16(x);
    TopByte32(y);
    TopHalf(z);
    ReverseAppend(Bytes32((z & 0xFFFF_FFFF) as bv32), Bytes32((z >> 32) as bv32));
  }

  lemma TopByte16(x: bv16)
    ensures (x >> 8) & 0xFF == x >> 8
  {
  }

  lemma TopByte32(y: bv32)
    ensures (y >> 24) & 0xFF == y >> 24
  {
  }

  lemma TopHalf(z: bv64)
    ensures (z >> 32) & 0xFFFF_FFFF == z >> 32
  {
  }

  // ext2fs_cpu_to_le16 and its like: one macro for each host order; the macros in
  // the other direction have the same bodies.
  function Convert16(host: Order, target: Order, x: bv16): bv16 {
    if host == target then x else Swab16(x)
  }

  function Convert32(host: Order, target: Order, x: bv32): bv32 {
    if host == target then x else Swab32(x)
  }

  function Convert64(host: Order, target: Order, x: bv64): bv64 {
    if host == target then x else Swab64(x)
  }

  lemma ReverseTwice(s: seq<bv8>)
    ensures Reverse(Reverse(s)) == s
  {
    ReverseIs(Reverse(s), s);
  }

  /** A converted number lies in memory in the target's order whatever the host's
      is, and the conversion back gives the number itself. */
  lemma ConversionIsPortable16(host: Order, target: Order, x: bv16)
    ensures Stored16(host, Convert16(host, target, x)) == Stored16(target, x)
    ensures Convert16(host, target, Convert16(host, target, x)) == x
  {
    Swab16Reverses(x);
    ReverseTwice(Bytes16(x));
  }

  lemma ConversionIsPortable32(host: Order, target: Order, x: bv32)
    ensures Stored32(host, Convert32(host, target, x)) == Stored32(target, x)
    ensures Convert32(host, target, Convert32(host, target, x)) == x
  {
    Swab32Reverses(x);
    ReverseTwice(Bytes32(x));
  }

  lemma ConversionIsPortable64(host: Order, target: Order, x: bv64)
    ensures Stored64(host, Convert64(host, target, x)) == Stored64(target, x)
    ensures Convert64(host, target, Convert64(host, target, x)) == x
  {
    Swab64Reverses(x);
    ReverseTwice(Bytes64(x));
  }
}
