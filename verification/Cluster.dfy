/**
 Block and cluster arithmetic of ext2fs/ext2fs.h in machine words: every result
 is what is left modulo 2^bits, for 32-bit and 64-bit block numbers alike.
 */
module Cluster {
  import opened Options
  import opened Powers

  // A block number type of `bits` bits and a file system's cluster_ratio_bits.
  datatype Geometry = Geometry(bits: nat, ratioBits: nat) {
    predicate Valid() {
      ratioBits < 31 && ratioBits < bits
    }

    // 2^bits
    function Words(): (m: nat)
      ensures m > 0
    {
      Pow(2, bits)
    }

    // EXT2FS_CLUSTER_RATIO
    function Ratio(): (r: nat)
      ensures r > 0
    {
      Pow(2, ratioBits)
    }

    // EXT2FS_CLUSTER_MASK
    function Mask(): nat {
      Ratio() - 1
    }

    // How many clusters the block numbers fill.
    function Clusters(): (n: nat)
      requires Valid()
      ensures n > 0
    {
      Pow(2, bits - ratioBits)
    }

    lemma Product()
      requires Valid()
      ensures Words() == Clusters() * Ratio()
    {
      PowAdds(2, bits - ratioBits, ratioBits);
    }

    // EXT2FS_B2C
    function B2C(blk: nat): int {
      blk / Ratio()
    }

    // EXT2FS_C2B
    function C2B(cluster: int): int {
      cluster * Ratio() % Words()
    }

    // EXT2FS_NUM_B2C
    function NumB2C(blks: nat): int {
      (blks + Mask()) % Words() / Ratio()
    }
  }

  // ---- Division without surprises ----

  lemma MulLess(a: nat, b: nat, r: nat)
    requires a < b
    ensures a * r + r <= b * r
  {
    assert (a + 1) * r == a * r + r;
    MulAtLeast(a + 1, b, r);
  }

  lemma MulAtLeast(a: nat, b: nat, r: nat)
    requires a <= b
    ensures a * r <= b * r
  {
  }

  lemma DivMod(x: nat, d: nat)
    requires d > 0
    ensures x / d >= 0 && 0 <= x % d < d && x == x / d * d + x % d
  {
  }

  lemma OneQuotient(p: nat, y: nat, q: nat, m: nat, d: nat)
    requires p * d + y == q * d + m && y < d && m < d
    ensures p == q && y == m
  {
    if p < q {
      MulLess(p, q, d);
    } else if q < p {
      MulLess(q, p, d);
    }
  }

  lemma ModUnique(x: nat, d: nat, q: nat, m: nat)
    requires d > 0 && x == q * d + m && m < d
    ensures x % d == m && x / d == q
  {
    DivMod(x, d);
    OneQuotient(x / d, x % d, q, m, d);
  }

  lemma ScaledMod(c: nat, n: nat, r: nat)
    requires n > 0 && r > 0
    ensures n * r > 0 && c % n >= 0 && c * r % (n * r) == c % n * r
  {
    DivMod(c, n);
    var q, m := c / n, c % n;
    MulLess(m, n, r);
    assert c * r == q * (n * r) + m * r by {
      assert (q * n + m) * r == q * n * r + m * r;
      assert q * n * r == q * (n * r);
    }
    ModUnique(c * r, n * r, q, m * r);
  }

  /** Cluster to block and back is the identity exactly on the clusters whose
      blocks have numbers. */
  lemma ClusterRoundTrip(g: Geometry, c: nat)
    requires g.Valid()
    ensures g.C2B(c) >= 0 && (g.B2C(g.C2B(c)) == c <==> c < Pow(2, g.bits - g.ratioBits))
  {
    g.Product();
    ScaledMod(c, g.Clusters(), g.Ratio());
    DivMod(c, g.Clusters());
    ModUnique(c % g.Clusters() * g.Ratio(), g.Ratio(), c % g.Clusters(), 0);
    if c < g.Clusters() {
      ModUnique(c, g.Clusters(), 0, c);
    }
  }

  /** Every block lies in its cluster; the cluster's end is the next cluster's
      first block except in the very last cluster, where that wraps to 0. */
  lemma BlockInCluster(g: Geometry, b: nat)
    requires g.Valid() && b < Pow(2, g.bits)
    ensures g.C2B(g.B2C(b)) <= b < g.C2B(g.B2C(b)) + Pow(2, g.ratioBits)
    ensures b < g.C2B(g.B2C(b) + 1) <==> g.B2C(b) + 1 < Pow(2, g.bits - g.ratioBits)
  {
    var n, r := g.Clusters(), g.Ratio();
    g.Product();
    DivMod(b, r);
    var c: nat := b / r;
    if c >= n {
      MulAtLeast(n, c, r);
    }
    ScaledMod(c, n, r);
    ModUnique(c, n, 0, c);
    NextStart(c, n, r);
  }

  // Where the cluster behind c starts.
  lemma NextStart(c: nat, n: nat, r: nat)
    requires c < n && r > 0
    ensures n * r > 0 && (c + 1) * r % (n * r) == if c + 1 < n then c * r + r else 0
  {
    ScaledMod(c + 1, n, r);
    assert (c + 1) * r == c * r + r;
    if c + 1 < n {
      ModUnique(c + 1, n, 0, c + 1);
    } else {
      ModUnique(c + 1, n, 1, 0);
    }
  }

  // ext2fs_div_ceil and ext2fs_div64_ceil
  function DivCeil(a: nat, b: nat): int
    requires b > 0
  {
    if a == 0 then 0 else (a - 1) / b + 1
  }

  /** The ceiling is the least k with k * b >= a, and no step of it leaves the
      word type: the result is at most a. */
  lemma DivCeilIsCeiling(a: nat, b: nat, k: nat)
    requires b > 0
    ensures k * b >= a <==> k >= DivCeil(a, b)
    ensures 0 <= DivCeil(a, b) <= a
  {
    if a == 0 {
      MulAtLeast(0, k, b);
    } else {
      DivMod(a - 1, b);
      var q: nat := (a - 1) / b;
      QuotientAtMost(q, b);
      if k >= q + 1 {
        MulLess(q, k, b);
      } else {
        MulAtLeast(k, q, b);
      }
    }
  }

  lemma QuotientAtMost(q: nat, b: nat)
    requires b > 0
    ensures q <= q * b
  {
    MulAtLeast(1, b, q);
    assert b * q == q * b;
  }

  /** Counting the clusters for a number of blocks rounds up exactly when adding
      the mask does not wrap. */
  lemma NumB2CIsCeiling(g: Geometry, n: nat)
    requires g.Valid() && n < Pow(2, g.bits)
    ensures g.NumB2C(n) == DivCeil(n, Pow(2, g.ratioBits)) <==> n + Pow(2, g.ratioBits) - 1 < Pow(2, g.bits)
  {
    var r, w, x := g.Ratio(), g.Words(), n + g.Mask();
    g.Product();
    MulAtLeast(1, g.Clusters(), r);
    if x < w {
      ModUnique(x, w, 0, x);
      if n == 0 {
        ModUnique(x, r, 0, x);
      } else {
        DivMod(n - 1, r);
        var q: nat, m: nat := (n - 1) / r, (n - 1) % r;
        assert (q + 1) * r == q * r + r;
        ModUnique(x, r, q + 1, m);
      }
    } else {
      ModUnique(x, w, 1, x - w);
      ModUnique(x - w, r, 0, x - w);
      DivMod(n - 1, r);
    }
  }

  // ---- ext2fs_get_array ----

  datatype Errcode = Success | NoMemory

  // A caller's pointer variable: the size of the block it points to, if any.
  class Pointer {
    var block: Option<nat>
  }

  // ULONG_MAX on the target
  const ULONG_MAX: nat := 0xFFFF_FFFF

  predicate Overflows(count: nat, size: nat) {
    count != 0 && ULONG_MAX / count < size
  }

  /** The division test rejects exactly the pairs whose product does not fit. */
  lemma OverflowsIsExact(count: nat, size: nat)
    ensures Overflows(count, size) <==> count * size > 0xFFFF_FFFF
  {
    if count != 0 {
      DivMod(ULONG_MAX, count);
      var q: nat := ULONG_MAX / count;
      if q < size {
        MulLess(q, size, count);
      } else {
        MulAtLeast(size, q, count);
      }
    }
  }

  /** ext2fs_get_array: on success the pointer is a block of count * size bytes
      exactly; otherwise it is untouched. */
  method GetArray(count: nat, size: nat, ptr: Pointer, memory: bool) returns (r: Errcode)
    requires count <= 0xFFFF_FFFF && size <= 0xFFFF_FFFF
    modifies ptr
    ensures r.Success? <==> count * size <= 0xFFFF_FFFF && memory
    ensures ptr.block == if r.Success? then Some(count * size) else old(ptr.block)
  {
    OverflowsIsExact(count, size);
    if Overflows(count, size) {
      return NoMemory;
    }
    var bytes := count * size % (ULONG_MAX + 1);
    ModUnique(count * size, ULONG_MAX + 1, 0, count * size);
    if !memory {
      return NoMemory;
    }
    ptr.block := Some(bytes);
    return Success;
  }
}
