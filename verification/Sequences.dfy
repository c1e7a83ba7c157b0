/** Facts about slices that the verifier needs spelled out. */
module Sequences {
  lemma Slice<T>(b: seq<T>, p: nat, n: nat, i: nat, j: nat)
    requires p + n <= |b| && i <= j <= n
    ensures b[p..p + n][i..j] == b[p + i..p + j]
  {
    var s, t := b[p..p + n][i..j], b[p + i..p + j];
    forall k | 0 <= k < j - i
      ensures s[k] == t[k]
    {
      assert s[k] == b[p..p + n][i + k] == b[p + (i + k)];
    }
  }

  lemma SplitAt<T>(a: seq<T>, b: seq<T>, c: seq<T>)
    ensures a + b + c == a + (b + c)
    ensures (a + b + c)[|a|..] == b + c
    ensures (a + b + c)[|a|..|a| + |b|] == b
  {
  }

  lemma TwoPrefixes<T>(s: seq<T>, m: nat, n: nat)
    requires m + n <= |s|
    ensures s[..m] + s[m..][..n] == s[..m + n]
  {
  }

  lemma Joined<T>(s: seq<T>, m: nat, n: nat)
    requires m <= n <= |s|
    ensures s[..m] + s[m..n] == s[..n]
  {
    var a, b := s[..m] + s[m..n], s[..n];
    assert |a| == |b|;
    forall i | 0 <= i < n
      ensures a[i] == b[i]
    {
      assert a[i] == (if i < m then s[..m][i] else s[m..n][i - m]) == s[i];
    }
  }
}
