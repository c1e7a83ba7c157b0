/**
 The bignum normal form of openssl/bn.h for the 32-bit words this build selects
 (THIRTY_TWO_BIT in opensslconf.h): bn_correct_top and the macros that rely on it.
 */
module Bignum {
  import opened Powers

  const BASE: nat := 0x1_0000_0000
  const BN_BITS2: nat := 32

  type Word = w: nat | w < BASE

  // The magnitude of a word sequence, least significant word first.
  function Magnitude(words: seq<Word>): nat {
    if words == [] then 0 else words[0] + BASE * Magnitude(words[1..])
  }

  function Signed(words: seq<Word>, neg: bool): int {
    (if neg then -1 else 1) * Magnitude(words)
  }

  // The condition bn_check_top asserts.
  predicate Normal(words: seq<Word>) {
    words == [] || words[|words| - 1] != 0
  }

  // The words bn_correct_top keeps.
  function Stripped(words: seq<Word>): (r: seq<Word>)
    ensures |r| <= |words| && r == words[..|r|] && Normal(r)
    ensures forall i :: |r| <= i < |words| ==> words[i] == 0
  {
    if Normal(words) then words else Stripped(words[..|words| - 1])
  }

  // The value macros, over the words in use: |words| is top, words[i] is d[i].

  // BN_is_zero
  predicate IsZero(words: seq<Word>) {
    |words| == 0
  }

  // BN_abs_is_word
  predicate AbsIsWord(words: seq<Word>, w: Word) {
    (|words| == 1 && words[0] == w) || (w == 0 && |words| == 0)
  }

  // BN_is_one
  predicate IsOne(words: seq<Word>, neg: bool) {
    AbsIsWord(words, 1) && !neg
  }

  // BN_is_word
  predicate IsWord(words: seq<Word>, neg: bool, w: Word) {
    AbsIsWord(words, w) && (w == 0 || !neg)
  }

  // BN_is_odd
  predicate IsOdd(words: seq<Word>) {
    |words| > 0 && words[0] % 2 == 1
  }

  // The number of words bn_expand asks for.
  function WordsFor(bits: nat): nat {
    (bits + BN_BITS2 - 1) / BN_BITS2
  }

  class BigNum {
    const d: array<Word>
    var top: nat
    var neg: bool

    constructor (d: array<Word>, top: nat, neg: bool)
      requires top <= d.Length
      ensures Valid() && this.d == d && this.top == top && this.neg == neg
    {
      this.d, this.top, this.neg := d, top, neg;
    }

    predicate Valid()
      reads this, d
    {
      top <= d.Length
    }

    function Words(): seq<Word>
      requires Valid()
      reads this, d
    {
      d[..top]
    }

    /** bn_correct_top: no word is touched, the magnitude stays, and the words
        in use become the normal form of what they were. */
    method CorrectTop()
      requires Valid()
      modifies `top
      ensures Valid() && top <= old(top)
      ensures Words() == Stripped(old(Words())) && Normal(Words())
      ensures Magnitude(Words()) == old(Magnitude(Words()))
    {
      ghost var words := Words();
      if top > 0 {
        var ftl: int := top - 1;
        while top > 0
          invariant 0 <= top <= old(top) && ftl == top - 1
          invariant Stripped(d[..top]) == Stripped(words)
        {
          var w := d[ftl];
          ftl := ftl - 1;
          if w != 0 {
            break;
          }
          assert d[..top][..top - 1] == d[..top - 1];
          top := top - 1;
        }
      }
      StrippedKeepsMagnitude(words);
    }
  }

  lemma {:induction false} StrippedKeepsMagnitude(words: seq<Word>)
    ensures Magnitude(Stripped(words)) == Magnitude(words)
    decreases |words|
  {
    if !Normal(words) {
      var n := |words| - 1;
      StrippedKeepsMagnitude(words[..n]);
      TopZero(words[..n]);
      assert words == words[..n] + [0];
    }
  }

  lemma {:induction false} TopZero(words: seq<Word>)
    ensures Magnitude(words + [0]) == Magnitude(words)
  {
    if words != [] {
      TopZero(words[1..]);
      assert (words + [0])[1..] == words[1..] + [0];
    }
  }

  /** The normal form is unique: numbers of equal magnitude have equal words. */
  lemma {:induction false} NormalFormIsUnique(a: seq<Word>, b: seq<Word>)
    requires Normal(a) && Normal(b)
    requires Magnitude(a) == Magnitude(b)
    ensures a == b
  {
    if a != [] && b != [] {
      Split(a[0], Magnitude(a[1..]), b[0], Magnitude(b[1..]));
      NormalFormIsUnique(a[1..], b[1..]);
      assert a == [a[0]] + a[1..] && b == [b[0]] + b[1..];
    } else if a != [] {
      NormalIsPositive(a);
    } else if b != [] {
      NormalIsPositive(b);
    }
  }

  lemma Split(x: Word, m: nat, y: Word, n: nat)
    requires x + BASE * m == y + BASE * n
    ensures x == y && m == n
  {
  }

  lemma {:induction false} NormalIsPositive(words: seq<Word>)
    requires Normal(words) && words != []
    ensures Magnitude(words) > 0
    ensures |words| > 1 ==> Magnitude(words) >= BASE
  {
    if |words| > 1 {
      NormalIsPositive(words[1..]);
    }
  }

  /** So bn_correct_top decides equality of magnitudes. */
  lemma StrippedIsCanonical(a: seq<Word>, b: seq<Word>)
    ensures Stripped(a) == Stripped(b) <==> Magnitude(a) == Magnitude(b)
  {
    StrippedKeepsMagnitude(a);
    StrippedKeepsMagnitude(b);
    if Magnitude(a) == Magnitude(b) {
      NormalFormIsUnique(Stripped(a), Stripped(b));
    }
  }

  /** The value macros on any word sequence, normal or not: each accepts a number
      exactly when the value is right and no word that bn_correct_top would strip
      is in use; a single zero word is also recognised as the word 0. */
  lemma MacrosOnAnyForm(words: seq<Word>, neg: bool, w: Word)
    ensures IsZero(words) <==> Signed(words, neg) == 0 && Normal(words)
    ensures IsOne(words, neg) <==> Signed(words, neg) == 1 && Normal(words)
    ensures AbsIsWord(words, w) <==> Magnitude(words) == w && (Normal(words) || |words| == 1)
    ensures IsWord(words, neg, w) <==> Signed(words, neg) == w && (Normal(words) || |words| == 1)
  {
    if Normal(words) && words != [] {
      NormalIsPositive(words);
    }
    if |words| == 1 {
      assert Magnitude(words[1..]) == 0;
    }
  }

  /** After bn_correct_top they say exactly what the value was before it. */
  lemma MacrosAfterCorrectTop(words: seq<Word>, neg: bool, w: Word)
    ensures IsZero(Stripped(words)) <==> Signed(words, neg) == 0
    ensures IsOne(Stripped(words), neg) <==> Signed(words, neg) == 1
    ensures AbsIsWord(Stripped(words), w) <==> Magnitude(words) == w
    ensures IsWord(Stripped(words), neg, w) <==> Signed(words, neg) == w
  {
    MacrosOnAnyForm(Stripped(words), neg, w);
    StrippedKeepsMagnitude(words);
  }

  /** Parity needs no normal form. */
  lemma OddIsParity(words: seq<Word>, neg: bool)
    ensures IsOdd(words) <==> Signed(words, neg) % 2 == 1
  {
    if words != [] {
      EvenBase(Magnitude(words[1..]));
      ParityOf(words[0], BASE * Magnitude(words[1..]));
    }
  }

  lemma ParityOf(w: nat, a: nat)
    requires a % 2 == 0
    ensures (w + a) % 2 == w % 2 == (-(w + a)) % 2
  {
  }

  lemma EvenBase(m: nat)
    ensures BASE * m % 2 == 0
  {
    assert BASE * m == 2 * (0x8000_0000 * m);
  }

  // ---- bn_expand ----

  lemma {:induction false} BaseIsBits(n: nat)
    ensures Pow(2, BN_BITS2 * n) == Pow(BASE, n)
  {
    if n > 0 {
      BaseIsBits(n - 1);
      PowAdds(2, BN_BITS2, BN_BITS2 * (n - 1));
      TwoTo32();
    }
  }

  lemma TwoTo32()
    ensures Pow(2, 32) == BASE
  {
    assert Pow(2, 8) == 0x100;
    PowAdds(2, 8, 8);
    PowAdds(2, 16, 16);
  }

  lemma {:induction false} MagnitudeBounds(words: seq<Word>)
    ensures Magnitude(words) < Pow(BASE, |words|)
    ensures words != [] && Normal(words) ==> Pow(BASE, |words| - 1) <= Magnitude(words)
  {
    if words != [] {
      MagnitudeBounds(words[1..]);
      if |words| == 1 {
        assert Magnitude(words[1..]) == 0;
      }
    }
  }

  /** bn_expand's rounding is right: it asks for the least number of words that
      holds the normal form of every number below 2^bits. */
  lemma WordsForIsLeast(bits: nat, k: nat)
    ensures (forall words: seq<Word> | Normal(words) && Magnitude(words) < Pow(2, bits) :: |words| <= k)
       <==> WordsFor(bits) <= k
  {
    if WordsFor(bits) <= k {
      forall words: seq<Word> | Normal(words) && Magnitude(words) < Pow(2, bits)
        ensures |words| <= k
      {
        WordsForIsEnough(bits, words);
      }
    } else {
      var words := FullWords(bits);
    }
  }

  lemma WordsForIsEnough(bits: nat, words: seq<Word>)
    requires Normal(words) && Magnitude(words) < Pow(2, bits)
    ensures |words| <= WordsFor(bits)
  {
    var n := |words|;
    if n > WordsFor(bits) {
      MagnitudeBounds(words);
      BaseIsBits(n - 1);
      PowGrows(bits, BN_BITS2 * (n - 1));
    }
  }

  // The number 2^(bits - 1) needs all the words.
  lemma FullWords(bits: nat) returns (words: seq<Word>)
    requires bits > 0
    ensures Normal(words) && Magnitude(words) < Pow(2, bits) && |words| == WordsFor(bits)
  {
    var n := WordsFor(bits);
    var r := bits - 1 - BN_BITS2 * (n - 1);
    PowGrows(r, 31);
    TwoTo32();
    words := ZerosThen(n - 1, Pow(2, r));
    BaseIsBits(n - 1);
    PowAdds(2, BN_BITS2 * (n - 1), r);
  }

  lemma {:induction false} ZerosThen(n: nat, w: Word) returns (words: seq<Word>)
    requires w > 0
    ensures |words| == n + 1 && Normal(words)
    ensures Magnitude(words) == Pow(BASE, n) * w
  {
    if n == 0 {
      words := [w];
      assert Magnitude(words[1..]) == 0;
    } else {
      var more := ZerosThen(n - 1, w);
      words := [0] + more;
      assert words[1..] == more;
    }
  }
}
