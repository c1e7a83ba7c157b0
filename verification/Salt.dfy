/**
 The salt of make_jail_etc.c and use-crypt.c: a time and a process id packed
 into eight printable characters.  Words are the 32-bit `unsigned long` of the
 target; the time and the id are what is left of them in such a word.
 */
module Salt {
  const DIGITS: string := "0123456789"
  const UPPER: string := "ABCDEFGHIJKLMNOPQRSTUVWXYZ"
  const LOWER: string := "abcdefghijklmnopqrstuvwxyz"
  const SEED_CHARS: string := "./" + DIGITS + UPPER + LOWER

  // seed[1]; seed[0] is the time.
  function Fold(time: bv32, pid: bv32): bv32 {
    pid ^ ((time >> 14) & 0x30000)
  }

  // (w >> k * 6) & 0x3f, for the five shifts the loop makes.
  function Six(w: bv32, k: nat): (d: bv32)
    requires k < 5
    ensures d < 64
  {
    if k == 0 then w & 0x3f
    else if k == 1 then (w >> 6) & 0x3f
    else if k == 2 then (w >> 12) & 0x3f
    else if k == 3 then (w >> 18) & 0x3f
    else (w >> 24) & 0x3f
  }

  // What the loop indexes the character table with in round i.
  function Digit(low: bv32, high: bv32, i: nat): (d: bv32)
    requires i < 8
    ensures d < 64
  {
    if i < 5 then Six(low, i) else Six(high, i - 5)
  }

  function SeedChar(d: bv32): char
    requires d < 64
  {
    assert |SEED_CHARS| == 64;
    SEED_CHARS[d as int]
  }

  // The salt made of two seed words.
  function Salted(low: bv32, high: bv32): (s: string)
    ensures |s| == 11
  {
    "$5$" + seq(8, i requires 0 <= i < 8 => SeedChar(Digit(low, high, i)))
  }

  // The finished salt.
  function Packed(time: bv32, pid: bv32): (s: string)
    ensures |s| == 11
  {
    Salted(time, Fold(time, pid))
  }

  lemma DigitOf(low: bv32, high: bv32, i: nat)
    requires i < 8
    ensures i / 5 == 0 || i / 5 == 1
    ensures Six(if i / 5 == 0 then low else high, i % 5) == Digit(low, high, i)
  {
  }

  lemma SeedCharIn(d: bv32)
    requires d < 64
    ensures SeedChar(d) in SEED_CHARS
  {
  }

  lemma AllPlaces(time: bv32, pid: bv32, s: string)
    requires |s| == 11 && s[0] == '$' && s[1] == '5' && s[2] == '$'
    requires forall k :: 0 <= k < 8 ==> s[3 + k] == SeedChar(Digit(time, Fold(time, pid), k))
    ensures s == Packed(time, pid)
    ensures forall i :: 3 <= i < 11 ==> s[i] in SEED_CHARS
  {
    forall i | 3 <= i < 11
      ensures s[i] == Packed(time, pid)[i] && s[i] in SEED_CHARS
    {
      assert s[3 + (i - 3)] == SeedChar(Digit(time, Fold(time, pid), i - 3));
      SeedCharIn(Digit(time, Fold(time, pid), i - 3));
    }
  }

  method MakeSalt(time: bv32, pid: bv32) returns (salt: array<char>)
    ensures fresh(salt) && salt[..] == Packed(time, pid)
    ensures salt.Length == 11 && salt[0] == '$' && salt[1] == '5' && salt[2] == '$'
    ensures forall i :: 3 <= i < 11 ==> salt[i] in SEED_CHARS
  {
    salt := new char[11]['$', '5', '$', '.', '.', '.', '.', '.', '.', '.', '.'];
    var seed := new bv32[2];
    seed[0] := time;
    seed[1] := pid ^ ((seed[0] >> 14) & 0x30000);
    ghost var high := seed[1];
    for i := 0 to 8
      invariant seed[0] == time && seed[1] == high
      invariant salt[0] == '$' && salt[1] == '5' && salt[2] == '$'
      invariant forall k :: 0 <= k < i ==> salt[3 + k] == SeedChar(Digit(time, high, k))
    {
      var d := Six(seed[i / 5], i % 5);
      DigitOf(time, high, i);
      salt[3 + i] := SeedChar(d);
    }
    AllPlaces(time, pid, salt[..]);
  }

  /** The 64 characters, in order. */
  lemma SeedCharIs(d: bv32)
    requires d < 64
    ensures var chars := "./" + "0123456789" + "ABCDEFGHIJKLMNOPQRSTUVWXYZ" + "abcdefghijklmnopqrstuvwxyz";
            SEED_CHARS == chars && |chars| == 64 && SeedChar(d) == chars[d as int]
  {
  }

  /** The salt, place by place: the prefix of the SHA-256 method, then five groups of
      six bits of the time and three of the folded process id, lowest first. */
  lemma SaltIs(time: bv32, pid: bv32)
    ensures var high := pid ^ ((time >> 14) & 0x30000);
            var s := Packed(time, pid);
            && s[..3] == "$5$"
            && s[3] == SeedChar(time & 0x3f) && s[4] == SeedChar((time >> 6) & 0x3f)
            && s[5] == SeedChar((time >> 12) & 0x3f) && s[6] == SeedChar((time >> 18) & 0x3f)
            && s[7] == SeedChar((time >> 24) & 0x3f)
            && s[8] == SeedChar(high & 0x3f) && s[9] == SeedChar((high >> 6) & 0x3f)
            && s[10] == SeedChar((high >> 12) & 0x3f)
  {
  }

  // ---- Reading a salt back ----

  // The place of a character in SEED_CHARS.
  function CharIndex(c: char): nat {
    if c == '.' then 0
    else if c == '/' then 1
    else if '0' <= c <= '9' then 2 + (c as int - '0' as int)
    else if 'A' <= c <= 'Z' then 12 + (c as int - 'A' as int)
    else if 'a' <= c <= 'z' then 38 + (c as int - 'a' as int)
    else 64
  }

  lemma IndexOfSeedChar(n: nat)
    requires n < 64
    ensures CharIndex(SEED_CHARS[n]) == n
  {
    if n < 2 {
      assert SEED_CHARS[n] == "./"[n];
    } else if n < 12 {
      assert SEED_CHARS[n] == DIGITS[n - 2];
      DigitIndex(n - 2);
    } else if n < 38 {
      assert SEED_CHARS[n] == UPPER[n - 12];
      UpperIndex(n - 12);
    } else {
      assert SEED_CHARS[n] == LOWER[n - 38];
      LowerIndex(n - 38);
    }
  }

  lemma DigitIndex(k: nat)
    requires k < 10
    ensures CharIndex(DIGITS[k]) == 2 + k
  {
  }

  lemma UpperIndex(k: nat)
    requires k < 26
    ensures CharIndex(UPPER[k]) == 12 + k
  {
  }

  lemma LowerIndex(k: nat)
    requires k < 26
    ensures CharIndex(LOWER[k]) == 38 + k
  {
  }

  // The digit a character stands for; 0 for a character no salt holds.
  function CharDigit(c: char): (d: bv32) {
    if CharIndex(c) < 64 then CharIndex(c) as bv32 else 0
  }

  lemma DigitOfSeedChar(d: bv32)
    requires d < 64
    ensures CharDigit(SeedChar(d)) == d
  {
    IndexOfSeedChar(d as int);
    ThereAndBack(d);
  }

  lemma ThereAndBack(d: bv32)
    ensures (d as int) as bv32 == d
  {
  }

  // The time and the process id a salt holds.
  function Unpacked(s: string): (bv32, bv32)
    requires |s| == 11
  {
    var low := Join5(CharDigit(s[3]), CharDigit(s[4]), CharDigit(s[5]), CharDigit(s[6]), CharDigit(s[7]));
    var high := CharDigit(s[8]) | (CharDigit(s[9]) << 6) | (CharDigit(s[10]) << 12);
    (low | ((high & 0x30000) << 14), high & 0xffff)
  }

  function Join5(a: bv32, b: bv32, c: bv32, d: bv32, e: bv32): bv32 {
    a | (b << 6) | (c << 12) | (d << 18) | (e << 24)
  }

  lemma JoinSixes(w: bv32)
    ensures Join5(Six(w, 0), Six(w, 1), Six(w, 2), Six(w, 3), Six(w, 4)) == w & 0x3fff_ffff
    ensures Six(w, 0) | (Six(w, 1) << 6) | (Six(w, 2) << 12) == w & 0x3_ffff
  {
  }

  lemma CharsOf(low: bv32, high: bv32)
    ensures var s := Salted(low, high);
            forall i :: 0 <= i < 8 ==> CharDigit(s[3 + i]) == Digit(low, high, i)
  {
    forall i | 0 <= i < 8
      ensures CharDigit(Salted(low, high)[3 + i]) == Digit(low, high, i)
    {
      DigitOfSeedChar(Digit(low, high, i));
    }
  }

  // What reading a salt back gives, for any two seed words.
  lemma UnpackedIs(low: bv32, high: bv32)
    ensures Unpacked(Salted(low, high)) == ((low & 0x3fff_ffff) | ((high & 0x30000) << 14), high & 0xffff)
  {
    CharsOf(low, high);
    JoinSixes(low);
    JoinSixes(high);
    MaskTwice(high);
  }

  lemma MaskTwice(w: bv32)
    ensures (w & 0x3_ffff) & 0x30000 == w & 0x30000 && (w & 0x3_ffff) & 0xffff == w & 0xffff
  {
  }

  /** The salt gives the time and the process id back exactly when the id has no
      more than 16 bits. */
  lemma SaltIsReadBack(time: bv32, pid: bv32)
    ensures Unpacked(Packed(time, pid)) == (time, pid) <==> pid < 0x1_0000
  {
    UnpackedIs(time, Fold(time, pid));
    Carried(time, pid);
  }

  lemma Carried(time: bv32, pid: bv32)
    ensures var high := Fold(time, pid);
            && (high & 0xffff == pid <==> pid < 0x1_0000)
            && (pid < 0x1_0000 ==> (time & 0x3fff_ffff) | ((high & 0x30000) << 14) == time)
  {
  }

  // The pairs of seed words that agree on the low 30 bits of the first, which is
  // the time, and the low 18 bits of the second: 16 bits of the process id, and
  // above them two bits of the id folded with the top two bits of the time.
  predicate Alike(low: bv32, high: bv32, low': bv32, high': bv32) {
    low & 0x3fff_ffff == low' & 0x3fff_ffff && high & 0x3_ffff == high' & 0x3_ffff
  }

  /** Which times and process ids share a salt. */
  lemma SharedSalts(time: bv32, pid: bv32, time': bv32, pid': bv32)
    ensures Packed(time, pid) == Packed(time', pid')
       <==> Alike(time, Fold(time, pid), time', Fold(time', pid'))
  {
    SameSalted(time, Fold(time, pid), time', Fold(time', pid'));
  }

  lemma SameSalted(low: bv32, high: bv32, low': bv32, high': bv32)
    ensures Salted(low, high) == Salted(low', high') <==> Alike(low, high, low', high')
  {
    if Salted(low, high) == Salted(low', high') {
      SharedWords(low, high, low', high');
    }
    if Alike(low, high, low', high') {
      AlikeWords(low, high, low', high');
    }
  }

  lemma SharedWords(low: bv32, high: bv32, low': bv32, high': bv32)
    requires Salted(low, high) == Salted(low', high')
    ensures Alike(low, high, low', high')
  {
    UnpackedIs(low, high);
    UnpackedIs(low', high');
    Apart(low, high, low', high');
  }

  lemma Apart(low: bv32, high: bv32, low': bv32, high': bv32)
    requires (low & 0x3fff_ffff) | ((high & 0x30000) << 14) == (low' & 0x3fff_ffff) | ((high' & 0x30000) << 14)
    requires high & 0xffff == high' & 0xffff
    ensures Alike(low, high, low', high')
  {
  }

  lemma AlikeWords(low: bv32, high: bv32, low': bv32, high': bv32)
    requires Alike(low, high, low', high')
    ensures Salted(low, high) == Salted(low', high')
  {
    var s, s' := Salted(low, high), Salted(low', high');
    forall i | 0 <= i < 11
      ensures s[i] == s'[i]
    {
      if 3 <= i < 8 {
        SameSix(low, low', i - 3);
      } else if 8 <= i {
        SameSixHigh(high, high', i - 8);
      }
    }
  }

  lemma SameSix(w: bv32, w': bv32, k: nat)
    requires k < 5 && w & 0x3fff_ffff == w' & 0x3fff_ffff
    ensures Six(w, k) == Six(w', k)
  {
  }

  lemma SameSixHigh(w: bv32, w': bv32, k: nat)
    requires k < 3 && w & 0x3_ffff == w' & 0x3_ffff
    ensures Six(w, k) == Six(w', k)
  {
  }

  /** In particular the salt tells all times and 16-bit process ids apart. */
  lemma SaltIsInjective(time: bv32, pid: bv32, time': bv32, pid': bv32)
    requires pid < 0x1_0000 && pid' < 0x1_0000
    requires Packed(time, pid) == Packed(time', pid')
    ensures time == time' && pid == pid'
  {
    SaltIsReadBack(time, pid);
    SaltIsReadBack(time', pid');
  }

  // The time that shares its salt, with 16 bits of the process id, with this pair.
  function Double(time: bv32, pid: bv32): bv32 {
    time ^ ((pid & 0x30000) << 14)
  }

  /** Two bits of a wide process id stand in for bits of the time: every pair shares
      its salt with one of a 16-bit id, and that is another pair exactly when the
      id is wide. */
  lemma WideIdCollides(time: bv32, pid: bv32)
    ensures Packed(time, pid) == Packed(Double(time, pid), pid & 0xffff)
    ensures (Double(time, pid), pid & 0xffff) != (time, pid) <==> pid >= 0x1_0000
  {
    SharedSalts(time, pid, Double(time, pid), pid & 0xffff);
    DoubleIsAlike(time, pid, Double(time, pid), pid & 0xffff);
    DoubleIsOther(time, pid);
  }

  lemma DoubleIsAlike(time: bv32, pid: bv32, time': bv32, pid': bv32)
    requires time' == time ^ ((pid & 0x30000) << 14) && pid' == pid & 0xffff
    ensures Alike(time, Fold(time, pid), time', Fold(time', pid'))
  {
  }

  lemma DoubleIsOther(time: bv32, pid: bv32)
    ensures Double(time, pid) != time || pid & 0xffff != pid <==> pid >= 0x1_0000
  {
  }

  /** So no reader whatever recovers a wide process id: from the one salt it would
      have to answer two pairs. */
  lemma NoReaderTells(read: string -> (bv32, bv32), time: bv32, pid: bv32)
    requires pid >= 0x1_0000
    ensures read(Packed(time, pid)) == (time, pid) ==>
              var time', pid' := Double(time, pid), pid & 0xffff;
              pid' < 0x1_0000 && read(Packed(time', pid')) != (time', pid')
  {
    WideIdCollides(time, pid);
    NarrowMask(pid);
  }

  lemma NarrowMask(pid: bv32)
    ensures pid & 0xffff < 0x1_0000
  {
  }
}
