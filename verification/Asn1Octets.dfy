/**
 The octet layer under the ASN.1 macros.

 asn1_mac.h calls ASN1_put_object, ASN1_object_size, ASN1_get_object and
 ASN1_const_check_infinite_end, which openssl/asn1.h only declares.  They are
 the environment of the macros; the definitions here follow ITU-T X.690,
 sections 8.1.2 (identifier octets), 8.1.3 (length octets) and 8.1.5
 (end-of-contents octets), for single-octet tags and for lengths that fit the
 `long` (32 bits) the declarations pass them in.
 */
module Asn1Octets {
  import opened Options

  type Octet = b: int | 0 <= b < 256

  // Tags that fit one identifier octet: the macros compare exactly one octet.
  type Tag = t: nat | t < 31

  const V_ASN1_CONSTRUCTED: Octet := 0x20
  const V_ASN1_CONTEXT_SPECIFIC: Octet := 0x80
  const V_ASN1_SEQUENCE: Tag := 16
  const INT_MAX: nat := 0x7FFF_FFFF

  // b & V_ASN1_CONSTRUCTED
  function ConstructedBit(b: Octet): Octet {
    if b / 0x20 % 2 == 1 then V_ASN1_CONSTRUCTED else 0
  }

  // b & ~V_ASN1_CONSTRUCTED
  function WithoutConstructed(b: Octet): Octet {
    b - ConstructedBit(b)
  }

  // Whether an encoding announces its length or ends with end-of-contents octets.
  datatype Form = Definite | Indefinite

  // Section 8.1.3: short form below 128, otherwise the shortest long form.
  function LengthOctets(n: nat): (s: seq<Octet>)
    ensures 1 <= |s| <= 5
  {
    var q1 := n / 0x100;
    var q2 := q1 / 0x100;
    var q3 := q2 / 0x100;
    if n < 0x80 then [n]
    else if n < 0x100 then [0x81, n]
    else if n < 0x1_0000 then [0x82, q1, n % 0x100]
    else if n < 0x100_0000 then [0x83, q2, q1 % 0x100, n % 0x100]
    else [0x84, q3 % 0x100, q2 % 0x100, q1 % 0x100, n % 0x100]
  }

  // What ASN1_put_object writes for a definite length.
  function PutObject(id: Octet, length: nat): seq<Octet> {
    [id] + LengthOctets(length)
  }

  // ASN1_object_size: header and contents together.
  function ObjectSize(length: nat): (n: nat)
    ensures n == |PutObject(0, length)| + length
  {
    1 + |LengthOctets(length)| + length
  }

  // A tagged value around `body`: put_object, or M_ASN1_I2D_INF_seq_start/end.
  function Wrap(id: Octet, form: Form, body: seq<Octet>): seq<Octet> {
    match form
    case Definite => PutObject(id, |body|) + body
    case Indefinite => [id, 0x80] + body + [0, 0]
  }

  // A parsed header: `size` octets long, announcing `length` octets of contents
  // unless the form is indefinite.
  datatype Header = Header(id: Octet, size: nat, form: Form, length: nat)

  // The number that the n octets at i stand for, most significant octet first.
  function BigEndian(s: seq<Octet>, i: nat, n: nat): nat
    requires i + n <= |s|
  {
    if n == 0 then 0 else BigEndian(s, i, n - 1) * 0x100 + s[i + n - 1]
  }

  // ASN1_get_object over the octets the caller may read; None stands for the
  // error answer 0x80.  Definite contents must lie inside `s`.
  function GetObject(s: seq<Octet>): (h: Option<Header>)
    ensures h.Some? ==> 2 <= h.value.size <= |s| && h.value.id == s[0]
    ensures h.Some? && h.value.form.Definite? ==> h.value.size + h.value.length <= |s|
  {
    if |s| < 2 || s[0] % 0x20 == 0x1F then None
    else if s[1] < 0x80 then Bounded(s, Header(s[0], 2, Definite, s[1]))
    else if s[1] == 0x80 then
      if ConstructedBit(s[0]) == 0 then None else Some(Header(s[0], 2, Indefinite, 0))
    else
      var k := s[1] - 0x80;
      if k > 4 || |s| < 2 + k || BigEndian(s, 2, k) > INT_MAX then None
      else Bounded(s, Header(s[0], 2 + k, Definite, BigEndian(s, 2, k)))
  }

  function Bounded(s: seq<Octet>, h: Header): Option<Header> {
    if h.size + h.length <= |s| then Some(h) else None
  }

  // ASN1_const_check_infinite_end: two zero octets at the cursor.
  predicate EndOfContents(s: seq<Octet>) {
    |s| >= 2 && s[0] == 0 && s[1] == 0
  }

  lemma BigEndianOf(s: seq<Octet>)
    ensures |s| == 2 ==> BigEndian(s, 1, 1) == s[1]
    ensures |s| == 3 ==> BigEndian(s, 1, 2) == s[1] as int * 0x100 + s[2]
    ensures |s| == 4 ==> BigEndian(s, 1, 3) == (s[1] as int * 0x100 + s[2]) * 0x100 + s[3]
    ensures |s| == 5 ==> BigEndian(s, 1, 4) == ((s[1] as int * 0x100 + s[2]) * 0x100 + s[3]) * 0x100 + s[4]
  {
    if |s| >= 2 {
      assert BigEndian(s, 1, 0) == 0;
      assert BigEndian(s, 1, 1) == s[1];
      if |s| >= 3 {
        assert BigEndian(s, 1, 2) == s[1] as int * 0x100 + s[2];
      }
    }
  }

  // The number does not depend on where its octets lie.
  lemma {:induction false} BigEndianMoved(s: seq<Octet>, i: nat, t: seq<Octet>, j: nat, n: nat)
    requires i + n <= |s| && j + n <= |t|
    requires s[i..i + n] == t[j..j + n]
    ensures BigEndian(s, i, n) == BigEndian(t, j, n)
    decreases n
  {
    if n > 0 {
      var m := n - 1;
      assert s[i..i + m] == s[i..i + n][..m] == t[j..j + n][..m] == t[j..j + m];
      assert s[i + m] == s[i..i + n][m] == t[j..j + n][m] == t[j + m];
      BigEndianMoved(s, i, t, j, m);
    }
  }

  /** The long form counts its octets, which are the length, most significant
      octet first, and never starts with a zero octet. */
  lemma LongForm(n: nat)
    requires 0x80 <= n <= INT_MAX
    ensures var l := LengthOctets(n);
            2 <= |l| <= 5 && l[0] == 0x80 + (|l| - 1) && BigEndian(l, 1, |l| - 1) == n && l[1] != 0
  {
    BigEndianOf(LengthOctets(n));
  }

  /** Reading back what put_object wrote gives the identifier, the header size and the length. */
  lemma GetPutObject(id: Octet, length: nat, rest: seq<Octet>)
    requires id % 0x20 != 0x1F
    requires length <= INT_MAX && length <= |rest|
    ensures GetObject(PutObject(id, length) + rest)
         == Some(Header(id, |PutObject(id, length)|, Definite, length))
  {
    var l := LengthOctets(length);
    var s := PutObject(id, length) + rest;
    assert s[0] == id && s[1] == l[0];
    if length >= 0x80 {
      LongForm(length);
      assert s[2..2 + (|l| - 1)] == l[1..|l|];
      BigEndianMoved(s, 2, l, 1, |l| - 1);
    }
  }
}
