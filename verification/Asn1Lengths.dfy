/** How the announced lengths and the octets actually used relate. */
module Asn1Lengths {
  import opened Options
  import opened Sequences
  import opened Asn1Octets
  import opened Asn1Schema
  import opened Asn1Encode
  import opened Asn1Decode
  import opened Asn1RoundTrip

  /** A value with a definite header uses exactly what its header announces. */
  lemma UsesWhatItAnnounces(schema: Schema, s: seq<Octet>, init: Option<Value>)
    requires FitsOption(schema, init) && Dec(schema, s, init).Ok?
    ensures GetObject(s).Some?
    ensures GetObject(s).value.form.Definite? ==>
              Dec(schema, s, init).used == GetObject(s).value.size + GetObject(s).value.length
  {
  }

  lemma GetObjectLocal(s: seq<Octet>, n: nat, t: seq<Octet>)
    requires GetObject(s).Some? && GetObject(s).value.form.Definite?
    requires n == GetObject(s).value.size + GetObject(s).value.length
    ensures GetObject(s[..n] + t) == GetObject(s)
  {
    var u := s[..n] + t;
    var h := GetObject(s).value;
    assert u[0] == s[0] && u[1] == s[1];
    if s[1] > 0x80 {
      var k := s[1] - 0x80;
      assert u[2..2 + k] == s[2..2 + k];
      BigEndianMoved(u, 2, s, 2, k);
    }
  }

  /** What a definite encoding means does not depend on what follows it: keep the
      octets it used, put anything behind them, and it decodes to the same. */
  lemma DefiniteIsLocal(schema: Schema, s: seq<Octet>, init: Option<Value>, t: seq<Octet>)
    requires FitsOption(schema, init) && Dec(schema, s, init).Ok?
    requires GetObject(s).value.form.Definite?
    ensures Dec(schema, s[..Dec(schema, s, init).used] + t, init) == Dec(schema, s, init)
  {
    UsesWhatItAnnounces(schema, s, init);
    var h := GetObject(s).value;
    var n := h.size + h.length;
    GetObjectLocal(s, n, t);
    assert (s[..n] + t)[h.size..n] == s[h.size..n];
  }

  /** The macro leaves a definite EXPLICIT wrapper at its announced end if and only if
      the callee used all the wrapper announces, whatever form the value inside
      has; for a definite value that can be read off the two headers. */
  lemma WrapperIsExact(tag: Tag, form: Form, sub: Schema, s: seq<Octet>, init: Option<Value>)
    requires FitsOption(sub, init) && s != [] && s[0] == ExplicitIdentifier(tag)
    requires DecSlot(Explicit(tag, form), sub, s, init).Ok?
    requires GetObject(s).Some? && GetObject(s).value.form.Definite?
    ensures var outer := GetObject(s).value;
            var inner := GetObject(Inner(s, outer));
            var atEnd := DecSlot(Explicit(tag, form), sub, s, init).used == outer.size + outer.length;
            && Dec(sub, Inner(s, outer), init).Ok?
            && (atEnd <==> Dec(sub, Inner(s, outer), init).used == outer.length)
            && inner.Some?
            && (inner.value.form.Definite? ==>
                  (atEnd <==> inner.value.size + inner.value.length == outer.length))
  {
    UsesWhatItAnnounces(sub, Inner(s, GetObject(s).value), init);
  }

  /** One way decoding fails to be injective (Asn1Canonical has them all): for every
      object and every k, a wrapper that also claims the k octets behind its
      contents decodes like the proper one, and the claimed octets are read again
      as the fields that follow. */
  lemma OverlongWrapperIsAccepted(tag: Tag, form: Form, sub: Schema, v: Value, k: nat, rest: seq<Octet>)
    requires Fits(sub, v) && WellTyped(sub) && Clear(sub, v)
    requires |Enc(sub, v)| + k <= INT_MAX && k <= |rest|
    ensures OverclaimDecodes(tag, form, sub, Enc(sub, v), v, k, rest)
    ensures var header := PutObject(ExplicitIdentifier(tag), |Enc(sub, v)| + k);
            (header + Enc(sub, v) + rest)[|header| + |Enc(sub, v)|..] == rest
  {
    DecEnc(sub, v, rest[..k]);
    Overclaimed(tag, form, sub, Enc(sub, v), v, k, rest);
  }

  // `body` in a wrapper that claims k octets too many of `rest` decodes to v and
  // leaves the cursor right behind `body`.
  predicate OverclaimDecodes(tag: Tag, form: Form, sub: Schema, body: seq<Octet>, v: Value, k: nat, rest: seq<Octet>) {
    var header := PutObject(ExplicitIdentifier(tag), |body| + k);
    DecSlot(Explicit(tag, form), sub, header + body + rest, None) == Ok(Some(v), |header| + |body|)
  }

  lemma Overclaimed(tag: Tag, form: Form, sub: Schema, body: seq<Octet>, v: Value, k: nat, rest: seq<Octet>)
    requires |body| + k <= INT_MAX && k <= |rest|
    requires Dec(sub, body + rest[..k], None) == Ok(v, |body|)
    ensures OverclaimDecodes(tag, form, sub, body, v, k, rest)
  {
    var id := ExplicitIdentifier(tag);
    var header := PutObject(id, |body| + k);
    HeaderBack(id, body, k, rest);
    LeavesEarly(tag, form, sub, header + body + rest, Header(id, |header|, Definite, |body| + k),
                body + rest[..k], v, |body|);
  }

  lemma LeavesEarly(tag: Tag, form: Form, sub: Schema, s: seq<Octet>, h: Header, inner: seq<Octet>, v: Value, n: nat)
    requires GetObject(s) == Some(h) && h.id == ExplicitIdentifier(tag) && h.form.Definite?
    requires inner == Inner(s, h) && Dec(sub, inner, None) == Ok(v, n) && h.size + n <= |s|
    ensures DecSlot(Explicit(tag, form), sub, s, None) == Ok(Some(v), h.size + n)
  {
    ExplicitIs(tag, form, sub, s, h);
  }

  lemma HeaderBack(id: Octet, body: seq<Octet>, k: nat, rest: seq<Octet>)
    requires id % 0x20 != 0x1F
    requires |body| + k <= INT_MAX && k <= |rest|
    ensures var header := PutObject(id, |body| + k);
            var s := header + body + rest;
            var h := Header(id, |header|, Definite, |body| + k);
            && GetObject(s) == Some(h) && Inner(s, h) == body + rest[..k]
            && s[|header| + |body|..] == rest
  {
    var header := PutObject(id, |body| + k);
    SplitAt(header, body, rest);
    GetPutObject(id, |body| + k, body + rest);
    ClaimedOctets(header, body, rest, k);
  }

  lemma ClaimedOctets(header: seq<Octet>, body: seq<Octet>, rest: seq<Octet>, k: nat)
    requires k <= |rest|
    ensures (header + body + rest)[|header|..|header| + (|body| + k)] == body + rest[..k]
    ensures (header + body + rest)[|header| + |body|..] == rest
  {
  }
}
