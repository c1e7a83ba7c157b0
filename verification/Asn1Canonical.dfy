/**
 When the octets an object was decoded from are the ones its encoder writes.
 The decoder accepts more than that: longer length octets, the other length form,
 EXPLICIT wrappers that claim too much.  Canonical looks at the octets for these.
 */
module Asn1Canonical {
  import opened Options
  import opened Sequences
  import opened Asn1Octets
  import opened Asn1Schema
  import opened Asn1Encode
  import opened Asn1Decode
  import opened Asn1RoundTrip
  import opened Asn1Tags

  // The header at the front of `s` has the given form and no octet too many: the
  // long form only for what the short form cannot say, and without leading zeros.
  predicate Shortest(s: seq<Octet>, h: Header, form: Form)
    requires GetObject(s) == Some(h)
  {
    h.form == form && (s[1] > 0x80 ==> h.length >= 0x80 && s[2] != 0)
  }

  // Every header is shortest and in the form the type's encoder uses, and every
  // definite EXPLICIT wrapper is used up by its callee, at every depth.
  predicate Canonical(schema: Schema, s: seq<Octet>)
    decreases schema, 0
  {
    var h := GetObject(s);
    && h.Some?
    && match schema
       case Primitive(_) => Shortest(s, h.value, Definite)
       case Sequence(form, fields) =>
         Shortest(s, h.value, form) && CanonicalFields(fields, Contents(s, h.value))
  }

  predicate CanonicalFields(fields: Fields, s: seq<Octet>)
    decreases fields, 0
  {
    fields.Field? ==>
      && CanonicalSlot(fields.kind, fields.sub, s)
      && var v := DecSlot(fields.kind, fields.sub, s, None);
         v.Ok? && CanonicalFields(fields.rest, s[v.used..])
  }

  predicate CanonicalSlot(kind: Kind, sub: Schema, s: seq<Octet>)
    decreases sub, 1
  {
    Matches(kind, Peek(s)) ==>
      match kind
      case Required => Canonical(sub, s)
      case Optional(_) => Canonical(sub, s)
      case Implicit(_, typ) => Canonical(sub, Untag(typ, s))
      case Explicit(_, form) =>
        var h := GetObject(s);
        && h.Some? && Shortest(s, h.value, form)
        && Canonical(sub, Inner(s, h.value))
        && UsedUp(form, sub, Inner(s, h.value))
  }

  predicate UsedUp(form: Form, sub: Schema, inner: seq<Octet>) {
    var v := Dec(sub, inner, None);
    form.Definite? ==> v.Ok? && v.used == |inner|
  }

  // ---- Headers ----

  lemma {:induction false} BigEndianOnlyOne(s: seq<Octet>, i: nat, t: seq<Octet>, j: nat, n: nat)
    requires i + n <= |s| && j + n <= |t| && BigEndian(s, i, n) == BigEndian(t, j, n)
    ensures s[i..i + n] == t[j..j + n]
    decreases n
  {
    if n > 0 {
      var m := n - 1;
      BigEndianOnlyOne(s, i, t, j, m);
      assert s[i..i + n] == s[i..i + m] + [s[i + m]];
      assert t[j..j + n] == t[j..j + m] + [t[j + m]];
    }
  }

  lemma {:induction false} BigEndianBounds(s: seq<Octet>, i: nat, n: nat)
    requires 1 <= n <= 4 && i + n <= |s|
    ensures n == 1 ==> BigEndian(s, i, n) < 0x100
    ensures n == 2 ==> BigEndian(s, i, n) < 0x1_0000
    ensures n == 3 ==> BigEndian(s, i, n) < 0x100_0000
    ensures n == 2 && s[i] != 0 ==> BigEndian(s, i, n) >= 0x100
    ensures n == 3 && s[i] != 0 ==> BigEndian(s, i, n) >= 0x1_0000
    ensures n == 4 && s[i] != 0 ==> BigEndian(s, i, n) >= 0x100_0000
    ensures s[i] != 0 ==> BigEndian(s, i, n) >= 1
    decreases n
  {
    if n > 1 {
      BigEndianBounds(s, i, n - 1);
    } else {
      assert BigEndian(s, i, 0) == 0;
    }
  }

  /** A shortest definite header is the one put_object writes for its length. */
  lemma ShortestIsPut(s: seq<Octet>, h: Header)
    requires GetObject(s) == Some(h) && Shortest(s, h, Definite)
    ensures s[..h.size] == PutObject(h.id, h.length)
  {
    var l := LengthOctets(h.length);
    if s[1] > 0x80 {
      var k := s[1] - 0x80;
      BigEndianBounds(s, 2, k);
      LongForm(h.length);
      assert |l| == k + 1;
      BigEndianOnlyOne(s, 2, l, 1, k);
      assert l == [l[0]] + l[1..1 + k];
      assert s[..h.size] == [h.id, s[1]] + s[2..2 + k];
    } else {
      assert s[..2] == [h.id] + l;
    }
  }

  lemma PutIsShortest(id: Octet, form: Form, body: seq<Octet>, suffix: seq<Octet>)
    requires id % 0x20 != 0x1F && |body| <= INT_MAX
    requires form.Indefinite? ==> ConstructedBit(id) != 0
    ensures var s := Wrap(id, form, body) + suffix;
            var h := WrapHeader(id, form, body);
            GetObject(s) == Some(h) && Shortest(s, h, form)
  {
    WrapBack(id, form, body, suffix);
    var s := Wrap(id, form, body) + suffix;
    if form.Definite? {
      var l := LengthOctets(|body|);
      assert s[1] == l[0];
      if |body| >= 0x80 {
        LongForm(|body|);
        assert s[2] == l[1];
      }
    }
  }

  // ---- What the encoder writes is canonical ----

  lemma {:induction false} EncodedIsCanonical(schema: Schema, v: Value, suffix: seq<Octet>)
    requires Fits(schema, v) && WellTyped(schema) && Clear(schema, v)
    requires |Enc(schema, v)| <= INT_MAX
    ensures Canonical(schema, Enc(schema, v) + suffix)
    decreases schema, 0
  {
    match schema
    case Primitive(typ) => PutIsShortest(typ, Definite, v.octets, suffix);
    case Sequence(form, fields) =>
      var body := EncFields(fields, v.slots);
      PutIsShortest(Identifier(schema), form, body, suffix);
      ContentsBack(Identifier(schema), form, body, suffix);
      EncodedFieldsAreCanonical(fields, v.slots, InContents(form, suffix));
  }

  lemma {:induction false} EncodedFieldsAreCanonical(fields: Fields, slots: Slots, suffix: seq<Octet>)
    requires FitsSlots(fields, slots) && WellTypedFields(fields) && ClearFields(fields, slots, Peek(suffix))
    requires |EncFields(fields, slots)| <= INT_MAX
    ensures CanonicalFields(fields, EncFields(fields, slots) + suffix)
    decreases fields, 0
  {
    if fields.Field? {
      var rest := EncFields(fields.rest, slots.rest) + suffix;
      SplitFields(fields, slots, suffix);
      EncodedFieldsAreCanonical(fields.rest, slots.rest, suffix);
      if slots.v.Some? {
        DecEncSlot(fields.kind, fields.sub, slots.v.value, rest);
        EncodedSlotIsCanonical(fields.kind, fields.sub, slots.v.value, rest);
      }
    }
  }

  lemma {:induction false} EncodedSlotIsCanonical(kind: Kind, sub: Schema, v: Value, suffix: seq<Octet>)
    requires Fits(sub, v) && WellTyped(sub) && Clear(sub, v)
    requires kind.Optional? || kind.Implicit? ==> kind.typ == TypeOf(sub)
    requires |EncSlot(kind, sub, Some(v))| <= INT_MAX
    ensures CanonicalSlot(kind, sub, EncSlot(kind, sub, Some(v)) + suffix)
    decreases sub, 1
  {
    match kind
    case Required => EncodedIsCanonical(sub, v, suffix);
    case Optional(_) => EncodedIsCanonical(sub, v, suffix);
    case Implicit(tag, _) =>
      ImplicitIsTransparent(sub, v, tag, suffix);
      EncodedIsCanonical(sub, v, suffix);
    case Explicit(tag, form) =>
      var tail := InWrapper(form, suffix);
      DecEnc(sub, v, tail);
      EncodedIsCanonical(sub, v, tail);
      WrappedIsCanonical(tag, form, sub, Enc(sub, v), v, suffix);
  }

  lemma WrappedIsCanonical(tag: Tag, form: Form, sub: Schema, body: seq<Octet>, v: Value, suffix: seq<Octet>)
    requires |body| <= INT_MAX
    requires Dec(sub, body + InWrapper(form, suffix), None) == Ok(v, |body|)
    requires Canonical(sub, body + InWrapper(form, suffix))
    ensures CanonicalSlot(Explicit(tag, form), sub, Wrap(ExplicitIdentifier(tag), form, body) + suffix)
  {
    PutIsShortest(ExplicitIdentifier(tag), form, body, suffix);
    InnerBack(ExplicitIdentifier(tag), form, body, suffix);
  }

  // ---- What is canonical is what the encoder writes ----

  lemma {:induction false} CanonicalIsEncoded(schema: Schema, s: seq<Octet>)
    requires Dec(schema, s, None).Ok? && Canonical(schema, s)
    ensures Enc(schema, Dec(schema, s, None).value) == s[..Dec(schema, s, None).used]
    decreases schema, 0
  {
    var h := GetObject(s).value;
    match schema
    case Primitive(_) => Rewrapped(s, h, Definite, Dec(schema, s, None).value.octets);
    case Sequence(form, fields) =>
      CanonicalFieldsAreEncoded(fields, Contents(s, h));
      var slots := DecFields(fields, Contents(s, h), Blank(fields));
      FinishedIsWrapped(s, h, form, slots);
  }

  // A sequence that Finish accepts lies in the octets Wrap writes for its contents.
  lemma FinishedIsWrapped(s: seq<Octet>, h: Header, form: Form, slots: Outcome<Slots>)
    requires GetObject(s) == Some(h) && Shortest(s, h, form)
    requires slots.Ok? && slots.used <= |Contents(s, h)| && Finish(Contents(s, h), h, slots).Ok?
    ensures Finish(Contents(s, h), h, slots).used <= |s|
    ensures Wrap(h.id, form, Contents(s, h)[..slots.used]) == s[..Finish(Contents(s, h), h, slots).used]
  {
    Rewrapped(s, h, form, Contents(s, h)[..slots.used]);
  }

  // A shortest header, its contents and its end are the octets Wrap writes.
  lemma Rewrapped(s: seq<Octet>, h: Header, form: Form, body: seq<Octet>)
    requires GetObject(s) == Some(h) && Shortest(s, h, form)
    requires h.size + |body| <= |s| && body == s[h.size..h.size + |body|]
    requires form.Definite? ==> h.length == |body|
    requires form.Indefinite? ==> EndOfContents(s[h.size + |body|..])
    ensures Wrap(h.id, form, body) == s[..h.size + |body| + if form.Definite? then 0 else 2]
  {
    var n := h.size + |body|;
    if form.Definite? {
      ShortestIsPut(s, h);
      Joined(s, h.size, n);
    } else {
      assert s[..2] == [h.id, 0x80];
      assert s[n..n + 2] == [0, 0];
      Joined(s, 2, n);
      Joined(s, n, n + 2);
    }
  }

  lemma {:induction false} CanonicalFieldsAreEncoded(fields: Fields, s: seq<Octet>)
    requires DecFields(fields, s, Blank(fields)).Ok? && CanonicalFields(fields, s)
    ensures var r := DecFields(fields, s, Blank(fields));
            EncFields(fields, r.value) == s[..r.used]
    decreases fields, 0
  {
    if fields.Field? {
      var v := DecSlot(fields.kind, fields.sub, s, None);
      CanonicalSlotIsEncoded(fields.kind, fields.sub, s);
      CanonicalFieldsAreEncoded(fields.rest, s[v.used..]);
      TwoPrefixes(s, v.used, DecFields(fields.rest, s[v.used..], Blank(fields.rest)).used);
    }
  }

  lemma {:induction false} CanonicalSlotIsEncoded(kind: Kind, sub: Schema, s: seq<Octet>)
    requires DecSlot(kind, sub, s, None).Ok? && CanonicalSlot(kind, sub, s)
    ensures var r := DecSlot(kind, sub, s, None);
            EncSlot(kind, sub, r.value) == s[..r.used]
    decreases sub, 1
  {
    if Matches(kind, Peek(s)) {
      match kind
      case Required => CanonicalIsEncoded(sub, s);
      case Optional(_) => CanonicalIsEncoded(sub, s);
      case Implicit(tag, typ) =>
        CanonicalIsEncoded(sub, Untag(typ, s));
        RetagUntagged(tag, typ, s, Dec(sub, Untag(typ, s), None).used);
      case Explicit(tag, form) =>
        var h := GetObject(s).value;
        ExplicitIs(tag, form, sub, s, h);
        CanonicalIsEncoded(sub, Inner(s, h));
        WrapperIsEncoded(tag, form, s, h, Dec(sub, Inner(s, h), None));
    }
  }

  // A wrapper that is shortest and used up is the one put_EXP_opt writes.
  lemma WrapperIsEncoded(tag: Tag, form: Form, s: seq<Octet>, h: Header, v: Outcome<Value>)
    requires GetObject(s) == Some(h) && Shortest(s, h, form) && h.id == ExplicitIdentifier(tag)
    requires v.Ok? && v.used <= |Inner(s, h)| && (form.Definite? ==> v.used == |Inner(s, h)|)
    requires h.size + v.used <= |s| && CloseExplicit(s, h, v).Ok?
    ensures Wrap(ExplicitIdentifier(tag), form, Inner(s, h)[..v.used]) == s[..CloseExplicit(s, h, v).used]
  {
    InnerPrefix(s, h, v.used);
    Rewrapped(s, h, form, Inner(s, h)[..v.used]);
  }

  lemma RetagUntagged(tag: Tag, typ: Tag, s: seq<Octet>, n: nat)
    requires 0 < n <= |s| && WithoutConstructed(s[0]) == V_ASN1_CONTEXT_SPECIFIC + tag
    ensures Retag(tag, Untag(typ, s)[..n]) == s[..n]
  {
  }

  lemma InnerPrefix(s: seq<Octet>, h: Header, n: nat)
    requires h.size <= |s| && (h.form.Definite? ==> h.size + h.length <= |s|)
    requires n <= |Inner(s, h)|
    ensures h.size + n <= |s| && Inner(s, h)[..n] == s[h.size..h.size + n]
  {
  }

  // ---- Main results ----

  /** Exactly when decoding loses nothing: the octets an object was decoded from are
      those its encoder writes if and only if they are canonical. */
  lemma CanonicalIsExact(schema: Schema, s: seq<Octet>)
    requires WellTyped(schema) && |s| <= INT_MAX
    requires Dec(schema, s, None).Ok?
    ensures var r := Dec(schema, s, None);
            Enc(schema, r.value) == s[..r.used] <==> Canonical(schema, s)
  {
    var r := Dec(schema, s, None);
    if Canonical(schema, s) {
      CanonicalIsEncoded(schema, s);
    }
    if Enc(schema, r.value) == s[..r.used] {
      SameIsCanonical(schema, s, r.value, r.used);
    }
  }

  lemma SameIsCanonical(schema: Schema, s: seq<Octet>, v: Value, n: nat)
    requires WellTyped(schema) && n <= |s| && n <= INT_MAX
    requires Dec(schema, s, None) == Ok(v, n) && Enc(schema, v) == s[..n]
    ensures Canonical(schema, s)
  {
    assert s == s[..n] + s[n..];
    OwnIsCanonical(schema, s, v, s[..n], s[n..]);
  }

  lemma OwnIsCanonical(schema: Schema, s: seq<Octet>, v: Value, own: seq<Octet>, suffix: seq<Octet>)
    requires WellTyped(schema) && |own| <= INT_MAX && s == own + suffix
    requires Dec(schema, s, None) == Ok(v, |own|) && Enc(schema, v) == own
    ensures Canonical(schema, s)
  {
    RoundTrip(schema, v, suffix);
    EncodedIsCanonical(schema, v, suffix);
  }

  /** So decoding is injective on canonical octets: equal objects were decoded from
      equal octets. */
  lemma CanonicalIsInjective(schema: Schema, s: seq<Octet>, s': seq<Octet>)
    requires Dec(schema, s, None).Ok? && Dec(schema, s', None).Ok?
    requires Canonical(schema, s) && Canonical(schema, s')
    requires Dec(schema, s, None).value == Dec(schema, s', None).value
    ensures s[..Dec(schema, s, None).used] == s'[..Dec(schema, s', None).used]
  {
    CanonicalIsEncoded(schema, s);
    CanonicalIsEncoded(schema, s');
  }

  /** And on no others: what was decoded from other octets comes back from its own
      encoding too, which is canonical and different. */
  lemma OthersCollide(schema: Schema, s: seq<Octet>)
    requires WellTyped(schema) && Distinct(schema) && |s| <= INT_MAX
    requires Dec(schema, s, None).Ok? && !Canonical(schema, s)
    requires |Enc(schema, Dec(schema, s, None).value)| <= INT_MAX
    ensures var r := Dec(schema, s, None);
            var proper := Enc(schema, r.value);
            && proper != s[..r.used] && Canonical(schema, proper)
            && Dec(schema, proper, None) == Ok(r.value, |proper|)
  {
    var r := Dec(schema, s, None);
    var proper := Enc(schema, r.value);
    CanonicalIsExact(schema, s);
    ReencodingIsFaithful(schema, s, []);
    RoundTrip(schema, r.value, []);
    EncodedIsCanonical(schema, r.value, []);
    assert proper + [] == proper;
  }
}
