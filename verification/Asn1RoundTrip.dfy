/** Decoding what the encoder wrote: when it gives the object back, and when it cannot. */
module Asn1RoundTrip {
  import opened Options
  import opened Sequences
  import opened Asn1Octets
  import opened Asn1Schema
  import opened Asn1Encode
  import opened Asn1Decode

  // The octet the lookahead of the next macro meets: the first of `s`, or else `next`.
  function First(s: seq<Octet>, next: Option<Octet>): Option<Octet> {
    if s == [] then next else Some(s[0])
  }

  // No macro mistakes what follows for an absent component, at any depth.
  predicate Clear(schema: Schema, v: Value)
    requires Fits(schema, v)
    decreases schema, 0
  {
    match schema
    case Primitive(_) => true
    case Sequence(form, fields) =>
      ClearFields(fields, v.slots, if form.Definite? then None else Some(0))
  }

  predicate ClearFields(fields: Fields, slots: Slots, next: Option<Octet>)
    requires FitsSlots(fields, slots)
    decreases fields, 0
  {
    match fields
    case Done => true
    case Field(kind, sub, rest) =>
      && (slots.v.Some? ==> Clear(sub, slots.v.value))
      && (slots.v.None? ==> !Matches(kind, First(EncFields(rest, slots.rest), next)))
      && ClearFields(rest, slots.rest, next)
  }

  // What stands behind the contents of a tagged value.
  function Behind(form: Form, suffix: seq<Octet>): seq<Octet> {
    if form.Definite? then suffix else [0, 0] + suffix
  }

  // The header of a tagged value, read back.
  function WrapHeader(id: Octet, form: Form, body: seq<Octet>): Header {
    match form
    case Definite => Header(id, |PutObject(id, |body|)|, form, |body|)
    case Indefinite => Header(id, 2, form, 0)
  }

  lemma WrapBack(id: Octet, form: Form, body: seq<Octet>, suffix: seq<Octet>)
    requires id % 0x20 != 0x1F && |body| <= INT_MAX
    requires form.Indefinite? ==> ConstructedBit(id) != 0
    ensures GetObject(Wrap(id, form, body) + suffix) == Some(WrapHeader(id, form, body))
    ensures (Wrap(id, form, body) + suffix)[WrapHeader(id, form, body).size..] == body + Behind(form, suffix)
    ensures |Wrap(id, form, body)| == WrapHeader(id, form, body).size + |body| + if form.Definite? then 0 else 2
  {
    if form.Definite? {
      SplitAt(PutObject(id, |body|), body, suffix);
      GetPutObject(id, |body|, body + suffix);
    } else {
      SplitAt([id, 0x80], body, [0, 0]);
      SplitAt([id, 0x80], body + [0, 0], suffix);
      SplitAt(body, [0, 0], suffix);
    }
  }

  lemma IdentifierIsLowTag(schema: Schema)
    ensures Identifier(schema) % 0x20 != 0x1F
    ensures WithoutConstructed(Identifier(schema)) == TypeOf(schema)
    ensures ConstructedBit(Identifier(schema)) + TypeOf(schema) == Identifier(schema)
  {
  }

  /** The IMPLICIT path is transparent: undoing the identifier rewrite of
      put_IMP_opt gives the callee the octets the untagged encoder wrote. */
  lemma ImplicitIsTransparent(sub: Schema, v: Value, tag: Tag, suffix: seq<Octet>)
    requires Fits(sub, v)
    ensures Untag(TypeOf(sub), Retag(tag, Enc(sub, v)) + suffix) == Enc(sub, v) + suffix
    ensures Matches(Implicit(tag, TypeOf(sub)), Peek(Retag(tag, Enc(sub, v)) + suffix))
  {
    IdentifierIsLowTag(sub);
    var s := Enc(sub, v);
    var b := V_ASN1_CONTEXT_SPECIFIC + tag + ConstructedBit(s[0]);
    assert ConstructedBit(b) == ConstructedBit(s[0]);
    var t := Retag(tag, s) + suffix;
    assert t[0] == b;
    assert Untag(TypeOf(sub), t) == s + suffix;
  }

  /** Decoding an encoded object, whatever follows it, gives it back and stops right behind it. */
  lemma {:induction false} DecEnc(schema: Schema, v: Value, suffix: seq<Octet>)
    requires Fits(schema, v) && WellTyped(schema)
    requires |Enc(schema, v)| <= INT_MAX
    requires Clear(schema, v)
    ensures Dec(schema, Enc(schema, v) + suffix, None) == Ok(v, |Enc(schema, v)|)
    decreases schema, 0
  {
    match schema
    case Primitive(typ) =>
      PrimitiveBack(typ, v.octets, suffix);
    case Sequence(form, fields) =>
      var body := EncFields(fields, v.slots);
      DecEncFields(fields, v.slots, InContents(form, suffix));
      ContentsBack(Identifier(schema), form, body, suffix);
      SequenceGives(schema, Enc(schema, v) + suffix, WrapHeader(Identifier(schema), form, body),
                    body + InContents(form, suffix), v.slots, |body|);
      FinishBack(form, v.slots, body, suffix);
  }

  lemma SequenceGives(schema: Schema, s: seq<Octet>, h: Header, c: seq<Octet>, slots: Slots, n: nat)
    requires schema.Sequence? && GetObject(s) == Some(h) && h.id == Identifier(schema) && c == Contents(s, h)
    requires DecFields(schema.fields, c, Blank(schema.fields)) == Ok(slots, n)
    ensures Dec(schema, s, None) == Finish(c, h, Ok(slots, n))
  {
  }

  lemma PrimitiveBack(typ: Tag, octets: seq<Octet>, suffix: seq<Octet>)
    requires |octets| <= INT_MAX
    ensures var s := Wrap(typ, Definite, octets);
            Dec(Primitive(typ), s + suffix, None) == Ok(Octets(octets), |s|)
  {
    ContentsBack(typ, Definite, octets, suffix);
    assert octets + [] == octets;
  }

  // What a sequence's field macros may read behind the last field.
  function InContents(form: Form, suffix: seq<Octet>): seq<Octet> {
    if form.Definite? then [] else [0, 0] + suffix
  }

  lemma ContentsBack(id: Octet, form: Form, body: seq<Octet>, suffix: seq<Octet>)
    requires id % 0x20 != 0x1F && |body| <= INT_MAX
    requires form.Indefinite? ==> ConstructedBit(id) != 0
    ensures var s := Wrap(id, form, body) + suffix;
            var h := WrapHeader(id, form, body);
            && GetObject(s) == Some(h)
            && |Wrap(id, form, body)| == h.size + |body| + (if form.Definite? then 0 else 2)
            && Contents(s, h) == body + InContents(form, suffix)
  {
    WrapBack(id, form, body, suffix);
    var s := Wrap(id, form, body) + suffix;
    var h := WrapHeader(id, form, body);
    if form.Definite? {
      assert s[h.size..h.size + h.length] == s[h.size..][..|body|];
      assert (body + suffix)[..|body|] == body;
    }
  }

  lemma FinishBack(form: Form, slots: Slots, body: seq<Octet>, suffix: seq<Octet>)
    requires |body| <= INT_MAX
    ensures var h := WrapHeader(V_ASN1_CONSTRUCTED + V_ASN1_SEQUENCE, form, body);
            var used := h.size + |body| + if form.Definite? then 0 else 2;
            Finish(body + InContents(form, suffix), h, Ok(slots, |body|)) == Ok(Struct(slots), used)
  {
    assert (body + InContents(form, suffix))[|body|..] == InContents(form, suffix);
  }

  /** The field macros give every component back and leave the cursor exactly at the suffix. */
  lemma {:induction false} DecEncFields(fields: Fields, slots: Slots, suffix: seq<Octet>)
    requires FitsSlots(fields, slots) && WellTypedFields(fields)
    requires |EncFields(fields, slots)| <= INT_MAX
    requires ClearFields(fields, slots, Peek(suffix))
    ensures DecFields(fields, EncFields(fields, slots) + suffix, Blank(fields))
         == Ok(slots, |EncFields(fields, slots)|)
    decreases fields, 0
  {
    match fields
    case Done =>
    case Field(kind, sub, more) =>
      var mine := EncSlot(kind, sub, slots.v);
      var rest := EncFields(more, slots.rest);
      SplitFields(fields, slots, suffix);
      DecEncFields(more, slots.rest, suffix);
      if slots.v.Some? {
        DecEncSlot(kind, sub, slots.v.value, rest + suffix);
      }
  }

  // Where the first component's octets end, and what its lookahead sees when it has none.
  lemma SplitFields(fields: Fields, slots: Slots, suffix: seq<Octet>)
    requires fields.Field? && FitsSlots(fields, slots)
    ensures var mine := EncSlot(fields.kind, fields.sub, slots.v);
            var rest := EncFields(fields.rest, slots.rest);
            var s := EncFields(fields, slots) + suffix;
            && s == mine + (rest + suffix)
            && s[|mine|..] == rest + suffix
            && Peek(rest + suffix) == First(rest, Peek(suffix))
            && (slots.v.None? ==> s == rest + suffix)
  {
    SplitAt(EncSlot(fields.kind, fields.sub, slots.v), EncFields(fields.rest, slots.rest), suffix);
  }

  lemma {:induction false} DecEncSlot(kind: Kind, sub: Schema, v: Value, suffix: seq<Octet>)
    requires Fits(sub, v) && WellTyped(sub)
    requires kind.Optional? || kind.Implicit? ==> kind.typ == TypeOf(sub)
    requires |EncSlot(kind, sub, Some(v))| <= INT_MAX
    requires Clear(sub, v)
    ensures DecSlot(kind, sub, EncSlot(kind, sub, Some(v)) + suffix, None)
         == Ok(Some(v), |EncSlot(kind, sub, Some(v))|)
    decreases sub, 2
  {
    IdentifierIsLowTag(sub);
    match kind
    case Required => DecEnc(sub, v, suffix);
    case Optional(_) => DecEnc(sub, v, suffix);
    case Implicit(tag, _) =>
      ImplicitIsTransparent(sub, v, tag, suffix);
      DecEnc(sub, v, suffix);
    case Explicit(tag, form) =>
      DecEncExplicit(tag, form, sub, v, suffix);
  }

  lemma {:induction false} DecEncExplicit(tag: Tag, form: Form, sub: Schema, v: Value, suffix: seq<Octet>)
    requires Fits(sub, v) && WellTyped(sub)
    requires |Wrap(ExplicitIdentifier(tag), form, Enc(sub, v))| <= INT_MAX
    requires Clear(sub, v)
    ensures var s := Wrap(ExplicitIdentifier(tag), form, Enc(sub, v));
            DecSlot(Explicit(tag, form), sub, s + suffix, None) == Ok(Some(v), |s|)
    decreases sub, 1
  {
    DecEnc(sub, v, InWrapper(form, suffix));
    WrappedBack(tag, form, sub, Enc(sub, v), v, suffix);
  }

  // What the callee of get_EXP_opt may read behind its own octets.
  function InWrapper(form: Form, suffix: seq<Octet>): seq<Octet> {
    if form.Definite? then [] else ([0, 0] + suffix)[..|suffix|]
  }

  lemma InnerBack(id: Octet, form: Form, body: seq<Octet>, suffix: seq<Octet>)
    requires id % 0x20 != 0x1F && |body| <= INT_MAX
    requires form.Indefinite? ==> ConstructedBit(id) != 0
    ensures var s := Wrap(id, form, body) + suffix;
            var h := WrapHeader(id, form, body);
            && GetObject(s) == Some(h)
            && |Wrap(id, form, body)| == h.size + |body| + (if form.Definite? then 0 else 2)
            && Inner(s, h) == body + InWrapper(form, suffix)
            && (form.Indefinite? ==> EndOfContents(s[h.size + |body|..]))
  {
    ContentsBack(id, form, body, suffix);
    WrapBack(id, form, body, suffix);
    var s := Wrap(id, form, body) + suffix;
    if form.Indefinite? {
      assert s[2 + |body|..] == s[2..][|body|..];
      assert s[2..|s| - 2] == s[2..][..|s| - 4];
    }
  }

  // A wrapper gives back whatever its callee makes of the octets inside.
  lemma WrappedBack(tag: Tag, form: Form, sub: Schema, body: seq<Octet>, v: Value, suffix: seq<Octet>)
    requires |body| <= INT_MAX
    requires Dec(sub, body + InWrapper(form, suffix), None) == Ok(v, |body|)
    ensures var s := Wrap(ExplicitIdentifier(tag), form, body);
            DecSlot(Explicit(tag, form), sub, s + suffix, None) == Ok(Some(v), |s|)
  {
    var id := ExplicitIdentifier(tag);
    ClosedBack(id, form, body, v, suffix);
    ExplicitIs(tag, form, sub, Wrap(id, form, body) + suffix, WrapHeader(id, form, body));
  }

  lemma ClosedBack(id: Octet, form: Form, body: seq<Octet>, v: Value, suffix: seq<Octet>)
    requires id % 0x20 != 0x1F && |body| <= INT_MAX
    requires form.Indefinite? ==> ConstructedBit(id) != 0
    ensures var s := Wrap(id, form, body) + suffix;
            var h := WrapHeader(id, form, body);
            && GetObject(s) == Some(h)
            && Inner(s, h) == body + InWrapper(form, suffix)
            && CloseExplicit(s, h, Ok(v, |body|)) == Ok(Some(v), |Wrap(id, form, body)|)
  {
    InnerBack(id, form, body, suffix);
    CloseGives(Wrap(id, form, body) + suffix, WrapHeader(id, form, body), v, |body|);
  }

  lemma ExplicitIs(tag: Tag, form: Form, sub: Schema, s: seq<Octet>, h: Header)
    requires GetObject(s) == Some(h) && h.id == ExplicitIdentifier(tag)
    ensures DecSlot(Explicit(tag, form), sub, s, None) == CloseExplicit(s, h, Dec(sub, Inner(s, h), None))
  {
  }

  lemma CloseGives(s: seq<Octet>, h: Header, v: Value, n: nat)
    requires h.size + n <= |s| && (h.form.Indefinite? ==> EndOfContents(s[h.size + n..]))
    ensures CloseExplicit(s, h, Ok(v, n)) == Ok(Some(v), h.size + n + if h.form.Definite? then 0 else 2)
  {
  }

  // ---- The other direction: an object that is not clear never comes back. ----

  lemma {:induction false} Confused(schema: Schema, v: Value, suffix: seq<Octet>)
    requires Fits(schema, v) && WellTyped(schema)
    requires |Enc(schema, v)| <= INT_MAX
    requires !Clear(schema, v)
    ensures var r := Dec(schema, Enc(schema, v) + suffix, None);
            r.Ok? ==> r.value != v
    decreases schema, 0
  {
    var form, fields := schema.form, schema.fields;
    var body := EncFields(fields, v.slots);
    ConfusedFields(fields, v.slots, InContents(form, suffix));
    ContentsBack(Identifier(schema), form, body, suffix);
  }

  lemma {:induction false} ConfusedFields(fields: Fields, slots: Slots, suffix: seq<Octet>)
    requires FitsSlots(fields, slots) && WellTypedFields(fields)
    requires |EncFields(fields, slots)| <= INT_MAX
    requires !ClearFields(fields, slots, Peek(suffix))
    ensures var r := DecFields(fields, EncFields(fields, slots) + suffix, Blank(fields));
            r.Ok? ==> r.value != slots
    decreases fields, 0
  {
    var kind, sub, more := fields.kind, fields.sub, fields.rest;
    var rest := EncFields(more, slots.rest);
    SplitFields(fields, slots, suffix);
    if slots.v.None? {
      if Matches(kind, First(rest, Peek(suffix))) {
        MatchedIsPresent(kind, sub, rest + suffix);
      } else {
        ConfusedFields(more, slots.rest, suffix);
      }
    } else if Clear(sub, slots.v.value) {
      DecEncSlot(kind, sub, slots.v.value, rest + suffix);
      ConfusedFields(more, slots.rest, suffix);
    } else {
      ConfusedSlot(kind, sub, slots.v.value, rest + suffix);
    }
  }

  lemma MatchedIsPresent(kind: Kind, sub: Schema, s: seq<Octet>)
    requires Matches(kind, Peek(s))
    ensures var r := DecSlot(kind, sub, s, None);
            r.Ok? ==> r.value.Some?
  {
  }

  lemma {:induction false} ConfusedSlot(kind: Kind, sub: Schema, v: Value, suffix: seq<Octet>)
    requires Fits(sub, v) && WellTyped(sub)
    requires kind.Optional? || kind.Implicit? ==> kind.typ == TypeOf(sub)
    requires |EncSlot(kind, sub, Some(v))| <= INT_MAX
    requires !Clear(sub, v)
    ensures var r := DecSlot(kind, sub, EncSlot(kind, sub, Some(v)) + suffix, None);
            r.Ok? ==> r.value != Some(v)
    decreases sub, 2
  {
    IdentifierIsLowTag(sub);
    match kind
    case Required => Confused(sub, v, suffix);
    case Optional(_) => Confused(sub, v, suffix);
    case Implicit(tag, _) =>
      ImplicitIsTransparent(sub, v, tag, suffix);
      Confused(sub, v, suffix);
    case Explicit(tag, form) =>
      Confused(sub, v, InWrapper(form, suffix));
      WrappedConfused(tag, form, sub, Enc(sub, v), v, suffix);
  }

  lemma WrappedConfused(tag: Tag, form: Form, sub: Schema, body: seq<Octet>, v: Value, suffix: seq<Octet>)
    requires |body| <= INT_MAX
    requires var r := Dec(sub, body + InWrapper(form, suffix), None);
             r.Ok? ==> r.value != v
    ensures var r := DecSlot(Explicit(tag, form), sub, Wrap(ExplicitIdentifier(tag), form, body) + suffix, None);
            r.Ok? ==> r.value != Some(v)
  {
    InnerBack(ExplicitIdentifier(tag), form, body, suffix);
  }

  // ---- Main results ----

  /** Round trip, exactly: for every type and every object of it, decoding the
      encoding followed by anything returns the object, and stops exactly at what
      follows, if and only if no lookahead mistakes a later octet for an absent
      component. */
  lemma RoundTrip(schema: Schema, v: Value, suffix: seq<Octet>)
    requires Fits(schema, v) && WellTyped(schema)
    requires |Enc(schema, v)| <= INT_MAX
    ensures Dec(schema, Enc(schema, v) + suffix, None) == Ok(v, |Enc(schema, v)|) <==> Clear(schema, v)
  {
    if Clear(schema, v) {
      DecEnc(schema, v, suffix);
    } else {
      Confused(schema, v, suffix);
    }
  }

  /** The same for a bare field list read from M_ASN1_D2I_begin to Finish_nolen,
      where what follows the last component takes part in the lookahead. */
  lemma RoundTripFields(fields: Fields, slots: Slots, suffix: seq<Octet>)
    requires FitsSlots(fields, slots) && WellTypedFields(fields)
    requires |EncFields(fields, slots)| <= INT_MAX
    ensures DecFields(fields, EncFields(fields, slots) + suffix, Blank(fields)) == Ok(slots, |EncFields(fields, slots)|)
       <==> ClearFields(fields, slots, Peek(suffix))
  {
    if ClearFields(fields, slots, Peek(suffix)) {
      DecEncFields(fields, slots, suffix);
    } else {
      ConfusedFields(fields, slots, suffix);
    }
  }

  /** Clear encodings are prefix free: equal octet streams that start with two of
      them hold the same object and go on with the same octets. */
  lemma PrefixFree(schema: Schema, v: Value, suffix: seq<Octet>, v': Value, suffix': seq<Octet>)
    requires Fits(schema, v) && Fits(schema, v') && WellTyped(schema)
    requires |Enc(schema, v)| <= INT_MAX && |Enc(schema, v')| <= INT_MAX
    requires Clear(schema, v) && Clear(schema, v')
    requires Enc(schema, v) + suffix == Enc(schema, v') + suffix'
    ensures v == v' && suffix == suffix'
  {
    DecEnc(schema, v, suffix);
    DecEnc(schema, v', suffix');
    assert suffix == (Enc(schema, v) + suffix)[|Enc(schema, v)|..];
    assert suffix' == (Enc(schema, v') + suffix')[|Enc(schema, v')|..];
  }
}
