/**
 What get_opt and get_IMP_opt need from their caller: the universal tag the author
 of a type passes them must be the callee's own.  One object per type decides it,
 the one with every component present.
 */
module Asn1WellTyped {
  import opened Options
  import opened Asn1Octets
  import opened Asn1Schema
  import opened Asn1Encode
  import opened Asn1Decode
  import opened Asn1RoundTrip

  // The object with every component there, at every depth.
  function Full(schema: Schema): (v: Value)
    ensures Fits(schema, v) && Clear(schema, v)
    decreases schema
  {
    match schema
    case Primitive(_) => Octets([])
    case Sequence(form, fields) => Struct(FullSlots(fields, if form.Definite? then None else Some(0)))
  }

  function FullSlots(fields: Fields, next: Option<Octet>): (slots: Slots)
    ensures FitsSlots(fields, slots) && ClearFields(fields, slots, next)
    decreases fields
  {
    match fields
    case Done => NoSlot
    case Field(_, sub, rest) => Slot(Some(Full(sub)), FullSlots(rest, next))
  }

  lemma {:induction false} IllTyped(schema: Schema, suffix: seq<Octet>)
    requires !WellTyped(schema) && |Enc(schema, Full(schema))| <= INT_MAX
    ensures var r := Dec(schema, Enc(schema, Full(schema)) + suffix, None);
            r.Ok? ==> r.value != Full(schema)
    decreases schema, 0
  {
    var form, fields := schema.form, schema.fields;
    var next := if form.Definite? then None else Some(0);
    IllTypedFields(fields, next, InContents(form, suffix));
    ContentsBack(Identifier(schema), form, EncFields(fields, FullSlots(fields, next)), suffix);
  }

  lemma {:induction false} IllTypedFields(fields: Fields, next: Option<Octet>, suffix: seq<Octet>)
    requires !WellTypedFields(fields) && |EncFields(fields, FullSlots(fields, next))| <= INT_MAX
    ensures var slots := FullSlots(fields, next);
            var r := DecFields(fields, EncFields(fields, slots) + suffix, Blank(fields));
            r.Ok? ==> r.value != slots
    decreases fields, 0
  {
    var kind, sub, more := fields.kind, fields.sub, fields.rest;
    var slots := FullSlots(fields, next);
    var rest := EncFields(more, slots.rest) + suffix;
    SplitFields(fields, slots, suffix);
    if WellTyped(sub) && !((kind.Optional? || kind.Implicit?) && kind.typ != TypeOf(sub)) {
      DecEncSlot(kind, sub, Full(sub), rest);
      IllTypedFields(more, next, suffix);
    } else {
      IllTypedSlot(kind, sub, rest);
    }
  }

  lemma {:induction false} IllTypedSlot(kind: Kind, sub: Schema, suffix: seq<Octet>)
    requires !WellTyped(sub) || ((kind.Optional? || kind.Implicit?) && kind.typ != TypeOf(sub))
    requires |EncSlot(kind, sub, Some(Full(sub)))| <= INT_MAX
    ensures var r := DecSlot(kind, sub, EncSlot(kind, sub, Some(Full(sub))) + suffix, None);
            r.Ok? ==> r.value != Some(Full(sub))
    decreases sub, 1
  {
    IdentifierIsLowTag(sub);
    if (kind.Optional? || kind.Implicit?) && kind.typ != TypeOf(sub) {
      WrongTag(kind, sub, Full(sub), suffix);
    } else {
      match kind
      case Required => IllTyped(sub, suffix);
      case Optional(_) => IllTyped(sub, suffix);
      case Implicit(tag, _) =>
        ImplicitIsTransparent(sub, Full(sub), tag, suffix);
        IllTyped(sub, suffix);
      case Explicit(tag, form) =>
        IllTyped(sub, InWrapper(form, suffix));
        WrappedConfused(tag, form, sub, Enc(sub, Full(sub)), Full(sub), suffix);
    }
  }

  // OPTIONAL takes the component for absent, IMPLICIT hands its callee a foreign tag.
  lemma WrongTag(kind: Kind, sub: Schema, v: Value, suffix: seq<Octet>)
    requires Fits(sub, v) && (kind.Optional? || kind.Implicit?) && kind.typ != TypeOf(sub)
    ensures var r := DecSlot(kind, sub, EncSlot(kind, sub, Some(v)) + suffix, None);
            r.Ok? ==> r.value == None
  {
    IdentifierIsLowTag(sub);
    var s := EncSlot(kind, sub, Some(v)) + suffix;
    if kind.Optional? {
      assert s[0] == Identifier(sub);
    } else {
      ImplicitIsTransparent(sub, v, kind.tag, suffix);
      assert Untag(kind.typ, s)[0] != Identifier(sub);
      ForeignTag(sub, Untag(kind.typ, s));
    }
  }

  lemma ForeignTag(sub: Schema, s: seq<Octet>)
    requires s != [] && s[0] != Identifier(sub)
    ensures Dec(sub, s, None).Err?
  {
  }

  /** A type's functions read back what they write, component by component, if and
      only if every OPTIONAL and IMPLICIT field was given its callee's own universal
      tag, at every depth; the full object tells. */
  lemma WellTypedIsExact(schema: Schema, suffix: seq<Octet>)
    requires |Enc(schema, Full(schema))| <= INT_MAX
    ensures Dec(schema, Enc(schema, Full(schema)) + suffix, None) == Ok(Full(schema), |Enc(schema, Full(schema))|)
       <==> WellTyped(schema)
  {
    if WellTyped(schema) {
      DecEnc(schema, Full(schema), suffix);
    } else {
      IllTyped(schema, suffix);
    }
  }
}
