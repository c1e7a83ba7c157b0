/**
 The tag rule a type must obey for all its objects to round trip: the
 identifier an absent component would be recognised by must not be one that can
 follow it (the distinctness rule of ASN.1 for optional components).
 */
module Asn1Tags {
  import opened Options
  import opened Asn1Octets
  import opened Asn1Schema
  import opened Asn1Encode
  import opened Asn1Decode
  import opened Asn1RoundTrip

  // Every component that is not optional is there, at every depth.
  predicate Complete(schema: Schema, v: Value)
    requires Fits(schema, v)
    decreases schema
  {
    schema.Sequence? ==> CompleteSlots(schema.fields, v.slots)
  }

  predicate CompleteSlots(fields: Fields, slots: Slots)
    requires FitsSlots(fields, slots)
    decreases fields
  {
    fields.Field? ==>
      && (fields.kind.Required? ==> slots.v.Some?)
      && (slots.v.Some? ==> Complete(fields.sub, slots.v.value))
      && CompleteSlots(fields.rest, slots.rest)
  }

  // The identifier octet a field starts with when present.
  function FieldIdentifier(kind: Kind, sub: Schema): Octet {
    match kind
    case Required => Identifier(sub)
    case Optional(_) => Identifier(sub)
    case Implicit(tag, _) => V_ASN1_CONTEXT_SPECIFIC + tag + ConstructedBit(Identifier(sub))
    case Explicit(tag, _) => ExplicitIdentifier(tag)
  }

  // What the lookahead may meet in front of `fields`, followed by `next`.
  function Openings(fields: Fields, next: Option<Octet>): set<Option<Octet>>
    decreases fields
  {
    match fields
    case Done => {next}
    case Field(kind, sub, rest) =>
      {Some(FieldIdentifier(kind, sub))} + if kind.Required? then {} else Openings(rest, next)
  }

  predicate Distinct(schema: Schema)
    decreases schema, 0
  {
    schema.Sequence? ==> DistinctFields(schema.fields, if schema.form.Definite? then None else Some(0))
  }

  predicate DistinctFields(fields: Fields, next: Option<Octet>)
    decreases fields, 0
  {
    fields.Field? ==>
      && Distinct(fields.sub)
      && (fields.kind.Required? || forall o <- Openings(fields.rest, next) :: !Matches(fields.kind, o))
      && DistinctFields(fields.rest, next)
  }

  lemma SlotOpening(kind: Kind, sub: Schema, v: Value)
    requires Fits(sub, v)
    ensures var s := EncSlot(kind, sub, Some(v)); s != [] && s[0] == FieldIdentifier(kind, sub)
  {
  }

  lemma {:induction false} OpeningIsKnown(fields: Fields, slots: Slots, next: Option<Octet>)
    requires FitsSlots(fields, slots) && CompleteSlots(fields, slots)
    ensures First(EncFields(fields, slots), next) in Openings(fields, next)
    decreases fields
  {
    if fields.Field? {
      if slots.v.Some? {
        SlotOpening(fields.kind, fields.sub, slots.v.value);
      } else {
        OpeningIsKnown(fields.rest, slots.rest, next);
        assert EncFields(fields, slots) == EncFields(fields.rest, slots.rest);
      }
    }
  }

  lemma {:induction false} DistinctIsEnough(schema: Schema, v: Value)
    requires Fits(schema, v) && Complete(schema, v) && Distinct(schema)
    ensures Clear(schema, v)
    decreases schema, 0
  {
    if schema.Sequence? {
      DistinctFieldsIsEnough(schema.fields, v.slots, if schema.form.Definite? then None else Some(0));
    }
  }

  lemma {:induction false} DistinctFieldsIsEnough(fields: Fields, slots: Slots, next: Option<Octet>)
    requires FitsSlots(fields, slots) && CompleteSlots(fields, slots) && DistinctFields(fields, next)
    ensures ClearFields(fields, slots, next)
    decreases fields, 0
  {
    if fields.Field? {
      DistinctFieldsIsEnough(fields.rest, slots.rest, next);
      if slots.v.Some? {
        DistinctIsEnough(fields.sub, slots.v.value);
      } else {
        OpeningIsKnown(fields.rest, slots.rest, next);
      }
    }
  }

  // ---- A type that breaks the rule has an object that does not round trip. ----

  // The smallest complete object of a type.
  function Least(schema: Schema): (v: Value)
    ensures Fits(schema, v) && Complete(schema, v)
    decreases schema
  {
    match schema
    case Primitive(_) => Octets([])
    case Sequence(_, fields) => Struct(LeastSlots(fields))
  }

  function LeastSlots(fields: Fields): (slots: Slots)
    ensures FitsSlots(fields, slots) && CompleteSlots(fields, slots)
    decreases fields
  {
    match fields
    case Done => NoSlot
    case Field(kind, sub, rest) => Slot(if kind.Required? then Some(Least(sub)) else None, LeastSlots(rest))
  }

  // A complete field list that opens with `o`.
  lemma {:induction false} OpeningIsReached(fields: Fields, next: Option<Octet>, o: Option<Octet>)
    returns (slots: Slots)
    requires o in Openings(fields, next)
    ensures FitsSlots(fields, slots) && CompleteSlots(fields, slots)
    ensures First(EncFields(fields, slots), next) == o
    decreases fields
  {
    match fields
    case Done => slots := NoSlot;
    case Field(kind, sub, rest) =>
      if o == Some(FieldIdentifier(kind, sub)) {
        slots := Slot(Some(Least(sub)), LeastSlots(rest));
        SlotOpening(kind, sub, Least(sub));
      } else {
        var more := OpeningIsReached(rest, next, o);
        slots := Slot(None, more);
        assert EncFields(fields, slots) == EncFields(rest, more);
      }
  }

  lemma {:induction false} ConfusedObject(schema: Schema) returns (v: Value)
    requires !Distinct(schema)
    ensures Fits(schema, v) && Complete(schema, v) && !Clear(schema, v)
    decreases schema, 0
  {
    var slots := ConfusedFieldList(schema.fields, if schema.form.Definite? then None else Some(0));
    v := Struct(slots);
  }

  lemma {:induction false} ConfusedFieldList(fields: Fields, next: Option<Octet>) returns (slots: Slots)
    requires !DistinctFields(fields, next)
    ensures FitsSlots(fields, slots) && CompleteSlots(fields, slots) && !ClearFields(fields, slots, next)
    decreases fields, 0
  {
    var kind, sub, rest := fields.kind, fields.sub, fields.rest;
    if !Distinct(sub) {
      var v := ConfusedObject(sub);
      slots := Slot(Some(v), LeastSlots(rest));
    } else if !DistinctFields(rest, next) {
      var more := ConfusedFieldList(rest, next);
      slots := Slot(Some(Least(sub)), more);
    } else {
      var o :| o in Openings(rest, next) && Matches(kind, o);
      var more := OpeningIsReached(rest, next, o);
      slots := Slot(None, more);
    }
  }

  /** The tag rule is exact: a type keeps it if and only if every complete object
      of the type is clear, that is (RoundTrip) comes back from its encoding. */
  lemma DistinctIsExact(schema: Schema)
    ensures Distinct(schema) <==> forall v | Fits(schema, v) && Complete(schema, v) :: Clear(schema, v)
  {
    if Distinct(schema) {
      forall v | Fits(schema, v) && Complete(schema, v)
        ensures Clear(schema, v)
      {
        DistinctIsEnough(schema, v);
      }
    } else {
      var v := ConfusedObject(schema);
    }
  }

  /** Under the tag rule every complete object comes back, whatever follows it. */
  lemma DistinctRoundTrip(schema: Schema, v: Value, suffix: seq<Octet>)
    requires Fits(schema, v) && Complete(schema, v) && WellTyped(schema) && Distinct(schema)
    requires |Enc(schema, v)| <= INT_MAX
    ensures Dec(schema, Enc(schema, v) + suffix, None) == Ok(v, |Enc(schema, v)|)
  {
    DistinctIsEnough(schema, v);
    DecEnc(schema, v, suffix);
  }

  /** The identifier octets are those of ITU-T X.690 section 8.1.2: an untagged field
      keeps its universal class and tag, an IMPLICIT one takes the context class
      and its own tag but stays primitive or constructed, an EXPLICIT one is
      context class, constructed. */
  lemma IdentifierOctets(kind: Kind, sub: Schema, v: Value)
    requires Fits(sub, v)
    ensures var b: int := EncSlot(kind, sub, Some(v))[0];
            var cls, constructed, tag := b / 0x40, b / 0x20 % 2 == 1, b % 0x20;
            match kind
            case Required => cls == 0 && tag == TypeOf(sub) && (constructed <==> sub.Sequence?)
            case Optional(_) => cls == 0 && tag == TypeOf(sub) && (constructed <==> sub.Sequence?)
            case Implicit(t, _) => cls == 2 && tag == t && (constructed <==> sub.Sequence?)
            case Explicit(t, _) => cls == 2 && tag == t && constructed
  {
    SlotOpening(kind, sub, v);
  }

  // ---- Decoding first ----

  /** What decoding into nothing gives is always complete. */
  lemma {:induction false} DecodedIsComplete(schema: Schema, s: seq<Octet>)
    requires Dec(schema, s, None).Ok?
    ensures Complete(schema, Dec(schema, s, None).value)
    decreases schema, 0
  {
    if schema.Sequence? {
      DecodedFieldsAreComplete(schema.fields, Contents(s, GetObject(s).value));
    }
  }

  lemma {:induction false} DecodedFieldsAreComplete(fields: Fields, s: seq<Octet>)
    requires DecFields(fields, s, Blank(fields)).Ok?
    ensures CompleteSlots(fields, DecFields(fields, s, Blank(fields)).value)
    decreases fields, 0
  {
    if fields.Field? {
      var v := DecSlot(fields.kind, fields.sub, s, None);
      DecodedSlotIsComplete(fields.kind, fields.sub, s);
      DecodedFieldsAreComplete(fields.rest, s[v.used..]);
    }
  }

  lemma {:induction false} DecodedSlotIsComplete(kind: Kind, sub: Schema, s: seq<Octet>)
    requires DecSlot(kind, sub, s, None).Ok?
    ensures var v := DecSlot(kind, sub, s, None).value;
            (kind.Required? ==> v.Some?) && (v.Some? ==> Complete(sub, v.value))
    decreases sub, 1
  {
    if Matches(kind, Peek(s)) {
      match kind
      case Required => DecodedIsComplete(sub, s);
      case Optional(_) => DecodedIsComplete(sub, s);
      case Implicit(_, typ) => DecodedIsComplete(sub, Untag(typ, s));
      case Explicit(_, _) => DecodedIsComplete(sub, Inner(s, GetObject(s).value));
    }
  }

  /** Under the tag rule, whatever octets an object was decoded from (any mixture of
      definite and indefinite lengths, shortest or not), encoding it again and
      decoding that loses nothing. */
  lemma ReencodingIsFaithful(schema: Schema, s: seq<Octet>, suffix: seq<Octet>)
    requires WellTyped(schema) && Distinct(schema)
    requires Dec(schema, s, None).Ok?
    requires |Enc(schema, Dec(schema, s, None).value)| <= INT_MAX
    ensures var v := Dec(schema, s, None).value;
            Dec(schema, Enc(schema, v) + suffix, None) == Ok(v, |Enc(schema, v)|)
  {
    DecodedIsComplete(schema, s);
    DistinctRoundTrip(schema, Dec(schema, s, None).value, suffix);
  }
}
