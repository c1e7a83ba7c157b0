/** The encoding the I2D macros produce, as a function of the object. */
module Asn1Encode {
  import opened Options
  import opened Asn1Octets
  import opened Asn1Schema

  function Enc(schema: Schema, v: Value): (s: seq<Octet>)
    requires Fits(schema, v)
    ensures |s| >= 2 && s[0] == Identifier(schema)
    decreases schema, 0
  {
    match schema
    case Primitive(typ) => Wrap(typ, Definite, v.octets)
    case Sequence(form, fields) => Wrap(Identifier(schema), form, EncFields(fields, v.slots))
  }

  function EncFields(fields: Fields, slots: Slots): seq<Octet>
    requires FitsSlots(fields, slots)
    decreases fields, 0
  {
    match fields
    case Done => []
    case Field(kind, sub, rest) => EncSlot(kind, sub, slots.v) + EncFields(rest, slots.rest)
  }

  // A NULL component writes nothing: every i2d function answers 0 for NULL.
  function EncSlot(kind: Kind, sub: Schema, v: Option<Value>): seq<Octet>
    requires FitsOption(sub, v)
    decreases sub, 1
  {
    if v.None? then [] else
    match kind
    case Required => Enc(sub, v.value)
    case Optional(_) => Enc(sub, v.value)
    case Implicit(tag, _) => Retag(tag, Enc(sub, v.value))
    case Explicit(tag, form) => Wrap(ExplicitIdentifier(tag), form, Enc(sub, v.value))
  }

  function ExplicitIdentifier(tag: Tag): Octet {
    V_ASN1_CONSTRUCTED + V_ASN1_CONTEXT_SPECIFIC + tag
  }

  // The identifier rewrite of put_IMP_opt: context class and new tag, same constructed bit.
  function Retag(tag: Tag, s: seq<Octet>): seq<Octet>
    requires s != []
  {
    s[0 := V_ASN1_CONTEXT_SPECIFIC + tag + ConstructedBit(s[0])]
  }
}
