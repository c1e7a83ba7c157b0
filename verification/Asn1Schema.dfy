/**
 Types as the ASN.1 macros see them: a primitive type handled by an i2d/d2i
 pair, or a SEQUENCE whose components are each read and written by one macro.
 */
module Asn1Schema {
  import opened Options
  import opened Asn1Octets

  datatype Schema =
    | Primitive(typ: Tag)
    | Sequence(form: Form, fields: Fields)

  datatype Fields = Done | Field(kind: Kind, sub: Schema, rest: Fields)

  // Which macros read and write the field.
  datatype Kind =
    | Required                       // D2I_get / I2D_put
    | Optional(typ: Tag)             // D2I_get_opt / I2D_put
    | Implicit(tag: Tag, typ: Tag)   // D2I_get_IMP_opt / I2D_put_IMP_opt
    | Explicit(tag: Tag, form: Form) // D2I_get_EXP_opt / I2D_put_EXP_opt

  // A C object: contents octets, or a structure of pointers that may be NULL.
  datatype Value = Octets(octets: seq<Octet>) | Struct(slots: Slots)
  datatype Slots = NoSlot | Slot(v: Option<Value>, rest: Slots)

  // The object has the C type of the schema.
  predicate Fits(schema: Schema, v: Value)
    decreases schema
  {
    match schema
    case Primitive(_) => v.Octets?
    case Sequence(_, fields) => v.Struct? && FitsSlots(fields, v.slots)
  }

  predicate FitsSlots(fields: Fields, slots: Slots)
    decreases fields
  {
    match fields
    case Done => slots.NoSlot?
    case Field(_, sub, rest) =>
      slots.Slot? && (slots.v.Some? ==> Fits(sub, slots.v.value)) && FitsSlots(rest, slots.rest)
  }

  predicate FitsOption(schema: Schema, v: Option<Value>) {
    v.Some? ==> Fits(schema, v.value)
  }

  // The universal tag of the type, and its identifier octet.
  function TypeOf(schema: Schema): Tag {
    if schema.Primitive? then schema.typ else V_ASN1_SEQUENCE
  }

  function Identifier(schema: Schema): Octet {
    if schema.Primitive? then schema.typ else V_ASN1_CONSTRUCTED + V_ASN1_SEQUENCE
  }

  // get_opt and get_IMP_opt are handed the callee's own universal tag.
  predicate WellTyped(schema: Schema)
    decreases schema
  {
    schema.Sequence? ==> WellTypedFields(schema.fields)
  }

  predicate WellTypedFields(fields: Fields)
    decreases fields
  {
    fields.Field? ==>
      && (fields.kind.Optional? || fields.kind.Implicit? ==> fields.kind.typ == TypeOf(fields.sub))
      && WellTyped(fields.sub)
      && WellTypedFields(fields.rest)
  }

  // Every component pointer NULL: a freshly allocated structure.
  function Blank(fields: Fields): (slots: Slots)
    ensures FitsSlots(fields, slots)
    decreases fields
  {
    match fields
    case Done => NoSlot
    case Field(_, _, rest) => Slot(None, Blank(rest))
  }

  // The components a decoder starts from: those of the object it was handed, or blank ones.
  function Start(fields: Fields, init: Option<Value>): (slots: Slots)
    requires init.Some? ==> init.value.Struct? && FitsSlots(fields, init.value.slots)
    ensures FitsSlots(fields, slots)
  {
    if init.Some? then init.value.slots else Blank(fields)
  }
}
