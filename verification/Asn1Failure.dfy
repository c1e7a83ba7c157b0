/**
 What a failed decode leaves behind.  The macros write through `&(b)` as they go,
 so an object the caller passed in keeps the components decoded before the one
 that failed; an object a callee allocated itself is freed, and the pointer to it
 was never set.
 */
module Asn1Failure {
  import opened Options
  import opened Asn1Octets
  import opened Asn1Schema
  import opened Asn1Decode

  // *a behind a d2i function that failed on `s`, with *a == init before it.
  function Left(schema: Schema, s: seq<Octet>, init: Option<Value>): (r: Option<Value>)
    requires FitsOption(schema, init)
    ensures FitsOption(schema, r) && (r.None? <==> init.None?)
    decreases schema, 0
  {
    var h := GetObject(s);
    if schema.Primitive? || init.None? || h.None? || h.value.id != Identifier(schema) then init
    else Some(Struct(LeftContents(schema.fields, s, h.value, init.value.slots)))
  }

  // The components behind a sequence's header.
  function LeftContents(fields: Fields, s: seq<Octet>, h: Header, init: Slots): (r: Slots)
    requires FitsSlots(fields, init)
    requires h.size <= |s| && (h.form.Definite? ==> h.size + h.length <= |s|)
    ensures FitsSlots(fields, r)
    decreases fields, 1
  {
    LeftFields(fields, Contents(s, h), init)
  }

  // The components behind the field macros, up to the first that fails.
  function LeftFields(fields: Fields, s: seq<Octet>, init: Slots): (r: Slots)
    requires FitsSlots(fields, init)
    ensures FitsSlots(fields, r)
    decreases fields, 0
  {
    match fields
    case Done => NoSlot
    case Field(kind, sub, rest) =>
      var v := DecSlot(kind, sub, s, init.v);
      if v.Err? then Slot(LeftSlot(kind, sub, s, init.v), init.rest)
      else Slot(v.value, LeftFields(rest, s[v.used..], init.rest))
  }

  // A component behind its own macro, when that failed.
  function LeftSlot(kind: Kind, sub: Schema, s: seq<Octet>, init: Option<Value>): (r: Option<Value>)
    requires FitsOption(sub, init)
    ensures FitsOption(sub, r)
    decreases sub, 3
  {
    if !Matches(kind, Peek(s)) then init else
    match kind
    case Required => Left(sub, s, init)
    case Optional(_) => Left(sub, s, init)
    case Implicit(_, typ) => Left(sub, Untag(typ, s), init)
    case Explicit(_, _) => LeftExplicit(sub, s, init)
  }

  function LeftExplicit(sub: Schema, s: seq<Octet>, init: Option<Value>): (r: Option<Value>)
    requires FitsOption(sub, init)
    ensures FitsOption(sub, r)
    decreases sub, 2
  {
    var h := GetObject(s);
    if h.None? then init else LeftCallee(sub, Inner(s, h.value), init)
  }

  // A component behind its callee in get_EXP_opt: a missing end-of-contents comes
  // too late to take back what the callee stored.
  function LeftCallee(sub: Schema, inner: seq<Octet>, init: Option<Value>): (r: Option<Value>)
    requires FitsOption(sub, init)
    ensures FitsOption(sub, r)
    decreases sub, 1
  {
    var v := Dec(sub, inner, init);
    if v.Ok? then Some(v.value) else Left(sub, inner, init)
  }

  /** When no field fails the components are the decoded ones. */
  lemma {:induction false} LeftOfSuccess(fields: Fields, s: seq<Octet>, init: Slots)
    requires FitsSlots(fields, init) && DecFields(fields, s, init).Ok?
    ensures LeftFields(fields, s, init) == DecFields(fields, s, init).value
    decreases fields
  {
    if fields.Field? {
      LeftOfSuccess(fields.rest, s[DecSlot(fields.kind, fields.sub, s, init.v).used..], init.rest);
    }
  }
}
