/**
 Decoding into an object the caller passes in: M_ASN1_D2I_vars takes it as
 `ret`, and a macro that finds its field absent does not touch the pointer.
 */
module Asn1Reuse {
  import opened Options
  import opened Asn1Octets
  import opened Asn1Schema
  import opened Asn1Encode
  import opened Asn1Decode
  import opened Asn1Failure
  import opened Asn1RoundTrip

  // `v` laid over the object `init`: components `v` lacks keep their old value.
  function Overlay(schema: Schema, init: Option<Value>, v: Value): (r: Value)
    requires FitsOption(schema, init) && Fits(schema, v)
    ensures Fits(schema, r)
    decreases schema
  {
    match schema
    case Primitive(_) => v
    case Sequence(_, fields) => Struct(OverlaySlots(fields, Start(fields, init), v.slots))
  }

  function OverlaySlots(fields: Fields, init: Slots, slots: Slots): (r: Slots)
    requires FitsSlots(fields, init) && FitsSlots(fields, slots)
    ensures FitsSlots(fields, r)
    decreases fields
  {
    match fields
    case Done => NoSlot
    case Field(_, sub, rest) =>
      Slot(if slots.v.Some? then Some(Overlay(sub, init.v, slots.v.value)) else init.v,
           OverlaySlots(rest, init.rest, slots.rest))
  }

  function OverlayOption(sub: Schema, init: Option<Value>, v: Option<Value>): Option<Value>
    requires FitsOption(sub, init) && FitsOption(sub, v)
  {
    if v.Some? then Some(Overlay(sub, init, v.value)) else init
  }

  /** Reuse never changes whether decoding succeeds, why it fails, or where it
      stops; the result is the fresh one laid over the object passed in. */
  lemma {:induction false} ReuseIsOverlay(schema: Schema, s: seq<Octet>, init: Option<Value>)
    requires FitsOption(schema, init)
    ensures Dec(schema, s, init) ==
            match Dec(schema, s, None)
            case Ok(v, used) => Ok(Overlay(schema, init, v), used)
            case Err(e) => Err(e)
    decreases schema, 0
  {
    var h := GetObject(s);
    if schema.Sequence? && h.Some? && h.value.id == Identifier(schema) {
      ReuseIsOverlayFields(schema.fields, Contents(s, h.value), Start(schema.fields, init));
    }
  }

  lemma {:induction false} ReuseIsOverlayFields(fields: Fields, s: seq<Octet>, init: Slots)
    requires FitsSlots(fields, init)
    ensures DecFields(fields, s, init) ==
            match DecFields(fields, s, Blank(fields))
            case Ok(slots, used) => Ok(OverlaySlots(fields, init, slots), used)
            case Err(e) => Err(e)
    decreases fields, 0
  {
    if fields.Field? {
      ReuseIsOverlaySlot(fields.kind, fields.sub, s, init.v);
      var v := DecSlot(fields.kind, fields.sub, s, None);
      if v.Ok? {
        ReuseIsOverlayFields(fields.rest, s[v.used..], init.rest);
      }
    }
  }

  lemma {:induction false} ReuseIsOverlaySlot(kind: Kind, sub: Schema, s: seq<Octet>, init: Option<Value>)
    requires FitsOption(sub, init)
    ensures DecSlot(kind, sub, s, init) ==
            match DecSlot(kind, sub, s, None)
            case Ok(v, used) => Ok(OverlayOption(sub, init, v), used)
            case Err(e) => Err(e)
    decreases sub, 2
  {
    if Matches(kind, Peek(s)) {
      match kind
      case Required => ReuseIsOverlay(sub, s, init);
      case Optional(_) => ReuseIsOverlay(sub, s, init);
      case Implicit(_, typ) => ReuseIsOverlay(sub, Untag(typ, s), init);
      case Explicit(_, _) => ReuseIsOverlayExplicit(sub, s, init);
    }
  }

  lemma {:induction false} ReuseIsOverlayExplicit(sub: Schema, s: seq<Octet>, init: Option<Value>)
    requires FitsOption(sub, init)
    ensures DecExplicit(sub, s, init) ==
            match DecExplicit(sub, s, None)
            case Ok(v, used) => Ok(OverlayOption(sub, init, v), used)
            case Err(e) => Err(e)
    decreases sub, 1
  {
    var h := GetObject(s);
    if h.Some? {
      ReuseIsOverlay(sub, Inner(s, h.value), init);
    }
  }

  // Nothing of `init` shows through `v`.
  predicate Covers(schema: Schema, init: Option<Value>, v: Value)
    requires FitsOption(schema, init) && Fits(schema, v)
    decreases schema
  {
    schema.Sequence? && init.Some? ==> CoversSlots(schema.fields, init.value.slots, v.slots)
  }

  predicate CoversSlots(fields: Fields, init: Slots, slots: Slots)
    requires FitsSlots(fields, init) && FitsSlots(fields, slots)
    decreases fields
  {
    fields.Field? ==>
      && (slots.v.None? ==> init.v.None?)
      && (slots.v.Some? ==> Covers(fields.sub, init.v, slots.v.value))
      && CoversSlots(fields.rest, init.rest, slots.rest)
  }

  lemma {:induction false} OverlayBlank(fields: Fields, slots: Slots)
    requires FitsSlots(fields, slots)
    ensures OverlaySlots(fields, Blank(fields), slots) == slots
    decreases fields
  {
    if fields.Field? {
      OverlayBlank(fields.rest, slots.rest);
      if slots.v.Some? && fields.sub.Sequence? {
        OverlayBlank(fields.sub.fields, slots.v.value.slots);
      }
    }
  }

  lemma {:induction false} CoversIsExact(schema: Schema, init: Option<Value>, v: Value)
    requires FitsOption(schema, init) && Fits(schema, v)
    ensures Overlay(schema, init, v) == v <==> Covers(schema, init, v)
    decreases schema
  {
    if schema.Sequence? {
      if init.Some? {
        CoversSlotsIsExact(schema.fields, init.value.slots, v.slots);
      } else {
        OverlayBlank(schema.fields, v.slots);
      }
    }
  }

  lemma {:induction false} CoversSlotsIsExact(fields: Fields, init: Slots, slots: Slots)
    requires FitsSlots(fields, init) && FitsSlots(fields, slots)
    ensures OverlaySlots(fields, init, slots) == slots <==> CoversSlots(fields, init, slots)
    decreases fields
  {
    if fields.Field? {
      CoversSlotsIsExact(fields.rest, init.rest, slots.rest);
      if slots.v.Some? {
        CoversIsExact(fields.sub, init.v, slots.v.value);
      }
    }
  }

  /** Round trip into a reused object: a clear encoding gives its object back
      exactly when no component the object lacks was set in the reused one. */
  lemma RoundTripInto(schema: Schema, v: Value, init: Option<Value>, suffix: seq<Octet>)
    requires Fits(schema, v) && FitsOption(schema, init) && WellTyped(schema)
    requires |Enc(schema, v)| <= INT_MAX && Clear(schema, v)
    ensures Dec(schema, Enc(schema, v) + suffix, init) == Ok(Overlay(schema, init, v), |Enc(schema, v)|)
    ensures Dec(schema, Enc(schema, v) + suffix, init) == Ok(v, |Enc(schema, v)|) <==> Covers(schema, init, v)
  {
    DecEnc(schema, v, suffix);
    ReuseIsOverlay(schema, Enc(schema, v) + suffix, init);
    CoversIsExact(schema, init, v);
  }

  // ---- Failed decodes ----

  function Size(fields: Fields): nat {
    if fields.Done? then 0 else 1 + Size(fields.rest)
  }

  function SubAt(fields: Fields, i: nat): Schema
    requires i < Size(fields)
  {
    if i == 0 then fields.sub else SubAt(fields.rest, i - 1)
  }

  function At(fields: Fields, slots: Slots, i: nat): (v: Option<Value>)
    requires i < Size(fields) && FitsSlots(fields, slots)
    ensures FitsOption(SubAt(fields, i), v)
  {
    if i == 0 then slots.v else At(fields.rest, slots.rest, i - 1)
  }

  // How many fields are decoded before one fails, or all of them.
  function Reached(fields: Fields, s: seq<Octet>): (n: nat)
    ensures n <= Size(fields)
  {
    if fields.Done? then 0
    else
      var v := DecSlot(fields.kind, fields.sub, s, None);
      if v.Err? then 0 else 1 + Reached(fields.rest, s[v.used..])
  }

  /** What a failed decode makes of an object the caller passed in: every component
      before the failing one is the freshly decoded one laid over it, every one
      behind is untouched, and the failing one is as it would be in a fresh object
      if it was NULL before. */
  lemma {:induction false} FailureIsPrefix(fields: Fields, s: seq<Octet>, init: Slots, i: nat)
    requires FitsSlots(fields, init) && i < Size(fields)
    ensures var left := At(fields, LeftFields(fields, s, init), i);
            var anew := At(fields, LeftFields(fields, s, Blank(fields)), i);
            var was := At(fields, init, i);
            && (i < Reached(fields, s) ==> left == OverlayOption(SubAt(fields, i), was, anew))
            && (i == Reached(fields, s) && was.None? ==> left == anew)
            && (i > Reached(fields, s) ==> left == was)
    decreases fields
  {
    if i == 0 {
      FirstIsPrefix(fields, s, init);
    } else {
      RestIsKept(fields, s, init);
      var v := DecSlot(fields.kind, fields.sub, s, None);
      if v.Ok? {
        FailureIsPrefix(fields.rest, s[v.used..], init.rest, i - 1);
      }
    }
  }

  lemma FirstIsPrefix(fields: Fields, s: seq<Octet>, init: Slots)
    requires FitsSlots(fields, init) && fields.Field?
    ensures var left := LeftFields(fields, s, init).v;
            var anew := LeftFields(fields, s, Blank(fields)).v;
            && (Reached(fields, s) > 0 ==> left == OverlayOption(fields.sub, init.v, anew))
            && (Reached(fields, s) == 0 && init.v.None? ==> left == anew)
  {
    ReuseIsOverlaySlot(fields.kind, fields.sub, s, init.v);
  }

  lemma RestIsKept(fields: Fields, s: seq<Octet>, init: Slots)
    requires FitsSlots(fields, init) && fields.Field?
    ensures var v := DecSlot(fields.kind, fields.sub, s, None);
            if v.Ok? then
              && LeftFields(fields, s, init).rest == LeftFields(fields.rest, s[v.used..], init.rest)
              && LeftFields(fields, s, Blank(fields)).rest == LeftFields(fields.rest, s[v.used..], Blank(fields.rest))
            else
              LeftFields(fields, s, init).rest == init.rest
  {
    ReuseIsOverlaySlot(fields.kind, fields.sub, s, init.v);
  }

  function KindAt(fields: Fields, i: nat): Kind
    requires i < Size(fields)
  {
    if i == 0 then fields.kind else KindAt(fields.rest, i - 1)
  }

  // The octets in front of field i, which the fields before it have not used.
  function Ahead(fields: Fields, s: seq<Octet>, i: nat): seq<Octet>
    requires i < Size(fields) && i <= Reached(fields, s)
  {
    if i == 0 then s
    else Ahead(fields.rest, s[DecSlot(fields.kind, fields.sub, s, None).used..], i - 1)
  }

  /** Component by component up to the failing one: what its own macro decodes from
      the octets in front of it, and for the failing one what that macro leaves. */
  lemma {:induction false} FailureAt(fields: Fields, s: seq<Octet>, init: Slots, i: nat)
    requires FitsSlots(fields, init) && i < Size(fields) && i <= Reached(fields, s)
    ensures var was := At(fields, init, i);
            var left := At(fields, LeftFields(fields, s, init), i);
            var kind, sub, ahead := KindAt(fields, i), SubAt(fields, i), Ahead(fields, s, i);
            && (DecSlot(kind, sub, ahead, was).Ok? <==> i < Reached(fields, s))
            && (i < Reached(fields, s) ==> left == DecSlot(kind, sub, ahead, was).value)
            && (i == Reached(fields, s) ==> left == LeftSlot(kind, sub, ahead, was))
    decreases i
  {
    if i == 0 {
      ReuseIsOverlaySlot(fields.kind, fields.sub, s, init.v);
    } else {
      RestIsKept(fields, s, init);
      FailureAt(fields.rest, s[DecSlot(fields.kind, fields.sub, s, None).used..], init.rest, i - 1);
    }
  }

  /** The field that fails does not depend on the object passed in. */
  lemma {:induction false} FailureIsReached(fields: Fields, s: seq<Octet>, init: Slots)
    requires FitsSlots(fields, init)
    ensures DecFields(fields, s, init).Ok? <==> Reached(fields, s) == Size(fields)
    decreases fields
  {
    if fields.Field? {
      ReuseIsOverlaySlot(fields.kind, fields.sub, s, init.v);
      var v := DecSlot(fields.kind, fields.sub, s, None);
      if v.Ok? {
        FailureIsReached(fields.rest, s[v.used..], init.rest);
      }
    }
  }
}
