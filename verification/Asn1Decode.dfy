/** What the D2I macros compute, as a function of the octets they may read. */
module Asn1Decode {
  import opened Options
  import opened Asn1Octets
  import opened Asn1Schema
  import opened Asn1Encode

  // c.error when control reaches `err:`.
  datatype Error =
    | Nested            // ERR_R_NESTED_ASN1_ERROR, set by D2I_vars
    | BadGetObject      // asn1_GetSequence: no header
    | ExpectingSequence // asn1_GetSequence: another identifier
    | BadObjectHeader   // get_EXP_opt: no header
    | MissingEos        // no end-of-contents octets
    | LengthMismatch    // asn1_const_Finish: contents left over
    | NotThisPrimitive  // a primitive d2i function found another type

  datatype Outcome<+T> = Ok(value: T, used: nat) | Err(error: Error)

  // A type's d2i function over the octets `s`, started from the object `init` (or NULL).
  function Dec(schema: Schema, s: seq<Octet>, init: Option<Value>): (r: Outcome<Value>)
    requires FitsOption(schema, init)
    ensures r.Ok? ==> 2 <= r.used <= |s| && Fits(schema, r.value)
    decreases schema, 0
  {
    var h := GetObject(s);
    match schema
    case Primitive(typ) =>
      if h.None? || h.value.id != typ || h.value.form.Indefinite? then Err(NotThisPrimitive)
      else Ok(Octets(s[h.value.size..h.value.size + h.value.length]), h.value.size + h.value.length)
    case Sequence(_, fields) =>
      if h.None? then Err(BadGetObject)
      else if h.value.id != Identifier(schema) then Err(ExpectingSequence)
      else DecContents(fields, s, h.value, Start(fields, init))
  }

  // The part of a sequence behind its header.
  function DecContents(fields: Fields, s: seq<Octet>, h: Header, init: Slots): (r: Outcome<Value>)
    requires FitsSlots(fields, init)
    requires h.size <= |s| && (h.form.Definite? ==> h.size + h.length <= |s|)
    ensures r.Ok? ==> h.size <= r.used <= |s| && r.value.Struct? && FitsSlots(fields, r.value.slots)
    decreases fields, 1
  {
    Finish(Contents(s, h), h, DecFields(fields, Contents(s, h), init))
  }

  // The octets a sequence's components may read.
  function Contents(s: seq<Octet>, h: Header): (c: seq<Octet>)
    requires h.size <= |s| && (h.form.Definite? ==> h.size + h.length <= |s|)
    ensures h.form.Definite? ==> |c| == h.length
    ensures h.form.Indefinite? ==> |c| == |s| - h.size
  {
    if h.form.Definite? then s[h.size..h.size + h.length] else s[h.size..]
  }

  // asn1_const_Finish: definite contents are used up, indefinite ones are closed.
  function Finish(c: seq<Octet>, h: Header, slots: Outcome<Slots>): (r: Outcome<Value>)
    requires slots.Ok? ==> slots.used <= |c|
  {
    if slots.Err? then Err(slots.error)
    else if h.form.Definite? then
      if slots.used == |c| then Ok(Struct(slots.value), h.size + slots.used) else Err(LengthMismatch)
    else
      if EndOfContents(c[slots.used..]) then Ok(Struct(slots.value), h.size + slots.used + 2) else Err(MissingEos)
  }

  // The field macros in a row, from M_ASN1_D2I_begin or start_sequence to Finish.
  function DecFields(fields: Fields, s: seq<Octet>, init: Slots): (r: Outcome<Slots>)
    requires FitsSlots(fields, init)
    ensures r.Ok? ==> r.used <= |s| && FitsSlots(fields, r.value)
    decreases fields, 0
  {
    match fields
    case Done => Ok(NoSlot, 0)
    case Field(kind, sub, rest) =>
      var v := DecSlot(kind, sub, s, init.v);
      if v.Err? then Err(v.error)
      else
        var more := DecFields(rest, s[v.used..], init.rest);
        if more.Err? then more else Ok(Slot(v.value, more.value), v.used + more.used)
  }

  // The lookahead test of the optional macros.
  predicate Matches(kind: Kind, next: Option<Octet>) {
    match kind
    case Required => true
    case Optional(typ) => next.Some? && WithoutConstructed(next.value) == typ
    case Implicit(tag, _) => next.Some? && WithoutConstructed(next.value) == V_ASN1_CONTEXT_SPECIFIC + tag
    case Explicit(tag, _) => next.Some? && next.value == ExplicitIdentifier(tag)
  }

  function Peek(s: seq<Octet>): Option<Octet> {
    if s == [] then None else Some(s[0])
  }

  // get_imp's identifier rewrite before it calls the callee.
  function Untag(typ: Tag, s: seq<Octet>): seq<Octet>
    requires s != []
  {
    s[0 := ConstructedBit(s[0]) + typ]
  }

  // One field macro.
  function DecSlot(kind: Kind, sub: Schema, s: seq<Octet>, init: Option<Value>): (r: Outcome<Option<Value>>)
    requires FitsOption(sub, init)
    ensures r.Ok? ==> r.used <= |s| && FitsOption(sub, r.value)
    decreases sub, 3
  {
    if !Matches(kind, Peek(s)) then Ok(init, 0) else
    match kind
    case Required => Callee(Dec(sub, s, init))
    case Optional(_) => Callee(Dec(sub, s, init))
    case Implicit(_, typ) => Callee(Dec(sub, Untag(typ, s), init))
    case Explicit(_, _) => DecExplicit(sub, s, init)
  }

  // The body of get_EXP_opt.
  function DecExplicit(sub: Schema, s: seq<Octet>, init: Option<Value>): (r: Outcome<Option<Value>>)
    requires FitsOption(sub, init)
    ensures r.Ok? ==> r.used <= |s| && FitsOption(sub, r.value)
    decreases sub, 2
  {
    var h := GetObject(s);
    if h.None? then Err(BadObjectHeader)
    else CloseExplicit(s, h.value, Dec(sub, Inner(s, h.value), init))
  }

  // The part behind the callee: an indefinite wrapper must be closed.
  function CloseExplicit(s: seq<Octet>, h: Header, v: Outcome<Value>): (r: Outcome<Option<Value>>)
    requires v.Ok? ==> h.size + v.used <= |s|
    ensures r.Ok? ==> r.used <= |s|
  {
    if v.Err? then Err(Nested)
    else if h.form.Definite? then Ok(Some(v.value), h.size + v.used)
    else if EndOfContents(s[h.size + v.used..]) then Ok(Some(v.value), h.size + v.used + 2)
    else Err(MissingEos)
  }

  // What the callee of get_EXP_opt may read: Tlen octets, which for an
  // indefinite wrapper is everything left but two octets.
  function Inner(s: seq<Octet>, h: Header): (c: seq<Octet>)
    requires h.size <= |s| && (h.form.Definite? ==> h.size + h.length <= |s|)
  {
    if h.form.Definite? then s[h.size..h.size + h.length]
    else if |s| < h.size + 2 then []
    else s[h.size..|s| - 2]
  }

  function Callee(v: Outcome<Value>): (r: Outcome<Option<Value>>) {
    match v
    case Ok(value, used) => Ok(Some(value), used)
    case Err(_) => Err(Nested)
  }

  // ---- A negative remaining length ----
  // get_EXP_opt hands its callee -1 or -2 when an indefinite wrapper has less than
  // two octets left, and M_ASN1_D2I_begin takes that as c.slen.  The lookahead tests
  // c.slen != 0, so it then meets `next`, the octet behind the input; a callee
  // given a negative length reads nothing and fails.

  function SlotBehind(kind: Kind, next: Option<Octet>, init: Option<Value>): Outcome<Option<Value>> {
    if !Matches(kind, next) then Ok(init, 0)
    else if kind.Explicit? then Err(BadObjectHeader)
    else Err(Nested)
  }

  function FieldsBehind(fields: Fields, next: Option<Octet>, init: Slots): (r: Outcome<Slots>)
    requires FitsSlots(fields, init)
    ensures r.Ok? ==> r.used == 0 && r.value == init
    decreases fields
  {
    match fields
    case Done => Ok(NoSlot, 0)
    case Field(kind, _, rest) =>
      var v := SlotBehind(kind, next, init.v);
      if v.Err? then Err(v.error)
      else
        var more := FieldsBehind(rest, next, init.rest);
        if more.Err? then more else Ok(Slot(v.value, more.value), 0)
  }

  // Whether the first macro of the list looks at *c.p before it does anything else.
  predicate LooksAhead(fields: Fields) {
    fields.Field? && !fields.kind.Required?
  }

  /** What a bare field list makes of a negative length hangs on an octet that is not
      its input: [0] IMPLICIT OPTIONAL succeeds or fails with it. */
  lemma LooksBehindItsInput(typ: Tag)
    ensures var fields := Field(Implicit(0, typ), Primitive(typ), Done);
            && FieldsBehind(fields, Some(V_ASN1_CONTEXT_SPECIFIC), Blank(fields)).Err?
            && FieldsBehind(fields, Some(0), Blank(fields)) == Ok(Blank(fields), 0)
  {
    assert WithoutConstructed(V_ASN1_CONTEXT_SPECIFIC) == V_ASN1_CONTEXT_SPECIFIC;
  }
}
