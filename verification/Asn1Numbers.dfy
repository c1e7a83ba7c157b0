/**
 The octets in numbers: what the encoder writes, what the lookahead recognises,
 which headers are read and which error ends a decode, each stated on the octets
 themselves and on no other definition of the model.
 */
module Asn1Numbers {
  import opened Options
  import opened Asn1Octets
  import opened Asn1Schema
  import opened Asn1Encode
  import opened Asn1Decode
  import opened Asn1Failure

  // ---- Octets and headers ----

  /** The two masks of the macros, as the machine computes them. */
  lemma ConstructedIsOneBit(b: bv8)
    ensures ConstructedBit(b as int) == (b & 0x20) as int
    ensures WithoutConstructed(b as int) == (b & 0xDF) as int
  {
    BitOfNumber(b);
  }

  lemma BitOfNumber(b: bv8)
    ensures (b & 0x20) as int == if b as int / 0x20 % 2 == 1 then 0x20 else 0
    ensures (b & 0xDF) as int == b as int - (b & 0x20) as int
  {
  }

  /** Which octets are read as which header: low tag numbers only; a length below 128
      in one octet, or in one to four octets that 0x81 to 0x84 count, up to 2^31 - 1
      and inside the input; or 0x80 behind a constructed identifier. */
  lemma HeaderIsExact(s: seq<Octet>, h: Header)
    ensures GetObject(s) == Some(h) <==>
              && 2 <= |s| && h.id == s[0] && s[0] % 32 != 31 && 2 <= h.size <= |s|
              && if h.form.Indefinite? then
                   s[1] == 0x80 && s[0] / 32 % 2 == 1 && h.size == 2 && h.length == 0
                 else
                   && h.size + h.length <= |s| && h.length <= 0x7FFF_FFFF && h.size <= 6
                   && (h.size == 2 ==> s[1] == h.length < 0x80)
                   && (h.size > 2 ==> s[1] == 0x80 + (h.size - 2))
                   && (h.size == 3 ==> h.length == s[2])
                   && (h.size == 4 ==> h.length == s[2] as int * 0x100 + s[3])
                   && (h.size == 5 ==> h.length == s[2] as int * 0x1_0000 + s[3] as int * 0x100 + s[4])
                   && (h.size == 6 ==>
                         h.length == s[2] as int * 0x100_0000 + s[3] as int * 0x1_0000 + s[4] as int * 0x100 + s[5])
  {
    if 2 <= |s| && 0x80 < s[1] <= 0x84 && 2 + (s[1] - 0x80) <= |s| {
      NumberAt2(s, s[1] - 0x80);
    }
  }

  lemma NumberAt2(s: seq<Octet>, k: nat)
    requires 1 <= k <= 4 && 2 + k <= |s|
    ensures BigEndian(s, 2, k) ==
            if k == 1 then s[2]
            else if k == 2 then s[2] as int * 0x100 + s[3]
            else if k == 3 then s[2] as int * 0x1_0000 + s[3] as int * 0x100 + s[4]
            else s[2] as int * 0x100_0000 + s[3] as int * 0x1_0000 + s[4] as int * 0x100 + s[5]
  {
    assert BigEndian(s, 2, 0) == 0;
    assert BigEndian(s, 2, 1) == s[2];
    if k >= 2 {
      assert BigEndian(s, 2, 2) == s[2] as int * 0x100 + s[3];
      if k >= 3 {
        assert BigEndian(s, 2, 3) == (s[2] as int * 0x100 + s[3]) * 0x100 + s[4];
      }
    }
  }

  /** The length octets put_object writes, for every length there is: the number in
      its shortest form. */
  lemma LengthIsShortest(n: nat)
    requires n <= 0x7FFF_FFFF
    ensures var l := LengthOctets(n);
            && (n < 0x80 ==> l == [n])
            && (n >= 0x80 ==>
                  && l[0] == 0x80 + (|l| - 1) && l[1] != 0
                  && |l| == (if n < 0x100 then 2 else if n < 0x1_0000 then 3 else if n < 0x100_0000 then 4 else 5)
                  && (|l| == 2 ==> n == l[1])
                  && (|l| == 3 ==> n == l[1] as int * 0x100 + l[2])
                  && (|l| == 4 ==> n == l[1] as int * 0x1_0000 + l[2] as int * 0x100 + l[3])
                  && (|l| == 5 ==>
                        n == l[1] as int * 0x100_0000 + l[2] as int * 0x1_0000 + l[3] as int * 0x100 + l[4]))
  {
  }

  /** What stands around the contents of a tagged value, and what ends it. */
  lemma WrapIs(id: Octet, body: seq<Octet>, s: seq<Octet>)
    ensures Wrap(id, Definite, body) == [id] + LengthOctets(|body|) + body
    ensures Wrap(id, Indefinite, body) == [id, 0x80] + body + [0, 0]
    ensures EndOfContents(s) <==> [0, 0] <= s
  {
  }

  /** Every encoding, in octets: the universal tag or 0x30, the length, the contents; a
      SEQUENCE of the indefinite form without a length and closed. */
  lemma EncodingIs(schema: Schema, v: Value)
    requires Fits(schema, v)
    ensures TypeOf(schema) == if schema.Sequence? then 16 else schema.typ
    ensures Enc(schema, v) ==
            match schema
            case Primitive(typ) => [typ as Octet] + LengthOctets(|v.octets|) + v.octets
            case Sequence(form, fields) =>
              var body := EncFields(fields, v.slots);
              if form.Definite? then [0x30] + LengthOctets(|body|) + body else [0x30, 0x80] + body + [0, 0]
  {
  }

  /** Every component, in octets: as its own function writes it; with the first octet
      in the context class and the field's tag, the constructed bit kept; or inside a
      constructed wrapper of the context class.  An absent one writes nothing. */
  lemma FieldIs(kind: Kind, sub: Schema, v: Option<Value>)
    requires FitsOption(sub, v)
    ensures EncSlot(kind, sub, v) ==
            if v.None? then []
            else
              var own := Enc(sub, v.value);
              match kind
              case Required => own
              case Optional(_) => own
              case Implicit(tag, _) => [(0x80 + tag + if sub.Sequence? then 0x20 else 0) as Octet] + own[1..]
              case Explicit(tag, form) =>
                if form.Definite? then [(0xA0 + tag) as Octet] + LengthOctets(|own|) + own
                else [(0xA0 + tag) as Octet, 0x80] + own + [0, 0]
  {
  }

  // ---- The lookahead ----

  /** What the macros recognise, for every octet: OPTIONAL its universal tag, primitive
      or constructed; IMPLICIT its context tag, primitive or constructed; EXPLICIT its
      context tag, constructed only. */
  lemma LookaheadIs(kind: Kind, b: Octet)
    ensures Matches(kind, Some(b)) <==>
              match kind
              case Required => true
              case Optional(typ) => b == typ || b == 0x20 + typ
              case Implicit(tag, _) => b == 0x80 + tag || b == 0xA0 + tag
              case Explicit(tag, _) => b == 0xA0 + tag
    ensures Matches(kind, None) <==> kind.Required?
  {
  }

  /** So a component that may be absent is skipped in front of any other octet and
      of none, and is there behind a success in front of one of its own. */
  lemma AbsentIsSkipped(kind: Kind, sub: Schema, s: seq<Octet>, init: Option<Value>)
    requires FitsOption(sub, init) && !kind.Required?
    ensures var own := s != [] && match kind
                                  case Required => true
                                  case Optional(typ) => s[0] == typ || s[0] == 0x20 + typ
                                  case Implicit(tag, _) => s[0] == 0x80 + tag || s[0] == 0xA0 + tag
                                  case Explicit(tag, _) => s[0] == 0xA0 + tag;
            var r := DecSlot(kind, sub, s, init);
            && (!own ==> r == Ok(init, 0))
            && (own && r.Ok? ==> r.value.Some? && r.used >= 2)
  {
    if s != [] {
      LookaheadIs(kind, s[0]);
    }
  }

  /** What get_opt and get_IMP_opt hand to the callee: the octets as they are, or with
      the universal tag written over the first one, its constructed bit kept. */
  lemma CalleeReads(tag: Tag, typ: Tag, sub: Schema, s: seq<Octet>, init: Option<Value>)
    requires FitsOption(sub, init) && s != []
    ensures s[0] == typ || s[0] == 0x20 + typ ==>
              DecSlot(Optional(typ), sub, s, init) == Callee(Dec(sub, s, init))
    ensures s[0] == 0x80 + tag ==>
              DecSlot(Implicit(tag, typ), sub, s, init) == Callee(Dec(sub, s[0 := typ], init))
    ensures s[0] == 0xA0 + tag ==>
              DecSlot(Implicit(tag, typ), sub, s, init) == Callee(Dec(sub, s[0 := 0x20 + typ], init))
  {
    LookaheadIs(Optional(typ), s[0]);
    LookaheadIs(Implicit(tag, typ), s[0]);
  }

  // ---- What ends a decode ----

  /** A primitive type takes its own identifier and a definite length, and the octets
      are its contents. */
  lemma PrimitiveIs(typ: Tag, s: seq<Octet>, init: Option<Value>)
    requires FitsOption(Primitive(typ), init)
    ensures var h := GetObject(s);
            var r := Dec(Primitive(typ), s, init);
            && (r.Ok? <==> h.Some? && s[0] == typ && h.value.form == Definite)
            && (r.Ok? ==> r.used == h.value.size + h.value.length && r.value == Octets(s[h.value.size..r.used]))
            && (r.Err? ==> r.error == NotThisPrimitive)
  {
  }

  /** What stands behind a header: the octets it announces, or all that is left; a
      wrapper's callee does not get the last two of those. */
  lemma BehindTheHeader(s: seq<Octet>, h: Header)
    requires h.size <= |s| && (h.form == Definite ==> h.size + h.length <= |s|)
    ensures Contents(s, h) == if h.form == Definite then s[h.size..h.size + h.length] else s[h.size..]
    ensures Inner(s, h) == if h.form == Definite then s[h.size..h.size + h.length]
                           else if |s| < h.size + 2 then [] else s[h.size..|s| - 2]
  {
  }

  /** A sequence is its identifier 0x30 and its fields, used up behind a definite
      length and closed by two zero octets behind the indefinite one. */
  lemma SequenceIs(form: Form, fields: Fields, s: seq<Octet>, init: Option<Value>, h: Header, c: seq<Octet>)
    requires FitsOption(Sequence(form, fields), init) && GetObject(s) == Some(h)
    requires c == Contents(s, h)
    ensures var slots := DecFields(fields, c, if init.Some? then init.value.slots else Blank(fields));
            var r := Dec(Sequence(form, fields), s, init);
            && (r.Ok? <==>
                  && s[0] == 0x30 && slots.Ok?
                  && if h.form == Definite then slots.used == h.length else EndOfContents(c[slots.used..]))
            && (r.Ok? ==>
                  && r.value == Struct(slots.value)
                  && r.used == h.size + slots.used + if h.form == Definite then 0 else 2)
  {
    if s[0] == 0x30 {
      SequenceUnfolds(form, fields, s, init, h, c);
      FinishesWhen(c, h, DecFields(fields, c, Start(fields, init)));
    }
  }

  lemma SequenceUnfolds(form: Form, fields: Fields, s: seq<Octet>, init: Option<Value>, h: Header, c: seq<Octet>)
    requires FitsOption(Sequence(form, fields), init) && GetObject(s) == Some(h) && s[0] == 0x30
    requires c == Contents(s, h)
    ensures Dec(Sequence(form, fields), s, init) == Finish(c, h, DecFields(fields, c, Start(fields, init)))
  {
  }

  lemma FinishesWhen(c: seq<Octet>, h: Header, slots: Outcome<Slots>)
    requires slots.Ok? ==> slots.used <= |c|
    ensures Finish(c, h, slots).Ok? <==>
              && slots.Ok?
              && if h.form == Definite then slots.used == |c| else EndOfContents(c[slots.used..])
    ensures Finish(c, h, slots).Ok? ==>
              Finish(c, h, slots) == Ok(Struct(slots.value), h.size + slots.used + if h.form == Definite then 0 else 2)
  {
  }

  /** get_EXP_opt reads a header of its own and hands the callee what stands behind it. */
  lemma WrapperIs(tag: Tag, form: Form, sub: Schema, s: seq<Octet>, init: Option<Value>, h: Header, inner: seq<Octet>)
    requires FitsOption(sub, init) && GetObject(s) == Some(h) && s[0] == 0xA0 + tag
    requires inner == Inner(s, h)
    ensures h.size + |inner| <= |s|
    ensures DecSlot(Explicit(tag, form), sub, s, init) == CloseExplicit(s, h, Dec(sub, inner, init))
  {
    LookaheadIs(Explicit(tag, form), s[0]);
  }

  /** It is done when the callee is, or when two zero octets close the indefinite form. */
  lemma WrapperCloses(s: seq<Octet>, h: Header, v: Outcome<Value>)
    requires v.Ok? ==> h.size + v.used <= |s|
    ensures CloseExplicit(s, h, v).Ok? <==> v.Ok? && (h.form == Definite || EndOfContents(s[h.size + v.used..]))
    ensures CloseExplicit(s, h, v).Ok? ==>
              CloseExplicit(s, h, v) == Ok(Some(v.value), h.size + v.used + if h.form == Definite then 0 else 2)
  {
  }

  /** The errors of a field macro: a bad header and a missing end are get_EXP_opt's own,
      everything a callee reports becomes a nested error. */
  lemma SlotErrors(kind: Kind, sub: Schema, s: seq<Octet>, init: Option<Value>)
    requires FitsOption(sub, init) && DecSlot(kind, sub, s, init).Err?
    ensures var e := DecSlot(kind, sub, s, init).error;
            && (e == BadObjectHeader <==> kind.Explicit? && GetObject(s) == None)
            && (e == BadObjectHeader || e == Nested || (e == MissingEos && kind.Explicit?))
  {
    match kind
    case Explicit(_, _) => ExplicitErrors(sub, s, init);
    case Required =>
    case Optional(_) =>
    case Implicit(_, _) =>
  }

  lemma ExplicitErrors(sub: Schema, s: seq<Octet>, init: Option<Value>)
    requires FitsOption(sub, init) && DecExplicit(sub, s, init).Err?
    ensures var e := DecExplicit(sub, s, init).error;
            && (e == BadObjectHeader <==> GetObject(s) == None)
            && (e == BadObjectHeader || e == MissingEos || e == Nested)
  {
    var h := GetObject(s);
    if h.Some? {
      WrapperErrors(s, h.value, Dec(sub, Inner(s, h.value), init));
    }
  }

  /** A missing end is reported when the callee succeeded, a nested error otherwise. */
  lemma WrapperErrors(s: seq<Octet>, h: Header, v: Outcome<Value>)
    requires v.Ok? ==> h.size + v.used <= |s|
    requires CloseExplicit(s, h, v).Err?
    ensures CloseExplicit(s, h, v).error ==
            if h.form == Indefinite && v.Ok? && !EndOfContents(s[h.size + v.used..]) then MissingEos else Nested
  {
  }

  lemma {:induction false} FieldErrors(fields: Fields, s: seq<Octet>, init: Slots)
    requires FitsSlots(fields, init) && DecFields(fields, s, init).Err?
    ensures DecFields(fields, s, init).error in {BadObjectHeader, MissingEos, Nested}
    decreases fields
  {
    var v := DecSlot(fields.kind, fields.sub, s, init.v);
    if v.Err? {
      SlotErrors(fields.kind, fields.sub, s, init.v);
    } else {
      FieldErrors(fields.rest, s[v.used..], init.rest);
    }
  }

  /** The errors of a sequence: no header, another identifier than 0x30, contents left
      over behind a definite length; the others are those of its fields and of a
      missing end. */
  lemma SequenceErrors(form: Form, fields: Fields, s: seq<Octet>, init: Option<Value>)
    requires FitsOption(Sequence(form, fields), init) && Dec(Sequence(form, fields), s, init).Err?
    ensures var h := GetObject(s);
            var e := Dec(Sequence(form, fields), s, init).error;
            && (e == BadGetObject <==> h.None?)
            && (e == ExpectingSequence <==> h.Some? && s[0] != 0x30)
            && (e == LengthMismatch <==>
                  && h.Some? && s[0] == 0x30 && h.value.form == Definite
                  && var r := DecFields(fields, s[h.value.size..h.value.size + h.value.length], Start(fields, init));
                     r.Ok? && r.used < h.value.length)
            && e != NotThisPrimitive
  {
    var h := GetObject(s);
    if h.Some? && s[0] == 0x30 {
      var c := Contents(s, h.value);
      if DecFields(fields, c, Start(fields, init)).Err? {
        FieldErrors(fields, c, Start(fields, init));
      }
    }
  }

  /** With a negative length the octet behind the input is looked at all the same, and
      a component it announces cannot be read. */
  lemma BehindTheInput(kind: Kind, next: Option<Octet>, init: Option<Value>)
    ensures var own := match kind
                       case Required => true
                       case Optional(typ) => next == Some(typ) || next == Some(0x20 + typ)
                       case Implicit(tag, _) => next == Some(0x80 + tag) || next == Some(0xA0 + tag)
                       case Explicit(tag, _) => next == Some(0xA0 + tag);
            SlotBehind(kind, next, init) ==
            if !own then Ok(init, 0) else Err(if kind.Explicit? then BadObjectHeader else Nested)
  {
    if next.Some? {
      LookaheadIs(kind, next.value);
    }
  }

  lemma FieldsBehindAre(fields: Fields, next: Option<Octet>, init: Slots)
    requires FitsSlots(fields, init)
    ensures FieldsBehind(fields, next, init) ==
            if fields.Done? then Ok(NoSlot, 0)
            else if SlotBehind(fields.kind, next, init.v).Err? then Err(SlotBehind(fields.kind, next, init.v).error)
            else
              var more := FieldsBehind(fields.rest, next, init.rest);
              if more.Ok? then Ok(Slot(init.v, more.value), 0) else more
  {
  }

  // ---- What a failure leaves ----

  /** NULL stays NULL, and an object is touched only behind a sequence's own header:
      there it has what its field macros left. */
  lemma LeftIs(schema: Schema, s: seq<Octet>, init: Option<Value>)
    requires FitsOption(schema, init)
    ensures var h := GetObject(s);
            Left(schema, s, init) ==
            if schema.Sequence? && init.Some? && h.Some? && s[0] == 0x30 then
              Some(Struct(LeftFields(schema.fields, Contents(s, h.value), init.value.slots)))
            else init
  {
  }

  /** A failing macro leaves what its callee left, on the octets it handed on; behind a
      missing end the callee has already stored its object. */
  lemma LeftSlotIs(kind: Kind, sub: Schema, s: seq<Octet>, init: Option<Value>)
    requires FitsOption(sub, init) && DecSlot(kind, sub, s, init).Err?
    ensures LeftSlot(kind, sub, s, init) ==
            match kind
            case Required => Left(sub, s, init)
            case Optional(_) => Left(sub, s, init)
            case Implicit(_, typ) => Left(sub, Untag(typ, s), init)
            case Explicit(_, _) =>
              var h := GetObject(s);
              if h.None? then init
              else
                var v := Dec(sub, Inner(s, h.value), init);
                if v.Ok? then Some(v.value) else Left(sub, Inner(s, h.value), init)
  {
    match kind
    case Explicit(_, _) => LeftExplicitIs(sub, s, init);
    case Required =>
    case Optional(_) =>
    case Implicit(_, _) =>
  }

  lemma LeftExplicitIs(sub: Schema, s: seq<Octet>, init: Option<Value>)
    requires FitsOption(sub, init)
    ensures var h := GetObject(s);
            LeftExplicit(sub, s, init) ==
            if h.None? then init
            else
              var v := Dec(sub, Inner(s, h.value), init);
              if v.Ok? then Some(v.value) else Left(sub, Inner(s, h.value), init)
  {
    var h := GetObject(s);
    if h.Some? {
      assert LeftExplicit(sub, s, init) == LeftCallee(sub, Inner(s, h.value), init);
    }
  }
}
