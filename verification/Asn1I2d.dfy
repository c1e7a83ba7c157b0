/**
 The I2D macros: a first pass adds up lengths, a second one writes through a
 moving pointer.  `unsigned char **pp` is the pair of a buffer (null for a NULL
 pp) and an in-out position.
 */
module Asn1I2d {
  import opened Options
  import opened Asn1Octets
  import opened Asn1Schema
  import opened Asn1Encode

  function EncOption(schema: Schema, a: Option<Value>): seq<Octet>
    requires FitsOption(schema, a)
  {
    if a.Some? then Enc(schema, a.value) else []
  }

  // What a wrapper around `length` octets adds up to in the first pass: object_size,
  // or for the indefinite form the four octets of INF_seq_start and INF_seq_end,
  // which the type's author counts by hand.
  function WrapSize(form: Form, length: nat): nat {
    if form.Definite? then ObjectSize(length) else length + 4
  }

  // `b` with `s` written at `p`.
  function Splice(b: seq<Octet>, p: nat, s: seq<Octet>): (r: seq<Octet>)
    requires p + |s| <= |b|
    ensures |r| == |b|
  {
    b[..p] + s + b[p + |s|..]
  }

  /** Octet by octet: `s` from `p` on, `b` everywhere else. */
  lemma SpliceIs(b: seq<Octet>, p: nat, s: seq<Octet>, i: nat)
    requires p + |s| <= |b| && i < |b|
    ensures Splice(b, p, s)[i] == if p <= i < p + |s| then s[i - p] else b[i]
  {
  }

  lemma SpliceTwice(b: seq<Octet>, p: nat, s: seq<Octet>, t: seq<Octet>)
    requires p + |s| + |t| <= |b|
    ensures Splice(Splice(b, p, s), p + |s|, t) == Splice(b, p, s + t)
  {
  }

  lemma SpliceThrice(b: seq<Octet>, p: nat, s: seq<Octet>, p1: nat, t: seq<Octet>, p2: nat, u: seq<Octet>,
      w: seq<Octet>)
    requires p1 == p + |s| && p2 == p1 + |t| && p2 + |u| <= |b| && w == s + t + u
    ensures Splice(Splice(Splice(b, p, s), p1, t), p2, u) == Splice(b, p, w)
  {
    SpliceTwice(b, p, s, t);
    SpliceTwice(b, p, s + t, u);
  }

  method PutOctets(buf: array<Octet>, p: nat, s: seq<Octet>) returns (p': nat)
    requires p + |s| <= buf.Length
    modifies buf
    ensures p' == p + |s|
    ensures buf[..] == Splice(old(buf[..]), p, s)
  {
    for i := 0 to |s|
      invariant forall k :: 0 <= k < i ==> buf[p + k] == s[k]
      invariant forall k :: 0 <= k < buf.Length && !(p <= k < p + i) ==> buf[k] == old(buf[k])
    {
      buf[p + i] := s[i];
    }
    p' := p + |s|;
  }

  // The `v` variables the EXPLICIT fields carry from the first pass to the second.
  predicate Carries(fields: Fields, slots: Slots, vs: seq<nat>)
    requires FitsSlots(fields, slots)
    decreases fields
  {
    fields.Field? ==>
      && |vs| > 0
      && (fields.kind.Explicit? && slots.v.Some? ==> vs[0] == |Enc(fields.sub, slots.v.value)|)
      && Carries(fields.rest, slots.rest, vs[1..])
  }

  /** Two-pass agreement: what an i2d function returns for a NULL output is what
      it writes and moves by for a real one, at every depth of nesting. */
  method I2d(schema: Schema, a: Option<Value>, buf: array?<Octet>, pp: nat) returns (r: nat, pp': nat)
    requires FitsOption(schema, a)
    requires |EncOption(schema, a)| <= INT_MAX
    requires buf != null ==> pp + |EncOption(schema, a)| <= buf.Length
    modifies buf
    ensures r == |EncOption(schema, a)| == if a.Some? then |Enc(schema, a.value)| else 0
    ensures buf == null ==> pp' == pp
    ensures buf != null ==> pp' == pp + r && buf[..] == Splice(old(buf[..]), pp, EncOption(schema, a))
    decreases schema, 1
  {
    if a.None? {
      return 0, pp;
    }
    match schema
    case Primitive(typ) =>
      r := ObjectSize(|a.value.octets|);
      if buf == null {
        return r, pp;
      }
      pp' := PutOctets(buf, pp, PutObject(typ, |a.value.octets|) + a.value.octets);
    case Sequence(_, fields) =>
      r, pp' := I2dSequence(schema, a.value, buf, pp);
  }

  // A type's own i2d function: vars, length macros, seq_total, put macros, finish.
  method I2dSequence(schema: Schema, a: Value, buf: array?<Octet>, pp: nat) returns (r: nat, pp': nat)
    requires schema.Sequence? && Fits(schema, a)
    requires |Enc(schema, a)| <= INT_MAX
    requires buf != null ==> pp + |Enc(schema, a)| <= buf.Length
    modifies buf
    ensures r == |Enc(schema, a)|
    ensures buf == null ==> pp' == pp
    ensures buf != null ==> pp' == pp + r && buf[..] == Splice(old(buf[..]), pp, Enc(schema, a))
    decreases schema, 0
  {
    ghost var body := EncFields(schema.fields, a.slots);
    WrapIsSized(Identifier(schema), schema.form, body);
    var ret, vs := LenFields(schema.fields, a.slots, 0);
    r := WrapSize(schema.form, ret);
    if buf == null {
      return r, pp;
    }
    pp' := PutSequence(schema.form, schema.fields, a.slots, ret, vs, buf, pp);
  }

  // The second pass: put_object or INF_seq_start, the put macros, finish.
  method PutSequence(form: Form, fields: Fields, slots: Slots, ret: nat, vs: seq<nat>, buf: array<Octet>, p: nat)
    returns (p': nat)
    requires FitsSlots(fields, slots) && Carries(fields, slots, vs)
    requires ret == |EncFields(fields, slots)| <= INT_MAX
    requires p + WrapSize(form, ret) <= buf.Length
    modifies buf
    ensures p' == p + WrapSize(form, ret)
    ensures buf[..] ==
            Splice(old(buf[..]), p, Wrap(V_ASN1_CONSTRUCTED + V_ASN1_SEQUENCE, form, EncFields(fields, slots)))
    decreases fields, 1
  {
    ghost var body := EncFields(fields, slots);
    ghost var opening := Opening(V_ASN1_CONSTRUCTED + V_ASN1_SEQUENCE, form, ret);
    WrapIsSized(V_ASN1_CONSTRUCTED + V_ASN1_SEQUENCE, form, body);
    ghost var b := buf[..];
    var p1 := Open(V_ASN1_SEQUENCE, 0, form, ret, buf, p);
    ghost var b1 := buf[..];
    assert b1 == Splice(b, p, opening);
    var p2 := PutFields(fields, slots, vs, buf, p1);
    ghost var b2 := buf[..];
    assert b2 == Splice(b1, p1, body);
    p' := Close(form, buf, p2);
    SpliceThrice(b, p, opening, p1, body, p2, Ending(form), opening + body + Ending(form));
  }

  // What stands in front of the contents of a wrapper.
  function Opening(id: Octet, form: Form, length: nat): seq<Octet> {
    if form.Definite? then PutObject(id, length) else [id, 0x80]
  }

  // What stands behind them.
  function Ending(form: Form): seq<Octet> {
    if form.Definite? then [] else [0, 0]
  }

  lemma WrapIsSized(id: Octet, form: Form, body: seq<Octet>)
    ensures |Wrap(id, form, body)| == WrapSize(form, |body|)
    ensures Wrap(id, form, body) == Opening(id, form, |body|) + body + Ending(form)
  {
  }

  // put_object or INF_seq_start, whichever the type uses.
  method Open(tag: Tag, ctx: Octet, form: Form, length: nat, buf: array<Octet>, p: nat) returns (p': nat)
    requires ctx % 0x40 == 0
    requires p + |Opening(V_ASN1_CONSTRUCTED + tag + ctx, form, length)| <= buf.Length
    modifies buf
    ensures p' == p + |Opening(V_ASN1_CONSTRUCTED + tag + ctx, form, length)|
    ensures buf[..] == Splice(old(buf[..]), p, Opening(V_ASN1_CONSTRUCTED + tag + ctx, form, length))
  {
    if form.Definite? {
      p' := PutOctets(buf, p, PutObject(V_ASN1_CONSTRUCTED + tag + ctx, length));
    } else {
      p' := InfSeqStart(tag, ctx, buf, p);
    }
  }

  // Nothing, or INF_seq_end.
  method Close(form: Form, buf: array<Octet>, p: nat) returns (p': nat)
    requires p + |Ending(form)| <= buf.Length
    modifies buf
    ensures p' == p + |Ending(form)|
    ensures buf[..] == Splice(old(buf[..]), p, Ending(form))
  {
    p' := p;
    if form.Indefinite? {
      p' := InfSeqEnd(buf, p);
    }
  }

  // M_ASN1_I2D_INF_seq_start; `ctx` is the class
  method InfSeqStart(tag: Tag, ctx: Octet, buf: array<Octet>, p: nat) returns (p': nat)
    requires ctx % 0x40 == 0 && p + 2 <= buf.Length
    modifies buf
    ensures p' == p + 2
    ensures buf[..] == Splice(old(buf[..]), p, [V_ASN1_CONSTRUCTED + tag + ctx, 0x80])
  {
    p' := p;
    buf[p'] := V_ASN1_CONSTRUCTED + tag + ctx;
    p' := p' + 1;
    buf[p'] := 0x80;
    p' := p' + 1;
  }

  // M_ASN1_I2D_INF_seq_end
  method InfSeqEnd(buf: array<Octet>, p: nat) returns (p': nat)
    requires p + 2 <= buf.Length
    modifies buf
    ensures p' == p + 2
    ensures buf[..] == Splice(old(buf[..]), p, [0, 0])
  {
    p' := p;
    buf[p'] := 0;
    p' := p' + 1;
    buf[p'] := 0;
    p' := p' + 1;
  }

  // The length macros of a field list, in order.
  method LenFields(fields: Fields, slots: Slots, ret: nat) returns (ret': nat, vs: seq<nat>)
    requires FitsSlots(fields, slots)
    requires ret + |EncFields(fields, slots)| <= INT_MAX
    ensures ret' == ret + |EncFields(fields, slots)|
    ensures Carries(fields, slots, vs)
    decreases fields, 0
  {
    if fields.Done? {
      return ret, [];
    }
    var v := 0;
    ret' := ret;
    if fields.kind.Required? || fields.kind.Optional? || slots.v.Some? {
      var n, _ := I2d(fields.sub, slots.v, null, 0);
      if fields.kind.Explicit? {
        v := n;
        ret' := ret' + WrapSize(fields.kind.form, v);
        ExplicitIsSized(fields.kind, fields.sub, slots.v.value);
      } else {
        ret' := ret' + n;
      }
    }
    var more;
    ret', more := LenFields(fields.rest, slots.rest, ret');
    vs := [v] + more;
  }

  lemma ExplicitIsSized(kind: Kind, sub: Schema, a: Value)
    requires kind.Explicit? && Fits(sub, a)
    ensures |EncSlot(kind, sub, Some(a))| == WrapSize(kind.form, |Enc(sub, a)|)
  {
    WrapIsSized(ExplicitIdentifier(kind.tag), kind.form, Enc(sub, a));
  }

  // The put macros of a field list, in order.
  method PutFields(fields: Fields, slots: Slots, vs: seq<nat>, buf: array<Octet>, p: nat) returns (p': nat)
    requires FitsSlots(fields, slots) && Carries(fields, slots, vs)
    requires |EncFields(fields, slots)| <= INT_MAX
    requires p + |EncFields(fields, slots)| <= buf.Length
    modifies buf
    ensures p' == p + |EncFields(fields, slots)|
    ensures buf[..] == Splice(old(buf[..]), p, EncFields(fields, slots))
    decreases fields, 0
  {
    p' := p;
    if fields.Field? {
      ghost var b, mine, rest := buf[..], EncSlot(fields.kind, fields.sub, slots.v), EncFields(fields.rest, slots.rest);
      assert EncFields(fields, slots) == mine + rest;
      p' := PutSlot(fields.kind, fields.sub, slots.v, vs[0], buf, p');
      p' := PutFields(fields.rest, slots.rest, vs[1..], buf, p');
      SpliceTwice(b, p, mine, rest);
    }
  }

  method PutSlot(kind: Kind, sub: Schema, a: Option<Value>, v: nat, buf: array<Octet>, p: nat) returns (p': nat)
    requires FitsOption(sub, a)
    requires kind.Explicit? && a.Some? ==> v == |Enc(sub, a.value)|
    requires |EncSlot(kind, sub, a)| <= INT_MAX
    requires p + |EncSlot(kind, sub, a)| <= buf.Length
    modifies buf
    ensures p' == p + |EncSlot(kind, sub, a)|
    ensures buf[..] == Splice(old(buf[..]), p, EncSlot(kind, sub, a))
    decreases sub, 3
  {
    var r;
    match kind
    case Required =>
      r, p' := I2d(sub, a, buf, p);
    case Optional(_) =>
      r, p' := I2d(sub, a, buf, p);
    case Implicit(tag, _) =>
      p' := p;
      if a.Some? {
        p' := PutImplicit(tag, sub, a.value, buf, p');
      }
    case Explicit(tag, form) =>
      p' := p;
      if a.Some? {
        p' := PutExplicit(tag, form, sub, a.value, v, buf, p');
      }
  }

  // M_ASN1_I2D_put_IMP_opt on a component that is there.
  method PutImplicit(tag: Tag, sub: Schema, a: Value, buf: array<Octet>, p: nat) returns (p': nat)
    requires Fits(sub, a)
    requires |Enc(sub, a)| <= INT_MAX && p + |Enc(sub, a)| <= buf.Length
    modifies buf
    ensures p' == p + |Enc(sub, a)|
    ensures buf[..] == Splice(old(buf[..]), p, Retag(tag, Enc(sub, a)))
    decreases sub, 2
  {
    var q, r := p, 0;
    r, p' := I2d(sub, Some(a), buf, p);
    buf[q] := V_ASN1_CONTEXT_SPECIFIC + tag + ConstructedBit(buf[q]);
  }

  // M_ASN1_I2D_put_EXP_opt on a component that is there, or for the indefinite form
  // INF_seq_start, the component, INF_seq_end.
  method PutExplicit(tag: Tag, form: Form, sub: Schema, a: Value, v: nat, buf: array<Octet>, p: nat) returns (p': nat)
    requires Fits(sub, a) && v == |Enc(sub, a)|
    requires var s := Wrap(ExplicitIdentifier(tag), form, Enc(sub, a));
             |s| <= INT_MAX && p + |s| <= buf.Length
    modifies buf
    ensures var s := Wrap(ExplicitIdentifier(tag), form, Enc(sub, a));
            p' == p + |s| && buf[..] == Splice(old(buf[..]), p, s)
    decreases sub, 2
  {
    ghost var b, body := buf[..], Enc(sub, a);
    WrapIsSized(ExplicitIdentifier(tag), form, body);
    var p1 := Open(tag, V_ASN1_CONTEXT_SPECIFIC, form, v, buf, p);
    var r, p2 := I2d(sub, Some(a), buf, p1);
    p' := Close(form, buf, p2);
    SpliceThrice(b, p, Opening(ExplicitIdentifier(tag), form, v), p1, body, p2, Ending(form),
                 Wrap(ExplicitIdentifier(tag), form, body));
  }

  /** M_ASN1_I2D_INF_seq_start and M_ASN1_I2D_INF_seq_end around a field list, with
      any tag and class: the indefinite form of a constructed value. */
  method PutIndefinite(tag: Tag, ctx: Octet, fields: Fields, slots: Slots, buf: array<Octet>, p: nat) returns (p': nat)
    requires ctx % 0x40 == 0 && FitsSlots(fields, slots)
    requires |EncFields(fields, slots)| <= INT_MAX
    requires p + |EncFields(fields, slots)| + 4 <= buf.Length
    modifies buf
    ensures p' == p + |EncFields(fields, slots)| + 4
    ensures buf[..] ==
            Splice(old(buf[..]), p, Wrap(V_ASN1_CONSTRUCTED + tag + ctx, Indefinite, EncFields(fields, slots)))
  {
    ghost var b, body := buf[..], EncFields(fields, slots);
    var _, vs := LenFields(fields, slots, 0);
    var p1 := InfSeqStart(tag, ctx, buf, p);
    var p2 := PutFields(fields, slots, vs, buf, p1);
    p' := InfSeqEnd(buf, p2);
    SpliceThrice(b, p, [V_ASN1_CONSTRUCTED + tag + ctx, 0x80], p1, body, p2, [0, 0],
                 Wrap(V_ASN1_CONSTRUCTED + tag + ctx, Indefinite, body));
  }
}
