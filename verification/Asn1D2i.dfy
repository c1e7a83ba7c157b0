/**
 The D2I macros: a cursor machine over a buffer that the IMPLICIT path
 overwrites and restores.  Each `goto err` is the answer ok == false.
 Throughout, the ghost `b` is what the buffer holds on entry, and again on exit.
 */
module Asn1D2i {
  import opened Options
  import opened Sequences
  import opened Asn1Octets
  import opened Asn1Schema
  import opened Asn1Encode
  import opened Asn1Decode
  import opened Asn1Failure

  // The `n` octets at `p`; none for the negative lengths get_EXP_opt can pass.
  function Window(b: seq<Octet>, p: nat, n: int): (s: seq<Octet>)
    requires p + n <= |b| && p <= |b|
    ensures n >= 0 ==> |s| == n
  {
    if n <= 0 then [] else b[p..p + n]
  }

  lemma WindowIs(b: seq<Octet>, p: nat, n: nat)
    requires p + n <= |b|
    ensures Window(b, p, n) == b[p..p + n]
  {
  }

  lemma WindowTail(b: seq<Octet>, p: nat, n: nat, k: nat, p': nat, n': nat)
    requires p + n <= |b| && k <= n && p' == p + k && n' == n - k
    ensures Window(b, p, n)[k..] == Window(b, p', n')
  {
    if n > 0 {
      Slice(b, p, n, k, n);
    }
  }

  // Tlen, with `n` octets left in front of the header.
  function Tlen(h: Header, n: int): int {
    if h.form.Definite? then h.length else n - h.size - 2
  }

  lemma InnerWindow(b: seq<Octet>, p: nat, n: nat, h: Header, p': nat, n': int)
    requires p + n <= |b| && h.size <= n && (h.form.Definite? ==> h.size + h.length <= n)
    requires p' == p + h.size && n' == if h.form.Definite? then h.length else n - h.size - 2
    ensures Inner(Window(b, p, n), h) == Window(b, p', n')
  {
    if n' > 0 {
      Slice(b, p, n, h.size, h.size + n');
    }
  }

  lemma ContentsWindow(b: seq<Octet>, p: nat, n: nat, h: Header, p': nat, n': nat)
    requires p + n <= |b| && h.size <= n && (h.form.Definite? ==> h.size + h.length <= n)
    requires p' == p + h.size && n' == if h.form.Definite? then h.length else n - h.size
    ensures Contents(Window(b, p, n), h) == Window(b, p', n')
  {
    if n' > 0 {
      Slice(b, p, n, h.size, h.size + n');
    }
  }

  // The octet a lookahead at `p` meets, if there is memory there.
  function OctetAt(b: seq<Octet>, p: nat): Option<Octet> {
    if p < |b| then Some(b[p]) else None
  }

  // What a field macro computes with `n` octets, perhaps fewer than none, left at `p`.
  function SlotAt(kind: Kind, sub: Schema, b: seq<Octet>, p: nat, n: int, init: Option<Value>): Outcome<Option<Value>>
    requires p + n <= |b| && p <= |b| && FitsOption(sub, init)
  {
    if n >= 0 then DecSlot(kind, sub, Window(b, p, n), init) else SlotBehind(kind, OctetAt(b, p), init)
  }

  function FieldsAt(fields: Fields, b: seq<Octet>, p: nat, n: int, init: Slots): Outcome<Slots>
    requires p + n <= |b| && p <= |b| && FitsSlots(fields, init)
  {
    if n >= 0 then DecFields(fields, Window(b, p, n), init) else FieldsBehind(fields, OctetAt(b, p), init)
  }

  // What a failed field macro leaves in its component.
  function LeftAt(kind: Kind, sub: Schema, b: seq<Octet>, p: nat, n: int, init: Option<Value>): Option<Value>
    requires p + n <= |b| && p <= |b| && FitsOption(sub, init)
  {
    if n >= 0 then LeftSlot(kind, sub, Window(b, p, n), init) else init
  }

  lemma NothingIsRead(sub: Schema, init: Option<Value>)
    requires FitsOption(sub, init)
    ensures Dec(sub, [], init).Err? && Left(sub, [], init) == init
  {
  }

  // ---- The macros' specifications, case by case ----

  lemma AbsentIs(kind: Kind, sub: Schema, b: seq<Octet>, p: nat, n: int, init: Option<Value>)
    requires p + n <= |b| && p <= |b| && FitsOption(sub, init)
    requires !kind.Required? && (n == 0 || !Matches(kind, OctetAt(b, p)))
    ensures SlotAt(kind, sub, b, p, n, init) == Ok(init, 0)
  {
  }

  lemma ImplicitIs(tag: Tag, typ: Tag, sub: Schema, b: seq<Octet>, p: nat, n: int, init: Option<Value>,
      s: seq<Octet>)
    requires p + n <= |b| && p < |b| && n != 0 && FitsOption(sub, init)
    requires WithoutConstructed(b[p]) == V_ASN1_CONTEXT_SPECIFIC + tag
    requires s == Window(b[p := ConstructedBit(b[p]) + typ], p, n)
    ensures SlotAt(Implicit(tag, typ), sub, b, p, n, init) == Callee(Dec(sub, s, init))
    ensures LeftAt(Implicit(tag, typ), sub, b, p, n, init) == Left(sub, s, init)
  {
    if n > 0 {
      assert s == Untag(typ, Window(b, p, n));
    } else {
      NothingIsRead(sub, init);
    }
  }

  lemma ExplicitIs(tag: Tag, form: Form, sub: Schema, b: seq<Octet>, p: nat, n: int, init: Option<Value>)
    requires p + n <= |b| && p < |b| && n != 0 && FitsOption(sub, init)
    requires b[p] == ExplicitIdentifier(tag)
    ensures var s := Window(b, p, n);
            && SlotAt(Explicit(tag, form), sub, b, p, n, init) == DecExplicit(sub, s, init)
            && LeftAt(Explicit(tag, form), sub, b, p, n, init) == LeftExplicit(sub, s, init)
  {
  }

  // An EXPLICIT wrapper's contents, as a window and as what the callee decodes.
  lemma InnerIs(sub: Schema, b: seq<Octet>, p: nat, n: nat, h: Header, init: Option<Value>, s: seq<Octet>)
    returns (inner: seq<Octet>, r: Outcome<Value>, left: Option<Value>)
    requires p + n <= |b| && s == Window(b, p, n) && FitsOption(sub, init) && GetObject(s) == Some(h)
    requires h.size <= n && (h.form.Definite? ==> h.size + h.length <= n)
    ensures inner == Window(b, p + h.size, Tlen(h, n)) && h.size + |inner| <= n
    ensures r == Dec(sub, inner, init) && left == LeftCallee(sub, inner, init)
    ensures DecExplicit(sub, s, init) == CloseExplicit(s, h, r) && LeftExplicit(sub, s, init) == left
  {
    inner := Inner(s, h);
    r, left := Dec(sub, inner, init), LeftCallee(sub, inner, init);
    InnerWindow(b, p, n, h, p + h.size, Tlen(h, n));
  }

  // A sequence's contents, as a window and as what its components are decoded from.
  lemma ContentsAre(fields: Fields, b: seq<Octet>, p: nat, n: nat, h: Header, init: Slots, s: seq<Octet>)
    returns (c: seq<Octet>)
    requires p + n <= |b| && s == Window(b, p, n) && FitsSlots(fields, init)
    requires h.size <= n && (h.form.Definite? ==> h.size + h.length <= n)
    ensures c == Window(b, p + h.size, if h.form.Definite? then h.length else n - h.size)
    ensures h.size + |c| <= n
    ensures DecContents(fields, s, h, init) == Finish(c, h, DecFields(fields, c, init))
    ensures LeftContents(fields, s, h, init) == LeftFields(fields, c, init)
  {
    c := Contents(s, h);
    ContentsWindow(b, p, n, h, p + h.size, if h.form.Definite? then h.length else n - h.size);
  }

  // ASN1_const_CTX, the fields the macros themselves use.
  class ConstCtx {
    var p: nat
    var q: nat
    var slen: int
    var form: Form   // c.inf & 1
    var error: Error
    ghost var looked: set<nat> // where the lookahead has read *c.p

    // M_ASN1_D2I_vars and M_ASN1_D2I_Init.
    constructor (pp: nat)
      ensures p == q == pp && error == Nested && slen == 0 && form == Definite && looked == {}
    {
      p, q, slen, form, error, looked := pp, pp, 0, Definite, Nested, {};
    }

    // The octets still to be read lie in the buffer and end at `end`, which a
    // negative remaining length puts in front of the cursor.
    predicate Reading(b: seq<Octet>, end: int)
      reads this
    {
      p + slen == end <= |b| && p <= |b| && error == Nested
    }

    // What a field macro leaves behind, against what it should have computed:
    // on success the cursor and the remaining length still meet at `end`, and a
    // cursor inside the input stays inside; on failure the component is `left`.
    predicate Moved(ok: bool, v: Option<Value>, r: Outcome<Option<Value>>, left: Option<Value>, from: nat, end: int)
      reads this
    {
      match r
      case Ok(value, used) =>
        && ok && v == value && error == Nested
        && p == from + used && p + slen == end && (from <= end ==> p <= end)
      case Err(e) => !ok && error == e && v == left
    }

    // M_ASN1_D2I_get.
    method Get(buf: array<Octet>, sub: Schema, init: Option<Value>, ghost b: seq<Octet>, ghost end: int)
      returns (ok: bool, v: Option<Value>)
      requires buf[..] == b && Reading(b, end) && FitsOption(sub, init)
      modifies `p, `q, `slen, `error, `looked, buf
      ensures buf[..] == b
      ensures var s := Window(b, old(p), old(slen));
              Moved(ok, v, Callee(Dec(sub, s, init)), Left(sub, s, init), old(p), end)
      ensures looked == old(looked)
      decreases sub, 2
    {
      q := p;
      var ret, pp, _, left := D2i(sub, buf, p, slen, init, b, Window(b, p, slen));
      if ret.None? {
        return false, left;
      }
      p := pp;
      slen := slen - (p - q);
      return true, ret;
    }

    // M_ASN1_D2I_get_opt.
    method GetOpt(buf: array<Octet>, typ: Tag, sub: Schema, init: Option<Value>, ghost b: seq<Octet>, ghost end: int)
      returns (ok: bool, v: Option<Value>)
      requires buf[..] == b && Reading(b, end) && FitsOption(sub, init) && (slen < 0 ==> p < |b|)
      modifies `p, `q, `slen, `error, `looked, buf
      ensures buf[..] == b
      ensures Moved(ok, v, SlotAt(Optional(typ), sub, b, old(p), old(slen), init),
                    LeftAt(Optional(typ), sub, b, old(p), old(slen), init), old(p), end)
      ensures old(slen) > 0 && b[old(p)] != typ && b[old(p)] != 0x20 + typ ==> ok && v == init && p == old(p)
      ensures looked == old(looked) + if old(slen) != 0 then {old(p)} else {}
      decreases sub, 3
    {
      ok, v := true, init;
      NothingIsRead(sub, init);
      if slen != 0 {
        looked := looked + {p};
        if WithoutConstructed(buf[p]) == typ {
          ok, v := Get(buf, sub, init, b, end);
        }
      }
    }

    // M_ASN1_D2I_get_IMP_opt with M_ASN1_D2I_get_imp inside it.
    method GetImpOpt(buf: array<Octet>, tag: Tag, typ: Tag, sub: Schema, init: Option<Value>,
        ghost b: seq<Octet>, ghost end: int)
      returns (ok: bool, v: Option<Value>)
      requires buf[..] == b && Reading(b, end) && FitsOption(sub, init) && (slen < 0 ==> p < |b|)
      modifies `p, `q, `slen, `error, `looked, buf
      ensures buf[..] == b
      ensures Moved(ok, v, SlotAt(Implicit(tag, typ), sub, b, old(p), old(slen), init),
                    LeftAt(Implicit(tag, typ), sub, b, old(p), old(slen), init), old(p), end)
      ensures old(slen) > 0 && b[old(p)] != 0x80 + tag && b[old(p)] != 0xA0 + tag ==> ok && v == init && p == old(p)
      ensures looked == old(looked) + if old(slen) != 0 then {old(p)} else {}
      decreases sub, 4
    {
      if slen == 0 {
        AbsentIs(Implicit(tag, typ), sub, b, p, slen, init);
        return true, init;
      }
      looked := looked + {p};
      if WithoutConstructed(buf[p]) != V_ASN1_CONTEXT_SPECIFIC + tag {
        AbsentIs(Implicit(tag, typ), sub, b, p, slen, init);
        return true, init;
      }
      ok, v := GetTagged(buf, tag, typ, sub, init, b, end);
    }

    // get_IMP_opt behind the test.
    method GetTagged(buf: array<Octet>, tag: Tag, typ: Tag, sub: Schema, init: Option<Value>,
        ghost b: seq<Octet>, ghost end: int)
      returns (ok: bool, v: Option<Value>)
      requires buf[..] == b && Reading(b, end) && FitsOption(sub, init) && slen != 0 && p < |b|
      requires WithoutConstructed(b[p]) == V_ASN1_CONTEXT_SPECIFIC + tag
      modifies `p, `q, `slen, `error, buf
      ensures buf[..] == b
      ensures Moved(ok, v, SlotAt(Implicit(tag, typ), sub, b, old(p), old(slen), init),
                    LeftAt(Implicit(tag, typ), sub, b, old(p), old(slen), init), old(p), end)
      decreases sub, 3
    {
      var tmp := buf[p];
      ghost var s := Window(b[p := ConstructedBit(tmp) + typ], p, slen);
      ImplicitIs(tag, typ, sub, b, p, slen, init, s);
      ok, v := GetImp(buf, tmp, typ, sub, init, b, s, end);
    }

    // M_ASN1_D2I_get_imp; `s` is what the callee may read.
    method GetImp(buf: array<Octet>, tmp: Octet, typ: Tag, sub: Schema, init: Option<Value>,
        ghost b: seq<Octet>, ghost s: seq<Octet>, ghost end: int)
      returns (ok: bool, v: Option<Value>)
      requires buf[..] == b && Reading(b, end) && FitsOption(sub, init) && p < |b| && b[p] == tmp
      requires s == Window(b[p := ConstructedBit(tmp) + typ], p, slen)
      modifies `p, `q, `slen, `error, buf
      ensures buf[..] == b
      ensures Moved(ok, v, Callee(Dec(sub, s, init)), Left(sub, s, init), old(p), end)
      decreases sub, 2
    {
      buf[p] := ConstructedBit(tmp) + typ;
      q := p;
      var ret, pp, _, left := D2i(sub, buf, p, slen, init, b[p := ConstructedBit(tmp) + typ], s);
      if ret.None? {
        buf[q] := tmp;
        return false, left;
      }
      p := pp;
      slen := slen - (p - q);
      buf[q] := tmp;
      return true, ret;
    }

    // M_ASN1_D2I_get_EXP_opt.
    method GetExpOpt(buf: array<Octet>, tag: Tag, ghost form: Form, sub: Schema, init: Option<Value>,
        ghost b: seq<Octet>, ghost end: int)
      returns (ok: bool, v: Option<Value>)
      requires buf[..] == b && Reading(b, end) && FitsOption(sub, init) && (slen < 0 ==> p < |b|)
      modifies `p, `q, `slen, `error, `looked, buf
      ensures buf[..] == b
      ensures Moved(ok, v, SlotAt(Explicit(tag, form), sub, b, old(p), old(slen), init),
                    LeftAt(Explicit(tag, form), sub, b, old(p), old(slen), init), old(p), end)
      ensures old(slen) > 0 && b[old(p)] != 0xA0 + tag ==> ok && v == init && p == old(p)
      ensures looked == old(looked) + if old(slen) != 0 then {old(p)} else {}
      decreases sub, 5
    {
      if slen == 0 {
        AbsentIs(Explicit(tag, form), sub, b, p, slen, init);
        return true, init;
      }
      looked := looked + {p};
      if buf[p] != ExplicitIdentifier(tag) {
        AbsentIs(Explicit(tag, form), sub, b, p, slen, init);
        return true, init;
      }
      ExplicitIs(tag, form, sub, b, p, slen, init);
      ok, v := GetExp(buf, sub, init, b, Window(b, p, slen), end);
    }

    // get_EXP_opt behind the test; `s` is what may be read at the cursor.
    method GetExp(buf: array<Octet>, sub: Schema, init: Option<Value>, ghost b: seq<Octet>, ghost s: seq<Octet>,
        ghost end: int)
      returns (ok: bool, v: Option<Value>)
      requires buf[..] == b && Reading(b, end) && FitsOption(sub, init) && s == Window(b, p, slen)
      modifies `p, `q, `slen, `error, buf
      ensures buf[..] == b
      ensures Moved(ok, v, DecExplicit(sub, s, init), LeftExplicit(sub, s, init), old(p), end)
      decreases sub, 4
    {
      q := p;
      var h := ReadHeader(buf, p, slen);
      if h.None? {
        error := BadObjectHeader;
        return false, init;
      }
      ok, v := Enter(buf, h.value, sub, init, b, s, end);
    }

    // get_EXP_opt behind the header.
    method Enter(buf: array<Octet>, h: Header, sub: Schema, init: Option<Value>,
        ghost b: seq<Octet>, ghost s: seq<Octet>, ghost end: int)
      returns (ok: bool, v: Option<Value>)
      requires buf[..] == b && Reading(b, end) && FitsOption(sub, init) && q == p
      requires h.size <= slen && (h.form.Definite? ==> h.size + h.length <= slen)
      requires s == Window(b, p, slen) && GetObject(s) == Some(h)
      modifies `p, `q, `slen, `error, buf
      ensures buf[..] == b
      ensures Moved(ok, v, DecExplicit(sub, s, init), LeftExplicit(sub, s, init), old(p), end)
      decreases sub, 3
    {
      ghost var inner, r, left := InnerIs(sub, b, p, slen, h, init, s);
      ok, v := Nest(buf, h, sub, init, b, s, inner, r, left, end);
    }

    // The same; `inner` is what the callee may read, `r` what it answers, `left` the
    // component it leaves.
    method Nest(buf: array<Octet>, h: Header, sub: Schema, init: Option<Value>,
        ghost b: seq<Octet>, ghost s: seq<Octet>, ghost inner: seq<Octet>, ghost r: Outcome<Value>,
        ghost left: Option<Value>, ghost end: int)
      returns (ok: bool, v: Option<Value>)
      requires buf[..] == b && Reading(b, end) && FitsOption(sub, init) && q == p
      requires h.size <= slen && (h.form.Definite? ==> h.size + h.length <= slen)
      requires s == Window(b, p, slen)
      requires inner == Window(b, p + h.size, Tlen(h, slen)) && h.size + |inner| <= |s|
      requires r == Dec(sub, inner, init) && left == LeftCallee(sub, inner, init)
      modifies `p, `q, `slen, `error, buf
      ensures buf[..] == b
      ensures Moved(ok, v, CloseExplicit(s, h, r), left, old(p), end)
      decreases sub, 2
    {
      p := p + h.size;
      var tlen := if h.form.Definite? then h.length else slen - (p - q) - 2;
      assert tlen == Tlen(h, slen);
      var ret, pp, _, a := D2i(sub, buf, p, tlen, init, b, inner);
      if ret.None? {
        return false, a;
      }
      assert r == Ok(ret.value, pp - p);
      ok, v := Leave(buf, h, ret.value, pp, r, b, s, end);
    }

    // get_EXP_opt behind the callee.
    method Leave(buf: array<Octet>, h: Header, value: Value, pp: nat, ghost r: Outcome<Value>,
        ghost b: seq<Octet>, ghost s: seq<Octet>, ghost end: int)
      returns (ok: bool, v: Option<Value>)
      requires buf[..] == b && 0 <= slen && q + slen == end <= |b| && error == Nested
      requires s == Window(b, q, slen)
      requires r.Ok? && r.value == value && pp == q + h.size + r.used <= q + slen
      modifies `p, `slen, `error
      ensures Moved(ok, v, CloseExplicit(s, h, r), Some(value), q, end)
    {
      p := pp;
      if h.form.Indefinite? {
        WindowTail(b, q, slen, h.size + r.used, p, slen - (p - q));
        if !EndOfContents(Window(buf[..], p, slen - (p - q))) {
          error := MissingEos;
          return false, Some(value);
        }
        p := p + 2;
      }
      slen := slen - (p - q);
      return true, Some(value);
    }

    // The macro a field uses.
    method GetSlot(buf: array<Octet>, kind: Kind, sub: Schema, init: Option<Value>, ghost b: seq<Octet>, ghost end: int)
      returns (ok: bool, v: Option<Value>)
      requires buf[..] == b && Reading(b, end) && FitsOption(sub, init)
      requires slen < 0 && !kind.Required? ==> p < |b|
      modifies `p, `q, `slen, `error, `looked, buf
      ensures buf[..] == b
      ensures Moved(ok, v, SlotAt(kind, sub, b, old(p), old(slen), init),
                    LeftAt(kind, sub, b, old(p), old(slen), init), old(p), end)
      ensures looked == old(looked) + if old(slen) != 0 && !kind.Required? then {old(p)} else {}
      decreases sub, 6
    {
      NothingIsRead(sub, init);
      match kind
      case Required => ok, v := Get(buf, sub, init, b, end);
      case Optional(typ) => ok, v := GetOpt(buf, typ, sub, init, b, end);
      case Implicit(tag, typ) => ok, v := GetImpOpt(buf, tag, typ, sub, init, b, end);
      case Explicit(tag, form) => ok, v := GetExpOpt(buf, tag, form, sub, init, b, end);
    }

    /** The field macros in a row: they compute DecFields, conserve p + slen, look
        ahead inside the input only, and leave every octet of it as it was, whether
        they succeed or fail.  With a negative length they compute FieldsBehind,
        and look at the octet behind the input exactly when the first of them looks. */
    method GetFields(buf: array<Octet>, fields: Fields, init: Slots, ghost b: seq<Octet>, ghost end: int)
      returns (ok: bool, slots: Slots, ghost used: nat)
      requires buf[..] == b && Reading(b, end) && FitsSlots(fields, init)
      requires slen < 0 && LooksAhead(fields) ==> p < |b|
      modifies `p, `q, `slen, `error, `looked, buf
      ensures buf[..] == b
      ensures match FieldsAt(fields, b, old(p), old(slen), init)
              case Ok(value, n) =>
                && ok && slots == value && used == n && Reading(b, end)
                && p == old(p) + used && (old(slen) >= 0 ==> slen >= 0)
              case Err(e) =>
                && !ok && error == e
                && slots == if old(slen) >= 0 then LeftFields(fields, Window(b, old(p), old(slen)), init) else init
      ensures old(slen) >= 0 ==> forall i <- looked :: i in old(looked) || old(p) <= i < end
      ensures old(slen) < 0 ==> looked == old(looked) + if LooksAhead(fields) then {old(p)} else {}
      decreases fields, 0
    {
      ok, slots, used := true, NoSlot, 0;
      if fields.Field? {
        var v, more;
        ghost var from, n, m := p, slen, 0;
        ok, v := GetSlot(buf, fields.kind, fields.sub, init.v, b, end);
        slots := Slot(v, init.rest);
        if ok {
          used := p - from;
          if n >= 0 {
            WindowTail(b, from, n, used, p, slen);
          }
          ok, more, m := GetFields(buf, fields.rest, init.rest, b, end);
          slots, used := Slot(v, more), used + m;
        }
      }
    }

    // M_ASN1_D2I_Finish_2: asn1_const_Finish, then the move of *pp and the return.
    method FinishTwo(buf: array<Octet>, ghost contents: seq<Octet>, ghost h: Header, slots: Slots, pp: nat,
        ghost used: nat)
      returns (ret: Option<Value>, pp': nat)
      requires 0 <= slen && p + slen <= buf.Length && form == h.form
      requires p == pp + h.size + used && used <= |contents|
      requires Window(buf[..], p, slen) == contents[used..]
      modifies `p, `error
      ensures match Finish(contents, h, Ok(slots, used))
              case Ok(v, n) => ret == Some(v) && pp' == pp + n
              case Err(e) => ret == None && pp' == pp && error == e
    {
      if form.Definite? && slen != 0 {
        error := LengthMismatch;
        return None, pp;
      }
      if form.Indefinite? {
        if !EndOfContents(Window(buf[..], p, slen)) {
          error := MissingEos;
          return None, pp;
        }
        p := p + 2;
      }
      return Some(Struct(slots)), p;
    }
  }

  /** A type's d2i function: it answers what Dec computes from the octets it may
      read, moves *pp only when it succeeds, and gives the input back unchanged.
      `init` is *a before the call, `a` behind it, `s` the octets. */
  method D2i(schema: Schema, buf: array<Octet>, pp: nat, length: int, init: Option<Value>,
      ghost b: seq<Octet>, ghost s: seq<Octet>)
    returns (ret: Option<Value>, pp': nat, error: Error, a: Option<Value>)
    requires buf[..] == b
    requires pp + length <= |b| && pp <= |b| && FitsOption(schema, init) && s == Window(b, pp, length)
    modifies buf
    ensures buf[..] == b
    ensures match Dec(schema, s, init)
            case Ok(v, used) => ret == Some(v) && pp' == pp + used && a == ret
            case Err(e) => ret == None && pp' == pp && error == e && a == Left(schema, s, init)
    decreases schema, 1
  {
    match schema
    case Primitive(typ) =>
      ret, pp', error := D2iPrimitive(typ, buf, pp, length, init);
      a := if ret.Some? then ret else init;
    case Sequence(_, _) =>
      ret, pp', error, a := D2iSequence(schema, buf, pp, length, init, b, s);
  }

  // ASN1_get_object on the `n` octets at `p`; only declared in the headers.
  method ReadHeader(buf: array<Octet>, p: nat, n: int) returns (h: Option<Header>)
    requires p + n <= buf.Length && p <= buf.Length
    ensures h == GetObject(Window(buf[..], p, n))
    ensures h.Some? ==> h.value.size <= n && (h.value.form.Definite? ==> h.value.size + h.value.length <= n)
  {
    h := GetObject(Window(buf[..], p, n));
  }

  // A primitive type's d2i function; only declared in the headers.
  method D2iPrimitive(typ: Tag, buf: array<Octet>, pp: nat, length: int, ghost init: Option<Value>)
    returns (ret: Option<Value>, pp': nat, error: Error)
    requires pp + length <= buf.Length && pp <= buf.Length && FitsOption(Primitive(typ), init)
    ensures match Dec(Primitive(typ), Window(buf[..], pp, length), init)
            case Ok(v, used) => ret == Some(v) && pp' == pp + used
            case Err(e) => ret == None && pp' == pp && error == e
  {
    var s := Window(buf[..], pp, length);
    var h := ReadHeader(buf, pp, length);
    ret, pp', error := None, pp, NotThisPrimitive;
    if h.Some? && h.value.id == typ && h.value.form.Definite? {
      ret := Some(Octets(s[h.value.size..h.value.size + h.value.length]));
      pp' := pp + h.value.size + h.value.length;
    }
  }

  // A structured type's d2i function: start_sequence, the field macros, Finish_2;
  // `s` is what it may read.
  method D2iSequence(schema: Schema, buf: array<Octet>, pp: nat, length: int, init: Option<Value>,
      ghost b: seq<Octet>, ghost s: seq<Octet>)
    returns (ret: Option<Value>, pp': nat, error: Error, a: Option<Value>)
    requires schema.Sequence? && buf[..] == b
    requires pp + length <= |b| && pp <= |b| && FitsOption(schema, init) && s == Window(b, pp, length)
    modifies buf
    ensures buf[..] == b
    ensures match Dec(schema, s, init)
            case Ok(v, used) => ret == Some(v) && pp' == pp + used && a == ret
            case Err(e) => ret == None && pp' == pp && error == e && a == Left(schema, s, init)
    decreases schema, 0
  {
    var h := ReadHeader(buf, pp, length);
    if h.None? || h.value.id != Identifier(schema) {
      return None, pp, if h.None? then BadGetObject else ExpectingSequence, init;
    }
    var slots;
    ret, pp', error, slots := D2iContents(schema.fields, buf, h.value, Start(schema.fields, init), pp, length, b, s);
    a := if ret.Some? then ret else if init.Some? then Some(Struct(slots)) else None;
  }

  // The same behind the header asn1_GetSequence read.
  method D2iContents(fields: Fields, buf: array<Octet>, h: Header, init: Slots, pp: nat, length: nat,
      ghost b: seq<Octet>, ghost s: seq<Octet>)
    returns (ret: Option<Value>, pp': nat, error: Error, slots: Slots)
    requires buf[..] == b
    requires pp + length <= |b| && FitsSlots(fields, init) && s == Window(b, pp, length)
    requires h.size <= length && (h.form.Definite? ==> h.size + h.length <= length)
    modifies buf
    ensures buf[..] == b
    ensures match DecContents(fields, s, h, init)
            case Ok(v, used) => ret == Some(v) && pp' == pp + used
            case Err(e) => ret == None && pp' == pp && error == e && slots == LeftContents(fields, s, h, init)
    decreases fields, 2
  {
    ghost var c := ContentsAre(fields, b, pp, length, h, init, s);
    ret, pp', error, slots := D2iFields(fields, buf, h, init, pp, length, b, c);
  }

  // The same; `s` is the contents.
  method D2iFields(fields: Fields, buf: array<Octet>, h: Header, init: Slots, pp: nat, length: nat,
      ghost b: seq<Octet>, ghost s: seq<Octet>)
    returns (ret: Option<Value>, pp': nat, error: Error, slots: Slots)
    requires buf[..] == b
    requires pp + length <= |b| && FitsSlots(fields, init)
    requires h.size <= length && (h.form.Definite? ==> h.size + h.length <= length)
    requires s == Window(b, pp + h.size, if h.form.Definite? then h.length else length - h.size)
    modifies buf
    ensures buf[..] == b
    ensures match Finish(s, h, DecFields(fields, s, init))
            case Ok(v, used) => ret == Some(v) && pp' == pp + used
            case Err(e) => ret == None && pp' == pp && error == e && slots == LeftFields(fields, s, init)
    decreases fields, 1
  {
    var c := new ConstCtx(pp);
    c.p := c.p + h.size;
    c.form := h.form;
    c.slen := if c.form.Definite? then h.length else length - h.size;
    ghost var from, n := c.p, c.slen;
    var ok;
    ghost var used;
    ok, slots, used := c.GetFields(buf, fields, init, b, from + n);
    if !ok {
      return None, pp, c.error, slots;
    }
    LeftOfSuccess(fields, s, init);
    WindowTail(b, from, n, used, c.p, c.slen);
    ret, pp' := c.FinishTwo(buf, s, h, slots, pp, used);
    error := c.error;
  }

  /** A d2i function without a surrounding sequence: M_ASN1_D2I_begin, the field
      macros, M_ASN1_D2I_Finish_nolen, which does not look at what is left.  Every
      place its lookahead reads lies inside the input if and only if the length is
      not negative or the first field does not look ahead.  (An octet it looks at
      behind the input must at least be memory.) */
  method D2iBare(fields: Fields, buf: array<Octet>, init: Slots, pp: nat, length: int, ghost b: seq<Octet>)
    returns (ok: bool, slots: Slots, pp': nat, error: Error, ghost looked: set<nat>)
    requires buf[..] == b
    requires pp + length <= |b| && pp <= |b| && FitsSlots(fields, init)
    requires length < 0 && LooksAhead(fields) ==> pp < |b|
    modifies buf
    ensures buf[..] == b
    ensures match FieldsAt(fields, b, pp, length, init)
            case Ok(v, used) => ok && slots == v && pp' == pp + used
            case Err(e) =>
              && !ok && pp' == pp && error == e
              && slots == if length >= 0 then LeftFields(fields, Window(b, pp, length), init) else init
    ensures (forall i <- looked :: pp <= i < pp + length) <==> length >= 0 || !LooksAhead(fields)
    ensures length < 0 ==> looked == if LooksAhead(fields) then {pp} else {}
  {
    var c := new ConstCtx(pp);
    c.slen := length;
    ghost var used;
    ok, slots, used := c.GetFields(buf, fields, init, b, pp + length);
    pp' := if ok then c.p else pp;
    error := c.error;
    looked := c.looked;
    if length < 0 && LooksAhead(fields) {
      assert pp in looked;
    }
  }
}
