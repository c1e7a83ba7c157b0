/**
 get_EXP_opt around a function without a surrounding sequence: a callee that
 M_ASN1_D2I_begin gives whatever Tlen the macro computes, a negative one too.
 The macro has n octets of `b` at p to read.
 */
module Asn1Bare {
  import opened Options
  import opened Asn1Octets
  import opened Asn1Schema
  import opened Asn1Encode
  import opened Asn1Decode
  import opened Asn1Failure
  import opened Asn1D2i

  // The callee's object, or NULL, as the component points to it.
  predicate FitsBare(fields: Fields, v: Option<Value>) {
    v.Some? ==> v.value.Struct? && FitsSlots(fields, v.value.slots)
  }

  // What the callee makes of the Tlen it is handed behind the header.
  function BareCallee(fields: Fields, b: seq<Octet>, p: nat, n: nat, h: Header, start: Slots): (r: Outcome<Slots>)
    requires p + n <= |b| && FitsSlots(fields, start)
    requires h.size <= n && (h.form.Definite? ==> h.size + h.length <= n)
    ensures r.Ok? ==> h.size + r.used <= n
  {
    FieldsAt(fields, b, p + h.size, Tlen(h, n), start)
  }

  function AsValue(r: Outcome<Slots>): Outcome<Value> {
    match r
    case Ok(slots, used) => Ok(Struct(slots), used)
    case Err(e) => Err(e)
  }

  // get_EXP_opt behind the test.
  function DecBare(fields: Fields, b: seq<Octet>, p: nat, n: nat, init: Option<Value>): (r: Outcome<Option<Value>>)
    requires p + n <= |b| && FitsBare(fields, init)
    ensures r.Ok? ==> r.used <= n
  {
    var s := Window(b, p, n);
    var h := GetObject(s);
    if h.None? then Err(BadObjectHeader)
    else CloseExplicit(s, h.value, AsValue(BareCallee(fields, b, p, n, h.value, Start(fields, init))))
  }

  // The component behind a failure.
  function LeftBare(fields: Fields, b: seq<Octet>, p: nat, n: nat, init: Option<Value>): Option<Value>
    requires p + n <= |b| && FitsBare(fields, init)
  {
    var h := GetObject(Window(b, p, n));
    if h.None? then init else LeftBehind(fields, b, p, n, h.value, Start(fields, init), init.Some?)
  }

  // The same behind the header; `given` says whether the object was the caller's.
  function LeftBehind(fields: Fields, b: seq<Octet>, p: nat, n: nat, h: Header, start: Slots, given: bool): Option<Value>
    requires p + n <= |b| && FitsSlots(fields, start)
    requires h.size <= n && (h.form.Definite? ==> h.size + h.length <= n)
  {
    var r := BareCallee(fields, b, p, n, h, start);
    if r.Ok? then Some(Struct(r.value))
    else if !given then None
    else if Tlen(h, n) < 0 then Some(Struct(start))
    else Some(Struct(LeftFields(fields, Window(b, p + h.size, Tlen(h, n)), start)))
  }

  /** The specification, step by step: a header; the callee with what that announces,
      or with all but two of the octets left, a negative number of them too; the end. */
  lemma BareIs(fields: Fields, b: seq<Octet>, p: nat, n: nat, init: Option<Value>, h: Header, m: int)
    requires p + n <= |b| && FitsBare(fields, init) && GetObject(Window(b, p, n)) == Some(h)
    requires m == if h.form == Definite then h.length else n - h.size - 2
    ensures var r := BareCallee(fields, b, p, n, h, Start(fields, init));
            && DecBare(fields, b, p, n, init) ==
               CloseExplicit(Window(b, p, n), h, if r.Ok? then Ok(Struct(r.value), r.used) else Err(r.error))
            && r == (if m >= 0 then DecFields(fields, Window(b, p + h.size, m), Start(fields, init))
                     else FieldsBehind(fields, OctetAt(b, p + h.size), Start(fields, init)))
  {
  }

  lemma LeftBareIs(fields: Fields, b: seq<Octet>, p: nat, n: nat, init: Option<Value>, h: Header, m: int)
    requires p + n <= |b| && FitsBare(fields, init) && GetObject(Window(b, p, n)) == Some(h)
    requires m == if h.form == Definite then h.length else n - h.size - 2
    ensures var r := BareCallee(fields, b, p, n, h, Start(fields, init));
            LeftBare(fields, b, p, n, init) ==
            if r.Ok? then Some(Struct(r.value))
            else if init.None? || m < 0 then init
            else Some(Struct(LeftFields(fields, Window(b, p + h.size, m), init.value.slots)))
  {
  }

  lemma NoBareHeader(fields: Fields, b: seq<Octet>, p: nat, n: nat, init: Option<Value>)
    requires p + n <= |b| && FitsBare(fields, init) && GetObject(Window(b, p, n)) == None
    ensures DecBare(fields, b, p, n, init) == Err(BadObjectHeader) && LeftBare(fields, b, p, n, init) == init
  {
  }

  // An indefinite header is all there is.
  predicate RunsOut(b: seq<Octet>, p: nat, n: nat)
    requires p + n <= |b|
  {
    var h := GetObject(Window(b, p, n));
    h.Some? && h.value.form.Indefinite? && h.value.size == n
  }

  /** When get_EXP_opt hands on a negative length, and what becomes of it: Tlen is
      negative exactly when an indefinite header has less than two octets behind
      it.  Such a run never decodes, whatever the callee; the octet its lookahead
      meets only decides which error is reported. */
  lemma NegativeNeverDecodes(fields: Fields, b: seq<Octet>, p: nat, n: nat, init: Option<Value>, h: Header)
    requires p + n <= |b| && FitsBare(fields, init) && GetObject(Window(b, p, n)) == Some(h)
    ensures -2 <= Tlen(h, n) && (Tlen(h, n) < 0 <==> h.form.Indefinite? && n - h.size < 2)
    ensures Tlen(h, n) < 0 ==>
              var callee := FieldsBehind(fields, OctetAt(b, p + h.size), Start(fields, init));
              DecBare(fields, b, p, n, init) == Err(if callee.Ok? then MissingEos else Nested)
  {
  }

  /** A run whose error hangs on the octet behind the whole input: two octets that
      open an indefinite wrapper, around a [0] IMPLICIT OPTIONAL component. */
  lemma ErrorHangsOnNext(typ: Tag, next: Octet)
    ensures var fields := Field(Implicit(0, typ), Primitive(typ), Done);
            var b := [ExplicitIdentifier(0), 0x80, next];
            && RunsOut(b, 0, 2)
            && DecBare(fields, b, 0, 2, None) ==
               Err(if WithoutConstructed(next) == V_ASN1_CONTEXT_SPECIFIC then Nested else MissingEos)
  {
    var b := [ExplicitIdentifier(0), 0x80, next];
    assert Window(b, 0, 2) == [ExplicitIdentifier(0), 0x80];
    NegativeNeverDecodes(Field(Implicit(0, typ), Primitive(typ), Done), b, 0, 2, None,
                         Header(ExplicitIdentifier(0), 2, Indefinite, 0));
  }

  /** The macro itself: the cursor moves and the buffer comes back as for any other
      callee, and every place the two lookaheads read lies inside the input unless
      an indefinite header is all of it and the callee looks ahead.  (The octet
      behind must then at least be memory.)  A macro whose own length is negative
      finds no header: Asn1Decode.SlotBehind. */
  method GetExpBare(c: ConstCtx, buf: array<Octet>, tag: Tag, fields: Fields, init: Option<Value>,
      ghost b: seq<Octet>, ghost end: int)
    returns (ok: bool, v: Option<Value>, ghost looked: set<nat>)
    requires buf[..] == b && c.Reading(b, end) && c.slen >= 0 && FitsBare(fields, init)
    requires c.slen > 0 && b[c.p] == ExplicitIdentifier(tag) && RunsOut(b, c.p, c.slen) && LooksAhead(fields) ==>
               end < |b|
    modifies c`p, c`q, c`slen, c`error, buf
    ensures buf[..] == b
    ensures if old(c.slen) > 0 && b[old(c.p)] == ExplicitIdentifier(tag) then
              c.Moved(ok, v, DecBare(fields, b, old(c.p), old(c.slen), init),
                      LeftBare(fields, b, old(c.p), old(c.slen), init), old(c.p), end)
            else
              ok && v == init && c.Reading(b, end) && c.p == old(c.p)
    ensures (forall i <- looked :: old(c.p) <= i < end) <==>
              !(old(c.slen) > 0 && b[old(c.p)] == ExplicitIdentifier(tag)
                && RunsOut(b, old(c.p), old(c.slen)) && LooksAhead(fields))
  {
    looked := {};
    if c.slen == 0 {
      return true, init, looked;
    }
    looked := {c.p};
    if buf[c.p] != ExplicitIdentifier(tag) {
      return true, init, looked;
    }
    c.q := c.p;
    var h := ReadHeader(buf, c.p, c.slen);
    if h.None? {
      c.error := BadObjectHeader;
      return false, init, looked;
    }
    ghost var n, r := c.slen, BareCallee(fields, b, c.p, c.slen, h.value, Start(fields, init));
    ok, v, looked := NestBare(c, buf, h.value, fields, Start(fields, init), init.Some?, b, Window(b, c.p, n), r, end);
    WhereItLooks(fields, b, c.q, n, h.value, looked);
    looked := looked + {c.q};
  }

  // The macro behind the header; `s` is what may be read at the cursor, `r` what the
  // callee should answer.
  method NestBare(c: ConstCtx, buf: array<Octet>, h: Header, fields: Fields, start: Slots, given: bool,
      ghost b: seq<Octet>, ghost s: seq<Octet>, ghost r: Outcome<Slots>, ghost end: int)
    returns (ok: bool, v: Option<Value>, ghost looked: set<nat>)
    requires buf[..] == b && c.Reading(b, end) && c.q == c.p && FitsSlots(fields, start)
    requires h.size <= c.slen && (h.form.Definite? ==> h.size + h.length <= c.slen)
    requires s == Window(b, c.p, c.slen) && r == BareCallee(fields, b, c.p, c.slen, h, start)
    requires Tlen(h, c.slen) < 0 && LooksAhead(fields) ==> c.p + h.size < |b|
    modifies c`p, c`q, c`slen, c`error, buf
    ensures buf[..] == b && c.q == old(c.p)
    ensures c.Moved(ok, v, CloseExplicit(s, h, AsValue(r)),
                    LeftBehind(fields, b, old(c.p), old(c.slen), h, start, given), old(c.p), end)
    ensures LookedBehind(fields, h, old(c.p), old(c.slen), looked)
  {
    ghost var n := c.slen;
    c.p := c.p + h.size;
    var tlen := if h.form.Definite? then h.length else c.slen - (c.p - c.q) - 2;
    var slots, pp;
    ok, slots, pp, looked := CallBare(buf, h, fields, start, c.p, tlen, b, c.q, n, r);
    if !ok {
      return false, if given then Some(Struct(slots)) else None, looked;
    }
    ok, v := c.Leave(buf, h, Struct(slots), pp, AsValue(r), b, s, end);
  }

  // The callee, behind a header at `from` with n octets.
  method CallBare(buf: array<Octet>, ghost h: Header, fields: Fields, start: Slots, p: nat, tlen: int,
      ghost b: seq<Octet>, ghost from: nat, ghost n: nat, ghost r: Outcome<Slots>)
    returns (ok: bool, slots: Slots, pp: nat, ghost looked: set<nat>)
    requires buf[..] == b && from + n <= |b| && FitsSlots(fields, start)
    requires h.size <= n && (h.form.Definite? ==> h.size + h.length <= n)
    requires p == from + h.size && tlen == Tlen(h, n) && r == BareCallee(fields, b, from, n, h, start)
    requires tlen < 0 && LooksAhead(fields) ==> p < |b|
    modifies buf
    ensures buf[..] == b && (ok <==> r.Ok?)
    ensures ok ==> slots == r.value && pp == p + r.used
    ensures !ok ==> LeftBehind(fields, b, from, n, h, start, true) == Some(Struct(slots))
    ensures LookedBehind(fields, h, from, n, looked)
  {
    var error;
    ok, slots, pp, error, looked := D2iBare(fields, buf, start, p, tlen, b);
  }

  // Where the callee behind a header at `p` looks.
  ghost predicate LookedBehind(fields: Fields, h: Header, p: nat, n: nat, looked: set<nat>) {
    && (Tlen(h, n) >= 0 ==> forall i <- looked :: p + h.size <= i < p + h.size + Tlen(h, n))
    && (Tlen(h, n) < 0 ==> looked == if LooksAhead(fields) then {p + h.size} else {})
  }

  lemma WhereItLooks(fields: Fields, b: seq<Octet>, p: nat, n: nat, h: Header, looked: set<nat>)
    requires p + n <= |b| && GetObject(Window(b, p, n)) == Some(h) && LookedBehind(fields, h, p, n, looked)
    ensures (forall i <- looked + {p} :: p <= i < p + n) <==> !(RunsOut(b, p, n) && LooksAhead(fields))
  {
    if RunsOut(b, p, n) && LooksAhead(fields) {
      assert p + h.size in looked + {p};
    }
  }
}
