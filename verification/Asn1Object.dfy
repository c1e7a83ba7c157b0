/**
 A d2i function with its pointers: `TYPE **a` and `unsigned char **pp` are
 places that may or may not hold an object, and a failed decode cleans up.
 */
module Asn1Object {
  import opened Options
  import opened Asn1Octets
  import opened Asn1Schema
  import opened Asn1Decode
  import opened Asn1D2i
  import opened Asn1Failure
  import opened Asn1I2d
  import opened Asn1RoundTrip
  import opened Asn1Encode

  class Object {
    var value: Value
    var freed: bool

    constructor (v: Value)
      ensures value == v && !freed
    {
      value, freed := v, false;
    }
  }

  // What `a` points to.
  class Pointer {
    var target: Object?
  }

  // What `pp` points to.
  class Position {
    var at: nat
  }

  // What the type's `new` function hands out.
  function New(schema: Schema): (v: Value)
    ensures Fits(schema, v)
  {
    if schema.Primitive? then Octets([]) else Struct(Blank(schema.fields))
  }

  predicate Given(a: Pointer?)
    reads a
  {
    a != null && a.target != null
  }

  /** All or nothing: *pp moves only on success, *a is set only on success, and on
      failure an object is freed exactly when this call allocated it; the caller's
      own keeps what was decoded before the failure (Asn1Failure).  `memory` is the
      answer of the allocator, `made` the object allocated here. */
  method D2iObject(schema: Schema, a: Pointer?, pp: Position, buf: array<Octet>, length: int, memory: bool)
    returns (r: Object?, ghost made: Object?)
    requires pp.at + length <= buf.Length && pp.at <= buf.Length
    requires Given(a) ==> Fits(schema, a.target.value)
    modifies pp, a, if Given(a) then {a.target} else {}, buf
    ensures buf[..] == old(buf[..])
    ensures made == null <==> old(a != null && a.target != null) || !memory
    ensures made != null ==> fresh(made)
    ensures var given := old(a != null && a.target != null);
            var e := old(Dec(schema, Window(buf[..], pp.at, length),
                             if a != null && a.target != null then Some(a.target.value) else None));
            if e.Ok? && (given || memory) then
              && r != null && r == (if given then old(a.target) else made)
              && r.value == e.value && (r.freed <==> given && old(a.target.freed))
              && pp.at == old(pp.at) + e.used
              && (a != null ==> a.target == r)
            else
              && r == null
              && pp.at == old(pp.at)
              && (a != null ==> a.target == old(a.target))
              && (made != null ==> made.freed)
              && (given ==>
                    && old(a.target).freed == old(a.target.freed)
                    && Some(old(a.target).value) ==
                       old(Left(schema, Window(buf[..], pp.at, length), Some(a.target.value))))
  {
    ghost var b := buf[..];
    var ret: Object? := null;
    made := null;
    if !Given(a) {
      if memory {
        ret := new Object(New(schema));
        made := ret;
      }
    } else {
      ret := a.target;
    }
    if ret != null {
      var v, p, _, left := D2i(schema, buf, pp.at, length, Some(ret.value), b, Window(b, pp.at, length));
      if v.Some? {
        pp.at := p;
        ret.value := v.value;
        if a != null {
          a.target := ret;
        }
        return ret, made;
      }
      ret.value := left.value;
    }
    // err:
    if ret != null && (a == null || a.target != ret) {
      ret.freed := true;
    }
    r := null;
  }

  /** An object written by its i2d function anywhere in a buffer and read back there
      by its d2i function, into nothing: an equal object, a cursor right behind
      it, and a buffer that differs by the encoding only. */
  method WriteThenRead(schema: Schema, v: Value, buf: array<Octet>, pp: Position, length: nat) returns (r: Object?)
    requires Fits(schema, v) && WellTyped(schema) && Clear(schema, v)
    requires |Enc(schema, v)| <= INT_MAX && |Enc(schema, v)| <= length
    requires pp.at + length <= buf.Length
    modifies pp, buf
    ensures buf[..] == Splice(old(buf[..]), old(pp.at), Enc(schema, v))
    ensures r != null && fresh(r) && r.value == v && pp.at == old(pp.at) + |Enc(schema, v)|
  {
    var n, _ := I2d(schema, Some(v), buf, pp.at);
    ghost var s := Window(buf[..], pp.at, length);
    WindowOfSplice(old(buf[..]), pp.at, Enc(schema, v), length);
    DecEnc(schema, v, s[n..]);
    ghost var made;
    r, made := D2iObject(schema, null, pp, buf, length, true);
  }

  lemma WindowOfSplice(b: seq<Octet>, p: nat, s: seq<Octet>, n: nat)
    requires |s| <= n && p + n <= |b|
    ensures Window(Splice(b, p, s), p, n) == s + Window(Splice(b, p, s), p, n)[|s|..]
  {
    var w := Window(Splice(b, p, s), p, n);
    assert w[..|s|] == s;
  }
}
