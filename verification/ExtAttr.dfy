/**
 ext2fs/ext2_ext_attr.h: attribute entries of varying length in a disk block,
 and the walk over them that _NEXT and _IS_LAST_ENTRY make.
 */
module ExtAttr {
  import opened Options
  import opened Sequences

  type Byte = b: nat | b < 256

  // sizeof(struct ext2_ext_attr_entry), and the EXT2_EXT_ATTR_PAD
  const HEADER: nat := 16
  const PAD: nat := 4

  // struct ext2_ext_attr_entry with its name: e_name_len is the name's length,
  // `rest` the other fifteen header bytes, of which the first three share the
  // first word with it.
  datatype Entry = Entry(rest: seq<Byte>, name: seq<Byte>) {
    predicate Valid() {
      |rest| == HEADER - 1 && |name| < 256
    }

    // *(__u32 *)entry == 0
    predicate LooksLast()
      requires Valid()
    {
      name == [] && rest[0] == 0 && rest[1] == 0 && rest[2] == 0
    }
  }

  // EXT2_EXT_ATTR_LEN
  function Len(nameLen: nat): (n: nat)
    ensures n % 4 == 0 && 16 + nameLen <= n < 20 + nameLen
  {
    (nameLen + (PAD - 1) + HEADER) / PAD * PAD
  }

  function Zeros(n: nat): seq<Byte> {
    seq(n, _ => 0)
  }

  // An entry as it lies in the block.
  function Layout(e: Entry): (s: seq<Byte>)
    requires e.Valid()
    ensures |s| == Len(|e.name|)
  {
    [|e.name|] + e.rest + e.name + Zeros(Len(|e.name|) - HEADER - |e.name|)
  }

  function LayoutAll(es: seq<Entry>): seq<Byte>
    requires forall e <- es :: e.Valid()
  {
    if es == [] then [] else Layout(es[0]) + LayoutAll(es[1..])
  }

  datatype Placed = Placed(offset: nat, entry: Entry)

  // EXT2_EXT_IS_LAST_ENTRY
  predicate IsLast(block: seq<Byte>, off: nat)
    requires off + 4 <= |block|
  {
    block[off] == 0 && block[off + 1] == 0 && block[off + 2] == 0 && block[off + 3] == 0
  }

  // EXT2_EXT_ATTR_NEXT
  function Next(block: seq<Byte>, off: nat): (n: nat)
    requires off < |block|
    ensures n >= off + 16 && (off % 4 == 0 ==> n % 4 == 0)
  {
    off + Len(block[off])
  }

  // The walk from `off`; None when it would leave the block.
  function Walk(block: seq<Byte>, off: nat): Option<seq<Placed>>
    decreases |block| - off
  {
    if |block| < off + 4 then None
    else if IsLast(block, off) then Some([])
    else if |block| < Next(block, off) then None
    else
      var e := Entry(block[off + 1..off + HEADER], block[off + HEADER..off + HEADER + block[off]]);
      match Walk(block, Next(block, off))
      case None => None
      case Some(more) => Some([Placed(off, e)] + more)
  }

  // Where the entries of a list lie when the first is at `off`.
  function Placement(es: seq<Entry>, off: nat): seq<Placed> {
    if es == [] then [] else [Placed(off, es[0])] + Placement(es[1..], off + Len(|es[0].name|))
  }

  predicate LiesAt(block: seq<Byte>, off: nat, s: seq<Byte>) {
    off + |s| <= |block| && forall i :: 0 <= i < |s| ==> s[i] == block[off + i]
  }

  // The entries lie in the block from `off` on, at their padded lengths, with a
  // zero word behind the last.
  predicate LaidOut(block: seq<Byte>, off: nat, es: seq<Entry>)
    requires forall e <- es :: e.Valid()
    decreases |es|
  {
    if es == [] then off + 4 <= |block| && IsLast(block, off)
    else
      LiesAt(block, off, Layout(es[0])) && LaidOut(block, off + Len(|es[0].name|), es[1..])
  }

  // Writing the entries one behind the other lays them out.
  lemma {:induction false} LayoutAllLaysOut(block: seq<Byte>, before: seq<Byte>, es: seq<Entry>, after: seq<Byte>)
    requires forall e <- es :: e.Valid()
    requires block == before + LayoutAll(es) + Zeros(4) + after
    ensures LaidOut(block, |before|, es)
    decreases |es|
  {
    if es != [] {
      var first, more := Layout(es[0]), LayoutAll(es[1..]);
      Associate(before, first, more, Zeros(4), after);
      LayoutAllLaysOut(block, before + first, es[1..], after);
    }
  }

  lemma Associate(a: seq<Byte>, b: seq<Byte>, c: seq<Byte>, d: seq<Byte>, e: seq<Byte>)
    ensures a + (b + c) + d + e == (a + b) + c + d + e
    ensures LiesAt(a + (b + c) + d + e, |a|, b)
  {
    SplitAt(a, b, c);
    SplitAt(a, b, c + d + e);
    SplitAt(a + b, c, d);
    SplitAt(a + b, c + d, e);
  }

  // What one step of the walk sees of an entry laid out at `off`.
  lemma StepSees(block: seq<Byte>, off: nat, e: Entry)
    requires e.Valid()
    requires LiesAt(block, off, Layout(e))
    ensures IsLast(block, off) <==> e.LooksLast()
    ensures block[off] == |e.name|
    ensures block[off + 1..off + HEADER] == e.rest
    ensures block[off + HEADER..off + HEADER + |e.name|] == e.name
  {
    var s := Layout(e);
    LayoutParts(e);
    assert s[0] == block[off] && s[1] == block[off + 1] && s[2] == block[off + 2] && s[3] == block[off + 3];
    SameParts(block, off, s, 1, HEADER);
    SameParts(block, off, s, HEADER, HEADER + |e.name|);
  }

  lemma SameParts(block: seq<Byte>, off: nat, s: seq<Byte>, i: nat, j: nat)
    requires LiesAt(block, off, s) && i <= j <= |s|
    ensures block[off + i..off + j] == s[i..j]
  {
    forall k | 0 <= k < j - i
      ensures block[off + i..off + j][k] == s[i..j][k]
    {
      assert s[i + k] == block[off + (i + k)];
    }
  }

  lemma LayoutParts(e: Entry)
    requires e.Valid()
    ensures var s := Layout(e);
            && s[0] == |e.name| && s[1] == e.rest[0] && s[2] == e.rest[1] && s[3] == e.rest[2]
            && s[1..HEADER] == e.rest && s[HEADER..HEADER + |e.name|] == e.name
  {
  }

  /** A header of sixteen bytes, the name's length first, then the name, then zeros up
      to the next multiple of four; a word of four zero bytes looks last. */
  lemma EntryIs(e: Entry, block: seq<Byte>, off: nat)
    requires e.Valid()
    ensures |e.rest| == 15
    ensures Layout(e)[..16 + |e.name|] == [|e.name|] + e.rest + e.name
    ensures forall i :: 16 + |e.name| <= i < |Layout(e)| ==> Layout(e)[i] == 0
    ensures e.LooksLast() <==> Layout(e)[..4] == [0, 0, 0, 0]
    ensures off + 4 <= |block| ==> (IsLast(block, off) <==> block[off..off + 4] == [0, 0, 0, 0])
  {
    LayoutParts(e);
    var s := Layout(e);
    assert s[..4] == [s[0], s[1], s[2], s[3]];
    if off + 4 <= |block| {
      assert block[off..off + 4] == [block[off], block[off + 1], block[off + 2], block[off + 3]];
    }
  }

  // One step of the walk: past the entry it sees, unless that one looks last.
  lemma WalkStep(block: seq<Byte>, off: nat, e: Entry)
    requires e.Valid()
    requires LiesAt(block, off, Layout(e))
    ensures Walk(block, off) ==
            if e.LooksLast() then Some([])
            else match Walk(block, off + Len(|e.name|))
                 case None => None
                 case Some(more) => Some([Placed(off, e)] + more)
  {
    StepSees(block, off, e);
  }

  // The entries before the first that looks last.
  function Upto(es: seq<Entry>): (r: seq<Entry>)
    requires forall e <- es :: e.Valid()
    ensures forall e <- r :: e.Valid() && !e.LooksLast()
    ensures |r| <= |es| && (|r| < |es| ==> es[|r|].LooksLast())
  {
    if es == [] || es[0].LooksLast() then [] else [es[0]] + Upto(es[1..])
  }

  /** A block that holds any list of entries at their padded lengths, ended by a
      zero word, is walked entry by entry in order up to the first entry whose own
      first word is zero, and stops there: to the end if and only if there is none. */
  lemma WalkIsExact(block: seq<Byte>, off: nat, es: seq<Entry>)
    requires forall e <- es :: e.Valid()
    requires LaidOut(block, off, es)
    ensures Walk(block, off) == Some(Placement(Upto(es), off))
    ensures Walk(block, off) == Some(Placement(es, off)) <==> forall e <- es :: !e.LooksLast()
  {
    WalkUpto(block, off, es);
    UptoIsAll(es, off);
  }

  lemma {:induction false} WalkUpto(block: seq<Byte>, off: nat, es: seq<Entry>)
    requires forall e <- es :: e.Valid()
    requires LaidOut(block, off, es)
    ensures Walk(block, off) == Some(Placement(Upto(es), off))
    decreases |es|
  {
    if es != [] {
      var next := off + Len(|es[0].name|);
      WalkUpto(block, next, es[1..]);
      UptoStep(es, off);
      WalkStep(block, off, es[0]);
    }
  }

  lemma UptoIsAll(es: seq<Entry>, off: nat)
    requires forall e <- es :: e.Valid()
    ensures Placement(Upto(es), off) == Placement(es, off) <==> forall e <- es :: !e.LooksLast()
  {
    var r := Upto(es);
    PlacementLength(r, off);
    PlacementLength(es, off);
    if |r| < |es| {
      assert es[|r|] in es;
    } else {
      UptoWhole(es);
    }
  }

  lemma {:induction false} UptoWhole(es: seq<Entry>)
    requires forall e <- es :: e.Valid()
    requires |Upto(es)| == |es|
    ensures Upto(es) == es
    decreases |es|
  {
    if es != [] {
      UptoWhole(es[1..]);
    }
  }

  lemma {:induction false} PlacementLength(es: seq<Entry>, off: nat)
    ensures |Placement(es, off)| == |es|
    decreases |es|
  {
    if es != [] {
      PlacementLength(es[1..], off + Len(|es[0].name|));
    }
  }

  lemma UptoStep(es: seq<Entry>, off: nat)
    requires es != [] && forall e <- es :: e.Valid()
    ensures Placement(Upto(es), off) ==
            if es[0].LooksLast() then []
            else [Placed(off, es[0])] + Placement(Upto(es[1..]), off + Len(|es[0].name|))
  {
    if !es[0].LooksLast() {
      assert Upto(es)[1..] == Upto(es[1..]);
    }
  }

  /** So writing a list of entries anywhere and walking it gives the list back, up to
      an entry that looks last. */
  lemma WriteThenWalk(before: seq<Byte>, es: seq<Entry>, after: seq<Byte>)
    requires forall e <- es :: e.Valid()
    ensures var w := Walk(before + LayoutAll(es) + Zeros(4) + after, |before|);
            && w == Some(Placement(Upto(es), |before|))
            && (w == Some(Placement(es, |before|)) <==> forall e <- es :: !e.LooksLast())
  {
    var block := before + LayoutAll(es) + Zeros(4) + after;
    LayoutAllLaysOut(block, before, es, after);
    WalkIsExact(block, |before|, es);
  }

  /** From a 4-aligned start every entry is 4-aligned, entries are at least a
      header apart, and the walk never leaves the block. */
  lemma {:induction false} WalkIsAligned(block: seq<Byte>, off: nat)
    requires off % 4 == 0 && Walk(block, off).Some?
    ensures var w := Walk(block, off).value;
            && (forall p <- w :: p.offset % 4 == 0 && off <= p.offset && p.offset + 16 <= |block|)
            && (forall i, j :: 0 <= i < j < |w| ==> w[i].offset + 16 <= w[j].offset)
    decreases |block| - off
  {
    if !IsLast(block, off) {
      var next := Next(block, off);
      WalkIsAligned(block, next);
      var w, more := Walk(block, off).value, Walk(block, next).value;
      assert w[0].offset == off && w[1..] == more;
      forall i, j | 0 <= i < j < |w|
        ensures w[i].offset + HEADER <= w[j].offset
      {
        assert w[j] == more[j - 1];
        if i > 0 {
          assert w[i] == more[i - 1];
        }
      }
    }
  }

  // ---- The macros themselves, over memory without bounds ----

  function Step(mem: nat -> Byte, off: nat): nat {
    off + Len(mem(off))
  }

  predicate LastAt(mem: nat -> Byte, off: nat) {
    mem(off) == 0 && mem(off + 1) == 0 && mem(off + 2) == 0 && mem(off + 3) == 0
  }

  function Steps(mem: nat -> Byte, off: nat, k: nat): nat
    decreases k
  {
    if k == 0 then off else Steps(mem, Step(mem, off), k - 1)
  }

  // The macros stop at their k-th step and have tested no word outside the first
  // `size` bytes.
  predicate StopsAt(mem: nat -> Byte, size: nat, off: nat, k: nat)
    decreases k
  {
    && off + 4 <= size
    && if k == 0 then LastAt(mem, off) else !LastAt(mem, off) && StopsAt(mem, size, Step(mem, off), k - 1)
  }

  /** Walk is the macros' walk, which tests no bounds: whatever memory the block lies
      in, it visits the places they step through, and has k entries exactly when they
      stop at their k-th step without leaving the block. */
  lemma WalkIsTheMacros(mem: nat -> Byte, block: seq<Byte>, off: nat)
    requires forall i :: 0 <= i < |block| ==> mem(i) == block[i]
    ensures Walk(block, off).Some? ==>
              var w := Walk(block, off).value;
              && StopsAt(mem, |block|, off, |w|)
              && forall i :: 0 <= i < |w| ==> w[i].offset == Steps(mem, off, i)
    ensures forall k: nat :: StopsAt(mem, |block|, off, k) ==> Walk(block, off).Some? && |Walk(block, off).value| == k
  {
    if Walk(block, off).Some? {
      WalkStops(mem, block, off);
    }
    forall k: nat | StopsAt(mem, |block|, off, k)
      ensures Walk(block, off).Some? && |Walk(block, off).value| == k
    {
      StopsWalk(mem, block, off, k);
    }
  }

  lemma {:induction false} WalkStops(mem: nat -> Byte, block: seq<Byte>, off: nat)
    requires forall i :: 0 <= i < |block| ==> mem(i) == block[i]
    requires Walk(block, off).Some?
    ensures var w := Walk(block, off).value;
            && StopsAt(mem, |block|, off, |w|)
            && forall i :: 0 <= i < |w| ==> w[i].offset == Steps(mem, off, i)
    decreases |block| - off
  {
    if !IsLast(block, off) {
      var next := Next(block, off);
      WalkStops(mem, block, next);
      var w, more := Walk(block, off).value, Walk(block, next).value;
      assert w[0].offset == off && w[1..] == more;
      forall i | 0 < i < |w|
        ensures w[i].offset == Steps(mem, off, i)
      {
        assert w[i] == more[i - 1];
      }
    }
  }

  lemma {:induction false} StopsWalk(mem: nat -> Byte, block: seq<Byte>, off: nat, k: nat)
    requires forall i :: 0 <= i < |block| ==> mem(i) == block[i]
    requires StopsAt(mem, |block|, off, k)
    ensures Walk(block, off).Some? && |Walk(block, off).value| == k
    decreases k
  {
    assert mem(off) == block[off] && mem(off + 1) == block[off + 1];
    assert mem(off + 2) == block[off + 2] && mem(off + 3) == block[off + 3];
    if k > 0 {
      StopsWalk(mem, block, Step(mem, off), k - 1);
      StopsInside(mem, |block|, Step(mem, off), k - 1);
      WalkOn(block, off);
    }
  }

  lemma WalkOn(block: seq<Byte>, off: nat)
    requires off + 4 <= |block| && !IsLast(block, off) && Next(block, off) <= |block|
    requires Walk(block, Next(block, off)).Some?
    ensures Walk(block, off).Some? && |Walk(block, off).value| == 1 + |Walk(block, Next(block, off)).value|
  {
  }

  lemma StopsInside(mem: nat -> Byte, size: nat, off: nat, k: nat)
    requires StopsAt(mem, size, off, k)
    ensures off + 4 <= size
  {
  }

  // The entries lie inside the block, header, name and all, 4-aligned and each right
  // behind the one before it, from `off` on; a zero word inside the block ends them.
  predicate Inside(block: seq<Byte>, w: seq<Placed>, off: nat)
    decreases |w|
  {
    off % 4 == 0 &&
    if w == [] then off + 4 <= |block| && IsLast(block, off)
    else
      var next := off + Len(|w[0].entry.name|);
      w[0].offset == off && off + HEADER <= next && next + 4 <= |block| && Inside(block, w[1..], next)
  }

  /** The same, entry by entry. */
  lemma {:induction false} InsideAt(block: seq<Byte>, w: seq<Placed>, off: nat, i: nat)
    requires Inside(block, w, off)
    ensures w == [] ==> off + 4 <= |block| && IsLast(block, off)
    ensures w != [] ==> w[0].offset == off
    ensures i < |w| ==>
              var next := w[i].offset + Len(|w[i].entry.name|);
              && off <= w[i].offset && w[i].offset % 4 == 0 && w[i].offset + 16 <= next && next + 4 <= |block|
              && (i + 1 < |w| ==> w[i + 1].offset == next) && (i + 1 == |w| ==> IsLast(block, next))
    decreases |w|
  {
    if w != [] {
      var next := off + Len(|w[0].entry.name|);
      InsideAt(block, w[1..], next, if i == 0 then 0 else i - 1);
    }
  }

  /** The macros make no bounds test and need none on entries laid out before a zero
      word: every entry the walk visits lies inside the block, and so does the word
      that ends the walk, early or late. */
  lemma {:induction false} LaidOutStaysInside(block: seq<Byte>, off: nat, es: seq<Entry>)
    requires forall e <- es :: e.Valid()
    requires LaidOut(block, off, es) && off % 4 == 0
    ensures off + 4 <= |block| && Walk(block, off).Some? && Inside(block, Walk(block, off).value, off)
    decreases |es|
  {
    if es != [] {
      var next := off + Len(|es[0].name|);
      LaidOutStaysInside(block, next, es[1..]);
      WalkStep(block, off, es[0]);
      if es[0].LooksLast() {
        StopsHere(block, off, es[0]);
      } else {
        InsideStep(block, Placed(off, es[0]), Walk(block, next).value, Walk(block, off).value);
      }
    }
  }

  lemma StopsHere(block: seq<Byte>, off: nat, e: Entry)
    requires e.Valid() && e.LooksLast() && off % 4 == 0
    requires LiesAt(block, off, Layout(e))
    ensures off + 4 <= |block| && Inside(block, [], off)
  {
    StepSees(block, off, e);
  }

  lemma InsideStep(block: seq<Byte>, p: Placed, more: seq<Placed>, w: seq<Placed>)
    requires var next := p.offset + Len(|p.entry.name|);
             p.offset % 4 == 0 && next + 4 <= |block| && Inside(block, more, next)
    requires w == [p] + more
    ensures Inside(block, w, p.offset)
  {
    assert w[1..] == more;
  }
}
