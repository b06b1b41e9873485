/** pb_common.c: the circular walk over a descriptor table, and the struct layout its offsets describe. */
module FieldIter {
  import opened Descriptor

  const POINTER_SIZE := 8

  /** Where `pSize` points: into the struct, or at the decoder's own counter of a fixed-count field. */
  datatype SizePtr = InStruct(address: int) | OwnCounter

  /** The tag at a table position; the terminator has tag 0. */
  function TagAt(t: seq<Field>, i: nat): nat {
    if i < |t| then t[i].tag else 0
  }

  /** The room a field takes in the struct. */
  function StoredSize(f: Field): nat {
    if f.atype.Static? && f.htype.Repeated? then f.dataSize * f.arraySize
    else if f.atype.Pointer? then POINTER_SIZE
    else f.dataSize
  }

  /** `pData` as a function of the position alone. */
  function DataPos(t: seq<Field>, base: int, i: nat): int {
    if i >= |t| then base
    else if i == 0 then base + t[0].dataOffset
    else if SharesUnion(t, i) then DataPos(t, base, i - 1)
    else DataPos(t, base, i - 1) + StoredSize(t[i - 1]) + t[i].dataOffset
  }

  /** `pSize` as a function of the position alone, unless the decoder redirected it. */
  function SizePos(t: seq<Field>, base: int, i: nat): (p: SizePtr)
    ensures p.InStruct?
  {
    if i >= |t| then InStruct(base)
    else if SharesUnion(t, i) then SizePos(t, base, i - 1)
    else InStruct(DataPos(t, base, i) + t[i].sizeOffset)
  }

  lemma SizePosOutsideUnions(t: seq<Field>, base: int, i: nat)
    requires i < |t| && !t[i].htype.Oneof?
    ensures SizePos(t, base, i) == InStruct(DataPos(t, base, i) + t[i].sizeOffset)
  {
  }

  /** pb_field_iter_t. */
  class FieldIterator {
    const start: seq<Field>
    const base: int
    var pos: nat
    var requiredFieldIndex: nat
    var pData: int
    var pSize: SizePtr

    ghost predicate Valid()
      reads this
    {
      && NonZeroTags(start)
      && (pos < |start| || (start == [] && pos == 0))
      && requiredFieldIndex == RequiredBefore(start, pos)
      && pData == DataPos(start, base, pos)
      && (pSize == SizePos(start, base, pos) || (pSize == OwnCounter && pos < |start| && start[pos].FixedCount()))
    }

    /** `pSize` has not been redirected since the iterator last moved. */
    ghost predicate Canonical()
      reads this
    {
      Valid() && pSize == SizePos(start, base, pos)
    }

    /** pb_field_iter_begin on a new iterator. */
    constructor (fields: seq<Field>, destStruct: int)
      requires NonZeroTags(fields)
      ensures Canonical() && pos == 0 && start == fields && base == destStruct
    {
      start := fields;
      base := destStruct;
      pos := 0;
      requiredFieldIndex := 0;
      new;
      var more := Begin();
    }

    /** pb_field_iter_begin on the iterator's own table. */
    method Begin() returns (more: bool)
      requires NonZeroTags(start)
      modifies this
      ensures Canonical() && pos == 0 && more == (start != [])
    {
      pos := 0;
      requiredFieldIndex := 0;
      if start == [] {
        pData := base;
        pSize := InStruct(pData);
      } else {
        pData := base + start[0].dataOffset;
        pSize := InStruct(pData + start[0].sizeOffset);
      }
      more := TagAt(start, pos) != 0;
    }

    /** pb_field_iter_next: one entry further, or back to the first one after the last. */
    method Next() returns (more: bool)
      requires Valid()
      modifies this
      ensures start == [] ==> !more && pos == 0 && pSize == old(pSize) && Valid()
      ensures start != [] ==> Canonical() && more == (old(pos) + 1 < |start|)
      ensures pos == if more then old(pos) + 1 else 0
    {
      var prev := pos;
      if TagAt(start, prev) == 0 {
        return false;
      }
      pos := pos + 1;
      if TagAt(start, pos) == 0 {
        var nonEmpty := Begin();
        return false;
      }
      var prevSize := start[prev].dataSize;
      if start[prev].htype.Oneof? && start[pos].htype.Oneof? && start[pos].dataOffset == PB_SIZE_MAX {
        return true;
      } else if start[prev].atype.Static? && start[prev].htype.Repeated? {
        prevSize := prevSize * start[prev].arraySize;
      } else if start[prev].atype.Pointer? {
        prevSize := POINTER_SIZE;
      }
      if start[prev].htype.Required? {
        requiredFieldIndex := requiredFieldIndex + 1;
      }
      pData := pData + prevSize + start[pos].dataOffset;
      pSize := InStruct(pData + start[pos].sizeOffset);
      return true;
    }

    /** pb_field_iter_find: the entry with this tag, searching from the current position on and around;
        extension placeholders do not match.  The terminator of an empty table matches tag 0. */
    method Search(tag: nat) returns (found: bool)
      requires Valid()
      modifies this
      ensures Valid()
      ensures start == [] ==> found == (tag == 0) && pos == 0 && pSize == old(pSize)
      ensures start != [] ==> found == Find(start, tag).Some?
      ensures start != [] && found ==> start[pos].tag == tag && !start[pos].ltype.LExtension?
      ensures start != [] && found && pos == old(pos) ==> pSize == old(pSize)
      ensures start != [] && (!found || pos != old(pos)) ==> Canonical()
      ensures !found ==> pos == old(pos)
    {
      var first := pos;
      ghost var wrapped := false;
      while true
        invariant Valid()
        invariant start == [] ==> pos == first && pSize == old(pSize)
        invariant !wrapped ==> first <= pos && forall k :: first <= k < pos ==> !Matches(k, tag)
        invariant wrapped ==>
          pos < first < |start| && forall k :: 0 <= k < pos || first <= k < |start| ==> !Matches(k, tag)
        invariant pos == first ==> pSize == old(pSize)
        invariant pos != first ==> Canonical()
        decreases if wrapped then 0 else 1, |start| - pos
      {
        if TagAt(start, pos) == tag && !(pos < |start| && start[pos].ltype.LExtension?) {
          return true;
        }
        var more := Next();
        if !more { wrapped := true; }
        if pos == first {
          assert Find(start, tag).Some? ==> Matches(Find(start, tag).value, tag);
          return false;
        }
      }
    }

    predicate Matches(k: nat, tag: nat) {
      k < |start| && start[k].tag == tag && !start[k].ltype.LExtension?
    }
  }

  // ------------------------------------------------------------------ layouts

  /** A member of the C struct: its offset, the absolute position of its count, flag or which_ field, its
      size, and whether it lies in the same union as the member before it. */
  datatype Member = Member(offset: nat, sizeAt: int, size: nat, inUnion: bool)

  /** The data_offset the PB_DATAOFFSET_ macros compute for member `i`. */
  function DataOffset(layout: seq<Member>, i: nat): int
    requires i < |layout|
  {
    if i == 0 then layout[0].offset
    else if layout[i].inUnion then PB_SIZE_MAX
    else layout[i].offset - layout[i - 1].offset - layout[i - 1].size
  }

  /** `t` is the table the macros produce for `layout`. */
  predicate Describes(t: seq<Field>, layout: seq<Member>) {
    && |t| == |layout|
    && (|t| > 0 ==> !layout[0].inUnion)
    && forall i :: 0 <= i < |t| ==>
      && t[i].dataOffset == DataOffset(layout, i)
      && t[i].sizeOffset == layout[i].sizeAt - layout[i].offset
      && layout[i].size == (if t[i].atype.Pointer? then POINTER_SIZE
                            else if t[i].atype.Static? && t[i].htype.Repeated? then t[i].arraySize * t[i].dataSize
                            else t[i].dataSize)
      && (layout[i].inUnion ==>
            t[i].htype.Oneof? && t[i - 1].htype.Oneof? &&
            layout[i].offset == layout[i - 1].offset && layout[i].sizeAt == layout[i - 1].sizeAt)
  }

  /** Exactly PB_SIZE_MAX bytes of padding between two different unions look like one union. */
  predicate Ambiguous(t: seq<Field>, layout: seq<Member>, i: nat)
    requires i < |t| == |layout|
  {
    SharesUnion(t, i) && !layout[i].inUnion
  }

  lemma {:induction false} PositionsFollowLayout(t: seq<Field>, layout: seq<Member>, base: int, i: nat)
    requires Describes(t, layout) && i < |t|
    requires forall k :: 0 <= k <= i ==> !Ambiguous(t, layout, k)
    ensures DataPos(t, base, i) == base + layout[i].offset
    ensures SizePos(t, base, i) == InStruct(base + layout[i].sizeAt)
  {
    if i == 0 {
    } else {
      PositionsFollowLayout(t, layout, base, i - 1);
      assert !Ambiguous(t, layout, i);
    }
  }

  /** Whatever the iterator did before, its pointers are those of the struct layout, members of one union
      sharing one address, if and only if no padding is mistaken for a union. */
  lemma LayoutExact(t: seq<Field>, layout: seq<Member>, base: int)
    requires Describes(t, layout)
    ensures (forall i :: 0 <= i < |t| ==> DataPos(t, base, i) == base + layout[i].offset)
       <==> (forall i :: 0 <= i < |t| ==> !Ambiguous(t, layout, i))
    ensures (forall i :: 0 <= i < |t| ==> !Ambiguous(t, layout, i)) ==>
      forall i :: 0 <= i < |t| ==> SizePos(t, base, i) == InStruct(base + layout[i].sizeAt)
  {
    if forall i :: 0 <= i < |t| ==> !Ambiguous(t, layout, i) {
      forall i | 0 <= i < |t|
        ensures DataPos(t, base, i) == base + layout[i].offset
          && SizePos(t, base, i) == InStruct(base + layout[i].sizeAt)
      {
        PositionsFollowLayout(t, layout, base, i);
      }
    } else {
      var i: nat :| i < |t| && Ambiguous(t, layout, i);
      assert DataPos(t, base, i) == DataPos(t, base, i - 1);
      assert layout[i].offset != layout[i - 1].offset;
    }
  }
}
