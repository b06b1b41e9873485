/** Heap arrays of strings and byte arrays: every element points to a block of its own, as large as its
    contents need. */
module TextArrays {
  import opened Bits
  import opened Wire
  import opened Descriptor
  import opened DecodeSpec
  import opened IStreams
  import opened Heaps
  import opened Release
  import Decoder
  import PointerArrays

  /** The field such an array behaves like: a static array of PB_SIZE_MAX elements, with buffers for every
      length that can be represented. */
  function AsStatic(f: Field): Field {
    f.(atype := Static, arraySize := PB_SIZE_MAX,
       dataSize := if f.ltype.LString? then 0xFFFF_FFFF else PB_SIZE_MAX + 1)
  }

  /** The element points to exactly this value. */
  predicate TextIs(c: Cell, v: Value) {
    c.Link? && c.p.To? && c.p.cells == [Scalar(v)]
  }

  /** `p` points to elements for the values `values`, in a live block with room for all of them, and all
      blocks are accounted for. */
  ghost predicate HoldsTexts(heap: Heap, f: Field, p: Ref, values: seq<Value>)
    reads heap
  {
    && Sound(heap, Owned(p)) && |values| <= PB_SIZE_MAX
    && if p.Nil? then values == []
       else
         && p.block in heap.blocks && f.dataSize * |values| <= heap.blocks[p.block]
         && |p.cells| == |values| && forall k :: 0 <= k < |values| ==> TextIs(p.cells[k], values[k])
  }

  /** Between two states of the heap no block but the owned ones changed, and none was lost. */
  ghost predicate Conserved(next0: nat, blocks0: map<nat, nat>, owned0: multiset<nat>,
      next1: nat, blocks1: map<nat, nat>, owned1: multiset<nat>)
  {
    && next0 <= next1
    && (forall b: nat :: b !in owned0 && b < next0 ==>
          b !in owned1 && (b in blocks1 <==> b in blocks0) && (b in blocks0 ==> blocks1[b] == blocks0[b]))
    && (forall b: nat :: b in blocks1 && b !in owned1 ==> b < next0 && b !in owned0)
  }

  lemma ConservedTwice(n0: nat, b0: map<nat, nat>, o0: multiset<nat>, n1: nat, b1: map<nat, nat>, o1: multiset<nat>,
      n2: nat, b2: map<nat, nat>, o2: multiset<nat>)
    requires Conserved(n0, b0, o0, n1, b1, o1) && Conserved(n1, b1, o1, n2, b2, o2)
    ensures Conserved(n0, b0, o0, n2, b2, o2)
  {
  }

  /** pb_dec_string and pb_dec_bytes for a heap pointer: the block is made as large as the contents need,
      before they are read. */
  method DecodeText(heap: Heap, stream: IStream, f: Field) returns (ok: bool, q: Ref)
    requires stream.Valid() && heap.Valid() && heap.wordSize >= 4 && (f.ltype.LString? || f.ltype.LBytes?)
    modifies heap, stream
    ensures stream.Valid() && stream.End() == old(stream.End())
    ensures heap.Valid() && heap.next >= old(heap.next) && heap.freed == old(heap.freed)
    ensures q.Nil? ==> heap.blocks == old(heap.blocks)
    ensures q.To? ==>
      && q.block >= old(heap.next) && q.block in heap.blocks && heap.blocks - {q.block} == old(heap.blocks)
      && |q.cells| <= 1 && forall k :: 0 <= k < |q.cells| ==> q.cells[k].Scalar?
    ensures var r := DecScalar(AsStatic(f), old(stream.Rest()));
      && (ok ==>
            && r.Ok? && q.To? && q.cells == [Scalar(r.value)] && r.value.VBytes?
            && heap.blocks[q.block] == |r.value.s| + 1 && stream.Rest() == r.rest)
      && (r.Ok? && !heap.refused ==> ok)
  {
    hide DecVarint32, DecScalar, AsStatic, Pow2;
    TextPayload(f, stream.Rest());
    q := Nil;
    var size;
    ok, size := DecodeVarint32(stream);
    if !ok {
      return;
    }
    if f.ltype.LBytes? && size > PB_SIZE_MAX {
      return false, Nil;
    }
    var allocSize := if size == 0xFFFF_FFFF then 0 else size + 1;
    if allocSize < size {
      return false, Nil;
    }
    WordHolds32(heap.wordSize);
    ok, q := AllocateField(heap, Nil, allocSize, 1);
    if !ok {
      return;
    }
    var s;
    ok, s := Decoder.ReadBytes(stream, size);
    if ok {
      q := heap.Store(q, allocSize, 0, Scalar(VBytes(s)));
    }
  }

  /** What is accepted: a length that can be represented next to the terminator or in the length byte, and
      that many bytes. */
  lemma TextPayload(f: Field, s: bytes)
    requires f.ltype.LString? || f.ltype.LBytes?
    ensures var k := DecVarint32(s);
      && (k.Ok? ==> k.value < 0x1_0000_0000)
      && DecScalar(AsStatic(f), s) ==
         if k.Fail? || (f.ltype.LBytes? && k.value > PB_SIZE_MAX) || k.value == 0xFFFF_FFFF || k.value > |k.rest|
         then Fail
         else Ok(VBytes(k.rest[..k.value]), k.rest[k.value..])
  {
    hide DecVarint32;
    if DecVarint32(s).Ok? { DecVarint32Bound(s); }
  }

  lemma WordHolds32(w: nat)
    requires w >= 4
    ensures Pow2(8 * w) >= 0x1_0000_0000
  {
    Pow2Sum(32, 8 * w - 32);
    Pow2Of32();
    var x := Pow2(8 * w - 32);
    assert 0x1_0000_0000 * x >= 0x1_0000_0000;
  }

  // ------------------------------------------------------------------ accounting

  /** Reallocating the block of an array keeps all blocks accounted for. */
  lemma AccountArray(next0: nat, freed0: multiset<nat>, p: Ref, next1: nat, freed1: multiset<nat>, q: Ref)
    requires Account(next0, freed0, Owned(p)) && next0 <= next1 && q.To? && q.block < next1
    requires q.block >= next0 || (p.To? && q.block == p.block)
    requires OwnedByCells(q.cells) == if p.Nil? then multiset{} else OwnedByCells(p.cells)
    requires freed1 == freed0 + if p.To? && p.block != q.block then multiset{p.block} else multiset{}
    ensures Account(next1, freed1, Owned(q))
  {
    forall b: nat ensures (freed1 + Owned(q))[b] <= 1 && (b in freed1 + Owned(q) ==> b < next1) {
      assert (freed0 + Owned(p))[b] <= 1 && (b in freed0 + Owned(p) ==> b < next0);
    }
  }

  lemma ConservedArray(next0: nat, blocks0: map<nat, nat>, p: Ref, next1: nat, blocks1: map<nat, nat>, q: Ref, n: nat)
    requires next0 <= next1 && q.To? && (q.block >= next0 || (p.To? && q.block == p.block))
    requires forall b :: b in blocks0 ==> b < next0
    requires OwnedByCells(q.cells) == if p.Nil? then multiset{} else OwnedByCells(p.cells)
    requires blocks1 == blocks0 - (if p.To? then {p.block} else {}) + map[q.block := n]
    ensures Conserved(next0, blocks0, Owned(p), next1, blocks1, Owned(q))
  {
  }

  /** So does a new block of its own for one more element. */
  lemma AccountElement(next0: nat, freed: multiset<nat>, owned: multiset<nat>, next1: nat, block: nat)
    requires Account(next0, freed, owned) && next0 <= block < next1
    ensures Account(next1, freed, owned + multiset{block})
  {
    forall b: nat
      ensures (freed + (owned + multiset{block}))[b] <= 1 && (b in freed + (owned + multiset{block}) ==> b < next1)
    {
      assert (freed + owned)[b] <= 1 && (b in freed + owned ==> b < next0);
    }
  }

  lemma AccountLater(next0: nat, freed: multiset<nat>, owned: multiset<nat>, next1: nat)
    requires Account(next0, freed, owned) && next0 <= next1
    ensures Account(next1, freed, owned)
  {
    forall b: nat ensures (freed + owned)[b] <= 1 && (b in freed + owned ==> b < next1) {
      assert (freed + owned)[b] <= 1 && (b in freed + owned ==> b < next0);
    }
  }

  lemma OwnedSnoc(cells: seq<Cell>, c: Cell)
    ensures OwnedByCells(cells + [c]) == OwnedByCells(cells) + OwnedByCell(c)
  {
    hide OwnedByCell;
    OwnedSplit(cells + [c], |cells|);
    assert (cells + [c])[..|cells|] == cells && (cells + [c])[|cells|..] == [c];
    OneCell(c);
  }

  // ------------------------------------------------------------------ one more element

  /** The array's own block is made larger by one element, which starts as a null pointer. */
  method GrowTexts(heap: Heap, f: Field, p: Ref, ghost values: seq<Value>, size: nat) returns (ok: bool, q: Ref)
    requires HoldsTexts(heap, f, p, values) && size == |values| < PB_SIZE_MAX && heap.wordSize >= 4
    requires 0 < f.dataSize <= PB_SIZE_MAX
    modifies heap
    ensures !ok ==> q == p && heap.refused && HoldsTexts(heap, f, p, values)
    ensures ok ==>
      && q.To? && q.cells == (if p.Nil? then [] else p.cells) + [Link(Nil)] && heap.refused == old(heap.refused)
      && q.block in heap.blocks && f.dataSize * (size + 1) <= heap.blocks[q.block] && Sound(heap, Owned(q))
    ensures Conserved(old(heap.next), old(heap.blocks), Owned(p), heap.next, heap.blocks, Owned(q))
  {
    hide Pow2, Owned, OwnedByCell, OwnedByCells, Account, Conserved, TextIs;
    PointerArrays.FitsWord(heap.wordSize, f.dataSize, size + 1);
    NothingHappened(heap, Owned(p));
    ok, q := AllocateField(heap, p, f.dataSize, size + 1);
    if !ok {
      return;
    }
    NullElement(q.cells);
    q := heap.Store(q, f.dataSize, size, Link(Nil));
    AccountArray(old(heap.next), multiset(old(heap.freed)), p, heap.next, multiset(heap.freed), q);
    ConservedArray(old(heap.next), old(heap.blocks), p, heap.next, heap.blocks, q, f.dataSize * (size + 1));
  }

  lemma NullElement(cells: seq<Cell>)
    ensures OwnedByCells(cells + [Link(Nil)]) == OwnedByCells(cells)
    ensures OwnedByCells([]) == multiset{}
  {
    OwnedSnoc(cells, Link(Nil));
  }

  lemma NothingHappened(heap: Heap, owned: multiset<nat>)
    requires heap.Valid() && Sound(heap, owned)
    ensures Conserved(heap.next, heap.blocks, owned, heap.next, heap.blocks, owned)
  {
  }

  /** The repeated case of decode_pointer_field, for strings and byte arrays: unless the allocator refuses,
      the elements, their count and the stream end up as those of a static array of PB_SIZE_MAX elements.
      Whatever the outcome, every block is owned by the array and no other block has changed, so that the
      message can be released. */
  method DecodeRepeatedText(heap: Heap, stream: IStream, wireType: nat, f: Field, p: Ref, ghost before: seq<Value>,
      count: nat)
    returns (ok: bool, q: Ref, size: nat)
    requires stream.Valid() && heap.wordSize >= 4
    requires f.htype.Repeated? && !f.FixedCount() && (f.ltype.LString? || f.ltype.LBytes?)
    requires 0 < f.dataSize <= PB_SIZE_MAX && HoldsTexts(heap, f, p, before) && count == |before|
    modifies heap, stream
    ensures stream.Valid() && stream.End() == old(stream.End())
    ensures Sound(heap, Owned(q)) && size <= PB_SIZE_MAX
    ensures if q.Nil? then size == 0 else |q.cells| == size && forall k :: 0 <= k < size ==> LinkToText(q.cells[k])
    ensures q.To? ==> q.block in heap.blocks && f.dataSize * size <= heap.blocks[q.block]
    ensures |before| <= size && forall k :: 0 <= k < |before| ==> TextIs(q.cells[k], before[k])
    ensures Conserved(old(heap.next), old(heap.blocks), Owned(p), heap.next, heap.blocks, Owned(q))
    ensures var r := DecField([AsStatic(f)], Start([Arr(before)]), 0, wireType, old(stream.Rest()));
      && (ok ==>
            && r.Ok? && r.value.m[0].Arr? && HoldsTexts(heap, f, q, r.value.m[0].items)
            && size == |r.value.m[0].items| && stream.Rest() == r.rest)
      && (r.Ok? && !heap.refused ==> ok)
  {
    hide Owned, OwnedByCell, OwnedByCells, Account, Conserved, DecScalar, DecField, LinkToText, TextIs, AsStatic;
    TextsAreLinks(p, before);
    NothingHappened(heap, Owned(p));
    OneMore(f, before, wireType, stream.Rest());
    q, size := p, count;
    if size == PB_SIZE_MAX {
      return false, q, size;
    }
    ok, q := GrowTexts(heap, f, p, before, size);
    if !ok {
      return;
    }
    ghost var q1, next1, blocks1 := q, heap.next, heap.blocks;
    ghost var cells := if p.Nil? then [] else p.cells;
    size := size + 1;
    var text;
    ok, text := DecodeText(heap, stream, f);
    q := heap.Store(q, f.dataSize, size - 1, Link(text));
    assert q.cells == cells + [Link(text)];
    ElementAdded(heap, q1, next1, blocks1, cells, text, q);
    TextsAppended(cells, text, before);
    ConservedTwice(old(heap.next), old(heap.blocks), Owned(p), next1, blocks1, Owned(q1),
      heap.next, heap.blocks, Owned(q));
  }

  lemma TextsAreLinks(p: Ref, values: seq<Value>)
    requires p.To? ==> |p.cells| == |values| && forall k :: 0 <= k < |values| ==> TextIs(p.cells[k], values[k])
    ensures p.To? ==> forall k :: 0 <= k < |p.cells| ==> LinkToText(p.cells[k])
  {
  }

  /** A static array takes one more element, if there is room. */
  lemma OneMore(f: Field, before: seq<Value>, wireType: nat, s: bytes)
    requires f.htype.Repeated? && !f.FixedCount() && (f.ltype.LString? || f.ltype.LBytes?)
    ensures var g := AsStatic(f);
      var r := DecScalar(g, s);
      DecField([g], Start([Arr(before)]), 0, wireType, s) ==
      if |before| >= PB_SIZE_MAX || r.Fail? then Fail else Ok(Start([Arr(before + [r.value])]), r.rest)
  {
    hide DecScalar;
    var m := [Arr(before)];
    assert forall x :: m[0 := x] == [x];
  }

  lemma TextsAppended(cells: seq<Cell>, text: Ref, values: seq<Value>)
    requires |cells| == |values| && forall k :: 0 <= k < |values| ==> TextIs(cells[k], values[k])
    requires text.To? ==> forall k :: 0 <= k < |text.cells| ==> text.cells[k].Scalar?
    ensures var all := cells + [Link(text)];
      && (forall k :: 0 <= k < |all| ==> LinkToText(all[k]))
      && (text.To? && |text.cells| == 1 ==>
            forall k :: 0 <= k < |all| ==> TextIs(all[k], (values + [text.cells[0].v])[k]))
  {
  }

  /** The new element's block is accounted for next to those of the array. */
  lemma ElementAdded(heap: Heap, q1: Ref, next1: nat, blocks1: map<nat, nat>, cells: seq<Cell>, text: Ref, q: Ref)
    requires heap.Valid() && Account(next1, multiset(heap.freed), Owned(q1)) && next1 <= heap.next
    requires q1.To? && q1.cells == cells + [Link(Nil)] && q == To(q1.block, cells + [Link(text)])
    requires forall b :: b in blocks1 ==> b < next1
    requires text.Nil? ==> heap.blocks == blocks1
    requires text.To? ==> text.block >= next1 && text.block in heap.blocks && heap.blocks - {text.block} == blocks1
    requires text.To? ==> forall k :: 0 <= k < |text.cells| ==> text.cells[k].Scalar?
    ensures Sound(heap, Owned(q)) && Conserved(next1, blocks1, Owned(q1), heap.next, heap.blocks, Owned(q))
  {
    hide Account, OwnedByCells, Conserved;
    NullElement(cells);
    OwnedSnoc(cells, Link(text));
    TextOwned(Link(text));
    if text.To? {
      AccountElement(next1, multiset(heap.freed), Owned(q1), heap.next, text.block);
      assert Owned(q) == Owned(q1) + multiset{text.block};
    } else {
      AccountLater(next1, multiset(heap.freed), Owned(q1), heap.next);
      assert Owned(q) == Owned(q1);
    }
    ConservedElement(next1, blocks1, Owned(q1), heap.next, heap.blocks, Owned(q), text);
  }

  lemma ConservedElement(next0: nat, blocks0: map<nat, nat>, owned0: multiset<nat>,
      next1: nat, blocks1: map<nat, nat>, owned1: multiset<nat>, text: Ref)
    requires next0 <= next1 && forall b :: b in blocks0 ==> b < next0
    requires text.Nil? ==> blocks1 == blocks0 && owned1 == owned0
    requires text.To? ==> text.block >= next0 && text.block in blocks1 && blocks1 - {text.block} == blocks0
    requires text.To? ==> owned1 == owned0 + multiset{text.block}
    requires forall b :: b in blocks0 && b !in owned0 ==> b !in owned1
    ensures Conserved(next0, blocks0, owned0, next1, blocks1, owned1)
  {
    if text.To? {
      forall b: nat | b < next0
        ensures (b in blocks1 <==> b in blocks0) && (b in blocks0 ==> blocks1[b] == blocks0[b])
      {
        assert b in blocks1 - {text.block} <==> b in blocks0;
      }
      forall b: nat | b in blocks1 && b !in owned1 ensures b < next0 && b !in owned0 {
        assert b in blocks1 - {text.block};
      }
    }
  }

  /** What is left in the heap can be released with the message it belongs to. */
  lemma TextsReleasable(tables: seq<seq<Field>>, heap: Heap, f: Field, p: Ref, values: seq<Value>)
    requires f.atype.Pointer? && f.htype.Repeated? && (f.ltype.LString? || f.ltype.LBytes?)
    requires HoldsTexts(heap, f, p, values)
    ensures var x := Place(|values|, [Link(p)]);
      MatchesData(tables, f, x) && Sound(heap, OwnedByCells(x.data))
  {
    hide Account;
    TextsAreLinks(p, values);
    OneCell(Link(p));
  }

  lemma NumbersReleasable(tables: seq<seq<Field>>, heap: Heap, f: Field, p: Ref, values: seq<Value>)
    requires f.atype.Pointer? && f.htype.Repeated? && f.ltype.Packable() && PointerArrays.Holds(heap, f, p, values)
    ensures var x := Place(|values|, [Link(p)]);
      MatchesData(tables, f, x) && Sound(heap, OwnedByCells(x.data))
  {
    hide OwnedByCells, PointerArrays.CellsOf;
    OneCell(Link(p));
    if p.To? { OwnsNothing(p.cells); }
    LiveAccount(heap, p);
  }

  /** A live block that owns nothing else is accounted for. */
  lemma LiveAccount(heap: Heap, p: Ref)
    requires heap.Valid() && (p.To? ==> p.block in heap.blocks && OwnedByCells(p.cells) == multiset{})
    ensures Account(heap.next, multiset(heap.freed), Owned(p))
  {
    hide OwnedByCells;
    forall b: nat
      ensures (multiset(heap.freed) + Owned(p))[b] <= 1 && (b in multiset(heap.freed) + Owned(p) ==> b < heap.next)
    {
      assert multiset(heap.freed)[b] <= 1;
      assert b in multiset(heap.freed) <==> b in heap.freed;
      assert p.To? ==> Owned(p) == multiset{p.block};
    }
  }
}
