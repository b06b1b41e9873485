/** The heap of a build with PB_ENABLE_MALLOC: allocate_field, and message structs whose pointers own
    the blocks they point to. */
module Heaps {
  import opened Bits
  import opened Descriptor

  /** A pointer in a message struct, with the block it owns and what is stored there. */
  datatype Ref = Nil | To(block: nat, cells: seq<Cell>)

  /** One element of the data of a field. */
  datatype Cell = Scalar(v: Value) | Link(p: Ref) | Message(places: seq<Place>)

  /** What `pSize` and `pData` of a field point to.  Heap-allocated data is a single Link. */
  datatype Place = Place(count: nat, data: seq<Cell>)

  // ------------------------------------------------------------------ the size check

  /** The test of allocate_field, with a size_t of `w` bytes: the division is avoided when both factors
      have only the lower half of their bits set. */
  predicate SizeAccepted(w: nat, dataSize: nat, arraySize: nat) {
    && dataSize != 0 && arraySize != 0
    && (dataSize >= Pow2(4 * w) || arraySize >= Pow2(4 * w) ==> (Pow2(8 * w) - 1) / arraySize >= dataSize)
  }

  lemma {:induction false} Pow2Sum(m: nat, n: nat)
    ensures Pow2(m + n) == Pow2(m) * Pow2(n)
  {
    if m == 0 {
    } else {
      Pow2Sum(m - 1, n);
    }
  }

  lemma ProductBelow(x: nat, y: nat, n: nat)
    requires x < n && y < n
    ensures x * y < n * n
  {
    assert x * y <= x * n;
    assert x * n + n <= n * n by { assert (x + 1) * n <= n * n; }
  }

  lemma QuotientBounds(q: nat, x: nat, y: nat)
    requires y > 0
    ensures q / y >= x <==> x * y <= q
  {
    var d := q / y;
    assert q == d * y + q % y;
    if d >= x { assert x * y <= d * y; } else { assert (d + 1) * y <= x * y; }
  }

  /** The test passes exactly when neither size is zero and their product fits size_t. */
  lemma SizeAcceptedExactly(w: nat, dataSize: nat, arraySize: nat)
    ensures SizeAccepted(w, dataSize, arraySize) <==>
      dataSize > 0 && arraySize > 0 && dataSize * arraySize < Pow2(8 * w)
  {
    hide Pow2;
    Pow2Sum(4 * w, 4 * w);
    if arraySize > 0 { QuotientBounds(Pow2(8 * w) - 1, dataSize, arraySize); }
    if dataSize < Pow2(4 * w) && arraySize < Pow2(4 * w) { ProductBelow(dataSize, arraySize, Pow2(4 * w)); }
  }

  // ------------------------------------------------------------------ the heap

  /** What a block keeps when it is resized to `count` elements. */
  function Kept(p: Ref, count: nat): seq<Cell> {
    if p.Nil? then [] else if |p.cells| <= count then p.cells else p.cells[..count]
  }

  /** The allocator.  Blocks are numbered in the order they were issued. */
  class Heap {
    /** sizeof(size_t). */
    const wordSize: nat
    /** The size in bytes of every live block. */
    var blocks: map<nat, nat>
    /** How many blocks were issued so far. */
    var next: nat
    /** The blocks that were given back, in order. */
    var freed: seq<nat>
    /** Has a request ever been refused? */
    var refused: bool

    ghost predicate Valid()
      reads this
    {
      && (forall b: nat :: b in blocks <==> b < next && b !in freed)
      && (forall b :: b in freed ==> b < next)
      && (forall b: nat :: multiset(freed)[b] <= 1)
    }

    constructor (wordSize: nat)
      ensures Valid() && this.wordSize == wordSize && blocks == map[] && freed == [] && !refused
    {
      this.wordSize := wordSize;
      blocks := map[];
      next := 0;
      freed := [];
      refused := false;
    }

    /** pb_realloc of `p` to `count` elements of `dataSize` bytes.  The allocator is free to refuse, to
        resize the block in place, or to move it. */
    method Realloc(p: Ref, dataSize: nat, count: nat) returns (q: Ref)
      requires Valid() && (p.To? ==> p.block in blocks)
      modifies this
      ensures Valid() && next >= old(next)
      ensures q.Nil? ==> refused && blocks == old(blocks) && freed == old(freed) && next == old(next)
      ensures q.To? ==>
        && refused == old(refused)
        && q.cells == Kept(p, count)
        && (q.block >= old(next) || (p.To? && q.block == p.block))
        && blocks == old(blocks) - (if p.To? then {p.block} else {}) + map[q.block := dataSize * count]
        && freed == old(freed) + (if p.To? && p.block != q.block then [p.block] else [])
    {
      var refuse, move := *, *;
      if refuse {
        refused := true;
        return Nil;
      }
      var cells := Kept(p, count);
      if p.To? && !move {
        blocks := blocks[p.block := dataSize * count];
        return To(p.block, cells);
      }
      var block := Issue(dataSize * count);
      Free(p);
      q := To(block, cells);
    }

    /** A new block. */
    method Issue(size: nat) returns (block: nat)
      requires Valid()
      modifies this
      ensures Valid() && block == old(next) && next == block + 1
      ensures blocks == old(blocks)[block := size] && freed == old(freed) && refused == old(refused)
    {
      block := next;
      next := next + 1;
      blocks := blocks[block := size];
    }

    /** pb_free: only live blocks may be given back, so no block is given back twice. */
    method Free(p: Ref)
      requires Valid() && (p.To? ==> p.block in blocks)
      modifies this
      ensures Valid() && next == old(next) && refused == old(refused)
      ensures freed == old(freed) + if p.To? then [p.block] else []
      ensures blocks == old(blocks) - if p.To? then {p.block} else {}
    {
      if p.To? {
        freed := freed + [p.block];
        blocks := blocks - {p.block};
      }
    }

    /** Reading through a pointer: its block must be live. */
    method Load(p: Ref) returns (cells: seq<Cell>)
      requires p.To? && p.block in blocks
      ensures cells == p.cells
    {
      cells := p.cells;
    }

    /** Writing element `k`: it must lie within the live block. */
    method Store(p: Ref, dataSize: nat, k: nat, c: Cell) returns (q: Ref)
      requires p.To? && p.block in blocks && dataSize * (k + 1) <= blocks[p.block] && k <= |p.cells|
      ensures q == To(p.block, if k < |p.cells| then p.cells[k := c] else p.cells + [c])
    {
      q := To(p.block, if k < |p.cells| then p.cells[k := c] else p.cells + [c]);
    }
  }

  /** allocate_field: on failure the old pointer stays where it was. */
  method AllocateField(heap: Heap, p: Ref, dataSize: nat, arraySize: nat) returns (ok: bool, q: Ref)
    requires heap.Valid() && (p.To? ==> p.block in heap.blocks)
    modifies heap
    ensures heap.Valid() && heap.next >= old(heap.next)
    ensures !ok ==>
      q == p && heap.blocks == old(heap.blocks) && heap.freed == old(heap.freed) && heap.next == old(heap.next)
    ensures !ok && !heap.refused ==>
      dataSize == 0 || arraySize == 0 || dataSize * arraySize >= Pow2(8 * heap.wordSize)
    ensures ok ==>
      && dataSize > 0 && arraySize > 0 && dataSize * arraySize < Pow2(8 * heap.wordSize)
      && heap.refused == old(heap.refused) && q.To?
      && q.cells == Kept(p, arraySize)
      && (q.block >= old(heap.next) || (p.To? && q.block == p.block))
      && heap.blocks == old(heap.blocks) - (if p.To? then {p.block} else {}) + map[q.block := dataSize * arraySize]
      && heap.freed == old(heap.freed) + (if p.To? && p.block != q.block then [p.block] else [])
  {
    hide Pow2;
    SizeAcceptedExactly(heap.wordSize, dataSize, arraySize);
    q := p;
    if dataSize == 0 || arraySize == 0 {
      return false, p;
    }
    var checkLimit := Pow2(4 * heap.wordSize);
    if dataSize >= checkLimit || arraySize >= checkLimit {
      var sizeMax := Pow2(8 * heap.wordSize) - 1;
      if sizeMax / arraySize < dataSize {
        return false, p;
      }
    }
    var ptr := heap.Realloc(p, dataSize, arraySize);
    if ptr.Nil? {
      return false, p;
    }
    return true, ptr;
  }
}
