/** pb_release: giving back everything a message owns on the heap. */
module Release {
  import opened Descriptor
  import opened FieldIter
  import opened Heaps

  // ------------------------------------------------------------------ ownership

  /** The blocks reachable from a pointer, each counted as often as it is reached. */
  function Owned(p: Ref): multiset<nat> {
    match p
    case Nil => multiset{}
    case To(block, cells) => multiset{block} + OwnedByCells(cells)
  }

  function OwnedByCell(c: Cell): multiset<nat> {
    match c
    case Scalar(_) => multiset{}
    case Link(p) => Owned(p)
    case Message(places) => OwnedByPlaces(places)
  }

  function OwnedByCells(cells: seq<Cell>): multiset<nat> {
    if cells == [] then multiset{} else OwnedByCell(cells[0]) + OwnedByCells(cells[1..])
  }

  function OwnedByPlaces(places: seq<Place>): multiset<nat> {
    if places == [] then multiset{} else OwnedByCells(places[0].data) + OwnedByPlaces(places[1..])
  }

  /** Every block is owned once, was issued, and has not been given back. */
  ghost predicate Sound(heap: Heap, owned: multiset<nat>)
    reads heap
  {
    heap.Valid() && Account(heap.next, multiset(heap.freed), owned)
  }

  ghost predicate Account(next: nat, freed: multiset<nat>, owned: multiset<nat>) {
    forall b: nat :: (freed + owned)[b] <= 1 && (b in freed + owned ==> b < next)
  }

  // ------------------------------------------------------------------ messages that match a table

  /** The table of a submessage, among the tables of the program. */
  function SubTable(tables: seq<seq<Field>>, f: Field): seq<Field> {
    match f.ptr
    case Table(fields) => fields
    case Named(k) => if k < |tables| then tables[k] else []
    case _ => []
  }

  /** The number of elements pb_release_single_field looks at in a field with this count. */
  function Count(f: Field, count: nat): nat {
    if !f.htype.Repeated? then 1
    else if f.atype.Static? && (f.FixedCount() || count > f.arraySize) then f.arraySize
    else count
  }

  /** One element, unless the field is repeated; then as many as the count says, but in a static array never
      more than it has, and all of them if it has no count. */
  lemma CountExactly(f: Field, count: nat)
    ensures !f.htype.Repeated? ==> Count(f, count) == 1
    ensures f.htype.Repeated? && f.atype.Static? ==> Count(f, count) <= f.arraySize
    ensures f.htype.Repeated? && f.atype.Static? && f.sizeOffset == 0 ==> Count(f, count) == f.arraySize
    ensures f.htype.Repeated? && f.sizeOffset != 0 && count <= f.arraySize ==> Count(f, count) == count
    ensures f.htype.Repeated? && f.atype.Static? && count > f.arraySize ==> Count(f, count) == f.arraySize
    ensures f.htype.Repeated? && f.atype.Pointer? ==> Count(f, count) == count
  {
  }

  predicate Matches(tables: seq<seq<Field>>, t: seq<Field>, m: seq<Place>)
    decreases m, 1
  {
    && DistinctTags(t) && NonZeroTags(t)
    && |m| == |t| && forall i :: 0 <= i < |t| ==> !t[i].ltype.LExtension? && MatchesAt(tables, t, i, m[i])
  }

  predicate MatchesAt(tables: seq<seq<Field>>, t: seq<Field>, i: nat, x: Place)
    requires i < |t|
    decreases x, 1
  {
    if SharesUnion(t, i) then x.data == []
    else if t[i].htype.Oneof? then
      if Selects(t, i, x.count) then MatchesData(tables, t[Find(t, x.count).value], x) else x.data == []
    else MatchesData(tables, t[i], x)
  }

  predicate MatchesData(tables: seq<seq<Field>>, f: Field, x: Place)
    decreases x, 0
  {
    match f.atype
    case Callback => x.data == []
    case Static =>
      |x.data| == Count(f, x.count) && forall k :: 0 <= k < |x.data| ==> MatchesCell(tables, f, x.data[k])
    case Pointer =>
      |x.data| == 1 && x.data[0].Link? &&
      match x.data[0].p
      case Nil => f.htype.Repeated? ==> x.count == 0
      case To(_, cells) =>
        |cells| == Count(f, x.count) && forall k :: 0 <= k < |cells| ==> MatchesCell(tables, f, cells[k])
  }

  /** Strings and byte arrays in a heap array are blocks of their own. */
  predicate Text(f: Field) {
    f.atype.Pointer? && f.htype.Repeated? && (f.ltype.LString? || f.ltype.LBytes?)
  }

  predicate LinkToText(c: Cell) {
    c.Link? && (c.p.To? ==> forall k :: 0 <= k < |c.p.cells| ==> c.p.cells[k].Scalar?)
  }

  predicate MatchesCell(tables: seq<seq<Field>>, f: Field, c: Cell)
    decreases c
  {
    if f.ltype.LSubmessage? then c.Message? && Matches(tables, SubTable(tables, f), c.places)
    else if Text(f) then LinkToText(c)
    else c.Scalar?
  }

  // ------------------------------------------------------------------ the released message

  /** Heap-allocated data is gone, counts of heap arrays are zero; static submessages remain, released
      themselves. */
  function Cleared(tables: seq<seq<Field>>, t: seq<Field>, m: seq<Place>): (r: seq<Place>)
    requires |m| == |t|
    ensures |r| == |t|
    decreases m, 2
  {
    seq(|t|, i requires 0 <= i < |t| => ClearedAt(tables, t, i, m[i]))
  }

  function ClearedAt(tables: seq<seq<Field>>, t: seq<Field>, i: nat, x: Place): Place
    requires i < |t|
    decreases x, 2
  {
    if !t[i].htype.Oneof? then ClearedField(tables, t[i], x)
    else if !SharesUnion(t, i) && Selects(t, i, x.count) then ClearedField(tables, t[Find(t, x.count).value], x)
    else x
  }

  function ClearedField(tables: seq<seq<Field>>, f: Field, x: Place): Place
    decreases x, 1
  {
    match f.atype
    case Callback => x
    case Pointer => Place(if f.htype.Repeated? then 0 else x.count, [Link(Nil)])
    case Static => if f.ltype.LSubmessage? then Place(x.count, ClearedCells(tables, f, x.data)) else x
  }

  function ClearedCells(tables: seq<seq<Field>>, f: Field, cells: seq<Cell>): (r: seq<Cell>)
    ensures |r| == |cells| && forall k :: 0 <= k < |cells| ==> r[k] == ClearedCell(tables, f, cells[k])
    decreases cells, 1
  {
    seq(|cells|, k requires 0 <= k < |cells| => ClearedCell(tables, f, cells[k]))
  }

  function ClearedCell(tables: seq<seq<Field>>, f: Field, c: Cell): Cell
    decreases c, 0
  {
    var sub := SubTable(tables, f);
    if c.Message? && |c.places| == |sub| then Message(Cleared(tables, sub, c.places)) else c
  }

  // ------------------------------------------------------------------ accounting

  lemma {:induction false} OwnedSplit(cells: seq<Cell>, j: nat)
    requires j <= |cells|
    ensures OwnedByCells(cells) == OwnedByCells(cells[..j]) + OwnedByCells(cells[j..])
    decreases j
  {
    if j == 0 {
      assert cells[0..] == cells;
    } else {
      OwnedSplit(cells[1..], j - 1);
      assert cells[..j][1..] == cells[1..][..j - 1] && cells[j..] == cells[1..][j - 1..];
    }
  }

  lemma OwnedNext(cells: seq<Cell>, j: nat)
    requires j < |cells|
    ensures OwnedByCells(cells) == OwnedByCells(cells[..j]) + OwnedByCell(cells[j]) + OwnedByCells(cells[j + 1..])
    ensures OwnedByCells(cells[..j + 1]) == OwnedByCells(cells[..j]) + OwnedByCell(cells[j])
  {
    OwnedSplit(cells, j);
    assert cells[j..][1..] == cells[j + 1..];
    OwnedSplit(cells[..j + 1], j);
    assert cells[..j + 1][..j] == cells[..j] && cells[..j + 1][j..] == [cells[j]];
    assert [cells[j]][1..] == [];
  }

  lemma OneCell(c: Cell)
    ensures OwnedByCells([c]) == OwnedByCell(c)
  {
    assert [c][1..] == [];
  }

  lemma {:induction false} OwnsNothing(cells: seq<Cell>)
    requires forall k :: 0 <= k < |cells| ==> OwnedByCell(cells[k]) == multiset{}
    ensures OwnedByCells(cells) == multiset{}
    decreases |cells|
  {
    if cells == [] {
    } else {
      OwnsNothing(cells[1..]);
    }
  }

  lemma SumMoves(a: multiset<nat>, p: multiset<nat>, q: multiset<nat>, x: multiset<nat>, y: multiset<nat>)
    requires p + x == q + y
    ensures a + p + x == a + q + y
  {
    assert a + (p + x) == a + p + x && a + (q + y) == a + q + y;
  }

  /** Replacing one place changes what is owned by the difference of the two. */
  lemma {:induction false} OwnedUpdate(m: seq<Place>, k: nat, x: Place)
    requires k < |m|
    ensures OwnedByPlaces(m[k := x]) + OwnedByCells(m[k].data) == OwnedByPlaces(m) + OwnedByCells(x.data)
    ensures OwnedByCells(m[k].data) <= OwnedByPlaces(m)
    decreases k
  {
    if k == 0 {
      var m' := m[0 := x];
      assert m'[1..] == m[1..] && m'[0] == x;
    } else {
      var m' := m[k := x];
      assert m'[1..] == m[1..][k - 1 := x] && m'[0] == m[0];
      OwnedUpdate(m[1..], k - 1, x);
      assert m[1..][k - 1] == m[k];
      SumMoves(OwnedByCells(m[0].data), OwnedByPlaces(m'[1..]), OwnedByPlaces(m[1..]), OwnedByCells(m[k].data),
        OwnedByCells(x.data));
    }
  }

  lemma {:induction false} PlacesOwnNothing(m: seq<Place>)
    requires forall k :: 0 <= k < |m| ==> OwnedByCells(m[k].data) == multiset{}
    ensures OwnedByPlaces(m) == multiset{}
    decreases |m|
  {
    if m == [] {
    } else {
      PlacesOwnNothing(m[1..]);
    }
  }

  // ------------------------------------------------------------------ a released message

  /** A released message owns nothing, still matches its table, and releasing it again changes nothing. */
  lemma {:induction false} ClearedOwnsNothing(tables: seq<seq<Field>>, t: seq<Field>, m: seq<Place>)
    requires Matches(tables, t, m)
    ensures var r := Cleared(tables, t, m);
      OwnedByPlaces(r) == multiset{} && Matches(tables, t, r) && Cleared(tables, t, r) == r
    decreases m, 2
  {
    hide MatchesAt, ClearedAt;
    var r := Cleared(tables, t, m);
    forall i | 0 <= i < |t|
      ensures OwnedByCells(r[i].data) == multiset{} && MatchesAt(tables, t, i, r[i])
        && ClearedAt(tables, t, i, r[i]) == r[i]
    {
      ClearedPlace(tables, t, i, m[i]);
    }
    PlacesOwnNothing(r);
    assert Cleared(tables, t, r) == r;
  }

  lemma {:induction false} ClearedPlace(tables: seq<seq<Field>>, t: seq<Field>, i: nat, x: Place)
    requires i < |t| && MatchesAt(tables, t, i, x)
    ensures var y := ClearedAt(tables, t, i, x);
      OwnedByCells(y.data) == multiset{} && MatchesAt(tables, t, i, y) && ClearedAt(tables, t, i, y) == y
    decreases x, 2
  {
    hide MatchesData, ClearedField, Find, Leader;
    if !t[i].htype.Oneof? {
      ClearedFieldOwnsNothing(tables, t[i], x);
    } else if !SharesUnion(t, i) && Selects(t, i, x.count) {
      var f := t[Find(t, x.count).value];
      ClearedFieldOwnsNothing(tables, f, x);
      assert ClearedField(tables, f, x).count == x.count by { CountKept(tables, f, x); }
    }
  }

  lemma CountKept(tables: seq<seq<Field>>, f: Field, x: Place)
    requires !f.htype.Repeated?
    ensures ClearedField(tables, f, x).count == x.count
  {
  }

  lemma {:induction false} ClearedFieldOwnsNothing(tables: seq<seq<Field>>, f: Field, x: Place)
    requires MatchesData(tables, f, x)
    ensures var y := ClearedField(tables, f, x);
      OwnedByCells(y.data) == multiset{} && MatchesData(tables, f, y) && ClearedField(tables, f, y) == y
    decreases x, 1
  {
    hide MatchesCell, ClearedCell, Matches, Cleared;
    if !f.atype.Static? {
    } else {
      var y := ClearedField(tables, f, x);
      forall k | 0 <= k < |x.data|
        ensures OwnedByCell(y.data[k]) == multiset{} && MatchesCell(tables, f, y.data[k])
        ensures f.ltype.LSubmessage? ==> ClearedCell(tables, f, y.data[k]) == y.data[k]
      {
        ClearedCellOwnsNothing(tables, f, x.data[k]);
        assert y.data[k] == if f.ltype.LSubmessage? then ClearedCell(tables, f, x.data[k]) else x.data[k];
      }
      OwnsNothing(y.data);
      if f.ltype.LSubmessage? { assert ClearedCells(tables, f, y.data) == y.data; }
    }
  }

  lemma {:induction false} ClearedCellOwnsNothing(tables: seq<seq<Field>>, f: Field, c: Cell)
    requires MatchesCell(tables, f, c) && !f.atype.Pointer?
    ensures var d := if f.ltype.LSubmessage? then ClearedCell(tables, f, c) else c;
      OwnedByCell(d) == multiset{} && MatchesCell(tables, f, d)
      && (f.ltype.LSubmessage? ==> ClearedCell(tables, f, d) == d)
    decreases c, 0
  {
    hide Matches, Cleared;
    if !f.ltype.LSubmessage? {
    } else {
      assert |c.places| == |SubTable(tables, f)| by { SameLength(tables, SubTable(tables, f), c.places); }
      ClearedOwnsNothing(tables, SubTable(tables, f), c.places);
    }
  }

  lemma SameLength(tables: seq<seq<Field>>, t: seq<Field>, m: seq<Place>)
    requires Matches(tables, t, m)
    ensures |m| == |t| && DistinctTags(t) && NonZeroTags(t)
  {
  }

  /** Releasing a message that owns nothing changes nothing at all. */
  lemma {:induction false} NothingOwnedUnchanged(tables: seq<seq<Field>>, t: seq<Field>, m: seq<Place>)
    requires Matches(tables, t, m) && OwnedByPlaces(m) == multiset{}
    ensures Cleared(tables, t, m) == m
    decreases m, 2
  {
    hide MatchesAt, ClearedAt;
    forall i | 0 <= i < |t| ensures ClearedAt(tables, t, i, m[i]) == m[i] {
      OwnedUpdate(m, i, m[i]);
      PlaceUnchanged(tables, t, i, m[i]);
    }
    assert Cleared(tables, t, m) == m;
  }

  lemma {:induction false} PlaceUnchanged(tables: seq<seq<Field>>, t: seq<Field>, i: nat, x: Place)
    requires i < |t| && MatchesAt(tables, t, i, x) && OwnedByCells(x.data) == multiset{}
    ensures ClearedAt(tables, t, i, x) == x
    decreases x, 2
  {
    hide MatchesData, ClearedField, Find, Leader;
    if !t[i].htype.Oneof? {
      FieldUnchanged(tables, t[i], x);
    } else if !SharesUnion(t, i) && Selects(t, i, x.count) {
      FieldUnchanged(tables, t[Find(t, x.count).value], x);
    }
  }

  lemma {:induction false} FieldUnchanged(tables: seq<seq<Field>>, f: Field, x: Place)
    requires MatchesData(tables, f, x) && OwnedByCells(x.data) == multiset{}
    ensures ClearedField(tables, f, x) == x
    decreases x, 1
  {
    hide MatchesCell, ClearedCell, Matches, Cleared;
    if f.atype.Pointer? {
      OneCell(x.data[0]);
      assert x.data == [x.data[0]];
    } else if f.atype.Static? && f.ltype.LSubmessage? {
      forall k | 0 <= k < |x.data| ensures ClearedCell(tables, f, x.data[k]) == x.data[k] {
        OwnedNext(x.data, k);
        CellUnchanged(tables, f, x.data[k]);
      }
      assert ClearedCells(tables, f, x.data) == x.data;
    }
  }

  lemma {:induction false} CellUnchanged(tables: seq<seq<Field>>, f: Field, c: Cell)
    requires f.ltype.LSubmessage? && MatchesCell(tables, f, c) && OwnedByCell(c) == multiset{}
    ensures ClearedCell(tables, f, c) == c
    decreases c, 0
  {
    hide Matches, Cleared;
    SameLength(tables, SubTable(tables, f), c.places);
    NothingOwnedUnchanged(tables, SubTable(tables, f), c.places);
  }

  /** Only the counts of heap arrays change: has_ flags, static counts and which_ values stay, and so does all
      data that is neither on the heap nor a submessage. */
  lemma CountsKept(tables: seq<seq<Field>>, t: seq<Field>, m: seq<Place>, i: nat)
    requires |m| == |t| && i < |t|
    ensures var f, x, y := t[i], m[i], Cleared(tables, t, m)[i];
      && y.count == (if f.htype.Repeated? && f.atype.Pointer? then 0 else x.count)
      && (f.atype.Static? && !f.htype.Oneof? ==> |y.data| == |x.data| && (!f.ltype.LSubmessage? ==> y.data == x.data))
  {
    hide Find, Leader;
    assert Cleared(tables, t, m)[i] == ClearedAt(tables, t, i, m[i]);
  }

  // ------------------------------------------------------------------ the release itself

  /** A message struct in memory. */
  class Node {
    var places: seq<Place>

    constructor (places: seq<Place>)
      ensures this.places == places
    {
      this.places := places;
    }
  }

  /** After the first part of what is owned was given back, the next part is still live. */
  lemma AccountNext(next: nat, freed: multiset<nat>, total: multiset<nat>, done: multiset<nat>, part: multiset<nat>,
        rest: multiset<nat>)
    requires Account(next, freed, total) && total == done + part + rest
    ensures Account(next, freed + done, part)
  {
    forall b: nat ensures (freed + done + part)[b] <= 1 && (b in freed + done + part ==> b < next) {
      assert (freed + total)[b] <= 1;
      assert b in freed + done + part ==> b in freed + total;
    }
  }

  /** An owned block is live. */
  lemma Live(heap: Heap, owned: multiset<nat>, block: nat)
    requires Sound(heap, owned) && block in owned
    ensures block in heap.blocks
  {
    assert (multiset(heap.freed) + owned)[block] <= 1;
  }

  /** pb_free of a block that is accounted for. */
  method FreeOwned(heap: Heap, p: Ref)
    requires heap.Valid() && (p.To? ==> Account(heap.next, multiset(heap.freed), multiset{p.block}))
    modifies heap
    ensures heap.Valid() && heap.next == old(heap.next)
    ensures multiset(heap.freed) == multiset(old(heap.freed)) + if p.To? then multiset{p.block} else multiset{}
  {
    if p.To? { Live(heap, multiset{p.block}, p.block); }
    heap.Free(p);
  }

  /** The elements of a submessage field, one after the other. */
  method ReleaseElements(heap: Heap, tables: seq<seq<Field>>, f: Field, cells: seq<Cell>) returns (r: seq<Cell>)
    requires f.ltype.LSubmessage? && forall k :: 0 <= k < |cells| ==> MatchesCell(tables, f, cells[k])
    requires Sound(heap, OwnedByCells(cells))
    modifies heap
    ensures heap.Valid() && heap.next == old(heap.next)
    ensures r == ClearedCells(tables, f, cells)
    ensures multiset(heap.freed) == multiset(old(heap.freed)) + OwnedByCells(cells)
    decreases cells, 3
  {
    hide Matches, OwnedByCells, OwnedByPlaces, Cleared, Account;
    r := cells;
    var count: nat := |cells|;
    assert OwnedByCells(cells[..0]) == multiset{} by { OwnsNothing(cells[..0]); }
    while count > 0
      invariant count <= |cells| == |r| && heap.Valid() && heap.next == old(heap.next)
      invariant multiset(heap.freed) == multiset(old(heap.freed)) + OwnedByCells(cells[..|cells| - count])
      invariant forall k :: 0 <= k < |cells| - count ==> r[k] == ClearedCell(tables, f, cells[k])
      invariant forall k :: |cells| - count <= k < |cells| ==> r[k] == cells[k]
    {
      var j := |cells| - count;
      OwnedNext(cells, j);
      AccountNext(heap.next, multiset(old(heap.freed)), OwnedByCells(cells),
        OwnedByCells(cells[..j]), OwnedByCell(cells[j]), OwnedByCells(cells[j + 1..]));
      assert MatchesCell(tables, f, cells[j]);
      SameLength(tables, SubTable(tables, f), cells[j].places);
      var child := new Node(cells[j].places);
      PbRelease(heap, tables, SubTable(tables, f), child);
      r := r[j := Message(child.places)];
      count := count - 1;
    }
    assert cells[..|cells|] == cells;
  }

  /** The strings of a heap array of strings, one after the other. */
  method ReleaseTexts(heap: Heap, cells: seq<Cell>) returns (r: seq<Cell>)
    requires forall k :: 0 <= k < |cells| ==> LinkToText(cells[k])
    requires Sound(heap, OwnedByCells(cells))
    modifies heap
    ensures heap.Valid() && heap.next == old(heap.next)
    ensures |r| == |cells| && forall k :: 0 <= k < |r| ==> r[k] == Link(Nil)
    ensures multiset(heap.freed) == multiset(old(heap.freed)) + OwnedByCells(cells)
  {
    hide OwnedByCells, Account;
    r := cells;
    var count: nat := |cells|;
    assert OwnedByCells(cells[..0]) == multiset{} by { OwnsNothing(cells[..0]); }
    while count > 0
      invariant count <= |cells| == |r| && heap.Valid() && heap.next == old(heap.next)
      invariant multiset(heap.freed) == multiset(old(heap.freed)) + OwnedByCells(cells[..|cells| - count])
      invariant forall k :: 0 <= k < |cells| - count ==> r[k] == Link(Nil)
      invariant forall k :: |cells| - count <= k < |cells| ==> r[k] == cells[k]
    {
      var j := |cells| - count;
      OwnedNext(cells, j);
      AccountNext(heap.next, multiset(old(heap.freed)), OwnedByCells(cells),
        OwnedByCells(cells[..j]), OwnedByCell(cells[j]), OwnedByCells(cells[j + 1..]));
      TextOwned(cells[j]);
      FreeOwned(heap, cells[j].p);
      r := r[j := Link(Nil)];
      count := count - 1;
    }
    assert cells[..|cells|] == cells;
  }

  lemma TextOwned(c: Cell)
    requires LinkToText(c)
    ensures OwnedByCell(c) == if c.p.To? then multiset{c.p.block} else multiset{}
  {
    if c.p.To? { OwnsNothing(c.p.cells); }
  }

  lemma ScalarsOwnNothing(tables: seq<seq<Field>>, f: Field, cells: seq<Cell>)
    requires !f.ltype.LSubmessage? && !Text(f) && forall k :: 0 <= k < |cells| ==> MatchesCell(tables, f, cells[k])
    ensures OwnedByCells(cells) == multiset{}
  {
    forall k | 0 <= k < |cells| ensures OwnedByCell(cells[k]) == multiset{} {
      assert MatchesCell(tables, f, cells[k]);
    }
    OwnsNothing(cells);
  }

  /** A block, and what is stored in it. */
  lemma AccountBlock(next: nat, freed: multiset<nat>, p: Ref)
    requires p.To? && Account(next, freed, Owned(p))
    ensures Account(next, freed, OwnedByCells(p.cells))
    ensures Account(next, freed + OwnedByCells(p.cells), multiset{p.block})
    ensures Owned(p) == OwnedByCells(p.cells) + multiset{p.block}
  {
    var inside := OwnedByCells(p.cells);
    assert Owned(p) == inside + multiset{p.block};
    AccountNext(next, freed, Owned(p), multiset{}, inside, multiset{p.block});
    AccountNext(next, freed, Owned(p), inside, multiset{p.block}, multiset{});
    assert freed + multiset{} == freed;
  }

  /** What pb_release_single_field does with the data of a field that is present. */
  method ReleaseData(heap: Heap, tables: seq<seq<Field>>, f: Field, x: Place) returns (y: Place)
    requires MatchesData(tables, f, x) && Sound(heap, OwnedByCells(x.data))
    modifies heap
    ensures heap.Valid() && heap.next == old(heap.next)
    ensures y == ClearedField(tables, f, x)
    ensures multiset(heap.freed) == multiset(old(heap.freed)) + OwnedByCells(x.data)
    decreases x, 4
  {
    hide Account, MatchesCell, OwnedByCells;
    y := x;
    if f.atype.Callback? {
      OwnsNothing(x.data);
      return;
    }
    if f.atype.Static? {
      if f.ltype.LSubmessage? {
        var data := ReleaseElements(heap, tables, f, x.data);
        y := Place(x.count, data);
      } else {
        ScalarsOwnNothing(tables, f, x.data);
      }
      return;
    }
    OneCell(x.data[0]);
    assert x.data == [x.data[0]];
    ReleaseBlock(heap, tables, f, x.data[0].p);
    y := Place(if f.htype.Repeated? then 0 else x.count, [Link(Nil)]);
  }

  lemma TextCells(tables: seq<seq<Field>>, f: Field, cells: seq<Cell>)
    requires !f.ltype.LSubmessage? && Text(f) && forall k :: 0 <= k < |cells| ==> MatchesCell(tables, f, cells[k])
    ensures forall k :: 0 <= k < |cells| ==> LinkToText(cells[k])
  {
    forall k | 0 <= k < |cells| ensures LinkToText(cells[k]) {
      assert MatchesCell(tables, f, cells[k]);
    }
  }

  /** Heap-allocated data: what is inside first, then the block itself. */
  method ReleaseBlock(heap: Heap, tables: seq<seq<Field>>, f: Field, p: Ref)
    requires f.atype.Pointer? && Sound(heap, Owned(p))
    requires p.To? ==> forall k :: 0 <= k < |p.cells| ==> MatchesCell(tables, f, p.cells[k])
    modifies heap
    ensures heap.Valid() && heap.next == old(heap.next)
    ensures multiset(heap.freed) == multiset(old(heap.freed)) + Owned(p)
    decreases p, 3
  {
    hide Account, MatchesCell, OwnedByCells;
    if p.To? {
      AccountBlock(heap.next, multiset(heap.freed), p);
      Live(heap, Owned(p), p.block);
      var cells := heap.Load(p);
      if f.ltype.LSubmessage? {
        cells := ReleaseElements(heap, tables, f, cells);
      } else if Text(f) {
        TextCells(tables, f, cells);
        cells := ReleaseTexts(heap, cells);
      } else {
        ScalarsOwnNothing(tables, f, cells);
      }
      assert multiset(heap.freed) == multiset(old(heap.freed)) + OwnedByCells(p.cells);
      FreeOwned(heap, To(p.block, cells));
    }
  }

  /** Entry `i` is present in its place: outside unions always, in a union if it is the selected member. */
  predicate Current(t: seq<Field>, i: nat, x: Place)
    requires i < |t|
  {
    t[i].htype.Oneof? ==> x.count == t[i].tag
  }

  /** pb_release_single_field for entry `i`. */
  method ReleaseSingleField(heap: Heap, tables: seq<seq<Field>>, t: seq<Field>, i: nat, dest: Node, ghost was: Place)
    requires i < |t| == |dest.places| && heap.Valid()
    requires Current(t, i, dest.places[Leader(t, i)]) ==>
      dest.places[Leader(t, i)] == was && MatchesData(tables, t[i], was) && Sound(heap, OwnedByCells(was.data))
    modifies heap, dest
    ensures heap.Valid() && heap.next == old(heap.next)
    ensures old(Current(t, i, dest.places[Leader(t, i)])) ==>
      && dest.places == old(dest.places)[Leader(t, i) := ClearedField(tables, t[i], was)]
      && multiset(heap.freed) == multiset(old(heap.freed)) + OwnedByCells(was.data)
    ensures !old(Current(t, i, dest.places[Leader(t, i)])) ==>
      dest.places == old(dest.places) && heap.freed == old(heap.freed)
    decreases was, 5
  {
    hide MatchesData, OwnedByCells, Leader;
    var k := Leader(t, i);
    if t[i].htype.Oneof? && dest.places[k].count != t[i].tag {
      return;
    }
    var y := ReleaseData(heap, tables, t[i], dest.places[k]);
    dest.places := dest.places[k := y];
  }

  /** Has place `k` been released once the entries before `i` were visited? */
  predicate Visited(t: seq<Field>, m: seq<Place>, k: nat, i: nat)
    requires k < |t| == |m|
  {
    if t[k].htype.Oneof? then
      !SharesUnion(t, k) && Selects(t, k, m[k].count) ==> Find(t, m[k].count).value < i
    else k < i
  }

  predicate PlaceProgress(tables: seq<seq<Field>>, t: seq<Field>, m: seq<Place>, x: Place, k: nat, i: nat)
    requires k < |t| == |m|
  {
    x == if Visited(t, m, k, i) then ClearedAt(tables, t, k, m[k]) else m[k]
  }

  /** The next entry, if it is present, has not been released yet; its place holds what it describes. */
  lemma NextPlace(tables: seq<seq<Field>>, t: seq<Field>, m: seq<Place>, x: Place, i: nat)
    requires Matches(tables, t, m) && i < |t|
    requires PlaceProgress(tables, t, m, x, Leader(t, i), i)
    ensures var k := Leader(t, i);
      && (Current(t, i, x) ==>
            x == m[k] && MatchesData(tables, t[i], m[k])
              && ClearedAt(tables, t, k, m[k]) == ClearedField(tables, t[i], m[k])
            && Visited(t, m, k, i + 1))
      && (!Current(t, i, x) ==> PlaceProgress(tables, t, m, x, k, i + 1))
  {
    hide MatchesData, ClearedField, Find, Leader;
    var k := Leader(t, i);
    assert MatchesAt(tables, t, k, m[k]) && !t[i].ltype.LExtension?;
    assert !SharesUnion(t, k) by { LeaderStarts(t, i); }
    assert !t[i].htype.Oneof? ==> k == i by { LeaderOutside(t, i); }
    FindOwn(t, i);
    var c := m[k].count;
    if t[i].htype.Oneof? && Selects(t, k, c) {
      var f := t[Find(t, c).value];
      CountKept(tables, f, m[k]);
    }
  }

  lemma ThisPlace(tables: seq<seq<Field>>, t: seq<Field>, m: seq<Place>, x: Place, k: nat, i: nat)
    requires k < |t| == |m|
    requires PlaceProgress(tables, t, m, x, k, i + 1)
      || (Visited(t, m, k, i + 1) && x == ClearedAt(tables, t, k, m[k]))
    ensures PlaceProgress(tables, t, m, x, k, i + 1)
  {
    hide ClearedAt, Visited;
  }

  lemma OtherPlace(tables: seq<seq<Field>>, t: seq<Field>, m: seq<Place>, x: Place, k: nat, i: nat)
    requires k < |t| == |m| && i < |t| && k != Leader(t, i) && PlaceProgress(tables, t, m, x, k, i)
    ensures PlaceProgress(tables, t, m, x, k, i + 1)
  {
    hide ClearedAt;
  }

  lemma FirstPlace(tables: seq<seq<Field>>, t: seq<Field>, m: seq<Place>, k: nat)
    requires k < |t| == |m|
    ensures PlaceProgress(tables, t, m, m[k], k, 0)
  {
    hide ClearedField;
  }

  lemma LastPlace(tables: seq<seq<Field>>, t: seq<Field>, m: seq<Place>, x: Place, k: nat)
    requires k < |t| == |m| && PlaceProgress(tables, t, m, x, k, |t|)
    ensures x == ClearedAt(tables, t, k, m[k])
  {
    hide ClearedAt;
  }

  /** The part of the message that one place owns is live as long as the whole of it is accounted for. */
  lemma AccountPlace(next: nat, freed: multiset<nat>, total: multiset<nat>, freedNow: multiset<nat>,
        now: seq<Place>, k: nat)
    requires k < |now| && Account(next, freed, total) && freedNow + OwnedByPlaces(now) == freed + total
    ensures Account(next, freedNow, OwnedByCells(now[k].data))
  {
    OwnedUpdate(now, k, now[k]);
    var part, owned := OwnedByCells(now[k].data), OwnedByPlaces(now);
    forall b: nat ensures (freedNow + part)[b] <= 1 && (b in freedNow + part ==> b < next) {
      assert (freedNow + owned)[b] == (freed + total)[b] <= 1;
      assert part[b] <= owned[b];
      if b in freedNow + part { assert b in freedNow + owned && b in freed + total; }
    }
  }

  /** What one place owned has moved to the blocks given back. */
  lemma GivenBack(tables: seq<seq<Field>>, f: Field, m: seq<Place>, k: nat, freed: multiset<nat>,
        freedNow: multiset<nat>)
    requires k < |m| && MatchesData(tables, f, m[k]) && freedNow == freed + OwnedByCells(m[k].data)
    ensures freedNow + OwnedByPlaces(m[k := ClearedField(tables, f, m[k])]) == freed + OwnedByPlaces(m)
  {
    hide MatchesData, ClearedField, OwnedByCells, OwnedByPlaces;
    var x := ClearedField(tables, f, m[k]);
    ClearedFieldOwnsNothing(tables, f, m[k]);
    OwnedUpdate(m, k, x);
    var part, rest := OwnedByCells(m[k].data), OwnedByPlaces(m[k := x]);
    assert freedNow + rest == freed + (rest + part);
  }

  /** pb_release: every block the message owns is given back exactly once and no other one, and what is
      left owns nothing. */
  method PbRelease(heap: Heap, tables: seq<seq<Field>>, t: seq<Field>, dest: Node)
    requires Matches(tables, t, dest.places) && Sound(heap, OwnedByPlaces(dest.places))
    modifies heap, dest
    ensures heap.Valid() && heap.next == old(heap.next)
    ensures dest.places == Cleared(tables, t, old(dest.places))
    ensures OwnedByPlaces(dest.places) == multiset{} && Matches(tables, t, dest.places)
    ensures multiset(heap.freed) == multiset(old(heap.freed)) + old(OwnedByPlaces(dest.places))
    decreases dest.places, 6
  {
    hide MatchesAt, MatchesData, OwnedByPlaces, OwnedByCells, PlaceProgress, Leader, Matches, Account;
    ghost var m, freed := dest.places, heap.freed;
    SameLength(tables, t, m);
    ClearedOwnsNothing(tables, t, m);
    if t == [] {
      return;
    }
    forall k | 0 <= k < |t| ensures PlaceProgress(tables, t, m, m[k], k, 0) {
      FirstPlace(tables, t, m, k);
    }
    var iter := new FieldIterator(t, 0);
    while true
      invariant iter.Canonical() && iter.start == t && fresh(iter)
      invariant heap.Valid() && heap.next == old(heap.next) && |dest.places| == |t|
      invariant forall k :: 0 <= k < |t| ==> PlaceProgress(tables, t, m, dest.places[k], k, iter.pos)
      invariant multiset(heap.freed) + OwnedByPlaces(dest.places) == multiset(freed) + OwnedByPlaces(m)
      decreases |t| - iter.pos
    {
      ghost var i, k, before, freed1 := iter.pos, Leader(t, iter.pos), dest.places, heap.freed;
      NextPlace(tables, t, m, before[k], i);
      AccountPlace(heap.next, multiset(freed), OwnedByPlaces(m), multiset(heap.freed), before, k);
      ReleaseSingleField(heap, tables, t, iter.pos, dest, m[k]);
      if Current(t, i, before[k]) { GivenBack(tables, t[i], before, k, multiset(freed1), multiset(heap.freed)); }
      forall j | 0 <= j < |t| ensures PlaceProgress(tables, t, m, dest.places[j], j, i + 1) {
        if j == k {
          ThisPlace(tables, t, m, dest.places[k], k, i);
        } else {
          OtherPlace(tables, t, m, before[j], j, i);
        }
      }
      if i + 1 == |t| {
        forall j | 0 <= j < |t| ensures dest.places[j] == ClearedAt(tables, t, j, m[j]) {
          LastPlace(tables, t, m, dest.places[j], j);
        }
        assert dest.places == Cleared(tables, t, m);
      }
      var more := iter.Next();
      if !more { break; }
    }
  }

  /** pb_release_union_field: before another member of a union is decoded, the entry that the old which_ value
      names is released, and the iterator goes back.  A value that names no entry is an error. */
  method ReleaseUnionField(heap: Heap, tables: seq<seq<Field>>, iter: FieldIterator, dest: Node) returns (ok: bool)
    requires iter.Valid() && iter.pos < |iter.start| && iter.start[iter.pos].htype.Oneof?
    requires Matches(tables, iter.start, dest.places) && Sound(heap, OwnedByPlaces(dest.places))
    modifies heap, iter, dest
    ensures heap.Valid() && heap.next == old(heap.next) && iter.Valid()
    ensures ok ==> iter.pos == old(iter.pos)
    ensures var t, m := iter.start, old(dest.places);
      var which := m[Leader(t, old(iter.pos))].count;
      var j := Find(t, which);
      ok == (which == 0 || j.Some?) &&
      if j.Some? && which != t[old(iter.pos)].tag && Current(t, j.value, m[Leader(t, j.value)]) then
        var k := Leader(t, j.value);
        && dest.places == m[k := ClearedAt(tables, t, k, m[k])]
        && multiset(heap.freed) == multiset(old(heap.freed)) + OwnedByCells(m[k].data)
      else dest.places == m && heap.freed == old(heap.freed)
  {
    hide MatchesAt, MatchesData, OwnedByCells, OwnedByPlaces, Account, ClearedField, Find, Leader;
    var t := iter.start;
    var i := iter.pos;
    var oldTag := dest.places[Leader(t, i)].count;
    var newTag := t[i].tag;
    assert !t[i].ltype.LExtension?;
    FindOwn(t, i);
    if oldTag == 0 || oldTag == newTag {
      return true;
    }
    var found := iter.Search(oldTag);
    if !found {
      return false;
    }
    FindOwn(t, iter.pos);
    ghost var k := Leader(t, iter.pos);
    ghost var was := dest.places[k];
    if Current(t, iter.pos, was) { MemberPlace(tables, t, dest.places, iter.pos); }
    AccountPlace(heap.next, multiset(heap.freed), OwnedByPlaces(dest.places), multiset(heap.freed), dest.places, k);
    ReleaseSingleField(heap, tables, t, iter.pos, dest, was);
    found := iter.Search(newTag);
    FindOwn(t, iter.pos);
    return found;
  }

  lemma MemberPlace(tables: seq<seq<Field>>, t: seq<Field>, m: seq<Place>, i: nat)
    requires Matches(tables, t, m) && i < |t| && Current(t, i, m[Leader(t, i)])
    ensures var k := Leader(t, i);
      MatchesData(tables, t[i], m[k]) && ClearedAt(tables, t, k, m[k]) == ClearedField(tables, t[i], m[k])
  {
    hide MatchesData, ClearedField, Find, Leader;
    var k := Leader(t, i);
    assert MatchesAt(tables, t, k, m[k]) && !t[i].ltype.LExtension?;
    LeaderStarts(t, i);
    assert !t[i].htype.Oneof? ==> k == i by { LeaderOutside(t, i); }
    FindOwn(t, i);
  }
}
