/** "Packed Repeated Fields": a decoder must accept a packable array however it was cut into packed runs
    and single elements, and all these encodings must mean the same. */
module Packing {
  import opened Wire
  import opened Descriptor
  import opened DecodeSpec
  import opened EncodeSpec
  import opened Merge

  /** A piece of an encoded array: several elements under one length-delimited key, or one element under
      the key of its own wire type. */
  datatype Chunk = Run(items: seq<Value>) | One(v: Value)
  {
    function Items(): seq<Value> {
      if Run? then items else [v]
    }
  }

  /** All elements, in order. */
  function Flat(cs: seq<Chunk>): seq<Value> {
    if cs == [] then [] else cs[0].Items() + Flat(cs[1..])
  }

  function EncChunk(f: Field, c: Chunk): Option<bytes> {
    if c.Run? then
      var e :- EncPacked(f, c.items);
      Some(EncKey(f.tag, 2) + EncString(e))
    else
      var e :- EncScalar(f, c.v);
      Some(EncKeyOf(f) + e)
  }

  function EncChunks(f: Field, cs: seq<Chunk>): Option<bytes> {
    if cs == [] then Some([])
    else
      var e :- EncChunk(f, cs[0]);
      var rest :- EncChunks(f, cs[1..]);
      Some(e + rest)
  }

  lemma ChunkTurn(t: seq<Field>, st: State, i: nat, c: Chunk, e: bytes, s: bytes)
    requires WellFormed(t) && i < |t| == |st.m| && st.m[i].Arr? && t[i].htype.Repeated? && t[i].ltype.WireType() != 2
    requires forall v :: v in c.Items() ==> TypedValue(t[i], v)
    requires EncChunk(t[i], c) == Some(e) && |e| < 0x1_0000_0000
    requires Enter(t, st, i) == Some(st) && CountOf(t, st, i) <= t[i].arraySize
    ensures var r := Extended(t, st, i, c.Items());
      Loop(t, st, e + s) == if r.Some? then Loop(t, r.value, s) else Fail
  {
    hide TypedValue, Loop, Extended, Enter, EncPacked, EncScalar, EncVarint, EncString, DecScalar, WellFormedField,
      CountOf;
    var f := t[i];
    assert WellFormedField(f);
    match c {
      case Run(items) =>
        var p := EncPacked(f, items).value;
        PackedSmaller(f, p);
        PackedTurn(t, st, i, items, p, s);
      case One(v) =>
        var p := EncScalar(f, v).value;
        ScalarBack(f, v, p, s);
        ElementTurn(t, st, i, v, p, s);
    }
  }

  /** Within a run, any mix of packed runs and single elements extends the array by the elements, in order. */
  lemma {:induction false} ChunksFollow(t: seq<Field>, st: State, i: nat, cs: seq<Chunk>, e: bytes, s: bytes)
    requires WellFormed(t) && i < |t| == |st.m| && st.m[i].Arr? && t[i].htype.Repeated? && t[i].ltype.WireType() != 2
    requires forall v :: v in Flat(cs) ==> TypedValue(t[i], v)
    requires EncChunks(t[i], cs) == Some(e) && |e| < 0x1_0000_0000
    requires Enter(t, st, i) == Some(st) && CountOf(t, st, i) <= t[i].arraySize
    ensures var r := Extended(t, st, i, Flat(cs));
      Loop(t, st, e + s) == if r.Some? then Loop(t, r.value, s) else Fail
    decreases |cs|
  {
    hide TypedValue, Loop, Extended, Enter, EncChunk, WellFormed, CountOf;
    if cs == [] {
      ExtendedByNone(t, st, i);
      assert e + s == s;
    } else {
      var e0, rest := EncChunk(t[i], cs[0]).value, EncChunks(t[i], cs[1..]).value;
      assert e + s == e0 + (rest + s);
      ChunkTurn(t, st, i, cs[0], e0, rest + s);
      ExtendedConcat(t, st, i, cs[0].Items(), Flat(cs[1..]));
      var r := Extended(t, st, i, cs[0].Items());
      if r.Some? {
        ExtendedKeeps(t, st, i, cs[0].Items());
        ChunksFollow(t, r.value, i, cs[1..], rest, s);
      }
    }
  }

  /** The bytes of a chunk start with a key of the field. */
  lemma ChunkKey(f: Field, c: Chunk, e: bytes) returns (wireType: nat, rest: bytes)
    requires !f.ltype.LExtension? && EncChunk(f, c) == Some(e)
    ensures wireType < 8 && e == EncKey(f.tag, wireType) + rest
  {
    hide EncPacked, EncScalar, EncVarint, EncString;
    if c.Run? {
      wireType, rest := 2, EncString(EncPacked(f, c.items).value);
    } else {
      wireType, rest := f.ltype.WireType(), EncScalar(f, c.v).value;
    }
  }

  lemma EnterKeeps(t: seq<Field>, st: State, i: nat)
    requires i < |t| && Enter(t, st, i).Some?
    ensures Enter(t, st, i).value.m == st.m && Enter(t, Enter(t, st, i).value, i) == Some(Enter(t, st, i).value)
  {
  }

  /** From any state between two fields: a mix of packed runs and single elements begins or continues a run
      of its field, and extends the array by the elements in order; it is refused if the run of another
      fixed-count field is short, or if the elements do not fit. */
  lemma ChunksExtend(t: seq<Field>, st: State, i: nat, cs: seq<Chunk>, e: bytes, s: bytes)
    requires WellFormed(t) && i < |t| == |st.m| && st.m[i].Arr? && t[i].htype.Repeated? && t[i].ltype.WireType() != 2
    requires forall v :: v in Flat(cs) ==> TypedValue(t[i], v)
    requires EncChunks(t[i], cs) == Some(e) && |e| < 0x1_0000_0000
    requires Enter(t, st, i).Some? ==> CountOf(t, Enter(t, st, i).value, i) <= t[i].arraySize
    ensures var r := if Enter(t, st, i).Some? then Extended(t, Enter(t, st, i).value, i, Flat(cs)) else None;
      Loop(t, st, e + s) == if cs == [] then Loop(t, st, s) else if r.Some? then Loop(t, r.value, s) else Fail
  {
    hide TypedValue, Loop, Extended, Enter, EncChunk, Flat, WellFormed, CountOf, EncKey;
    if cs == [] {
      assert e + s == s;
    } else {
      var e0, rest := EncChunk(t[i], cs[0]).value, EncChunks(t[i], cs[1..]).value;
      var wireType, payload := ChunkKey(t[i], cs[0], e0);
      assert e + s == EncKey(t[i].tag, wireType) + (payload + rest + s);
      KeyTurn(t, st, i, wireType, payload + rest + s);
      if Enter(t, st, i).Some? {
        EnterFirst(t, st, i, wireType, payload + rest + s);
        EnterKeeps(t, st, i);
        ChunksFollow(t, Enter(t, st, i).value, i, cs, e, s);
      }
    }
  }

  /** For a counted array: the elements are appended if they fit, and decoding fails if they do not,
      whatever the chunking. */
  lemma PackingIrrelevant(t: seq<Field>, st: State, i: nat, cs: seq<Chunk>, e: bytes, s: bytes)
    requires WellFormed(t) && i < |t| == |st.m| && t[i].htype.Repeated? && t[i].ltype.WireType() != 2
    requires !t[i].FixedCount()
    requires st.m[i].Arr? && |st.m[i].items| <= t[i].arraySize
    requires forall v :: v in Flat(cs) ==> TypedValue(t[i], v)
    requires EncChunks(t[i], cs) == Some(e) && |e| < 0x1_0000_0000
    ensures var all := st.m[i].items + Flat(cs);
      Loop(t, st, e + s) ==
      if |all| <= t[i].arraySize then Loop(t, st.(m := st.m[i := Arr(all)]), s) else Fail
  {
    hide TypedValue, Loop, EncChunks, WellFormed, Flat, ReceivedItems, StoreAll;
    ChunksFollow(t, st, i, cs, e, s);
    ReceivedPackable(t[i], Flat(cs));
    StoreAllAppends(st.m[i].items, Flat(cs));
  }

  /** For a fixed-count array: the elements replace those from the start of the array on, or from where the
      run in progress stands.  Decoding fails, whatever the chunking, if they do not fit, or if this begins
      a run while that of another fixed-count field is short. */
  lemma PackingIrrelevantFixed(t: seq<Field>, st: State, i: nat, cs: seq<Chunk>, e: bytes, s: bytes)
    requires WellFormed(t) && i < |t| == |st.m| && t[i].ltype.WireType() != 2 && t[i].FixedCount() && st.m[i].Arr?
    requires st.fixed == Some(i) ==> st.fixedCount <= t[i].arraySize && st.fixedCount <= |st.m[i].items|
    requires cs != [] && forall v :: v in Flat(cs) ==> TypedValue(t[i], v)
    requires EncChunks(t[i], cs) == Some(e) && |e| < 0x1_0000_0000
    ensures var a, n := st.m[i].items, |Flat(cs)|;
      var count := if st.fixed == Some(i) then st.fixedCount else 0;
      Loop(t, st, e + s) ==
      if (st.fixed == Some(i) || FixedDone(t, st)) && count + n <= t[i].arraySize
      then
        var all := Overwritten(a, count, Flat(cs));
        Loop(t, st.(m := st.m[i := Arr(all)], fixed := Some(i), fixedCount := count + n), s)
      else Fail
  {
    hide TypedValue, Loop, EncChunks, WellFormed, Flat, ReceivedItems, StoreAll, FixedDone;
    ChunksExtend(t, st, i, cs, e, s);
    ReceivedPackable(t[i], Flat(cs));
    StoreAllOverwrites(st.m[i].items, if st.fixed == Some(i) then st.fixedCount else 0, Flat(cs));
  }

  /** In particular from the start of any message, or after any other field. */
  lemma FixedRunFromStart(t: seq<Field>, st: State, i: nat, cs: seq<Chunk>, e: bytes, s: bytes)
    requires WellFormed(t) && i < |t| == |st.m| && t[i].ltype.WireType() != 2 && t[i].FixedCount() && st.m[i].Arr?
    requires st.fixed != Some(i) && FixedDone(t, st) && |st.m[i].items| <= |Flat(cs)|
    requires cs != [] && forall v :: v in Flat(cs) ==> TypedValue(t[i], v)
    requires EncChunks(t[i], cs) == Some(e) && |e| < 0x1_0000_0000
    ensures Loop(t, st, e + s) ==
      if |Flat(cs)| <= t[i].arraySize
      then Loop(t, st.(m := st.m[i := Arr(Flat(cs))], fixed := Some(i), fixedCount := |Flat(cs)|), s)
      else Fail
  {
    hide TypedValue, Loop, EncChunks, WellFormed, Flat, FixedDone;
    PackingIrrelevantFixed(t, st, i, cs, e, s);
    OverwrittenWhole(st.m[i].items, Flat(cs));
  }
}
