/** What pb_decode.c computes, as functions on byte strings and structs.  A substream is just a shorter
    byte string.  Only the static allocation branch is covered. */
module DecodeSpec {
  import opened Wire
  import opened Descriptor

  const PB_MAX_REQUIRED_FIELDS := 64

  // ------------------------------------------------------------------ skipping

  /** pb_skip_varint: no limit on the length. */
  function SkipVarint(s: bytes): (r: Parsed<()>)
    ensures r.Ok? ==> |r.rest| < |s|
  {
    if VarintLen(s) == 0 then Fail else Ok((), s[VarintLen(s)..])
  }

  /** pb_read with a null buffer. */
  function SkipBytes(n: nat, s: bytes): (r: Parsed<()>)
    ensures r.Ok? ==> |r.rest| + n == |s|
  {
    if n > |s| then Fail else Ok((), s[n..])
  }

  function SkipString(s: bytes): (r: Parsed<()>)
    ensures r.Ok? ==> |r.rest| < |s|
  {
    var (n, rest) :- DecVarint32(s);
    SkipBytes(n, rest)
  }

  /** pb_skip_field. */
  function SkipField(wireType: nat, s: bytes): (r: Parsed<()>)
    ensures r.Ok? ==> |r.rest| < |s|
  {
    match wireType
    case 0 => SkipVarint(s)
    case 1 => SkipBytes(8, s)
    case 2 => SkipString(s)
    case 5 => SkipBytes(4, s)
    case _ => Fail
  }

  // ------------------------------------------------------------------ scalars

  /** pb_dec_bytes, for a static field: one byte of the structure holds the length. */
  function DecBytes(f: Field, s: bytes): (r: Parsed<Value>)
    ensures r.Ok? ==> |r.rest| < |s|
  {
    var (n, rest) :- DecVarint32(s);
    if n > PB_SIZE_MAX || n + 1 > f.dataSize || n > |rest| then Fail
    else Ok(VBytes(rest[..n]), rest[n..])
  }

  /** pb_dec_string, for a static field: the terminator needs a byte too. */
  function DecString(f: Field, s: bytes): (r: Parsed<Value>)
    ensures r.Ok? ==> |r.rest| < |s|
  {
    var (n, rest) :- DecVarint32(s);
    if n + 1 > f.dataSize || n > |rest| then Fail
    else Ok(VBytes(rest[..n]), rest[n..])
  }

  /** pb_dec_fixed_length_bytes: an empty string stands for zeros. */
  function DecFixedBytes(f: Field, s: bytes): (r: Parsed<Value>)
    ensures r.Ok? ==> |r.rest| < |s|
  {
    var (n, rest) :- DecVarint32(s);
    if n > PB_SIZE_MAX then Fail
    else if n == 0 then Ok(VBytes(Zeros(f.dataSize)), rest)
    else if n != f.dataSize || n > |rest| then Fail
    else Ok(VBytes(rest[..n]), rest[n..])
  }

  /** The PB_DECODERS entry of every type but submessages (extensions have none). */
  function DecScalar(f: Field, s: bytes): (r: Parsed<Value>)
    ensures r.Ok? ==> |r.rest| < |s|
  {
    match f.ltype
    case LBool => var (v, rest) :- DecVarint32(s); Ok(VBool(v != 0), rest)
    case LVarint => var (v, rest) :- DecSigned(f.dataSize, s); Ok(VInt(v), rest)
    case LUVarint => var (v, rest) :- DecUnsigned(f.dataSize, s); Ok(VInt(v), rest)
    case LSVarint => var (v, rest) :- DecZigZag(f.dataSize, s); Ok(VInt(v), rest)
    case LFixed32 => var (v, rest) :- DecFixed(4, s); Ok(VInt(v), rest)
    case LFixed64 => var (v, rest) :- DecFixed(8, s); Ok(VInt(v), rest)
    case LBytes => DecBytes(f, s)
    case LString => DecString(f, s)
    case LFixedBytes => DecFixedBytes(f, s)
    case _ => Fail
  }

  // ------------------------------------------------------------------ arrays

  /** Storing the k-th element of an array of which the first |a| elements are known. */
  function Store(a: seq<Value>, k: nat, v: Value): seq<Value> {
    if k < |a| then a[k := v] else a + [v]
  }

  datatype Items = Items(a: seq<Value>, count: nat)

  /** The packed-array loop of decode_static_field over the whole of its substream. */
  function DecPacked(f: Field, a: seq<Value>, count: nat, s: bytes): Option<Items>
    decreases |s|
  {
    if s == [] then Some(Items(a, count))
    else if count >= f.arraySize then None
    else
      var r := DecScalar(f, s);
      if r.Fail? then None else DecPacked(f, Store(a, count, r.value), count + 1, r.rest)
  }

  // ------------------------------------------------------------------ messages

  /** The local state of pb_decode_noinit next to the struct: which required fields were seen, and the
      fixed-count field being received with its number of elements so far. */
  datatype State = State(m: seq<Slot>, seen: set<nat>, fixed: Option<nat>, fixedCount: nat)

  function Start(m: seq<Slot>): State {
    State(m, {}, None, 0)
  }

  /** The fixed-count field received last, if any, got all its elements. */
  predicate FixedDone(t: seq<Field>, st: State) {
    st.fixed.Some? && st.fixed.value < |t| ==> st.fixedCount == t[st.fixed.value].arraySize
  }

  /** Every required field among the first 64 was seen. */
  predicate RequiredDone(t: seq<Field>, seen: set<nat>) {
    forall i :: 0 <= i < |t| && t[i].htype.Required? && RequiredBefore(t, i) < PB_MAX_REQUIRED_FIELDS
      ==> i in seen
  }

  /** One field payload; `prior` is what a submessage is merged into. */
  function DecValue(f: Field, prior: Value, s: bytes): (r: Parsed<Value>)
    ensures r.Ok? ==> |r.rest| < |s|
    decreases |s|, 0
  {
    if !f.ltype.LSubmessage? then DecScalar(f, s)
    else
      var (n, rest) :- DecVarint32(s);
      if n > |rest| || !f.ptr.Table? then Fail
      else
        var r := DecodeNoInit(f.ptr.fields, SlotsOf(prior), rest[..n]);
        if r.Fail? then Fail else Ok(VMsg(r.value), rest[n..])
  }

  /** The state after `count` elements `a` of array `i`. */
  function StoreItems(t: seq<Field>, st: State, i: nat, items: Items): State
    requires i < |t|
  {
    var st' := st.(m := Put(st.m, i, Arr(items.a)));
    if t[i].FixedCount() then st'.(fixedCount := items.count) else st'
  }

  /** `*size`: the counter of the struct, or the decoder's own for a fixed-count field. */
  function CountOf(t: seq<Field>, st: State, i: nat): nat
    requires i < |t|
  {
    if t[i].FixedCount() then st.fixedCount else |ItemsOf(At(st.m, i))|
  }

  /** decode_static_field. */
  function DecField(t: seq<Field>, st: State, i: nat, wireType: nat, s: bytes): (r: Parsed<State>)
    requires i < |t|
    ensures r.Ok? ==> |r.rest| < |s|
    decreases |s|, 1
  {
    var f := t[i];
    match f.htype
    case Required =>
      var (v, rest) :- DecValue(f, ValueOf(At(st.m, i)), s);
      Ok(st.(m := Put(st.m, i, Single(v)), seen := st.seen + {i}), rest)
    case Optional =>
      var (v, rest) :- DecValue(f, ValueOf(At(st.m, i)), s);
      Ok(st.(m := Put(st.m, i, if f.Implicit() then Single(v) else Opt(true, v))), rest)
    case Repeated =>
      var a, count := ItemsOf(At(st.m, i)), CountOf(t, st, i);
      if wireType == 2 && f.ltype.Packable() then
        var (n, rest) :- DecVarint32(s);
        if n > |rest| then Fail
        else
          var items := DecPacked(f, a, count, rest[..n]);
          if items.None? then Fail else Ok(StoreItems(t, st, i, items.value), rest[n..])
      else if count >= f.arraySize then Fail
      else
        var (v, rest) :- DecValue(f, InitialValue(f), s);
        Ok(StoreItems(t, st, i, Items(Store(a, count, v), count + 1)), rest)
    case Oneof =>
      var (v, rest) :- DecValue(f, InitialValue(f), s);
      Ok(st.(m := Put(st.m, Leader(t, i), Union(f.tag, v))), rest)
  }

  /** Entering field `i`: a fixed-count field other than the current one may start only when the current
      one is complete. */
  function Enter(t: seq<Field>, st: State, i: nat): Option<State>
    requires i < |t|
  {
    if !t[i].FixedCount() || st.fixed == Some(i) then Some(st)
    else if FixedDone(t, st) then Some(st.(fixed := Some(i), fixedCount := 0))
    else None
  }

  /** One turn of the loop of pb_decode_noinit, after its key.  The terminator of an empty table has tag 0
      and type 0, so there a key with field number 0 finds it and reads a bool nobody sees. */
  function Step(t: seq<Field>, st: State, tag: nat, wireType: nat, s: bytes): (r: Parsed<State>)
    ensures r.Ok? ==> |r.rest| < |s|
    decreases |s|, 2
  {
    var i := Find(t, tag);
    if i.Some? then
      var st' := Enter(t, st, i.value);
      if st'.None? then Fail else DecField(t, st'.value, i.value, wireType, s)
    else if t == [] && tag == 0 then
      var (_, rest) :- DecVarint32(s);
      Ok(st, rest)
    else
      var (_, rest) :- SkipField(wireType, s);
      Ok(st, rest)
  }

  /** The loop of pb_decode_noinit: until the bytes run out, or up to a zero key. */
  function Loop(t: seq<Field>, st: State, s: bytes): (r: Parsed<State>)
    ensures r.Ok? ==> |r.rest| <= |s|
    decreases |s|, 3
  {
    if s == [] then Ok(st, [])
    else
      var (key, rest) :- DecVarint32(s);
      if key == 0 then Ok(st, rest)
      else
        var (st', rest') :- Step(t, st, key / 8, key % 8, rest);
        Loop(t, st', rest')
  }

  lemma LoopEmpty(t: seq<Field>, st: State)
    ensures Loop(t, st, []) == Ok(st, [])
  {
  }

  lemma LoopKey(t: seq<Field>, st: State, s: bytes)
    requires s != []
    ensures var key := DecVarint32(s);
      Loop(t, st, s) ==
      if key.Fail? then Fail
      else if key.value == 0 then Ok(st, key.rest)
      else
        var r := Step(t, st, key.value / 8, key.value % 8, key.rest);
        if r.Ok? then Loop(t, r.value, r.rest) else Fail
  {
    hide DecVarint32, Step;
  }

  lemma StepCases(t: seq<Field>, st: State, tag: nat, wireType: nat, s: bytes)
    ensures var i := Find(t, tag);
      Step(t, st, tag, wireType, s) ==
      if i.Some? then
        var e := Enter(t, st, i.value);
        if e.Some? then DecField(t, e.value, i.value, wireType, s) else Fail
      else if t == [] && tag == 0 then
        if DecVarint32(s).Ok? then Ok(st, DecVarint32(s).rest) else Fail
      else if SkipField(wireType, s).Ok? then Ok(st, SkipField(wireType, s).rest) else Fail
    ensures t == [] ==> Find(t, tag).None?
  {
    hide DecVarint32, DecField, SkipField, Enter;
  }

  /** pb_decode_noinit. */
  function DecodeNoInit(t: seq<Field>, m: seq<Slot>, s: bytes): (r: Parsed<seq<Slot>>)
    ensures r.Ok? ==> |r.rest| <= |s|
    decreases |s|, 4
  {
    var (st, rest) :- Loop(t, Start(m), s);
    if FixedDone(t, st) && RequiredDone(t, st.seen) then Ok(st.m, rest) else Fail
  }

  /** pb_decode. */
  function Decode(t: seq<Field>, s: bytes): Parsed<seq<Slot>> {
    DecodeNoInit(t, InitialMessage(t), s)
  }

  /** pb_decode_delimited. */
  function DecodeDelimited(t: seq<Field>, s: bytes): Parsed<seq<Slot>> {
    var (n, rest) :- DecVarint32(s);
    if n > |rest| || Decode(t, rest[..n]).Fail? then Fail else Ok(Decode(t, rest[..n]).value, rest[n..])
  }
}
