/** Whatever the input bytes, decoding into a struct that matches its table leaves a struct that matches
    it: every count within its array, every byte array and every terminated string within its buffer,
    every integer within its width. */
module Safety {
  import opened Wire
  import opened Descriptor
  import opened DecodeSpec

  lemma FixedInWidth(n: nat, s: bytes)
    requires n == 4 || n == 8
    requires DecFixed(n, s).Ok?
    ensures InUnsigned(n, DecFixed(n, s).value)
  {
    hide FromLittleEndian;
    FixedBound(s[..n]);
    Pow256Values();
  }

  lemma ScalarTyped(f: Field, s: bytes, bound: Bound := Counted)
    requires WellFormedField(f) && DecScalar(f, s).Ok?
    ensures TypedValue(f, DecScalar(f, s).value, bound)
  {
    hide DecVarint32, DecVarint64, DecFixed, WellFormed;
    match f.ltype {
      case LFixed32 => FixedInWidth(4, s);
      case LFixed64 => FixedInWidth(8, s);
      case _ =>
    }
  }

  ghost predicate TypedItems(f: Field, a: seq<Value>, bound: Bound := Counted) {
    |a| <= Limit(f, bound) && forall k :: 0 <= k < |a| ==> TypedValue(f, a[k], bound)
  }

  lemma StoreTyped(f: Field, a: seq<Value>, k: nat, v: Value, bound: Bound := Counted)
    requires WellFormedField(f) && TypedItems(f, a, bound) && k < f.arraySize && TypedValue(f, v, bound)
    ensures TypedItems(f, Store(a, k, v), bound)
  {
    hide WellFormed;
  }

  lemma {:induction false} PackedTyped(f: Field, a: seq<Value>, count: nat, s: bytes, bound: Bound := Counted)
    requires WellFormedField(f) && TypedItems(f, a, bound) && DecPacked(f, a, count, s).Some?
    ensures TypedItems(f, DecPacked(f, a, count, s).value.a, bound)
    decreases |s|
  {
    hide DecScalar, TypedItems, WellFormedField, Store;
    if s == [] {
    } else {
      var r := DecScalar(f, s);
      ScalarTyped(f, s, bound);
      StoreTyped(f, a, count, r.value, bound);
      PackedTyped(f, Store(a, count, r.value), count + 1, r.rest, bound);
    }
  }

  lemma {:induction false} ValueTyped(f: Field, prior: Value, s: bytes, bound: Bound := Counted)
    requires bound.Fitting? ==> DefaultFits(f)
    requires WellFormedField(f) && TypedValue(f, prior, bound) && DecValue(f, prior, s).Ok?
    ensures TypedValue(f, DecValue(f, prior, s).value, bound)
    decreases |s|, 0
  {
    hide DecVarint32, DecScalar, DecodeNoInit;
    if !f.ltype.LSubmessage? {
      ScalarTyped(f, s, bound);
    } else {
      var k := DecVarint32(s);
      NoInitTyped(f.ptr.fields, prior.slots, k.rest[..k.value], bound);
    }
  }

  /** Replacing one slot by one that fits keeps the struct typed. */
  lemma PutTyped(t: seq<Field>, m: seq<Slot>, i: nat, x: Slot, bound: Bound := Counted)
    requires Typed(t, m, bound) && i < |t| && TypedSlot(t, i, x, bound)
    ensures Typed(t, Put(m, i, x), bound)
  {
  }

  lemma UnionTyped(t: seq<Field>, m: seq<Slot>, i: nat, v: Value, bound: Bound := Counted)
    requires WellFormed(t) && Typed(t, m, bound) && i < |t| && t[i].htype.Oneof? && !t[i].ltype.LExtension?
    requires TypedValue(t[i], v, bound)
    ensures Typed(t, Put(m, Leader(t, i), Union(t[i].tag, v)), bound)
  {
    hide WellFormedField, TypedValue;
    LeaderStarts(t, i);
    FindOwn(t, i);
    PutTyped(t, m, Leader(t, i), Union(t[i].tag, v), bound);
  }

  lemma {:induction false} FieldTyped(t: seq<Field>, st: State, i: nat, wireType: nat, s: bytes,
      bound: Bound := Counted)
    requires bound.Fitting? ==> DefaultsFit(t)
    requires WellFormed(t) && Typed(t, st.m, bound) && i < |t| && !t[i].ltype.LExtension?
    requires DecField(t, st, i, wireType, s).Ok?
    ensures Typed(t, DecField(t, st, i, wireType, s).value.m, bound)
    decreases |s|, 1
  {
    hide DecVarint32, DecValue, DecPacked, Typed, TypedValue, Store, WellFormedField, InitialValue, DistinctTags,
      Find, Leader;
    var f := t[i];
    assert WellFormedField(f) && (bound.Fitting? ==> DefaultFits(f));
    assert TypedSlot(t, i, st.m[i], bound) && |st.m| == |t| by { TypedAt(t, st.m, i, bound); }
    InitialValueTyped(f, bound);
    match f.htype {
      case Required =>
        ValueTyped(f, st.m[i].v, s, bound);
        PutTyped(t, st.m, i, Single(DecValue(f, st.m[i].v, s).value), bound);
      case Optional =>
        ValueTyped(f, st.m[i].v, s, bound);
        var v := DecValue(f, st.m[i].v, s).value;
        PutTyped(t, st.m, i, if f.Implicit() then Single(v) else Opt(true, v), bound);
      case Repeated =>
        var a, count := st.m[i].items, CountOf(t, st, i);
        if wireType == 2 && f.ltype.Packable() {
          var k := DecVarint32(s);
          PackedTyped(f, a, count, k.rest[..k.value], bound);
          PutTyped(t, st.m, i, Arr(DecPacked(f, a, count, k.rest[..k.value]).value.a), bound);
        } else {
          ValueTyped(f, InitialValue(f), s, bound);
          var v := DecValue(f, InitialValue(f), s).value;
          StoreTyped(f, a, count, v, bound);
          PutTyped(t, st.m, i, Arr(Store(a, count, v)), bound);
        }
      case Oneof =>
        ValueTyped(f, InitialValue(f), s, bound);
        UnionTyped(t, st.m, i, DecValue(f, InitialValue(f), s).value, bound);
    }
  }

  lemma TypedAt(t: seq<Field>, m: seq<Slot>, i: nat, bound: Bound := Counted)
    requires Typed(t, m, bound) && i < |t|
    ensures |m| == |t| && TypedSlot(t, i, m[i], bound)
  {
  }

  lemma {:induction false} StepTyped(t: seq<Field>, st: State, tag: nat, wireType: nat, s: bytes,
      bound: Bound := Counted)
    requires bound.Fitting? ==> DefaultsFit(t)
    requires WellFormed(t) && Typed(t, st.m, bound) && Step(t, st, tag, wireType, s).Ok?
    ensures Typed(t, Step(t, st, tag, wireType, s).value.m, bound)
    decreases |s|, 2
  {
    hide DecVarint32, DecField, SkipField, Typed, WellFormed;
    var i := Find(t, tag);
    if i.Some? { FieldTyped(t, Enter(t, st, i.value).value, i.value, wireType, s, bound); }
  }

  lemma {:induction false} LoopTyped(t: seq<Field>, st: State, s: bytes, bound: Bound := Counted)
    requires bound.Fitting? ==> DefaultsFit(t)
    requires WellFormed(t) && Typed(t, st.m, bound) && Loop(t, st, s).Ok?
    ensures Typed(t, Loop(t, st, s).value.m, bound)
    decreases |s|, 3
  {
    hide DecVarint32, Step, Typed, WellFormed;
    var key := DecVarint32(s);
    if s == [] || key.value == 0 {
    } else {
      StepTyped(t, st, key.value / 8, key.value % 8, key.rest, bound);
      var r := Step(t, st, key.value / 8, key.value % 8, key.rest);
      LoopTyped(t, r.value, r.rest, bound);
    }
  }

  lemma {:induction false} NoInitTyped(t: seq<Field>, m: seq<Slot>, s: bytes, bound: Bound := Counted)
    requires bound.Fitting? ==> DefaultsFit(t)
    requires WellFormed(t) && Typed(t, m, bound) && DecodeNoInit(t, m, s).Ok?
    ensures Typed(t, DecodeNoInit(t, m, s).value, bound)
    decreases |s|, 4
  {
    hide Loop, Typed, WellFormed;
    LoopTyped(t, Start(m), s, bound);
  }

  /** On any bytes, a successful decode yields a struct of the table's type: every repeated count at most
      array_size, every integer within its width, every byte array within its buffer and every string with
      room for its terminator, at every depth. */
  lemma DecodedStructTyped(t: seq<Field>, s: bytes)
    requires WellFormed(t) && Decode(t, s).Ok?
    ensures Typed(t, Decode(t, s).value)
    ensures DefaultsFit(t) ==> Typed(t, Decode(t, s).value, Fitting)
  {
    hide DecodeNoInit, Typed, WellFormed;
    InitialTyped(t);
    NoInitTyped(t, InitialMessage(t), s);
    if DefaultsFit(t) {
      InitialTyped(t, Fitting);
      NoInitTyped(t, InitialMessage(t), s, Fitting);
    }
  }
}
