/** Merging as the Protocol Buffers Encoding specification ("Last One Wins") defines it, slot by slot and
    without reference to bytes, and the proof that decoding the encoding of `b` into a struct `a`
    computes exactly that, failures included. */
module Merge {
  import opened Wire
  import opened Descriptor
  import opened DecodeSpec
  import opened EncodeSpec
  import opened Safety

  // ------------------------------------------------------------------ the definition

  /** What arrives at the other end when `v` is sent: a string is cut at its first zero byte, and refused
      if the receiving buffer has no room for the terminator. */
  function Received(f: Field, v: Value): Option<Value> {
    if !f.ltype.LString? then Some(v)
    else if |CStr(BytesOf(v))| + 1 > f.dataSize then None
    else Some(VBytes(CStr(BytesOf(v))))
  }

  /** Scalars are replaced, submessages are merged. */
  function MergeValue(f: Field, a: Value, b: Value): Option<Value>
    decreases f, 0
  {
    if !f.ltype.LSubmessage? then Received(f, b)
    else if !f.ptr.Table? then None
    else
      var m :- MergeMessage(f.ptr.fields, SlotsOf(a), SlotsOf(b));
      Some(VMsg(m))
  }

  /** Array elements are received one by one, each into a fresh element. */
  function ReceivedItems(f: Field, items: seq<Value>): (r: Option<seq<Value>>)
    ensures r.Some? ==> |r.value| == |items|
    decreases f, 1, |items|
  {
    if items == [] then Some([])
    else
      var v :- MergeValue(f, InitialValue(f), items[0]);
      var rest :- ReceivedItems(f, items[1..]);
      Some([v] + rest)
  }

  /** Slot `i` after merging `b` into `a`. */
  function MergeSlot(t: seq<Field>, a: seq<Slot>, b: seq<Slot>, i: nat): Option<Slot>
    requires i < |t|
    decreases t, 0
  {
    var f, x, y := t[i], At(a, i), At(b, i);
    match f.htype
    case Required =>
      var v :- MergeValue(f, ValueOf(x), ValueOf(y));
      Some(Single(v))
    case Optional =>
      if !Sent(t, b, i) then Some(x)
      else
        var v :- MergeValue(f, ValueOf(x), ValueOf(y));
        Some(if f.Implicit() then Single(v) else Opt(true, v))
    case Repeated =>
      if ItemsOf(y) == [] then Some(x)
      else
        var vs :- ReceivedItems(f, ItemsOf(y));
        if f.FixedCount() then Some(Arr(vs))
        else if |ItemsOf(x)| + |vs| > f.arraySize then None
        else Some(Arr(ItemsOf(x) + vs))
    case Oneof =>
      if SharesUnion(t, i) || !y.Union? || !Selects(t, i, y.which) then Some(x)
      else
        var g := t[Find(t, y.which).value];
        var v :- MergeValue(g, InitialValue(g), y.v);
        Some(Union(y.which, v))
  }

  predicate Merges(t: seq<Field>, a: seq<Slot>, b: seq<Slot>)
    decreases t, 1
  {
    forall i :: 0 <= i < |t| ==> MergeSlot(t, a, b, i).Some?
  }

  function MergeMessage(t: seq<Field>, a: seq<Slot>, b: seq<Slot>): (r: Option<seq<Slot>>)
    ensures r.Some? <==> Merges(t, a, b)
    ensures r.Some? ==> |r.value| == |t| && forall i :: 0 <= i < |t| ==> MergeSlot(t, a, b, i) == Some(r.value[i])
    decreases t, 2
  {
    if Merges(t, a, b) then
      Some(seq(|t|, i requires 0 <= i < |t| && MergeSlot(t, a, b, i).Some? => MergeSlot(t, a, b, i).value))
    else None
  }

  /** An optional result as the result of a decoder that leaves `rest`. */
  function Got<T>(r: Option<T>, rest: bytes): Parsed<T> {
    if r.Some? then Ok(r.value, rest) else Fail
  }

  // ------------------------------------------------------------------ scalars

  lemma BytesBack(s: bytes, t: bytes)
    requires |s| < 0x1_0000_0000
    ensures DecVarint32(EncString(s) + t) == Ok(|s|, s + t)
    ensures (s + t)[..|s|] == s && (s + t)[|s|..] == t
  {
    hide DecVarint32, EncVarint;
    NarrowSmall(|s|, s + t);
    assert EncString(s) + t == EncVarint(|s|) + (s + t);
  }

  lemma FixedBack(n: nat, v: nat, t: bytes)
    requires n == 4 || n == 8
    requires InUnsigned(n, v)
    ensures DecFixed(n, LittleEndian(v, n) + t) == Ok(v, t)
  {
    hide LittleEndian, FromLittleEndian, Pow256;
    Pow256Values();
    FixedRoundTrip(v, n);
    var e := LittleEndian(v, n);
    assert (e + t)[..n] == e && (e + t)[n..] == t;
  }

  lemma ScalarBack(f: Field, v: Value, e: bytes, t: bytes)
    requires WellFormedField(f) && TypedValue(f, v) && EncScalar(f, v) == Some(e)
    ensures DecScalar(f, e + t) == Got(Received(f, v), t)
  {
    hide DecVarint32, DecSigned, DecUnsigned, DecZigZag, DecFixed, LittleEndian, EncString, EncVarint, CStr,
      WellFormed, EncSigned, EncUnsigned, EncZigZag;
    match f.ltype {
      case LBool => NarrowSmall(if v.b then 1 else 0, t);
      case LVarint => SignedBack(f, v.n, e, t);
      case LUVarint => UnsignedBack(f, v.n, e, t);
      case LSVarint => ZigZagBack(f, v.n, e, t);
      case LFixed32 => FixedBack(4, v.n, t);
      case LFixed64 => FixedBack(8, v.n, t);
      case LBytes => BytesBack(v.s, t);
      case LString => BytesBack(CStr(v.s), t);
      case LFixedBytes =>
        BytesBack(v.s, t);
        if f.dataSize == 0 { assert v.s == Zeros(0); }
      case LSubmessage =>
      case LExtension =>
    }
  }

  lemma SignedBack(f: Field, n: int, e: bytes, t: bytes)
    requires InSigned(f.dataSize, n) && EncSigned(f.dataSize, n) == Some(e)
    ensures DecSigned(f.dataSize, e + t) == Ok(n, t)
  {
    hide DecSigned, DecUnsigned, DecZigZag, EncVarint;
    WidthRoundTrip(f.dataSize, f.dataSize, n, 0, t);
  }

  lemma UnsignedBack(f: Field, n: nat, e: bytes, t: bytes)
    requires InUnsigned(f.dataSize, n) && EncUnsigned(f.dataSize, n) == Some(e)
    ensures DecUnsigned(f.dataSize, e + t) == Ok(n, t)
  {
    hide DecSigned, DecUnsigned, DecZigZag, EncVarint;
    WidthRoundTrip(f.dataSize, f.dataSize, 0, n, t);
  }

  lemma ZigZagBack(f: Field, n: int, e: bytes, t: bytes)
    requires InSigned(f.dataSize, n) && InSigned(8, n) && EncZigZag(f.dataSize, n) == Some(e)
    ensures DecZigZag(f.dataSize, e + t) == Ok(n, t)
  {
    hide DecSigned, DecUnsigned, DecZigZag, EncVarint;
    WidthRoundTrip(f.dataSize, f.dataSize, n, 0, t);
  }

  // ------------------------------------------------------------------ arrays

  /** Storing elements one after the other from position `k`. */
  function StoreAll(a: seq<Value>, k: nat, vs: seq<Value>): seq<Value>
    decreases |vs|
  {
    if vs == [] then a else StoreAll(Store(a, k, vs[0]), k + 1, vs[1..])
  }

  lemma {:induction false} StoreAllAppends(a: seq<Value>, vs: seq<Value>)
    ensures StoreAll(a, |a|, vs) == a + vs
    decreases |vs|
  {
    if vs == [] {
    } else {
      StoreAllAppends(a + [vs[0]], vs[1..]);
      assert a + [vs[0]] + vs[1..] == a + vs;
    }
  }

  /** The array `a` with `vs` written over it from position `k`. */
  function Overwritten(a: seq<Value>, k: nat, vs: seq<Value>): seq<Value>
    requires k <= |a|
  {
    a[..k] + vs + if k + |vs| < |a| then a[k + |vs|..] else []
  }

  lemma OverwrittenWhole(a: seq<Value>, vs: seq<Value>)
    requires |a| <= |vs|
    ensures Overwritten(a, 0, vs) == vs
  {
  }

  lemma {:induction false} StoreAllOverwrites(a: seq<Value>, k: nat, vs: seq<Value>)
    requires k <= |a|
    ensures StoreAll(a, k, vs) == Overwritten(a, k, vs)
    decreases |vs|
  {
    if vs == [] {
      assert Overwritten(a, k, []) == a;
    } else {
      var a' := Store(a, k, vs[0]);
      StoreAllOverwrites(a', k + 1, vs[1..]);
      assert a'[..k + 1] + vs[1..] == a[..k] + vs;
    }
  }

  lemma {:induction false} StoreAllConcat(a: seq<Value>, k: nat, vs: seq<Value>, ws: seq<Value>)
    ensures StoreAll(a, k, vs + ws) == StoreAll(StoreAll(a, k, vs), k + |vs|, ws)
    decreases |vs|
  {
    if vs == [] {
      assert vs + ws == ws;
    } else {
      assert (vs + ws)[1..] == vs[1..] + ws;
      StoreAllConcat(Store(a, k, vs[0]), k + 1, vs[1..], ws);
    }
  }

  /** The state after the elements `items` of array `i` were received. */
  function Extended(t: seq<Field>, st: State, i: nat, items: seq<Value>): Option<State>
    requires i < |t|
  {
    var vs :- ReceivedItems(t[i], items);
    var count := CountOf(t, st, i);
    if count + |items| > t[i].arraySize then None
    else Some(StoreItems(t, st, i, Items(StoreAll(ItemsOf(At(st.m, i)), count, vs), count + |items|)))
  }

  lemma {:induction false} ReceivedConcat(f: Field, xs: seq<Value>, ys: seq<Value>)
    ensures var p, q := ReceivedItems(f, xs), ReceivedItems(f, ys);
      ReceivedItems(f, xs + ys) == if p.Some? && q.Some? then Some(p.value + q.value) else None
    decreases |xs|
  {
    hide MergeValue, InitialValue;
    if xs == [] {
      assert xs + ys == ys;
      var q := ReceivedItems(f, ys);
      if q.Some? { assert [] + q.value == q.value; }
    } else {
      assert (xs + ys)[1..] == xs[1..] + ys;
      ReceivedConcat(f, xs[1..], ys);
      var v, p, q := MergeValue(f, InitialValue(f), xs[0]), ReceivedItems(f, xs[1..]), ReceivedItems(f, ys);
      if v.Some? && p.Some? && q.Some? {
        assert [v.value] + (p.value + q.value) == [v.value] + p.value + q.value;
      }
    }
  }

  /** Receiving elements in two portions is receiving them at once. */
  lemma ExtendedConcat(t: seq<Field>, st: State, i: nat, xs: seq<Value>, ys: seq<Value>)
    requires i < |t| == |st.m|
    ensures Extended(t, st, i, xs + ys) ==
      if Extended(t, st, i, xs).Some? then Extended(t, Extended(t, st, i, xs).value, i, ys) else None
  {
    hide ReceivedItems, StoreAll;
    var f := t[i];
    ReceivedConcat(f, xs, ys);
    var p, q := ReceivedItems(f, xs), ReceivedItems(f, ys);
    if p.Some? && q.Some? {
      var a, count := ItemsOf(At(st.m, i)), CountOf(t, st, i);
      StoreAllConcat(a, count, p.value, q.value);
      if !f.FixedCount() {
        StoreAllAppends(a, p.value);
      }
      var all := StoreAll(a, count, p.value + q.value);
      var first := StoreAll(a, count, p.value);
      assert CountOf(t, StoreItems(t, st, i, Items(first, count + |xs|)), i) == count + |xs|;
      assert StoreItems(t, StoreItems(t, st, i, Items(first, count + |xs|)), i, Items(all, count + |xs| + |ys|))
        == StoreItems(t, st, i, Items(all, count + |xs| + |ys|));
    }
  }

  lemma ExtendedByNone(t: seq<Field>, st: State, i: nat)
    requires i < |t| == |st.m| && st.m[i].Arr? && CountOf(t, st, i) <= t[i].arraySize
    ensures Extended(t, st, i, []) == Some(st)
  {
    assert ReceivedItems(t[i], []) == Some([]);
    assert StoreAll(st.m[i].items, CountOf(t, st, i), []) == st.m[i].items;
    assert st.m[i := st.m[i]] == st.m;
  }

  // ------------------------------------------------------------------ keys

  /** The key of a declared field leads the loop to that field. */
  lemma KeyTurn(t: seq<Field>, st: State, i: nat, wireType: nat, s: bytes)
    requires WellFormed(t) && i < |t| && !t[i].ltype.LExtension? && wireType < 8
    ensures var st' := Enter(t, st, i);
      var r := if st'.Some? then DecField(t, st'.value, i, wireType, s) else Fail;
      Loop(t, st, EncKey(t[i].tag, wireType) + s) == if r.Ok? then Loop(t, r.value, r.rest) else Fail
  {
    hide DecVarint32, EncVarint, DecField, Enter;
    var key := 8 * t[i].tag + wireType;
    assert WellFormedField(t[i]);
    NarrowSmall(key, s);
    assert key / 8 == t[i].tag && key % 8 == wireType;
    FindOwn(t, i);
  }

  /** A fixed-count field that may be entered is entered by its first key. */
  lemma EnterFirst(t: seq<Field>, st: State, i: nat, wireType: nat, s: bytes)
    requires WellFormed(t) && i < |t| && !t[i].ltype.LExtension? && wireType < 8 && Enter(t, st, i).Some?
    ensures Enter(t, Enter(t, st, i).value, i) == Enter(t, st, i)
    ensures Loop(t, st, EncKey(t[i].tag, wireType) + s)
         == Loop(t, Enter(t, st, i).value, EncKey(t[i].tag, wireType) + s)
  {
    hide DecField, EncVarint, Loop, WellFormed;
    KeyTurn(t, st, i, wireType, s);
    KeyTurn(t, Enter(t, st, i).value, i, wireType, s);
  }

  // ------------------------------------------------------------------ elements

  lemma {:induction false} PackedBack(f: Field, a: seq<Value>, count: nat, items: seq<Value>, e: bytes)
    requires WellFormedField(f) && EncPacked(f, items) == Some(e) && f.ltype.WireType() != 2
    requires forall k :: 0 <= k < |items| ==> TypedValue(f, items[k])
    ensures DecPacked(f, a, count, e) ==
      if items != [] && count + |items| > f.arraySize then None
      else Some(Items(StoreAll(a, count, items), count + |items|))
    decreases |items|
  {
    hide DecScalar, EncScalar, TypedValue, WellFormedField, Store;
    if items == [] {
    } else {
      var v := items[0];
      var e0 := EncScalar(f, v).value;
      var rest := EncPacked(f, items[1..]).value;
      ScalarBack(f, v, e0, rest);
      assert Received(f, v) == Some(v);
      assert e != [];
      PackedBack(f, Store(a, count, v), count + 1, items[1..], rest);
    }
  }

  lemma {:induction false} ReceivedPackable(f: Field, items: seq<Value>)
    requires f.ltype.WireType() != 2
    ensures ReceivedItems(f, items) == Some(items)
    decreases |items|
  {
    hide InitialValue;
    if items == [] {
    } else {
      ReceivedPackable(f, items[1..]);
      assert MergeValue(f, InitialValue(f), items[0]) == Some(items[0]);
      assert [items[0]] + items[1..] == items;
    }
  }

  /** One packed run extends the array by its elements. */
  lemma PackedTurn(t: seq<Field>, st: State, i: nat, items: seq<Value>, e: bytes, s: bytes)
    requires WellFormed(t) && i < |t| == |st.m| && st.m[i].Arr? && t[i].htype.Repeated?
    requires t[i].ltype.WireType() != 2
    requires forall k :: 0 <= k < |items| ==> TypedValue(t[i], items[k])
    requires EncPacked(t[i], items) == Some(e) && |e| < 0x1_0000_0000
    requires Enter(t, st, i) == Some(st) && CountOf(t, st, i) <= t[i].arraySize
    ensures var r := Extended(t, st, i, items);
      Loop(t, st, EncKey(t[i].tag, 2) + EncString(e) + s) == if r.Some? then Loop(t, r.value, s) else Fail
  {
    hide DecVarint32, EncString, EncPacked, DecPacked, TypedValue, WellFormedField, StoreAll, Loop, Enter,
      ReceivedItems, EncVarint;
    var f := t[i];
    assert WellFormedField(f);
    var a, count := st.m[i].items, CountOf(t, st, i);
    assert EncKey(f.tag, 2) + EncString(e) + s == EncKey(f.tag, 2) + (EncString(e) + s);
    KeyTurn(t, st, i, 2, EncString(e) + s);
    BytesBack(e, s);
    PackedBack(f, a, count, items, e);
    ReceivedPackable(f, items);
  }

  /** One element with its own key extends the array by that element. */
  lemma ElementTurn(t: seq<Field>, st: State, i: nat, v: Value, e: bytes, s: bytes)
    requires WellFormed(t) && i < |t| == |st.m| && t[i].htype.Repeated? && !t[i].ltype.LExtension?
    requires Enter(t, st, i) == Some(st)
    requires DecValue(t[i], InitialValue(t[i]), e + s) == Got(MergeValue(t[i], InitialValue(t[i]), v), s)
    ensures var r := Extended(t, st, i, [v]);
      Loop(t, st, EncKeyOf(t[i]) + e + s) == if r.Some? then Loop(t, r.value, s) else Fail
  {
    hide DecVarint32, DecValue, MergeValue, InitialValue, WellFormed, Loop, Enter, Store, EncVarint;
    var f := t[i];
    assert EncKeyOf(f) + e + s == EncKeyOf(f) + (e + s);
    KeyTurn(t, st, i, f.ltype.WireType(), e + s);
    OneReceived(f, v);
    var a, count := ItemsOf(At(st.m, i)), CountOf(t, st, i);
    var r := MergeValue(f, InitialValue(f), v);
    if r.Some? {
      assert StoreAll(a, count, [r.value]) == Store(a, count, r.value) by { OneStored(a, count, r.value); }
    }
  }

  lemma OneStored(a: seq<Value>, k: nat, v: Value)
    ensures StoreAll(a, k, [v]) == Store(a, k, v)
  {
    assert StoreAll(Store(a, k, v), k + 1, []) == Store(a, k, v);
  }

  lemma OneReceived(f: Field, v: Value)
    ensures ReceivedItems(f, [v]) ==
      var r := MergeValue(f, InitialValue(f), v); if r.Some? then Some([r.value]) else None
  {
    hide MergeValue, InitialValue;
    assert ReceivedItems(f, [v][1..]) == Some([]);
    var r := MergeValue(f, InitialValue(f), v);
    if r.Some? { assert [r.value] + [] == [r.value]; }
  }

  // ------------------------------------------------------------------ the induction

  lemma {:induction false} ValueBack(f: Field, prior: Value, v: Value, e: bytes, s: bytes)
    requires WellFormedField(f) && PlainField(f) && TypedValue(f, prior)
    requires TypedValue(f, v) && CompleteValue(f, v) && EncValue(f, v) == Some(e) && |e| < 0x1_0000_0000
    ensures DecValue(f, prior, e + s) == Got(MergeValue(f, prior, v), s)
    decreases f, 0
  {
    hide DecVarint32, DecScalar, EncScalar, DecodeNoInit, EncMessage, EncString, MergeMessage, Typed, Complete,
      WellFormed, Plain, Received;
    if !f.ltype.LSubmessage? {
      ScalarBack(f, v, e, s);
    } else {
      var e' := EncMessage(f.ptr.fields, v.slots).value;
      StringLonger(e');
      BytesBack(e', s);
      MessageBack(f.ptr.fields, prior.slots, v.slots, e');
    }
  }

  lemma StringLonger(p: bytes)
    ensures |p| < |EncString(p)|
  {
  }

  lemma EachFirst(f: Field, items: seq<Value>) returns (e0: bytes, rest: bytes)
    requires !f.ltype.LExtension? && items != [] && EncEach(f, items).Some?
    ensures EncValue(f, items[0]) == Some(e0) && EncEach(f, items[1..]) == Some(rest)
    ensures EncEach(f, items) == Some(EncKeyOf(f) + e0 + rest)
  {
    hide EncValue, EncKeyOf;
    e0 := EncValue(f, items[0]).value;
    rest := EncEach(f, items[1..]).value;
  }

  /** The unpacked form of an array extends it by its elements. */
  lemma {:induction false} EachBack(t: seq<Field>, st: State, i: nat, items: seq<Value>, e: bytes, s: bytes)
    requires WellFormed(t) && Plain(t) && i < |t| == |st.m| && st.m[i].Arr? && t[i].htype.Repeated?
    requires !t[i].ltype.LExtension?
    requires forall k :: 0 <= k < |items| ==> TypedValue(t[i], items[k]) && CompleteValue(t[i], items[k])
    requires EncEach(t[i], items) == Some(e) && |e| < 0x1_0000_0000
    requires Enter(t, st, i) == Some(st) && CountOf(t, st, i) <= t[i].arraySize
    ensures var r := Extended(t, st, i, items);
      Loop(t, st, e + s) == if r.Some? then Loop(t, r.value, s) else Fail
    decreases t[i], 1, |items|
  {
    hide DecValue, EncValue, TypedValue, CompleteValue, WellFormedField, PlainField, Loop, Extended, MergeValue,
      InitialValue, StoreAll, Enter;
    var f := t[i];
    assert WellFormedField(f) && PlainField(f);
    if items == [] {
      ExtendedByNone(t, st, i);
      assert e + s == s;
    } else {
      var v := items[0];
      var e0, rest := EachFirst(f, items);
      assert e + s == EncKeyOf(f) + e0 + (rest + s);
      InitialValueTyped(f);
      ValueBack(f, InitialValue(f), v, e0, rest + s);
      ElementTurn(t, st, i, v, e0, rest + s);
      assert [v] + items[1..] == items;
      ExtendedConcat(t, st, i, [v], items[1..]);
      var r := Extended(t, st, i, [v]);
      if r.Some? {
        ExtendedKeeps(t, st, i, [v]);
        EachBack(t, r.value, i, items[1..], rest, s);
      }
    }
  }

  lemma ExtendedKeeps(t: seq<Field>, st: State, i: nat, items: seq<Value>)
    requires i < |t| == |st.m| && Extended(t, st, i, items).Some?
    ensures var st' := Extended(t, st, i, items).value;
      |st'.m| == |t| && st'.m[i].Arr? && CountOf(t, st', i) <= t[i].arraySize
      && (Enter(t, st, i) == Some(st) ==> Enter(t, st', i) == Some(st'))
  {
    hide ReceivedItems, StoreAll;
    var f := t[i];
    var vs := ReceivedItems(f, items).value;
    if !f.FixedCount() { StoreAllAppends(ItemsOf(At(st.m, i)), vs); }
  }

  /** An array field as the encoder writes it. */
  lemma {:induction false} ArrayBack(t: seq<Field>, st: State, i: nat, items: seq<Value>, e: bytes, s: bytes)
    requires WellFormed(t) && Plain(t) && i < |t| == |st.m| && st.m[i].Arr? && t[i].htype.Repeated?
    requires !t[i].ltype.LExtension? && items != []
    requires forall k :: 0 <= k < |items| ==> TypedValue(t[i], items[k]) && CompleteValue(t[i], items[k])
    requires EncArray(t[i], items) == Some(e) && |e| < 0x1_0000_0000
    requires Enter(t, st, i).Some? && CountOf(t, Enter(t, st, i).value, i) <= t[i].arraySize
    ensures var r := Extended(t, Enter(t, st, i).value, i, items);
      Loop(t, st, e + s) == if r.Some? then Loop(t, r.value, s) else Fail
    decreases t[i], 2
  {
    hide EncValue, TypedValue, CompleteValue, Loop, Extended, EncVarint, EncString, EncPacked, PlainField,
      WellFormedField;
    var f := t[i];
    var st1 := Enter(t, st, i).value;
    if f.ltype.Packable() {
      var p := EncPacked(f, items).value;
      assert |p| <= |e| by { PackedSmaller(f, p); }
      assert e + s == EncKey(f.tag, 2) + (EncString(p) + s);
      EnterFirst(t, st, i, 2, EncString(p) + s);
      assert EncKey(f.tag, 2) + (EncString(p) + s) == EncKey(f.tag, 2) + EncString(p) + s;
      PackedTurn(t, st1, i, items, p, s);
    } else {
      var e0, rest := EachFirst(f, items);
      assert e + s == EncKeyOf(f) + (e0 + rest + s);
      EnterFirst(t, st, i, f.ltype.WireType(), e0 + rest + s);
      EachBack(t, st1, i, items, e, s);
    }
  }

  lemma PackedSmaller(f: Field, p: bytes)
    ensures |p| <= |EncKey(f.tag, 2) + EncString(p)|
  {
  }

  // ------------------------------------------------------------------ progress through a message

  /** Has slot `k` got its final contents once the entries before `i` were read? */
  predicate Settled(t: seq<Field>, b: seq<Slot>, k: nat, i: nat)
    requires k < |t|
  {
    if t[k].htype.Oneof? then
      var y := At(b, k);
      !SharesUnion(t, k) && y.Union? && Selects(t, k, y.which) ==> Find(t, y.which).value < i
    else k < i
  }

  ghost predicate SlotProgress(t: seq<Field>, a: seq<Slot>, b: seq<Slot>, x: Slot, k: nat, i: nat)
    requires k < |t| == |a|
  {
    if Settled(t, b, k, i) then MergeSlot(t, a, b, k) == Some(x) else x == a[k]
  }

  /** A fixed-count field that is written at all. */
  predicate NonemptyFixed(t: seq<Field>, i: nat)
    requires i < |t|
  {
    t[i].FixedCount() && t[i].arraySize > 0
  }

  /** The first such field from entry `i` on. */
  function FirstFixed(t: seq<Field>, i: nat): (r: Option<nat>)
    requires i <= |t|
    ensures r.Some? ==>
      i <= r.value < |t| && NonemptyFixed(t, r.value) && forall k :: i <= k < r.value ==> !NonemptyFixed(t, k)
    ensures r.None? ==> forall k :: i <= k < |t| ==> !NonemptyFixed(t, k)
    decreases |t| - i
  {
    if i == |t| then None else if NonemptyFixed(t, i) then Some(i) else FirstFixed(t, i + 1)
  }

  /** The last such field from entry `i` on, or else `prior`. */
  function LastFixed(t: seq<Field>, i: nat, prior: Option<nat>): (r: Option<nat>)
    requires i <= |t|
    ensures r != prior ==>
      && r.Some? && i <= r.value < |t| && NonemptyFixed(t, r.value)
      && forall k :: r.value < k < |t| ==> !NonemptyFixed(t, k)
    ensures (prior.Some? ==> prior.value < i) ==> (r == prior <==> forall k :: i <= k < |t| ==> !NonemptyFixed(t, k))
    decreases |t| - i
  {
    if i == |t| then prior else LastFixed(t, i + 1, if NonemptyFixed(t, i) then Some(i) else prior)
  }

  /** May the entries from `i` on be received?  Not if the first fixed-count field among them is the one
      received last: its elements would be taken for more elements of that run. */
  predicate Ready(t: seq<Field>, st: State, i: nat)
    requires i <= |t|
  {
    FirstFixed(t, i).Some? ==> st.fixed != FirstFixed(t, i)
  }

  /** The decoder's state after the entries before `i`, as written from `b`, were read. */
  ghost predicate Progress(t: seq<Field>, a: seq<Slot>, b: seq<Slot>, st: State, i: nat) {
    && |st.m| == |t| == |a|
    && (forall k :: 0 <= k < |t| ==> SlotProgress(t, a, b, st.m[k], k, i))
    && FixedDone(t, st)
    && (st.fixed.Some? ==> st.fixed.value < |t| && NonemptyFixed(t, st.fixed.value))
    && (forall k :: 0 <= k < |t| && k < i && t[k].htype.Required? ==> k in st.seen)
  }

  lemma SettledByOthers(t: seq<Field>, b: seq<Slot>, k: nat, i: nat)
    requires k < |t| && i < |t|
    requires k != Leader(t, i) || (t[i].htype.Oneof? && !Sent(t, b, i))
    ensures Settled(t, b, k, i + 1) == Settled(t, b, k, i)
  {
  }

  lemma NothingWritten(t: seq<Field>, a: seq<Slot>, b: seq<Slot>, st: State, i: nat)
    requires WellFormed(t) && i < |t| && Typed(t, b) && Progress(t, a, b, st, i)
    requires if t[i].htype.Repeated? then ItemsOf(At(b, i)) == [] else !Sent(t, b, i)
    ensures Progress(t, a, b, st, i + 1)
  {
    hide MergeSlot, FixedDone, WellFormed, Typed;
    forall k | 0 <= k < |t| ensures SlotProgress(t, a, b, st.m[k], k, i + 1) {
      assert SlotProgress(t, a, b, st.m[k], k, i);
      if k != Leader(t, i) || t[i].htype.Oneof? {
        SettledByOthers(t, b, k, i);
      } else {
        assert MergeSlot(t, a, b, i) == Some(a[i]) by { NothingMerged(t, a, b, i); }
      }
    }
  }

  lemma NothingMerged(t: seq<Field>, a: seq<Slot>, b: seq<Slot>, i: nat)
    requires i < |t| == |a| && (t[i].htype.Optional? || t[i].htype.Repeated?)
    requires if t[i].htype.Repeated? then ItemsOf(At(b, i)) == [] else !Sent(t, b, i)
    ensures MergeSlot(t, a, b, i) == Some(a[i])
  {
    hide MergeValue, Sent;
  }

  /** Writing the merged contents of the slot of entry `i` is progress. */
  lemma SlotWritten(t: seq<Field>, a: seq<Slot>, b: seq<Slot>, m: seq<Slot>, i: nat, x: Slot)
    requires i < |t| == |m| == |a|
    requires forall k :: 0 <= k < |t| ==> SlotProgress(t, a, b, m[k], k, i)
    requires MergeSlot(t, a, b, Leader(t, i)) == Some(x)
    requires t[i].htype.Oneof? && Sent(t, b, i) ==> Find(t, t[i].tag) == Some(i)
    requires t[i].htype.Oneof? ==> Sent(t, b, i)
    ensures var m' := Put(m, Leader(t, i), x);
      forall k :: 0 <= k < |t| ==> SlotProgress(t, a, b, m'[k], k, i + 1)
  {
    hide MergeSlot;
    var m' := Put(m, Leader(t, i), x);
    forall k | 0 <= k < |t| ensures SlotProgress(t, a, b, m'[k], k, i + 1) {
      assert SlotProgress(t, a, b, m[k], k, i);
      if k != Leader(t, i) { SettledByOthers(t, b, k, i); }
    }
  }

  /** A required or optional field that is present. */
  lemma {:induction false} SingleBack(t: seq<Field>, a: seq<Slot>, b: seq<Slot>, st: State, i: nat, e: bytes,
        s: bytes)
    returns (fin: State)
    requires WellFormed(t) && Plain(t) && Typed(t, a) && Typed(t, b) && Complete(t, b)
    requires i < |t| && (t[i].htype.Required? || t[i].htype.Optional?) && Sent(t, b, i)
    requires Progress(t, a, b, st, i) && EncField(t, b, i) == Some(e) && |e| < 0x1_0000_0000
    ensures if MergeSlot(t, a, b, i).Some? then Loop(t, st, e + s) == Loop(t, fin, s) && Progress(t, a, b, fin, i + 1)
            else Loop(t, st, e + s).Fail?
    ensures fin.fixed == st.fixed
    decreases t[i], 2
  {
    hide DecValue, EncValue, Loop, EncVarint, DecVarint32, WellFormed, Plain, PlainField, WellFormedField, MergeValue,
      Typed, Complete, TypedValue, CompleteValue;
    var f := t[i];
    assert WellFormedField(f) && PlainField(f) by { FieldFacts(t, i); }
    TypedAt(t, a, i);
    TypedAt(t, b, i);
    assert CompleteSlot(t, b, i) by { CompleteAt(t, b, i); }
    assert SlotProgress(t, a, b, st.m[i], i, i);
    var e0 := EncValue(f, b[i].v).value;
    assert e + s == EncKeyOf(f) + (e0 + s);
    KeyTurn(t, st, i, f.ltype.WireType(), e0 + s);
    ValueBack(f, a[i].v, b[i].v, e0, s);
    fin := st;
    var r := MergeValue(f, a[i].v, b[i].v);
    if r.Some? {
      var x := MergeSlot(t, a, b, i).value;
      fin := st.(m := Put(st.m, i, x), seen := if f.htype.Required? then st.seen + {i} else st.seen);
      SlotWritten(t, a, b, st.m, i, x);
    }
  }

  /** The selected member of a union. */
  lemma {:induction false} MemberBack(t: seq<Field>, a: seq<Slot>, b: seq<Slot>, st: State, i: nat, e: bytes,
        s: bytes)
    returns (fin: State)
    requires WellFormed(t) && Plain(t) && Typed(t, a) && Typed(t, b) && Complete(t, b)
    requires i < |t| && t[i].htype.Oneof? && Sent(t, b, i)
    requires Progress(t, a, b, st, i) && EncField(t, b, i) == Some(e) && |e| < 0x1_0000_0000
    ensures if MergeSlot(t, a, b, Leader(t, i)).Some?
            then Loop(t, st, e + s) == Loop(t, fin, s) && Progress(t, a, b, fin, i + 1)
            else Loop(t, st, e + s).Fail?
    ensures fin.fixed == st.fixed
    decreases t[i], 2
  {
    hide DecValue, EncValue, Loop, EncVarint, DecVarint32, WellFormed, Plain, PlainField, WellFormedField, MergeValue,
      Typed, Complete, TypedValue, CompleteValue, InitialValue, Leader, Find;
    var f, k := t[i], Leader(t, i);
    assert WellFormedField(f) && PlainField(f) by { FieldFacts(t, i); }
    assert DistinctTags(t) by { TableTags(t); }
    FindOwn(t, i);
    LeaderStarts(t, i);
    TypedAt(t, b, k);
    assert CompleteSlot(t, b, i) by { CompleteAt(t, b, i); }
    var v := b[k].v;
    var e0 := EncValue(f, v).value;
    assert e + s == EncKeyOf(f) + (e0 + s);
    KeyTurn(t, st, i, f.ltype.WireType(), e0 + s);
    InitialValueTyped(f);
    ValueBack(f, InitialValue(f), v, e0, s);
    fin := st;
    var r := MergeValue(f, InitialValue(f), v);
    if r.Some? {
      fin := st.(m := Put(st.m, k, Union(f.tag, r.value)));
      SlotWritten(t, a, b, st.m, i, Union(f.tag, r.value));
    }
  }

  /** An array with at least one element. */
  lemma {:induction false} ItemsBack(t: seq<Field>, a: seq<Slot>, b: seq<Slot>, st: State, i: nat, e: bytes, s: bytes)
    returns (fin: State)
    requires WellFormed(t) && Plain(t) && Typed(t, a) && Typed(t, b) && Complete(t, b)
    requires i < |t| && t[i].htype.Repeated? && ItemsOf(At(b, i)) != []
    requires Progress(t, a, b, st, i) && EncField(t, b, i) == Some(e) && |e| < 0x1_0000_0000
    ensures if MergeSlot(t, a, b, i).Some? && !(NonemptyFixed(t, i) && st.fixed == Some(i))
            then Loop(t, st, e + s) == Loop(t, fin, s) && Progress(t, a, b, fin, i + 1)
              && fin.fixed == (if NonemptyFixed(t, i) then Some(i) else st.fixed)
            else Loop(t, st, e + s).Fail?
    decreases t[i], 3
  {
    hide Loop, WellFormed, Plain, PlainField, WellFormedField, Typed, Complete, TypedValue, CompleteValue, EncArray,
      ReceivedItems, StoreAll, Find;
    var f, items := t[i], ItemsOf(At(b, i));
    assert !f.ltype.LExtension? by { FieldFacts(t, i); }
    TypedAt(t, a, i);
    TypedAt(t, b, i);
    assert CompleteSlot(t, b, i) by { CompleteAt(t, b, i); }
    assert SlotProgress(t, a, b, st.m[i], i, i);
    var st1 := Enter(t, st, i).value;
    ArrayBack(t, st, i, items, e, s);
    var r := Extended(t, st1, i, items);
    fin := st;
    if f.FixedCount() && st.fixed == Some(i) {
      return;
    }
    ExtendedIsMerged(t, a, b, st1, i);
    if r.Some? {
      fin := r.value;
      SlotWritten(t, a, b, st.m, i, Arr(fin.m[i].items));
    }
  }

  /** Appending to a counted array, or filling a fixed-count array from its start. */
  lemma ExtendedIsMerged(t: seq<Field>, a: seq<Slot>, b: seq<Slot>, st: State, i: nat)
    requires i < |t| == |a| == |b| == |st.m| && t[i].htype.Repeated? && b[i].Arr? && b[i].items != []
    requires a[i] == st.m[i] && a[i].Arr? && |a[i].items| <= t[i].arraySize
    requires t[i].FixedCount() ==> |b[i].items| == t[i].arraySize && st.fixedCount == 0
    ensures var r, x := Extended(t, st, i, b[i].items), MergeSlot(t, a, b, i);
      r.Some? == x.Some? && (r.Some? ==>
        x.Some? && x.value.Arr? &&
        r.value == st.(m := st.m[i := x.value],
          fixedCount := if t[i].FixedCount() then t[i].arraySize else st.fixedCount))
  {
    hide ReceivedItems, StoreAll, Overwritten;
    var r := ReceivedItems(t[i], b[i].items);
    if r.Some? {
      if t[i].FixedCount() {
        StoreAllOverwrites(a[i].items, 0, r.value);
        OverwrittenWhole(a[i].items, r.value);
      } else {
        StoreAllAppends(a[i].items, r.value);
      }
    }
  }

  /** The bytes of one entry. */
  lemma {:induction false} FieldBack(t: seq<Field>, a: seq<Slot>, b: seq<Slot>, st: State, i: nat, e: bytes, s: bytes)
    returns (fin: State)
    requires WellFormed(t) && Plain(t) && Typed(t, a) && Typed(t, b) && Complete(t, b) && i < |t|
    requires Progress(t, a, b, st, i) && EncField(t, b, i) == Some(e) && |e| < 0x1_0000_0000
    ensures (Loop(t, st, e + s) == Loop(t, fin, s) && Progress(t, a, b, fin, i + 1)
             && fin.fixed == (if NonemptyFixed(t, i) then Some(i) else st.fixed)
             && !(NonemptyFixed(t, i) && st.fixed == Some(i)))
         || (Loop(t, st, e + s).Fail? && (!Merges(t, a, b) || (NonemptyFixed(t, i) && st.fixed == Some(i))))
    decreases t[i], 4
  {
    hide Loop, WellFormed, Plain, Typed, Complete, MergeSlot, Progress;
    FieldFacts(t, i);
    var f := t[i];
    if (if f.htype.Repeated? then ItemsOf(At(b, i)) == [] else !Sent(t, b, i)) {
      fin := st;
      assert e + s == s;
      NothingWritten(t, a, b, st, i);
      assert CompleteSlot(t, b, i) by { CompleteAt(t, b, i); }
      assert f.FixedCount() ==> f.arraySize == 0;
    } else if f.htype.Repeated? {
      fin := ItemsBack(t, a, b, st, i, e, s);
    } else if f.htype.Oneof? {
      fin := MemberBack(t, a, b, st, i, e, s);
    } else {
      fin := SingleBack(t, a, b, st, i, e, s);
    }
  }

  /** The bytes of the entries from `i` on. */
  lemma {:induction false} FromBack(t: seq<Field>, a: seq<Slot>, b: seq<Slot>, st: State, i: nat, e: bytes, s: bytes)
    returns (fin: State)
    requires WellFormed(t) && Plain(t) && Typed(t, a) && Typed(t, b) && Complete(t, b) && i <= |t|
    requires Progress(t, a, b, st, i) && EncFrom(t, b, i) == Some(e) && |e| < 0x1_0000_0000
    ensures if Merges(t, a, b) && Ready(t, st, i)
            then Loop(t, st, e + s) == Loop(t, fin, s) && Progress(t, a, b, fin, |t|)
              && fin.fixed == LastFixed(t, i, st.fixed)
            else Loop(t, st, e + s).Fail?
    decreases t, 0, |t| - i
  {
    hide Loop, WellFormed, Plain, Typed, Complete, MergeSlot, EncField, Find, Selects;
    if i == |t| {
      fin := st;
      assert e + s == s;
      forall k | 0 <= k < |t| ensures MergeSlot(t, a, b, k).Some? {
        assert SlotProgress(t, a, b, st.m[k], k, i);
        AllSettled(t, b, k);
      }
      assert Merges(t, a, b);
    } else {
      var e0, rest := EncField(t, b, i).value, EncFrom(t, b, i + 1).value;
      assert e + s == e0 + (rest + s);
      var st' := FieldBack(t, a, b, st, i, e0, rest + s);
      fin := st';
      if Loop(t, st, e0 + (rest + s)) == Loop(t, st', rest + s) && Progress(t, a, b, st', i + 1) {
        fin := FromBack(t, a, b, st', i + 1, rest, s);
      }
    }
  }

  lemma AllSettled(t: seq<Field>, b: seq<Slot>, k: nat)
    requires k < |t|
    ensures Settled(t, b, k, |t|)
  {
  }

  lemma ProgressStart(t: seq<Field>, a: seq<Slot>, b: seq<Slot>)
    requires |a| == |t|
    ensures Progress(t, a, b, Start(a), 0)
  {
    hide MergeValue, ReceivedItems;
    forall k | 0 <= k < |t| ensures SlotProgress(t, a, b, a[k], k, 0) {
      if Settled(t, b, k, 0) { assert MergeSlot(t, a, b, k) == Some(a[k]); }
    }
  }

  lemma ProgressEnd(t: seq<Field>, a: seq<Slot>, b: seq<Slot>, st: State)
    requires Progress(t, a, b, st, |t|) && Merges(t, a, b)
    ensures FixedDone(t, st) && RequiredDone(t, st.seen) && MergeMessage(t, a, b) == Some(st.m)
  {
    hide MergeSlot;
    forall k | 0 <= k < |t| ensures MergeSlot(t, a, b, k) == Some(st.m[k]) {
      assert SlotProgress(t, a, b, st.m[k], k, |t|);
      AllSettled(t, b, k);
    }
    assert MergeMessage(t, a, b).value == st.m;
  }

  /** Decoding the encoding of `b` into `a` yields the merge of `b` into `a`, and fails exactly when
      there is none. */
  lemma {:induction false} MessageBack(t: seq<Field>, a: seq<Slot>, b: seq<Slot>, e: bytes)
    requires WellFormed(t) && Plain(t) && Typed(t, a) && Typed(t, b) && Complete(t, b)
    requires EncMessage(t, b) == Some(e) && |e| < 0x1_0000_0000
    ensures DecodeNoInit(t, a, e) == Got(MergeMessage(t, a, b), [])
    decreases t, 2
  {
    hide WellFormed, Plain, Typed, Complete, MergeSlot, EncFrom, Progress, FixedDone, RequiredDone, Merges;
    assert |a| == |t| by { SameLength(t, a); }
    ProgressStart(t, a, b);
    var fin := FromBack(t, a, b, Start(a), 0, e, []);
    assert e + [] == e;
    if Merges(t, a, b) { ProgressEnd(t, a, b, fin); }
  }

  lemma SameLength(t: seq<Field>, m: seq<Slot>)
    requires Typed(t, m)
    ensures |m| == |t|
  {
  }
}
