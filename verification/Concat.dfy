/** Decoding consumes its input left to right: what is accepted from a prefix does not depend on what
    follows, so decoding a concatenation is decoding the second part into the struct left by the first
    ("merging"), and fields with undeclared tags leave no trace. */
module Concat {
  import opened Wire
  import opened Descriptor
  import opened DecodeSpec

  // ------------------------------------------------------------------ more input changes nothing

  lemma SkipExtends(wireType: nat, s: bytes, t: bytes)
    requires SkipField(wireType, s).Ok?
    ensures SkipField(wireType, s + t) == SkipField(wireType, s).Then(t)
  {
    match wireType {
      case 0 =>
        VarintLenExtends(s, t);
        assert (s + t)[VarintLen(s)..] == s[VarintLen(s)..] + t;
      case 2 =>
        DecVarint32Extends(s, t);
        var k := DecVarint32(s);
        assert (k.rest + t)[k.value..] == k.rest[k.value..] + t;
      case 1 => assert (s + t)[8..] == s[8..] + t;
      case _ => assert (s + t)[4..] == s[4..] + t;
    }
  }

  lemma DecFixedExtends(n: nat, s: bytes, t: bytes)
    requires n <= |s|
    ensures DecFixed(n, s + t) == DecFixed(n, s).Then(t)
  {
    assert (s + t)[..n] == s[..n];
    assert (s + t)[n..] == s[n..] + t;
  }

  lemma DecScalarExtends(f: Field, s: bytes, t: bytes)
    requires DecScalar(f, s).Ok?
    ensures DecScalar(f, s + t) == DecScalar(f, s).Then(t)
  {
    hide DecVarint32, DecVarint64, DecFixed;
    match f.ltype {
      case LBool => DecVarint32Extends(s, t);
      case LVarint => DecVarint64Extends(s, t);
      case LUVarint => DecVarint64Extends(s, t);
      case LSVarint => DecVarint64Extends(s, t);
      case LFixed32 => DecFixedNeeds(4, s); DecFixedExtends(4, s, t);
      case LFixed64 => DecFixedNeeds(8, s); DecFixedExtends(8, s, t);
      case LBytes => LengthExtends(s, t);
      case LString => LengthExtends(s, t);
      case LFixedBytes => LengthExtends(s, t);
      case LSubmessage =>
      case LExtension =>
    }
  }

  lemma LengthExtends(s: bytes, t: bytes)
    requires DecVarint32(s).Ok?
    ensures var k := DecVarint32(s);
      DecVarint32(s + t) == k.Then(t)
      && (k.value <= |k.rest| ==>
          (k.rest + t)[..k.value] == k.rest[..k.value] && (k.rest + t)[k.value..] == k.rest[k.value..] + t)
  {
    DecVarint32Extends(s, t);
  }

  lemma DecFixedNeeds(n: nat, s: bytes)
    requires DecFixed(n, s).Ok?
    ensures n <= |s|
  {
  }

  lemma SplitExtends(s: bytes, n: nat, t: bytes)
    requires n <= |s|
    ensures (s + t)[..n] == s[..n] && (s + t)[n..] == s[n..] + t
  {
  }

  lemma DecValueExtends(f: Field, prior: Value, s: bytes, t: bytes)
    requires DecValue(f, prior, s).Ok?
    ensures DecValue(f, prior, s + t) == DecValue(f, prior, s).Then(t)
  {
    hide DecVarint32, DecScalar, DecodeNoInit;
    if !f.ltype.LSubmessage? {
      DecScalarExtends(f, s, t);
    } else {
      DecVarint32Extends(s, t);
      var k := DecVarint32(s);
      SplitExtends(k.rest, k.value, t);
    }
  }

  lemma DecFieldExtends(tab: seq<Field>, st: State, i: nat, wireType: nat, s: bytes, t: bytes)
    requires i < |tab| && DecField(tab, st, i, wireType, s).Ok?
    ensures DecField(tab, st, i, wireType, s + t) == DecField(tab, st, i, wireType, s).Then(t)
  {
    hide DecVarint32, DecValue, DecPacked, StoreItems, InitialValue, Put, At, Store;
    var f := tab[i];
    if f.htype.Repeated? && wireType == 2 && f.ltype.Packable() {
      DecVarint32Extends(s, t);
      var k := DecVarint32(s);
      SplitExtends(k.rest, k.value, t);
    } else if f.htype.Required? || f.htype.Optional? {
      DecValueExtends(f, ValueOf(At(st.m, i)), s, t);
    } else {
      DecValueExtends(f, InitialValue(f), s, t);
    }
  }

  lemma StepExtends(tab: seq<Field>, st: State, tag: nat, wireType: nat, s: bytes, t: bytes)
    requires Step(tab, st, tag, wireType, s).Ok?
    ensures Step(tab, st, tag, wireType, s + t) == Step(tab, st, tag, wireType, s).Then(t)
  {
    hide DecVarint32, DecField, SkipField, Enter;
    var i := Find(tab, tag);
    if i.Some? {
      DecFieldExtends(tab, Enter(tab, st, i.value).value, i.value, wireType, s, t);
    } else if tab == [] && tag == 0 {
      DecVarint32Extends(s, t);
    } else {
      SkipExtends(wireType, s, t);
    }
  }

  // ------------------------------------------------------------------ concatenation

  /** `s` is a sequence of complete fields, accepted from `st` without meeting a zero key. */
  ghost predicate Fields(tab: seq<Field>, st: State, s: bytes)
    decreases |s|
  {
    s == [] ||
    (var key := DecVarint32(s);
     key.Ok? && key.value != 0 &&
     var r := Step(tab, st, key.value / 8, key.value % 8, key.rest);
     r.Ok? && Fields(tab, r.value, r.rest))
  }

  /** The state after a sequence of complete fields. */
  ghost function After(tab: seq<Field>, st: State, s: bytes): State
    requires Fields(tab, st, s)
    ensures Loop(tab, st, s) == Ok(After(tab, st, s), [])
    decreases |s|
  {
    if s == [] then st
    else
      var key := DecVarint32(s);
      var r := Step(tab, st, key.value / 8, key.value % 8, key.rest);
      After(tab, r.value, r.rest)
  }

  /** One turn of the loop, on an input that continues with `t`. */
  lemma LoopTurn(tab: seq<Field>, st: State, s: bytes, t: bytes)
    requires DecVarint32(s).Ok? && DecVarint32(s).value != 0
    requires var key := DecVarint32(s); Step(tab, st, key.value / 8, key.value % 8, key.rest).Ok?
    ensures var key := DecVarint32(s);
      var r := Step(tab, st, key.value / 8, key.value % 8, key.rest);
      Loop(tab, st, s + t) == Loop(tab, r.value, r.rest + t)
  {
    hide DecVarint32, Step;
    var key := DecVarint32(s);
    DecVarint32Extends(s, t);
    StepExtends(tab, st, key.value / 8, key.value % 8, key.rest, t);
  }

  /** The loop over `a + b` is the loop over `b` from the state that `a` leaves. */
  lemma {:induction false} LoopConcat(tab: seq<Field>, st: State, a: bytes, b: bytes)
    requires Fields(tab, st, a)
    ensures Loop(tab, st, a + b) == Loop(tab, After(tab, st, a), b)
    decreases |a|
  {
    hide Loop, Step, DecVarint32;
    if a == [] {
      assert a + b == b;
    } else {
      var key := DecVarint32(a);
      var r := Step(tab, st, key.value / 8, key.value % 8, key.rest);
      LoopTurn(tab, st, a, b);
      LoopConcat(tab, r.value, r.rest, b);
    }
  }

  lemma {:induction false} FieldsConcat(tab: seq<Field>, st: State, a: bytes, b: bytes)
    requires Fields(tab, st, a)
    ensures Fields(tab, st, a + b) <==> Fields(tab, After(tab, st, a), b)
    decreases |a|
  {
    hide Step, DecVarint32, Loop;
    if a == [] {
      assert a + b == b;
    } else {
      var key := DecVarint32(a);
      var r := Step(tab, st, key.value / 8, key.value % 8, key.rest);
      DecVarint32Extends(a, b);
      StepExtends(tab, st, key.value / 8, key.value % 8, key.rest, b);
      FieldsConcat(tab, r.value, r.rest, b);
    }
  }

  predicate NoRequiredNorFixed(tab: seq<Field>) {
    forall i :: 0 <= i < |tab| ==> !tab[i].htype.Required? && !tab[i].FixedCount()
  }

  lemma {:induction false} StateIrrelevant(tab: seq<Field>, st: State, st2: State, s: bytes)
    requires NoRequiredNorFixed(tab) && st.m == st2.m
    ensures Loop(tab, st, s).Ok? == Loop(tab, st2, s).Ok?
    ensures Loop(tab, st, s).Ok? ==>
      Loop(tab, st, s).value.m == Loop(tab, st2, s).value.m && Loop(tab, st, s).rest == Loop(tab, st2, s).rest
    decreases |s|
  {
    hide Step, DecVarint32, SkipField;
    var key := DecVarint32(s);
    if s == [] || key.Fail? || key.value == 0 {
    } else {
      var tag, w := key.value / 8, key.value % 8;
      StepIrrelevant(tab, st, st2, tag, w, key.rest);
      var r, r2 := Step(tab, st, tag, w, key.rest), Step(tab, st2, tag, w, key.rest);
      if r.Ok? { StateIrrelevant(tab, r.value, r2.value, r.rest); }
    }
  }

  lemma StepIrrelevant(tab: seq<Field>, st: State, st2: State, tag: nat, wireType: nat, s: bytes)
    requires NoRequiredNorFixed(tab) && st.m == st2.m
    ensures var r, r2 := Step(tab, st, tag, wireType, s), Step(tab, st2, tag, wireType, s);
      r.Ok? == r2.Ok? && (r.Ok? ==> r.value.m == r2.value.m && r.rest == r2.rest)
  {
    hide DecValue, DecVarint32, SkipField, DecPacked;
    var i := Find(tab, tag);
    if i.Some? { assert !tab[i.value].htype.Required? && !tab[i.value].FixedCount(); }
  }

  /** Without required and fixed-count fields at the top level, the final checks never fail. */
  lemma {:induction false} NeverFixed(tab: seq<Field>, st: State, s: bytes)
    requires NoRequiredNorFixed(tab) && st.fixed.None? && Loop(tab, st, s).Ok?
    ensures Loop(tab, st, s).value.fixed.None?
    decreases |s|
  {
    hide Step, DecVarint32;
    var key := DecVarint32(s);
    if s == [] || key.value == 0 {
    } else {
      var r := Step(tab, st, key.value / 8, key.value % 8, key.rest);
      StepNeverFixed(tab, st, key.value / 8, key.value % 8, key.rest);
      NeverFixed(tab, r.value, r.rest);
    }
  }

  lemma StepNeverFixed(tab: seq<Field>, st: State, tag: nat, wireType: nat, s: bytes)
    requires NoRequiredNorFixed(tab) && st.fixed.None? && Step(tab, st, tag, wireType, s).Ok?
    ensures Step(tab, st, tag, wireType, s).value.fixed.None?
  {
    hide DecValue, DecVarint32, SkipField, DecPacked;
    var i := Find(tab, tag);
    if i.Some? { assert !tab[i.value].FixedCount(); }
  }

  /** Concatenation is merge.  If decoding `a` meets no zero key, then decoding `a + b` has the same
      status and the same struct as decoding `b` without initialisation into the struct left by `a`. */
  lemma ConcatIsMerge(tab: seq<Field>, a: bytes, b: bytes)
    requires NoRequiredNorFixed(tab)
    requires Fields(tab, Start(InitialMessage(tab)), a)
    ensures Decode(tab, a).Ok? && Decode(tab, a).rest == []
    ensures Decode(tab, a + b) == DecodeNoInit(tab, Decode(tab, a).value, b)
  {
    hide Loop, After, Fields;
    var st0 := Start(InitialMessage(tab));
    var st := After(tab, st0, a);
    NeverFixed(tab, st0, a);
    LoopConcat(tab, st0, a, b);
    StateIrrelevant(tab, st, Start(st.m), b);
    if Loop(tab, st, b).Ok? {
      NeverFixed(tab, st, b);
      NeverFixed(tab, Start(st.m), b);
    }
  }

  // ------------------------------------------------------------------ unknown fields

  /** `u` is one complete field with a tag the table does not declare. */
  ghost predicate UnknownField(tab: seq<Field>, u: bytes) {
    var key := DecVarint32(u);
    key.Ok? && key.value != 0 && Find(tab, key.value / 8).None? && !(tab == [] && key.value / 8 == 0) &&
    SkipField(key.value % 8, key.rest) == Ok((), [])
  }

  lemma UnknownStep(tab: seq<Field>, st: State, u: bytes, b: bytes)
    requires UnknownField(tab, u)
    ensures Loop(tab, st, u + b) == Loop(tab, st, b)
  {
    hide DecVarint32, SkipField;
    LoopTurn(tab, st, u, b);
    assert [] + b == b;
  }

  /** Inserting an unknown field between complete fields changes neither status, struct nor position,
      from any struct. */
  lemma UnknownFieldsInvisible(tab: seq<Field>, m: seq<Slot>, a: bytes, u: bytes, b: bytes)
    requires Fields(tab, Start(m), a) && UnknownField(tab, u)
    ensures DecodeNoInit(tab, m, a + u + b) == DecodeNoInit(tab, m, a + b)
  {
    hide Loop, After, Fields, UnknownField;
    LoopConcat(tab, Start(m), a, b);
    assert a + u + b == a + (u + b);
    LoopConcat(tab, Start(m), a, u + b);
    UnknownStep(tab, After(tab, Start(m), a), u, b);
  }

  /** The wire types of which complete fields exist are 0, 1, 2 and 5. */
  lemma UnknownFieldOf(tab: seq<Field>, tag: nat, wireType: nat, payload: bytes)
    requires 0 < tag < 0x2000_0000 && Find(tab, tag).None? && wireType < 8
    requires SkipField(wireType, payload) == Ok((), [])
    ensures UnknownField(tab, EncVarint(8 * tag + wireType) + payload)
    ensures wireType == 0 || wireType == 1 || wireType == 2 || wireType == 5
  {
    hide DecVarint32, EncVarint, FitsNarrow;
    var key := 8 * tag + wireType;
    NarrowSmall(key, payload);
    assert key / 8 == tag && key % 8 == wireType;
  }

  /** A zero byte ends the message, as pb_encode_nullterminated relies on: what precedes it is decoded
      and what follows stays in the stream. */
  lemma ZeroTerminates(tab: seq<Field>, m: seq<Slot>, a: bytes, b: bytes)
    requires Fields(tab, Start(m), a)
    ensures DecodeNoInit(tab, m, a + [0] + b)
         == if DecodeNoInit(tab, m, a).Ok? then Ok(DecodeNoInit(tab, m, a).value, b) else Fail
  {
    hide After, Fields, Step, DecVarint32From;
    assert a + [0] + b == a + ([0] + b);
    LoopConcat(tab, Start(m), a, [0] + b);
    assert ([0] + b)[1..] == b;
  }
}
