/** Unknown fields at any depth: skipped inside a submessage, they change the lengths around them and
    nothing else. */
module Unknown {
  import opened Wire
  import opened Descriptor
  import opened DecodeSpec
  import opened EncodeSpec
  import opened Concat
  import opened Merge

  /** A place in an encoded message: between two fields, or inside a submessage of entry `i`. */
  datatype Context =
    | Here(before: bytes, after: bytes)
    | Inside(before: bytes, i: nat, wireType: nat, inner: Context, after: bytes)

  /** The table in force at the place. */
  function TableAt(t: seq<Field>, c: Context): seq<Field>
    decreases c
  {
    match c
    case Here(_, _) => t
    case Inside(_, i, _, inner, _) =>
      if i < |t| && t[i].ptr.Table? then TableAt(t[i].ptr.fields, inner) else []
  }

  /** The message with `u` at that place, every length prefix around it adjusted. */
  function Plug(t: seq<Field>, c: Context, u: bytes): bytes
    decreases c
  {
    match c
    case Here(before, after) => before + u + after
    case Inside(before, i, wireType, inner, after) =>
      if i < |t| && t[i].ptr.Table? then
        before + (EncKey(t[i].tag, wireType) + (EncString(Plug(t[i].ptr.fields, inner, u)) + after))
      else before + after
  }

  /** What a submessage of entry `i` is decoded into. */
  function Prior(t: seq<Field>, st: State, i: nat): Value
    requires i < |t|
  {
    if t[i].htype.Repeated? || t[i].htype.Oneof? then InitialValue(t[i]) else ValueOf(At(st.m, i))
  }

  /** What precedes the place are complete fields, at every level, and no payload around it reaches the
      32-bit limit of a length prefix when `u` is there. */
  ghost predicate Proper(t: seq<Field>, m: seq<Slot>, c: Context, u: bytes)
    decreases c
  {
    Fields(t, Start(m), c.before) &&
    (c.Inside? ==>
       && c.i < |t| && t[c.i].ltype.LSubmessage? && t[c.i].ptr.Table? && c.wireType < 8
       && |Plug(t[c.i].ptr.fields, c.inner, u)| < 0x1_0000_0000
       && Proper(t[c.i].ptr.fields, SlotsOf(Prior(t, After(t, Start(m), c.before), c.i)), c.inner, u))
  }

  lemma {:induction false} PlugLonger(t: seq<Field>, m: seq<Slot>, c: Context, u: bytes)
    requires Proper(t, m, c, u)
    ensures |Plug(t, c, [])| <= |Plug(t, c, u)|
    decreases c
  {
    hide EncVarint, Fields, After;
    match c {
      case Here(_, _) =>
      case Inside(before, i, wireType, inner, after) =>
        var sub := t[i].ptr.fields;
        PlugLonger(sub, SlotsOf(Prior(t, After(t, Start(m), before), i)), inner, u);
        PrefixLonger(|Plug(sub, inner, [])|, |Plug(sub, inner, u)|);
    }
  }

  /** A larger length takes no fewer bytes. */
  lemma PrefixLonger(x: nat, y: nat)
    requires x <= y < 0x1_0000_0000
    ensures |EncVarint(ToU64(x))| <= |EncVarint(ToU64(y))|
  {
    hide EncVarint;
    EncVarintLength(y, |EncVarint(y)|);
    EncVarintLength(x, |EncVarint(y)|);
  }

  /** A submessage is decoded from its payload alone: payloads that decode alike are interchangeable, and
      with them their length prefixes. */
  lemma PayloadsAlike(t: seq<Field>, st: State, i: nat, wireType: nat, p: bytes, q: bytes, s: bytes)
    requires WellFormed(t) && i < |t| && t[i].ltype.LSubmessage? && t[i].ptr.Table? && wireType < 8
    requires |p| < 0x1_0000_0000 && |q| < 0x1_0000_0000
    requires var sub, prior := t[i].ptr.fields, SlotsOf(Prior(t, st, i));
      DecodeNoInit(sub, prior, p) == DecodeNoInit(sub, prior, q)
    ensures Loop(t, st, EncKey(t[i].tag, wireType) + (EncString(p) + s))
         == Loop(t, st, EncKey(t[i].tag, wireType) + (EncString(q) + s))
  {
    hide DecVarint32, EncString, EncKey, DecodeNoInit, Loop, InitialValue, WellFormed, DecScalar, DecPacked, Store;
    KeyTurn(t, st, i, wireType, EncString(p) + s);
    KeyTurn(t, st, i, wireType, EncString(q) + s);
    BytesBack(p, s);
    BytesBack(q, s);
  }

  /** Inserting an unknown field between complete fields, at any depth and with all length prefixes adjusted,
      changes neither status, struct nor position. */
  lemma {:induction false} UnknownAnywhere(t: seq<Field>, m: seq<Slot>, c: Context, u: bytes)
    requires WellFormed(t) && Proper(t, m, c, u) && UnknownField(TableAt(t, c), u)
    ensures DecodeNoInit(t, m, Plug(t, c, u)) == DecodeNoInit(t, m, Plug(t, c, []))
    decreases c
  {
    hide WellFormed, Loop, Fields, After, UnknownField, EncKey, EncString;
    match c {
      case Here(a, b) =>
        UnknownFieldsInvisible(t, m, a, u, b);
        assert a + [] + b == a + b;
      case Inside(a, i, wireType, inner, b) =>
        var sub, st := t[i].ptr.fields, After(t, Start(m), a);
        assert WellFormed(sub) by { SubTableWellFormed(t, i); }
        UnknownAnywhere(sub, SlotsOf(Prior(t, st, i)), inner, u);
        PlugLonger(sub, SlotsOf(Prior(t, st, i)), inner, u);
        PayloadsAlike(t, st, i, wireType, Plug(sub, inner, u), Plug(sub, inner, []), b);
        LoopConcat(t, Start(m), a, EncKey(t[i].tag, wireType) + (EncString(Plug(sub, inner, u)) + b));
        LoopConcat(t, Start(m), a, EncKey(t[i].tag, wireType) + (EncString(Plug(sub, inner, [])) + b));
    }
  }

  lemma SubTableWellFormed(t: seq<Field>, i: nat)
    requires WellFormed(t) && i < |t| && t[i].ptr.Table?
    ensures WellFormed(t[i].ptr.fields)
  {
    assert WellFormedField(t[i]);
  }
}
