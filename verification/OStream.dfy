/** Output streams (pb_ostream_t): writing to a bounded buffer, or only counting bytes ("sizing"). */
module OStreams {
  import opened Bits
  import opened Wire
  import opened EncodeSpec

  /** The value of an output stream: whether it writes, the memory it writes to, and its counters. */
  datatype View = View(writing: bool, mem: bytes, pos: nat, maxSize: nat, bytesWritten: nat)
  {
    /** What is left of max_size lies within the memory. */
    predicate Valid() {
      writing ==> bytesWritten <= maxSize && pos + (maxSize - bytesWritten) <= |mem|
    }

    /** Is there room for `n` more bytes?  A sizing stream always has it. */
    predicate Room(n: nat) {
      writing ==> bytesWritten + n <= maxSize
    }

    /** The stream after `e` was written. */
    function Append(e: bytes): View {
      if writing then View(true, Splice(mem, pos, e), pos + |e|, maxSize, bytesWritten + |e|)
      else View(false, mem, pos, maxSize, bytesWritten + |e|)
    }
  }

  /** `m` with `e` written over it at position `p`. */
  function Splice(m: bytes, p: nat, e: bytes): bytes {
    if p + |e| <= |m| then m[..p] + e + m[p + |e|..] else m
  }

  /** Nothing outside the room of the stream changed. */
  predicate Within(v: View, v': View) {
    && v'.writing == v.writing && v'.maxSize == v.maxSize && v'.bytesWritten >= v.bytesWritten
    && v.Valid() && v'.Valid()
    && (v.writing ==>
         && v'.pos - v.pos == v'.bytesWritten - v.bytesWritten
         && |v'.mem| == |v.mem|
         && v'.mem[..v.pos] == v.mem[..v.pos]
         && v'.mem[v.pos + (v.maxSize - v.bytesWritten)..] == v.mem[v.pos + (v.maxSize - v.bytesWritten)..])
  }

  /** The outcome of a call, sizing or writing alike: it succeeds exactly when there is something to write
      and room for all of it, and then writes exactly that; in any case it stays within its room. */
  predicate Did(v: View, v': View, ok: bool, e: Option<bytes>) {
    && Within(v, v')
    && ok == (e.Some? && v.Room(|e.value|))
    && (ok ==> v' == v.Append(e.value))
  }

  /** Two optional encodings, one after the other. */
  function Joined(e: Option<bytes>, d: Option<bytes>): Option<bytes> {
    if e.Some? && d.Some? then Some(e.value + d.value) else None
  }

  lemma JoinedTwice(a: Option<bytes>, b: Option<bytes>, c: Option<bytes>)
    ensures Joined(a, Joined(b, c)) == Joined(Joined(a, b), c)
  {
    if a.Some? && b.Some? && c.Some? { assert a.value + (b.value + c.value) == a.value + b.value + c.value; }
  }

  lemma JoinedWithNothing(e: Option<bytes>)
    ensures Joined(e, Some([])) == e && Joined(Some([]), e) == e
  {
    if e.Some? { assert [] + e.value == e.value == e.value + []; }
  }

  lemma SpliceTwice(m: bytes, p: nat, e: bytes, d: bytes)
    requires p + |e| + |d| <= |m|
    ensures Splice(Splice(m, p, e), p + |e|, d) == Splice(m, p, e + d)
  {
  }

  lemma SpliceNext(m: bytes, p: nat, e: bytes, j: nat)
    requires p + |e| <= |m| && j < |e|
    ensures |Splice(m, p, e[..j])| == |m| && Splice(m, p, e[..j])[p + j := e[j]] == Splice(m, p, e[..j + 1])
  {
  }

  lemma WithinTwice(v: View, v1: View, v2: View)
    requires Within(v, v1) && Within(v1, v2)
    ensures Within(v, v2)
  {
    if v.writing {
      var limit := v.pos + (v.maxSize - v.bytesWritten);
      assert v2.mem[..v.pos] == v2.mem[..v1.pos][..v.pos];
    }
  }

  /** One call after another. */
  lemma DidThen(v: View, v1: View, v2: View, e: Option<bytes>, ok: bool, d: Option<bytes>)
    requires Did(v, v1, true, e) && Did(v1, v2, ok, d)
    ensures Did(v, v2, ok, Joined(e, d))
  {
    hide Splice;
    WithinTwice(v, v1, v2);
    if ok && v.writing {
      SpliceTwice(v.mem, v.pos, e.value, d.value);
    }
  }

  /** A failed first call, whatever would have followed. */
  lemma DidNot(v: View, v1: View, e: Option<bytes>, d: Option<bytes>)
    requires Did(v, v1, false, e)
    ensures Did(v, v1, false, Joined(e, d))
  {
  }

  lemma DidNothing(v: View)
    requires v.Valid()
    ensures Did(v, v, true, Some([]))
  {
  }

  /** Measuring refines writing: the same encoding, sent once to a stream that only counts and once to a
      buffer, succeeds in the buffer exactly if it could be measured and its measure fits, and then takes
      exactly that much; the buffer's limit is never passed. */
  lemma MeasurePredictsWrite(s: View, s': View, measured: bool, v: View, v': View, ok: bool, e: Option<bytes>)
    requires Did(s, s', measured, e) && !s.writing && Did(v, v', ok, e) && v.writing
    ensures ok <==> measured && v.bytesWritten + (s'.bytesWritten - s.bytesWritten) <= v.maxSize
    ensures ok ==> v'.bytesWritten - v.bytesWritten == s'.bytesWritten - s.bytesWritten
    ensures v'.bytesWritten <= v.maxSize
  {
  }

  /** pb_ostream_t.  Without a buffer there is no callback: the stream only counts. */
  class OStream {
    var buf: array?<byte>
    var pos: nat
    var maxSize: nat
    var bytesWritten: nat

    ghost function Memory(): set<object>
      reads this
    {
      if buf == null then {} else {buf}
    }

    ghost function Now(): View
      reads this, Memory()
    {
      View(buf != null, if buf == null then [] else buf[..], pos, maxSize, bytesWritten)
    }

    /** pb_ostream_from_buffer. */
    constructor FromBuffer(buffer: array<byte>)
      ensures buf == buffer && Now() == View(true, buffer[..], 0, buffer.Length, 0)
    {
      buf := buffer;
      pos := 0;
      maxSize := buffer.Length;
      bytesWritten := 0;
    }

    /** PB_OSTREAM_SIZING. */
    constructor Sizing()
      ensures buf == null && Now() == View(false, [], 0, 0, 0)
    {
      buf := null;
      pos := 0;
      maxSize := 0;
      bytesWritten := 0;
    }

    /** buf_write. */
    method BufWrite(src: bytes)
      requires buf != null && pos + |src| <= buf.Length
      modifies this`pos, buf
      ensures pos == old(pos) + |src| && buf[..] == Splice(old(buf[..]), old(pos), src)
    {
      var dest := pos;
      pos := dest + |src|;
      for i := 0 to |src|
        invariant buf == old(buf) && pos == old(pos) + |src|
        invariant buf[..] == Splice(old(buf[..]), old(pos), src[..i])
      {
        SpliceNext(old(buf[..]), dest, src, i);
        buf[dest + i] := src[i];
      }
      assert src[..|src|] == src;
    }

    /** pb_write. */
    method Write(src: bytes) returns (ok: bool)
      requires Now().Valid()
      modifies this, Memory()
      ensures Now().Valid() && buf == old(buf) && Did(old(Now()), Now(), ok, Some(src))
    {
      if |src| > 0 && buf != null {
        if bytesWritten + |src| > maxSize {
          return false;
        }
        BufWrite(src);
      }
      bytesWritten := bytesWritten + |src|;
      return true;
    }

    /** pb_write without data, as done when only sizing. */
    method Count(n: nat)
      requires buf == null
      modifies this
      ensures buf == null && Now() == old(Now()).(bytesWritten := old(bytesWritten) + n)
    {
      bytesWritten := bytesWritten + n;
    }
  }

  // ------------------------------------------------------------------ numbers

  /** `s` is the start of the varint `e`, every byte with its continuation bit, and `v` is still to come. */
  predicate Filled(e: bytes, s: bytes, v: nat) {
    if v > 0 then e == s + EncVarint(v)
    else |s| > 0 && s[|s| - 1] >= 128 && e == s[..|s| - 1] + [s[|s| - 1] - 128]
  }

  lemma FilledNext(e: bytes, s: bytes, v: nat)
    requires v > 0 && Filled(e, s, v)
    ensures |s| < |e| && Filled(e, s + [v % 128 + 128], v / 128)
  {
    var s' := s + [v % 128 + 128];
    if v < 128 {
      assert s'[..|s'| - 1] == s;
    } else {
      assert s + ([v % 128 + 128] + EncVarint(v / 128)) == s' + EncVarint(v / 128);
    }
  }

  /** Clearing the continuation bit of the last byte completes the varint. */
  lemma FilledLast(e: bytes, s: bytes)
    requires Filled(e, s, 0)
    ensures |s| > 0 && s[|s| - 1] >= 128 && s[|s| - 1 := s[|s| - 1] - 128] == e
  {
  }

  /** The loop of pb_encode_varint: seven bits at a time into a buffer of ten bytes. */
  method FillVarint(buffer: array<byte>, value: nat) returns (i: nat)
    requires buffer.Length == 10 && 0 < value < 0x1_0000_0000_0000_0000
    modifies buffer
    ensures i <= 10 && buffer[..i] == EncVarint(value)
  {
    hide EncVarint, VarintLen, Base128, DecVarint64, Filled;
    var v: nat := value;
    i := 0;
    VarintRoundTrip(value, []);
    FilledFirst(value);
    while v != 0
      invariant i <= 10 && Filled(EncVarint(value), buffer[..i], v)
      decreases v
    {
      FilledNext(EncVarint(value), buffer[..i], v);
      ghost var before := buffer[..i];
      buffer[i] := v % 128 + 128;
      assert buffer[..i + 1] == before + [v % 128 + 128];
      v := v / 128;
      i := i + 1;
    }
    ghost var s := buffer[..i];
    FilledLast(EncVarint(value), s);
    buffer[i - 1] := buffer[i - 1] - 128;
    assert buffer[..i] == s[i - 1 := s[i - 1] - 128];
  }

  lemma FilledFirst(v: nat)
    requires v > 0
    ensures Filled(EncVarint(v), [], v)
  {
    assert [] + EncVarint(v) == EncVarint(v);
  }

  /** pb_encode_varint. */
  method EncodeVarint(stream: OStream, value: nat) returns (ok: bool)
    requires stream.Now().Valid() && value < 0x1_0000_0000_0000_0000
    modifies stream, stream.Memory()
    ensures stream.Now().Valid() && stream.buf == old(stream.buf)
    ensures Did(old(stream.Now()), stream.Now(), ok, Some(EncVarint(value)))
  {
    if value <= 0x7F {
      ok := stream.Write([value]);
      return;
    }
    var buffer := new byte[10](_ => 0);
    var i := FillVarint(buffer, value);
    ok := stream.Write(buffer[..i]);
  }

  /** The loop of pb_encode_negative_varint, for builds with 32-bit integers only: the 32 missing upper
      bits, all ones, are fed in at the top while the value is shifted out at the bottom. */
  method FillNegativeVarint(buffer: array<byte>, value: nat) returns (i: nat)
    requires buffer.Length == 10 && 0x8000_0000 <= value < 0x1_0000_0000
    modifies buffer
    ensures i <= 10 && buffer[..i] == EncVarint(0xFFFF_FFFF_0000_0000 + value)
  {
    hide EncVarint, VarintLen, Base128, DecVarint64, BitXor, Pow2, Shl, Shr, Widened, Filled;
    ghost var whole: nat := 0xFFFF_FFFF_0000_0000 + value;
    ghost var wide: nat := whole;
    var v: nat := value;
    var compensation: nat := 32;
    i := 0;
    VarintRoundTrip(whole, []);
    WidenedEnds(value);
    FilledFirst(whole);
    while v != 0
      invariant i <= 10 && v < 0x1_0000_0000 && compensation <= 32
      invariant wide == Widened(v, compensation)
      invariant compensation > 0 ==> v > 0
      invariant Filled(EncVarint(whole), buffer[..i], wide)
      decreases wide
    {
      FilledNext(EncVarint(whole), buffer[..i], wide);
      NarrowShift(v, compensation);
      ghost var before := buffer[..i];
      buffer[i] := v % 128 + 128;
      assert buffer[..i + 1] == before + [wide % 128 + 128];
      v := v / 128;
      if compensation != 0 {
        var bits := if compensation > 7 then 7 else compensation;
        v := BitXor(v, Shl(Shr(0xFF, 8 - bits), 25) % 0x1_0000_0000);
        compensation := compensation - bits;
      }
      wide := wide / 128;
      i := i + 1;
    }
    WidenedEnds(v);
    ghost var s := buffer[..i];
    FilledLast(EncVarint(whole), s);
    buffer[i - 1] := buffer[i - 1] - 128;
    assert buffer[..i] == s[i - 1 := s[i - 1] - 128];
  }

  /** The wide value of which the narrow one holds the low 32 bits, with `compensation` ones above. */
  function Widened(v: nat, compensation: nat): (wide: nat)
    ensures wide >= v
  {
    (Pow2(compensation) - 1) * 0x1_0000_0000 + v
  }

  lemma WidenedEnds(v: nat)
    ensures Widened(v, 32) == 0xFFFF_FFFF_0000_0000 + v && Widened(v, 0) == v
  {
    Pow2Of32();
  }

  /** Shifting the narrow value and filling in ones is shifting the wide value. */
  lemma NarrowShift(v: nat, compensation: nat)
    requires v < 0x1_0000_0000 && compensation <= 32 && (compensation > 0 ==> v > 0)
    ensures var wide := Widened(v, compensation);
      var bits := if compensation > 7 then 7 else compensation;
      var v' := if compensation == 0 then v / 128 else BitXor(v / 128, Shl(Shr(0xFF, 8 - bits), 25) % 0x1_0000_0000);
      wide % 128 == v % 128 && v' < 0x1_0000_0000 && (compensation > 0 ==> v' > 0)
      && wide / 128 == Widened(v', compensation - bits)
  {
    hide BitXor, Shl, Shr, Pow2;
    var bits := if compensation > 7 then 7 else compensation;
    SevenBits(compensation);
    if compensation > 0 {
      SmallPowers(bits);
      ShrOnes(8 - bits, bits);
      ShlBy25(Pow2(bits) - 1);
      DisjointXor(v / 128, Pow2(bits) - 1, 25);
    }
  }

  lemma SmallPowers(bits: nat)
    requires bits <= 7
    ensures bits <= 6 ==> Pow2(bits) <= 64
    ensures Pow2(bits) <= 128 && (bits > 0 ==> Pow2(bits) >= 2)
    ensures Pow2(8) == 256 && Pow2(25) == 0x200_0000
  {
    assert bits == 0 || bits == 1 || bits == 2 || bits == 3 || bits == 4 || bits == 5 || bits == 6 || bits == 7;
    DigitIsShift(0, 3);
    assert Pow128(1) == 128;
    assert Pow2(23) == 4 * Pow2(21);
  }

  lemma ShlBy25(x: nat)
    ensures Shl(x, 25) == 0x200_0000 * x
  {
    DigitIsShift(x, 3);
    assert Digit(x, 1) == 128 * x;
    assert Shl(x, 23) == 4 * Shl(x, 21);
  }

  /** A run of ones: its low seven bits, and the rest. */
  lemma SevenBits(n: nat)
    ensures var bits := if n > 7 then 7 else n;
      Pow2(n) - 1 == 128 * (Pow2(n - bits) - 1) + Pow2(bits) - 1
  {
    if n > 7 {
      var m := n - 7;
      assert Pow2(m + 2) == 4 * Pow2(m) && Pow2(m + 4) == 4 * Pow2(m + 2);
      assert Pow2(m + 6) == 4 * Pow2(m + 4) && Pow2(m + 7) == 2 * Pow2(m + 6);
      assert Pow2(3) == 8 && Pow2(7) == 16 * Pow2(3);
    }
  }

  /** pb_encode_negative_varint writes exactly the ten bytes that the 64-bit pb_encode_varint writes for
      the sign extension of the value. */
  method EncodeNegativeVarint(stream: OStream, value: nat) returns (ok: bool)
    requires stream.Now().Valid() && 0x8000_0000 <= value < 0x1_0000_0000
    modifies stream, stream.Memory()
    ensures stream.Now().Valid() && stream.buf == old(stream.buf)
    ensures var e := EncVarint(ToU64(value - 0x1_0000_0000));
      |e| == 10 && Did(old(stream.Now()), stream.Now(), ok, Some(e))
  {
    TenBytes(value);
    var buffer := new byte[10](_ => 0);
    var i := FillNegativeVarint(buffer, value);
    ok := stream.Write(buffer[..i]);
  }

  lemma TenBytes(value: nat)
    requires 0x8000_0000 <= value < 0x1_0000_0000
    ensures ToU64(value - 0x1_0000_0000) == 0xFFFF_FFFF_0000_0000 + value
    ensures |EncVarint(0xFFFF_FFFF_0000_0000 + value)| == 10
  {
    hide EncVarint;
    var w := 0xFFFF_FFFF_0000_0000 + value;
    NinthPower();
    EncVarintLength(w, 9);
    VarintRoundTrip(w, []);
  }

  /** pb_encode_svarint. */
  method EncodeSvarint(stream: OStream, value: int) returns (ok: bool)
    requires stream.Now().Valid() && -0x8000_0000_0000_0000 <= value < 0x8000_0000_0000_0000
    modifies stream, stream.Memory()
    ensures stream.Now().Valid() && stream.buf == old(stream.buf)
    ensures Did(old(stream.Now()), stream.Now(), ok, Some(EncVarint(ZigZag(value))))
  {
    ok := EncodeVarint(stream, ZigZag(value));
  }

  /** pb_encode_fixed32 (n = 4) and pb_encode_fixed64 (n = 8). */
  method EncodeFixed(stream: OStream, value: nat, n: nat) returns (ok: bool)
    requires stream.Now().Valid()
    modifies stream, stream.Memory()
    ensures stream.Now().Valid() && stream.buf == old(stream.buf)
    ensures Did(old(stream.Now()), stream.Now(), ok, Some(LittleEndian(value, n)))
  {
    var e := new byte[n](_ => 0);
    for i := 0 to n
      invariant forall k :: 0 <= k < i ==> e[k] == Shr(value, 8 * k) % 256
      modifies e
    {
      e[i] := Shr(value, 8 * i) % 256;
    }
    forall k | 0 <= k < n ensures e[..][k] == LittleEndian(value, n)[k] {
      LittleEndianAt(value, n, k);
    }
    assert e[..] == LittleEndian(value, n);
    ok := stream.Write(e[..]);
  }

  /** pb_encode_tag. */
  method EncodeTag(stream: OStream, wireType: nat, tag: nat) returns (ok: bool)
    requires stream.Now().Valid() && wireType < 8 && tag < 0x1_0000_0000
    modifies stream, stream.Memory()
    ensures stream.Now().Valid() && stream.buf == old(stream.buf)
    ensures Did(old(stream.Now()), stream.Now(), ok, Some(EncKey(tag, wireType)))
  {
    OrWireType(tag, wireType);
    ok := EncodeVarint(stream, BitOr(wireType, Shl(tag, 3)));
  }

  lemma OrWireType(tag: nat, wireType: nat)
    requires wireType < 8
    ensures BitOr(wireType, Shl(tag, 3)) == 8 * tag + wireType
  {
    hide BitOr;
    assert Shl(tag, 1) == 2 * tag && Pow2(1) == 2;
    DisjointOr(wireType, tag, 3);
  }

  /** pb_encode_string. */
  method EncodeString(stream: OStream, s: bytes) returns (ok: bool)
    requires stream.Now().Valid()
    modifies stream, stream.Memory()
    ensures stream.Now().Valid() && stream.buf == old(stream.buf)
    ensures Did(old(stream.Now()), stream.Now(), ok, Some(EncString(s)))
  {
    hide EncVarint, Did;
    ghost var v := stream.Now();
    ok := EncodeVarint(stream, ToU64(|s|));
    if !ok {
      DidNot(v, stream.Now(), Some(EncVarint(ToU64(|s|))), Some(s));
      return;
    }
    ghost var v1 := stream.Now();
    ok := stream.Write(s);
    DidThen(v, v1, stream.Now(), Some(EncVarint(ToU64(|s|))), ok, Some(s));
  }
}
