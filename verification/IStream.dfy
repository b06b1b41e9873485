/** Input streams (pb_istream_t) and the methods of pb_decode.c that read numbers, keys and lengths from
    them.  A substream is a second stream over the same bytes with a nearer end. */
module IStreams {
  import opened Bits
  import opened Wire
  import opened DecodeSpec

  /** pb_istream_t.  `custom` says that the callback is not buf_read; such a source delivers the same
      bytes but is skipped over in chunks of 16. */
  class IStream {
    const data: bytes
    const custom: bool
    var pos: nat
    var bytesLeft: nat

    ghost predicate Valid()
      reads this
    {
      pos + bytesLeft <= |data|
    }

    /** The bytes this stream may still read. */
    ghost function Rest(): bytes
      reads this
      requires Valid()
    {
      data[pos..pos + bytesLeft]
    }

    /** The fixed end of the stream: every call keeps it. */
    ghost function End(): nat
      reads this
    {
      pos + bytesLeft
    }

    /** pb_istream_from_buffer. */
    constructor FromBuffer(buf: bytes)
      ensures Valid() && Rest() == buf && !custom
    {
      data := buf;
      custom := false;
      pos := 0;
      bytesLeft := |buf|;
    }

    /** A stream with a callback of the user's. */
    constructor FromCallback(source: bytes)
      ensures Valid() && Rest() == source && custom
    {
      data := source;
      custom := true;
      pos := 0;
      bytesLeft := |source|;
    }

    /** The structure assignment `*substream = *stream`. */
    constructor Copy(stream: IStream)
      requires stream.Valid()
      ensures Valid() && data == stream.data && custom == stream.custom
      ensures pos == stream.pos && bytesLeft == stream.bytesLeft
    {
      data := stream.data;
      custom := stream.custom;
      pos := stream.pos;
      bytesLeft := stream.bytesLeft;
    }

    /** The callback of a memory stream, buf_read: copies unless there is no buffer. */
    method BufRead(buf: array?<byte>, count: nat)
      requires pos + count <= |data| && (buf != null ==> count <= buf.Length)
      modifies `pos
      modifies if buf == null then {} else {buf}
      ensures pos == old(pos) + count
      ensures buf != null ==> buf[..count] == data[old(pos)..old(pos) + count] && buf[count..] == old(buf[count..])
    {
      var source := pos;
      pos := pos + count;
      if buf != null {
        for i := 0 to count
          invariant pos == source + count && buf[..i] == data[source..source + i]
          invariant buf[count..] == old(buf[count..])
        {
          buf[i] := data[source + i];
        }
      }
    }

    /** pb_read with a buffer, or over a memory stream. */
    method ReadDirect(buf: array?<byte>, count: nat) returns (ok: bool)
      requires Valid() && (buf != null ==> count <= buf.Length)
      modifies this
      modifies if buf == null then {} else {buf}
      ensures Valid() && End() == old(End()) && ok == (count <= old(bytesLeft))
      ensures ok ==> Rest() == old(Rest())[count..]
      ensures !ok ==> pos == old(pos)
      ensures ok && buf != null ==> buf[..count] == old(Rest())[..count] && buf[count..] == old(buf[count..])
    {
      if count == 0 {
        return true;
      }
      if bytesLeft < count {
        return false;
      }
      BufRead(buf, count);
      bytesLeft := bytesLeft - count;
      return true;
    }

    /** pb_read without a buffer.  Over a custom source it reads chunks of 16 bytes, which has the same
        effect as one read of the whole length. */
    method Skip(count: nat) returns (ok: bool)
      requires Valid()
      modifies this
      ensures Valid() && End() == old(End())
      ensures var r := SkipBytes(count, old(Rest())); ok == r.Ok? && (ok ==> Rest() == r.rest)
    {
      if custom && count > 0 {
        var tmp := new byte[16](_ => 0);
        var left := count;
        while left > 16
          invariant Valid() && End() == old(End()) && left <= count
          invariant count - left <= old(bytesLeft) && Rest() == old(Rest())[count - left..]
          modifies this, tmp
        {
          var more := ReadDirect(tmp, 16);
          if !more { return false; }
          left := left - 16;
        }
        ok := ReadDirect(tmp, left);
      } else {
        ok := ReadDirect(null, count);
      }
    }

    /** pb_readbyte. */
    method ReadByte() returns (ok: bool, b: byte)
      requires Valid()
      modifies this
      ensures Valid() && End() == old(End()) && ok == (old(bytesLeft) > 0)
      ensures ok ==> b == old(Rest())[0] && Rest() == old(Rest())[1..]
      ensures !ok ==> pos == old(pos)
    {
      b := 0;
      if bytesLeft == 0 {
        return false, 0;
      }
      b := data[pos];
      pos := pos + 1;
      bytesLeft := bytesLeft - 1;
      ok := true;
    }
  }

  /** pb_decode_varint32_eof. */
  method DecodeVarint32Eof(stream: IStream) returns (ok: bool, dest: nat, eof: bool)
    requires stream.Valid()
    modifies stream
    ensures stream.Valid() && stream.End() == old(stream.End())
    ensures var r := DecVarint32(old(stream.Rest()));
      ok == r.Ok? && (ok ==> dest == r.value && stream.Rest() == r.rest)
    ensures eof == (old(stream.bytesLeft) == 0)
    ensures ok ==> dest < 0x1_0000_0000
  {
    ghost var s := stream.Rest();
    var b: byte;
    eof := false;
    ok, b := stream.ReadByte();
    if !ok {
      return false, 0, stream.bytesLeft == 0;
    }
    var result: nat;
    if b < 128 {
      result := b;
    } else {
      var bitpos: nat := 7;
      result := b % 128;
      while true
        invariant stream.Valid() && stream.End() == old(stream.End())
        invariant DecVarint32(s) == DecVarint32From(stream.Rest(), bitpos, result)
        decreases stream.bytesLeft
      {
        ok, b := stream.ReadByte();
        if !ok {
          return false, 0, false;
        }
        if bitpos >= 32 {
          var signExtension := if bitpos < 63 then 0xFF else 0x01;
          if b % 128 != 0 && (result < 0x8000_0000 || b != signExtension) {
            return false, 0, false;
          }
        } else {
          result := OrShifted(result, b % 128, bitpos);
        }
        bitpos := (bitpos + 7) % 256;
        if b < 128 { break; }
      }
      if bitpos == 35 && b / 16 % 8 != 0 {
        return false, 0, false;
      }
    }
    DecVarint32Bound(s);
    return true, result, false;
  }

  /** pb_decode_varint32. */
  method DecodeVarint32(stream: IStream) returns (ok: bool, dest: nat)
    requires stream.Valid()
    modifies stream
    ensures stream.Valid() && stream.End() == old(stream.End())
    ensures var r := DecVarint32(old(stream.Rest()));
      ok == r.Ok? && (ok ==> dest == r.value && stream.Rest() == r.rest)
    ensures ok ==> dest < 0x1_0000_0000
  {
    var eof;
    ok, dest, eof := DecodeVarint32Eof(stream);
  }

  lemma VarintFrom(s: bytes, k: nat)
    requires k <= |s|
    ensures VarintLen(s[k..]) ==
      if k == |s| then 0
      else if s[k] < 128 then 1
      else if VarintLen(s[k + 1..]) == 0 then 0 else VarintLen(s[k + 1..]) + 1
    ensures VarintLen(s[k..]) <= |s| - k
  {
    if k < |s| { assert s[k..][1..] == s[k + 1..]; }
  }

  /** pb_decode_varint. */
  method DecodeVarint(stream: IStream) returns (ok: bool, dest: nat)
    requires stream.Valid()
    modifies stream
    ensures stream.Valid() && stream.End() == old(stream.End())
    ensures var r := DecVarint64(old(stream.Rest()));
      ok == r.Ok? && (ok ==> dest == r.value && stream.Rest() == r.rest)
  {
    hide VarintLen, Base128, OrShifted64, Pow128;
    ghost var s := stream.Rest();
    ghost var k: nat := 0;
    var bitpos: nat := 0;
    assert Base128(s[..0]) == 0 by { NoDigits(s[..0]); }
    NoPower();
    var result: nat := 0;
    while true
      invariant stream.Valid() && stream.End() == old(stream.End())
      invariant k <= 10 && bitpos == 7 * k && k <= |s| && stream.Rest() == s[k..]
      invariant result == Base128(s[..k]) % 0x1_0000_0000_0000_0000
      invariant k <= 9 ==> result < Pow128(k)
      invariant VarintLen(s) == if VarintLen(s[k..]) == 0 then 0 else k + VarintLen(s[k..])
      decreases stream.bytesLeft
    {
      VarintFrom(s, k);
      if bitpos >= 64 {
        return false, 0;
      }
      var more, b := stream.ReadByte();
      if !more {
        return false, 0;
      }
      NextByte(s, k, result);
      result := OrShifted64(result, b % 128, bitpos);
      bitpos := bitpos + 7;
      k := k + 1;
      if b < 128 { break; }
    }
    return true, result;
  }

  lemma NoDigits(s: bytes)
    requires s == []
    ensures Base128(s) == 0
  {
  }

  lemma NoPower()
    ensures Pow128(0) == 1
  {
  }

  /** One byte of a 64-bit varint. */
  lemma NextByte(s: bytes, k: nat, result: nat)
    requires k <= 9 && k < |s| && result == Base128(s[..k]) % 0x1_0000_0000_0000_0000 && result < Pow128(k)
    ensures var r := OrShifted64(result, s[k] % 128, 7 * k);
      r == Base128(s[..k + 1]) % 0x1_0000_0000_0000_0000 && (k < 9 ==> r < Pow128(k + 1))
    ensures s[k..][1..] == s[k + 1..]
  {
    hide OrShifted64, Base128, Digit, Pow128;
    OrDigit64(result, s[k] % 128, k);
    assert s[..k + 1] == s[..k] + [s[k]];
    Base128Snoc(s[..k], s[k]);
  }

  /** pb_skip_varint. */
  method SkipVarintOf(stream: IStream) returns (ok: bool)
    requires stream.Valid()
    modifies stream
    ensures stream.Valid() && stream.End() == old(stream.End())
    ensures var r := SkipVarint(old(stream.Rest())); ok == r.Ok? && (ok ==> stream.Rest() == r.rest)
  {
    hide VarintLen;
    ghost var s := stream.Rest();
    ghost var k: nat := 0;
    var buf := new byte[1](_ => 0);
    while true
      invariant stream.Valid() && stream.End() == old(stream.End())
      invariant k <= |s| && stream.Rest() == s[k..]
      invariant VarintLen(s) == if VarintLen(s[k..]) == 0 then 0 else k + VarintLen(s[k..])
      decreases stream.bytesLeft
      modifies stream, buf
    {
      VarintFrom(s, k);
      var more := stream.ReadDirect(buf, 1);
      if !more {
        return false;
      }
      assert buf[..1][0] == s[k] && s[k..][1..] == s[k + 1..];
      k := k + 1;
      if buf[0] < 128 { break; }
    }
    return true;
  }

  /** pb_skip_string. */
  method SkipStringOf(stream: IStream) returns (ok: bool)
    requires stream.Valid()
    modifies stream
    ensures stream.Valid() && stream.End() == old(stream.End())
    ensures var r := SkipString(old(stream.Rest())); ok == r.Ok? && (ok ==> stream.Rest() == r.rest)
  {
    var length;
    ok, length := DecodeVarint32(stream);
    if ok {
      ok := stream.Skip(length);
    }
  }

  /** pb_skip_field. */
  method SkipFieldOf(stream: IStream, wireType: nat) returns (ok: bool)
    requires stream.Valid()
    modifies stream
    ensures stream.Valid() && stream.End() == old(stream.End())
    ensures var r := SkipField(wireType, old(stream.Rest())); ok == r.Ok? && (ok ==> stream.Rest() == r.rest)
  {
    match wireType
    case 0 => ok := SkipVarintOf(stream);
    case 1 => ok := stream.Skip(8);
    case 2 => ok := SkipStringOf(stream);
    case 5 => ok := stream.Skip(4);
    case _ => ok := false;
  }

  /** pb_decode_tag: a zero key, or no key at all, is reported as the end of the message. */
  method DecodeTag(stream: IStream) returns (ok: bool, wireType: nat, tag: nat, eof: bool)
    requires stream.Valid()
    modifies stream
    ensures stream.Valid() && stream.End() == old(stream.End())
    ensures var r := DecVarint32(old(stream.Rest()));
      ok == (r.Ok? && r.value != 0)
      && eof == (old(stream.bytesLeft) == 0 || (r.Ok? && r.value == 0))
      && (ok ==> wireType == r.value % 8 && tag == r.value / 8)
      && (r.Ok? ==> stream.Rest() == r.rest)
  {
    wireType, tag := 0, 0;
    var key;
    ok, key, eof := DecodeVarint32Eof(stream);
    if !ok {
      return;
    }
    if key == 0 {
      return false, 0, 0, true;
    }
    tag := key / 8;
    wireType := key % 8;
  }

  /** pb_decode_fixed32 (n = 4) and pb_decode_fixed64 (n = 8). */
  method DecodeFixed(stream: IStream, n: nat) returns (ok: bool, dest: nat)
    requires stream.Valid()
    modifies stream
    ensures stream.Valid() && stream.End() == old(stream.End())
    ensures var r := DecFixed(n, old(stream.Rest()));
      ok == r.Ok? && (ok ==> dest == r.value && stream.Rest() == r.rest)
  {
    ghost var s := stream.Rest();
    var buf := new byte[n](_ => 0);
    dest := 0;
    ok := stream.ReadDirect(buf, n);
    if ok {
      for i := 0 to n
        invariant dest == FromLittleEndian(s[..i]) && buf[..] == s[..n] && n <= |s|
        invariant stream.Valid() && stream.End() == old(stream.End()) && stream.Rest() == s[n..]
      {
        assert buf[..][i] == s[i];
        NextFixedByte(s, i);
        dest := BitOr(dest, Shl(buf[i], 8 * i));
      }
    }
  }

  lemma NextFixedByte(s: bytes, i: nat)
    requires i < |s|
    ensures BitOr(FromLittleEndian(s[..i]), Shl(s[i], 8 * i)) == FromLittleEndian(s[..i + 1])
  {
    hide BitOr, Shl, FromLittleEndian, Pow2;
    FromLittleEndianSnoc(s[..i], s[i]);
    assert s[..i + 1] == s[..i] + [s[i]];
    DisjointOr(FromLittleEndian(s[..i]), s[i], 8 * i);
  }

  /** pb_decode_svarint. */
  method DecodeSvarint(stream: IStream) returns (ok: bool, dest: int)
    requires stream.Valid()
    modifies stream
    ensures stream.Valid() && stream.End() == old(stream.End())
    ensures var r := DecVarint64(old(stream.Rest()));
      ok == r.Ok? && (ok ==> dest == UnZigZag(r.value) && stream.Rest() == r.rest)
  {
    var value;
    dest := 0;
    ok, value := DecodeVarint(stream);
    if ok {
      dest := UnZigZag(value);
    }
  }

  /** pb_make_string_substream: the substream gets the next `size` bytes, and the stream loses them from
      its count while its position still stands before them. */
  method MakeSubstream(stream: IStream) returns (ok: bool, substream: IStream)
    requires stream.Valid()
    modifies stream
    ensures stream.Valid() && fresh(substream) && substream.Valid() && substream.data == stream.data
    ensures var r := DecVarint32(old(stream.Rest()));
      ok == (r.Ok? && r.value <= |r.rest|)
      && (ok ==>
            substream.Rest() == r.rest[..r.value] &&
            substream.End() + stream.bytesLeft == old(stream.End()) &&
            stream.data[substream.End()..substream.End() + stream.bytesLeft] == r.rest[r.value..])
    ensures stream.End() <= old(stream.End()) && (!ok ==> stream.End() == old(stream.End()))
  {
    var size;
    ok, size := DecodeVarint32(stream);
    substream := new IStream.Copy(stream);
    if !ok {
      return;
    }
    if substream.bytesLeft < size {
      return false, substream;
    }
    substream.bytesLeft := size;
    stream.bytesLeft := stream.bytesLeft - size;
  }

  /** pb_close_string_substream: skips what was left unread, so that the stream stands after the whole
      of the substream however much of it was consumed. */
  method CloseSubstream(stream: IStream, substream: IStream) returns (ok: bool)
    requires stream != substream && substream.Valid() && substream.data == stream.data
    requires substream.End() + stream.bytesLeft <= |stream.data|
    modifies stream, substream
    ensures ok && stream.Valid() && stream.pos == old(substream.End()) && stream.bytesLeft == old(stream.bytesLeft)
  {
    if substream.bytesLeft != 0 {
      ok := substream.Skip(substream.bytesLeft);
      if !ok {
        return;
      }
    }
    stream.pos := substream.pos;
    return true;
  }
}
