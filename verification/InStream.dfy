/** Input streams over a byte sequence, and the primitive readers. While a substream is open its
    parent's position and byte count are out of step; closing brings them together again. */
module InStreams {
  import opened Bits
  import opened Wire

  class InStream {
    const buf: seq<byte>
    var state: nat       // read position in buf
    var bytesLeft: nat

    ghost predicate Valid()
      reads this
    {
      state + bytesLeft <= |buf|
    }

    /** The bytes that may still be read. */
    ghost function Rest(): seq<byte>
      requires Valid()
      reads this
    {
      buf[state..state + bytesLeft]
    }

    /** Where reading everything would end. */
    ghost function Limit(): nat
      reads this
    {
      state + bytesLeft
    }

    /** Reading went on within the old bounds; after success it ends where it would have. */
    twostate predicate Advanced(ok: bool)
      reads this
    {
      Limit() <= old(Limit()) && (ok ==> Limit() == old(Limit()) && bytesLeft <= old(bytesLeft))
    }

    /** pb_istream_from_buffer, or part of another stream's buffer. */
    constructor (buffer: seq<byte>, at: nat, size: nat)
      requires at + size <= |buffer|
      ensures Valid() && buf == buffer && state == at && bytesLeft == size
    {
      buf, state, bytesLeft := buffer, at, size;
    }

    /** Reads exactly count bytes, or fails and leaves the stream alone. */
    method Read(count: nat) returns (ok: bool, data: seq<byte>)
      requires Valid()
      modifies this
      ensures Valid() && Limit() == old(Limit())
      ensures ok <==> count <= old(bytesLeft)
      ensures ok ==> data == old(Rest())[..count] && Rest() == old(Rest())[count..]
      ensures !ok ==> unchanged(this)
    {
      if bytesLeft < count {
        return false, [];
      }
      data := buf[state..state + count];
      state := state + count;
      bytesLeft := bytesLeft - count;
      return true, data;
    }

    method ReadByte() returns (ok: bool, b: byte)
      requires Valid()
      modifies this
      ensures Valid() && Limit() == old(Limit())
      ensures ok <==> old(Rest()) != []
      ensures ok ==> b == old(Rest())[0] && Rest() == old(Rest())[1..]
      ensures !ok ==> unchanged(this)
    {
      if bytesLeft == 0 {
        return false, 0;
      }
      b := buf[state];
      state := state + 1;
      bytesLeft := bytesLeft - 1;
      return true, b;
    }

    // ------------------------------------------------------------ varints

    /** 32-bit varint; eof reports that there was nothing to read at all. */
    method DecodeVarint32Eof() returns (ok: bool, value: nat, eof: bool)
      requires Valid()
      modifies this
      ensures Valid() && Limit() == old(Limit())
      ensures ok <==> Varint32(old(Rest())).Done?
      ensures ok ==> value == Varint32(old(Rest())).val && Rest() == Varint32(old(Rest())).rest
      ensures eof <==> old(Rest()) == []
    {
      hide Or, Shl, Pow2, HighByteOk, Accumulate32;
      var b;
      eof := false;
      value := 0;
      ok, b := ReadByte();
      if !ok {
        eof := bytesLeft == 0;
        return;
      }
      if b < 128 {
        value := b;
        return;
      }
      value := b % 128;
      var bitpos: nat := 7;
      while true
        invariant Valid() && Limit() == old(Limit())
        invariant Varint32(old(Rest())) == Varint32From(Rest(), bitpos, value)
        decreases bytesLeft
      {
        ok, b := ReadByte();
        if !ok { return; }
        if bitpos >= 32 {
          if !HighByteOk(b, bitpos, value) { return false, value, false; }
        }
        value := Accumulate32(b, bitpos, value);
        bitpos := (bitpos + 7) % 256;
        if b < 128 { break; }
      }
      if bitpos == 35 && (b / 16) % 8 != 0 {
        return false, value, false;
      }
      return true, value, false;
    }

    method DecodeVarint32() returns (ok: bool, value: nat)
      requires Valid()
      modifies this
      ensures Valid() && Limit() == old(Limit())
      ensures ok <==> Varint32(old(Rest())).Done?
      ensures ok ==> value == Varint32(old(Rest())).val && Rest() == Varint32(old(Rest())).rest
    {
      var skipped;
      ok, value, skipped := DecodeVarint32Eof();
    }

    method DecodeVarint64() returns (ok: bool, value: nat)
      requires Valid()
      modifies this
      ensures Valid() && Limit() == old(Limit())
      ensures ok <==> Varint64(old(Rest())).Done?
      ensures ok ==> value == Varint64(old(Rest())).val && Rest() == Varint64(old(Rest())).rest
    {
      hide Or, Shl, Pow2;
      var bitpos: nat := 0;
      value := 0;
      while true
        invariant Valid() && Limit() == old(Limit())
        invariant Varint64(old(Rest())) == Varint64From(Rest(), bitpos, value)
        decreases bytesLeft
      {
        if bitpos >= 64 { return false, value; }
        var b;
        ok, b := ReadByte();
        if !ok { return; }
        value := Or(value, Shl(b % 128, bitpos) % TWO_64);
        bitpos := bitpos + 7;
        if b < 128 { return true, value; }
      }
    }

    method DecodeFixed(n: nat) returns (ok: bool, value: nat)
      requires Valid()
      modifies this
      ensures Valid() && Limit() == old(Limit())
      ensures ok <==> ReadFixed(old(Rest()), n).Done?
      ensures ok ==> value == ReadFixed(old(Rest()), n).val && Rest() == ReadFixed(old(Rest()), n).rest
    {
      var bytes;
      ok, bytes := Read(n);
      value := 0;
      if !ok { return; }
      var i: nat := n;
      while i > 0
        invariant i <= n && Valid() && Limit() == old(Limit()) && Rest() == old(Rest())[n..]
        invariant value == FromLittleEndian(bytes[i..])
      {
        i := i - 1;
        value := bytes[i] + 256 * value;
        assert bytes[i..][1..] == bytes[i + 1..];
      }
      assert bytes[0..] == bytes;
    }

    // ------------------------------------------------------- keys, skipping

    /** A key; a zero key ends the message and reads as end of file. */
    method DecodeTag() returns (ok: bool, wireType: nat, tag: nat, eof: bool)
      requires Valid()
      modifies this
      ensures Valid() && Limit() == old(Limit())
      ensures var key := Varint32(old(Rest()));
              && (ok <==> key.Done? && key.val != 0)
              && (ok ==> tag == key.val / 8 && wireType == key.val % 8)
              && (eof <==> old(Rest()) == [] || (key.Done? && key.val == 0))
              && (key.Done? ==> Rest() == key.rest)
    {
      var key;
      wireType, tag := 0, 0;
      ok, key, eof := DecodeVarint32Eof();
      if !ok { return; }
      if key == 0 {
        return false, 0, 0, true;
      }
      tag := key / 8;
      wireType := key % 8;
    }

    method SkipVarint() returns (ok: bool)
      requires Valid()
      modifies this
      ensures Valid() && Limit() == old(Limit())
      ensures ok <==> Wire.SkipVarint(old(Rest())).Done?
      ensures ok ==> Rest() == Wire.SkipVarint(old(Rest())).rest
    {
      while true
        invariant Valid() && Limit() == old(Limit())
        invariant Wire.SkipVarint(old(Rest())) == Wire.SkipVarint(Rest())
        decreases bytesLeft
      {
        var data;
        ok, data := Read(1);
        if !ok { return; }
        if data[0] < 128 { return true; }
      }
    }

    method SkipString() returns (ok: bool)
      requires Valid()
      modifies this
      ensures Valid() && Limit() == old(Limit())
      ensures ok <==> ReadDelimited(old(Rest())).Done?
      ensures ok ==> Rest() == ReadDelimited(old(Rest())).rest
    {
      var length, skipped;
      ok, length := DecodeVarint32();
      if !ok { return; }
      ok, skipped := Read(length);
    }

    /** Skips one field's payload, knowing only its wire type. */
    method SkipField(wireType: nat) returns (ok: bool)
      requires Valid()
      modifies this
      ensures Valid() && Limit() == old(Limit())
      ensures ok <==> Skip(wireType, old(Rest())).Done?
      ensures ok ==> Rest() == Skip(wireType, old(Rest())).rest
      ensures wireType == 0 ==>
                && (ok <==> HasVarint(old(Rest())))
                && (ok ==> Rest() == old(Rest())[VarintLength(old(Rest()))..])
      ensures wireType == 1 ==> (ok <==> |old(Rest())| >= 8) && (ok ==> Rest() == old(Rest())[8..])
      ensures wireType == 2 ==>
                && (ok <==> ReadDelimited(old(Rest())).Done?)
                && (ok ==> Rest() == ReadDelimited(old(Rest())).rest)
      ensures wireType == 5 ==> (ok <==> |old(Rest())| >= 4) && (ok ==> Rest() == old(Rest())[4..])
      ensures wireType !in {0, 1, 2, 5} ==> !ok
    {
      hide ReadDelimited, Wire.SkipVarint;
      SkipVarintFrame(Rest());
      var skipped;
      if wireType == WT_VARINT {
        ok := SkipVarint();
      } else if wireType == WT_64BIT {
        ok, skipped := Read(8);
      } else if wireType == WT_STRING {
        ok := SkipString();
      } else if wireType == WT_32BIT {
        ok, skipped := Read(4);
      } else {
        ok := false;
      }
    }

    // --------------------------------------------------------- substreams

    /** Opens a substream over a length-delimited payload. The bytes leave this stream's count at
        once, but its position stays at their start until the substream is closed. */
    method MakeStringSubstream() returns (ok: bool, sub: InStream)
      requires Valid()
      modifies this
      ensures fresh(sub) && Valid() && sub.Valid() && sub.buf == buf && Limit() <= old(Limit())
      ensures ok <==> ReadDelimited(old(Rest())).Done?
      ensures ok ==> var d := ReadDelimited(old(Rest()));
                     && sub.Rest() == d.val && sub.state == state
                     && sub.Limit() + bytesLeft == old(Limit())
                     && buf[sub.Limit()..sub.Limit() + bytesLeft] == d.rest
    {
      hide Varint32;
      sub := new InStream(buf, 0, 0);
      var size;
      ok, size := DecodeVarint32();
      if !ok { return; }
      sub := new InStream(buf, state, bytesLeft);
      if sub.bytesLeft < size {
        return false, sub;
      }
      ghost var tail := Rest();
      assert tail[..size] == buf[state..state + size];
      assert tail[size..] == buf[state + size..state + bytesLeft];
      sub.bytesLeft := size;
      bytesLeft := bytesLeft - size;
    }

    /** Whatever was read inside the substream, its parent continues behind the declared length. */
    method CloseStringSubstream(sub: InStream) returns (ok: bool)
      requires sub != this && sub.Valid() && sub.buf == buf && sub.Limit() + bytesLeft <= |buf|
      modifies this, sub
      ensures ok && Valid() && state == old(sub.Limit()) && bytesLeft == old(bytesLeft)
    {
      ok := true;
      if sub.bytesLeft != 0 {
        var skipped;
        ok, skipped := sub.Read(sub.bytesLeft);
      }
      state := sub.state;
    }
  }
}
