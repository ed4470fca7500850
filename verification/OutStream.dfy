/** Output streams over a byte array, and the primitive writers. A stream without a write callback
    only counts; its ghost output is what it would have written. */
module OutStreams {
  import opened Bits
  import opened Wire
  import opened Descriptors

  /** Unsigned addition in size_t. */
  function AddSize(a: nat, b: nat): nat { SizeT(a + b) }

  lemma AddSizeWraps(a: nat, b: nat)
    requires a <= SIZE_MAX && b <= SIZE_MAX
    ensures AddSize(a, b) == if a + b <= SIZE_MAX then a + b else a + b - SIZE_MAX - 1
  {
    if a + b > SIZE_MAX { ModUnique(a + b, 1, a + b - SIZE_MAX - 1, SIZE_MAX + 1); }
  }

  /** The room test of a submessage, for a stream with w of max bytes used: it also lets a size pass
      that takes the sum beyond SIZE_MAX. */
  lemma RoomTestExact(w: nat, size: nat, max: nat)
    requires w <= max <= SIZE_MAX && size <= SIZE_MAX
    ensures AddSize(w, size) <= max <==> w + size <= max || w + size > SIZE_MAX
  {
    AddSizeWraps(w, size);
  }

  /** Groups already stored, all with their top bit set, on the way to the whole encoding. The last
      group of all still has to lose that bit. */
  ghost predicate Building(whole: seq<byte>, done: seq<byte>, v: nat) {
    if v != 0 then whole == done + EncVarint(v) else done != [] && whole == Finished(done)
  }

  function Finished(done: seq<byte>): seq<byte>
    requires done != []
  {
    var last := |done| - 1;
    done[..last] + [done[last] % 128]
  }

  lemma BuildingStep(whole: seq<byte>, done: seq<byte>, v: nat)
    requires v != 0 && Building(whole, done, v)
    ensures Building(whole, done + [v % 128 + 128], v / 128)
    ensures |done| < |whole|
  {
    var group := v % 128 + 128;
    assert (done + [group])[..|done|] == done;
    if v >= 128 {
      assert done + ([group] + EncVarint(v / 128)) == done + [group] + EncVarint(v / 128);
    }
  }

  lemma BuildingStart(v: nat)
    requires v != 0
    ensures Building(EncVarint(v), [], v)
  {
    assert [] + EncVarint(v) == EncVarint(v);
  }

  lemma BuildingEnd(whole: seq<byte>, done: seq<byte>)
    requires Building(whole, done, 0)
    ensures done != [] && whole == Finished(done)
  {
  }

  class OutStream {
    const sizing: bool          // the write callback is NULL
    const buf: array<byte>
    const maxSize: nat
    ghost const base: nat       // where in buf the stream began
    var state: nat              // write position in buf
    var bytesWritten: nat
    var overrun: bool           // a substream was opened past the capacity; what C does then is undefined
    ghost var output: seq<byte> // everything accepted so far

    /** The count is the length of the output, modulo the range of size_t in a sizing stream. A writing
        stream holds the output in its part of the buffer, with the write position right behind it and
        within the capacity. */
    ghost predicate Valid()
      reads this, buf
    {
      && bytesWritten == SizeT(|output|)
      && maxSize <= SIZE_MAX
      && (!sizing ==>
            && bytesWritten == |output| <= maxSize && base + maxSize <= buf.Length
            && state == base + bytesWritten
            && buf[base..state] == output)
    }

    /** A writing stream has room for n more bytes; a sizing stream always has. */
    predicate Fits(n: nat)
      reads this
    {
      sizing || bytesWritten + n <= maxSize
    }

    /** The buffer outside the stream's own part is as it was. */
    twostate predicate Untouched()
      reads buf
    {
      forall k | 0 <= k < buf.Length && (k < base || k >= base + maxSize) :: buf[k] == old(buf[k])
    }

    /** An attempt to add n bytes opens a substream past the capacity only if it does not succeed and
        the count would leave the range of size_t. */
    twostate predicate OverrunOnlyPast(ok: bool, n: nat)
      reads this
    {
      overrun != old(overrun) ==> !ok && !sizing && old(bytesWritten) + n > SIZE_MAX
    }

    /** pb_ostream_from_buffer, or the part of another stream's buffer that a substream may fill. */
    constructor Writing(buffer: array<byte>, at: nat, size: nat)
      requires at + size <= buffer.Length && size <= SIZE_MAX
      ensures Valid() && !sizing && buf == buffer && base == at && maxSize == size
      ensures output == [] && bytesWritten == 0 && !overrun
    {
      sizing, buf, base, maxSize := false, buffer, at, size;
      state, bytesWritten, output, overrun := at, 0, [], false;
    }

    /** PB_OSTREAM_SIZING */
    constructor Sizing()
      ensures Valid() && sizing && fresh(buf)
      ensures output == [] && bytesWritten == 0 && !overrun
    {
      sizing, buf, base, maxSize := true, new byte[0], 0, 0;
      state, bytesWritten, output, overrun := 0, 0, [], false;
    }

    method BufWrite(data: seq<byte>)
      requires Valid() && !sizing && bytesWritten + |data| <= maxSize
      modifies `state, buf
      ensures state == old(state) + |data|
      ensures buf[base..state] == old(buf[base..state]) + data
      ensures Untouched()
    {
      var dest := state;
      state := dest + |data|;
      for i := 0 to |data|
        invariant state == dest + |data|
        invariant forall k | 0 <= k < i :: buf[dest + k] == data[k]
        invariant forall k | 0 <= k < buf.Length && (k < dest || k >= dest + i) :: buf[k] == old(buf[k])
      {
        buf[dest + i] := data[i];
      }
    }

    /** Accepts all of the data or, when a writing stream lacks room, nothing. */
    method Write(data: seq<byte>) returns (ok: bool)
      requires Valid() && |data| <= SIZE_MAX
      modifies this, buf
      ensures Valid() && Untouched() && overrun == old(overrun)
      ensures ok <==> old(Fits(|data|))
      ensures output == if ok then old(output) + data else old(output)
    {
      AddSizeWraps(bytesWritten, |data|);
      if |data| > 0 && !sizing {
        if AddSize(bytesWritten, |data|) < bytesWritten || AddSize(bytesWritten, |data|) > maxSize {
          return false;
        }
        BufWrite(data);
      }
      AddMod(|output|, |data|, SIZE_MAX + 1);
      bytesWritten := AddSize(bytesWritten, |data|);
      output := output + data;
      return true;
    }

    /** Counting bytes that a sizing stream is only told the number of, itself a size_t. */
    method Advance(count: nat, ghost data: seq<byte>)
      requires Valid() && sizing && count == SizeT(|data|)
      modifies this
      ensures Valid() && output == old(output) + data && overrun == old(overrun)
    {
      AddMod(|output|, count, SIZE_MAX + 1);
      AddMod(|output|, |data|, SIZE_MAX + 1);
      bytesWritten := AddSize(bytesWritten, count);
      output := output + data;
    }

    /** Copies a finished substream's count and position back. */
    method TakeOver(sub: OutStream)
      requires Valid() && sub.Valid() && sub != this && !sizing && !sub.sizing
      requires sub.buf == buf && sub.base == state && bytesWritten + sub.maxSize <= maxSize
      modifies this
      ensures Valid() && output == old(output) + sub.output && overrun == (old(overrun) || sub.overrun)
    {
      assert buf[base..sub.state] == buf[base..state] + buf[state..sub.state];
      bytesWritten := bytesWritten + sub.bytesWritten;
      state := sub.state;
      output := output + sub.output;
      overrun := overrun || sub.overrun;
    }

    // ------------------------------------------------------------ varints

    /** Fills a ten-byte buffer group by group and clears the top bit of the last one. */
    method EncodeVarint(value: nat) returns (ok: bool)
      requires Valid() && value < TWO_64
      modifies this, buf
      ensures Valid() && Untouched() && overrun == old(overrun)
      ensures ok <==> old(Fits(|EncVarint(value)|))
      ensures output == if ok then old(output) + EncVarint(value) else old(output)
    {
      if value <= 0x7F {
        ok := Write([value]);
        return;
      }
      var buffer, i := FillVarint(value);
      ok := Write(buffer[..i]);
    }

    /** Splits the value into groups of seven bits, each with its top bit set but the last. */
    static method FillVarint(value: nat) returns (buffer: array<byte>, i: nat)
      requires 0x7F < value < TWO_64
      ensures fresh(buffer) && i <= buffer.Length == 10 && buffer[..i] == EncVarint(value)
    {
      hide EncVarint, Building;
      buffer := new byte[10];
      i := 0;
      var v := value;
      EncVarintAtMostTen(value);
      BuildingStart(value);
      while v != 0
        invariant i <= 10 && Building(EncVarint(value), buffer[..i], v)
        decreases v
      {
        BuildingStep(EncVarint(value), buffer[..i], v);
        buffer[i] := v % 128 + 128;
        assert buffer[..i + 1] == buffer[..i] + [v % 128 + 128];
        v := v / 128;
        i := i + 1;
      }
      BuildingEnd(EncVarint(value), buffer[..i]);
      buffer[i - 1] := buffer[i - 1] % 128;
      assert buffer[..i] == buffer[..i - 1] + [buffer[i - 1]];
    }

    method EncodeSVarint(value: int) returns (ok: bool)
      requires Valid() && -TWO_63 <= value < TWO_63
      modifies this, buf
      ensures Valid() && Untouched() && overrun == old(overrun)
      ensures ok <==> old(Fits(|EncVarint(ZigZag(value))|))
      ensures output == if ok then old(output) + EncVarint(ZigZag(value)) else old(output)
    {
      var zigzagged;
      var shifted := (AsUnsigned(value) * 2) % TWO_64;
      if value < 0 {
        zigzagged := TWO_64 - 1 - shifted;
      } else {
        zigzagged := shifted;
      }
      ok := EncodeVarint(zigzagged);
    }

    // -------------------------------------------------------- fixed words

    /** The n low bytes of the word, least significant first. */
    method EncodeFixed(value: nat, n: nat) returns (ok: bool)
      requires Valid() && (n == 4 || n == 8)
      modifies this, buf
      ensures Valid() && Untouched() && overrun == old(overrun)
      ensures ok <==> old(Fits(n))
      ensures output == if ok then old(output) + LittleEndian(value, n) else old(output)
    {
      var bytes := FillFixed(value, n);
      ok := Write(bytes[..]);
    }

    static method FillFixed(value: nat, n: nat) returns (bytes: array<byte>)
      ensures fresh(bytes) && bytes[..] == LittleEndian(value, n)
    {
      bytes := new byte[n];
      var v := value;
      for i := 0 to n
        invariant LittleEndian(value, n) == bytes[..i] + LittleEndian(v, n - i)
      {
        ghost var before := bytes[..i];
        bytes[i] := v % 256;
        assert bytes[..i + 1] == before + [bytes[i]];
        v := v / 256;
      }
      assert bytes[..] == bytes[..n];
    }

    // --------------------------------------------------- keys and strings

    method EncodeTag(wireType: nat, fieldNumber: nat) returns (ok: bool)
      requires Valid() && wireType < 8 && fieldNumber < TWO_32
      modifies this, buf
      ensures Valid() && Untouched() && overrun == old(overrun)
      ensures ok <==> old(Fits(|EncVarint(fieldNumber * 8 + wireType)|))
      ensures output == if ok then old(output) + EncVarint(fieldNumber * 8 + wireType) else old(output)
    {
      ok := EncodeVarint(fieldNumber * 8 + wireType);
    }

    /** A length and that many bytes. On failure the length alone may have been written. */
    method EncodeString(data: seq<byte>) returns (ok: bool)
      requires Valid() && |data| <= SIZE_MAX
      modifies this, buf
      ensures Valid() && Untouched() && overrun == old(overrun)
      ensures ok <==> old(Fits(|Delimited(data)|))
      ensures ok ==> output == old(output) + Delimited(data)
      ensures old(output) <= output
    {
      ok := EncodeVarint(|data|);
      if !ok { return; }
      ok := Write(data);
      assert ok ==> output == old(output) + (EncVarint(|data|) + data);
    }
  }
}
