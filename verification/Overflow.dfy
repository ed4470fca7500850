/** A struct whose size does not leave room in a 32-bit size_t, and what the room test makes of it. */
module Overflow {
  import opened Bits
  import opened Wire
  import opened Descriptors
  import opened Encoding
  import opened OutStreams
  import opened Encoder

  /** A table of one packed array of n bytes. */
  function Bytes8(n: nat): Field { Field(1, Varint, HType.Repeated, Static, 0, -4, 1, n, Int(0), []) }

  /** All of them minus one: ten bytes each on the wire. */
  function MinusOnes(n: nat): seq<Value> { seq(n, _ => Int(-1)) }

  lemma {:induction false} MinusOnesSize(f: Field, n: nat)
    requires WellFormedField(f) && f.ltype.Varint? && f.dataSize == 1
    ensures AllTyped(f, MinusOnes(n)) && AllEncodable(f, MinusOnes(n))
    ensures |EncPacked(f, MinusOnes(n))| == 10 * n
    decreases n
  {
    hide WellFormedField, EncVarint;
    if n > 0 {
      assert MinusOnes(n)[1..] == MinusOnes(n - 1);
      MinusOnesSize(f, n - 1);
      TenBytes();
    }
  }

  lemma TenBytes()
    ensures |EncVarint(AsUnsigned(-1))| == 10
  {
    hide EncVarint;
    PowersOfTwo();
    VarintSize(AsUnsigned(-1), 9);
    EncVarintAtMostTen(AsUnsigned(-1));
  }

  lemma {:induction false} VarintSize(v: nat, n: nat)
    requires v >= Pow2(7 * n)
    ensures |EncVarint(v)| > n
    decreases n
  {
    if n > 0 {
      Pow2Seven(7 * n - 7);
      VarintSize(v / 128, n - 1);
    }
  }

  lemma MessageSize(n: nat)
    requires 1 <= n <= PB_SIZE_MAX && 10 * n <= SIZE_MAX && 0x1000_0000 <= 10 * n < TWO_32
    ensures var fields, slots := [Bytes8(n)], [Many(n, MinusOnes(n))];
            && WellFormed(fields) && Typed(fields, slots) && Encodable(fields, slots)
            && |EncMsg(fields, slots)| == 10 * n + 6
  {
    var f := Bytes8(n);
    var fields, slots := [f], [Many(n, MinusOnes(n))];
    assert WellFormedField(f);
    hide WellFormedField, EncVarint, EncPacked;
    MinusOnesSize(f, n);
    assert TypedSlot(fields, 0, slots[0]);
    var elems := Entries(slots[0]);
    assert elems == MinusOnes(n);
    assert EncFrom(fields, slots, 1) == [];
    assert EncField(fields, slots, 0) == EncArray(f, elems);
    LengthSize(10 * n);
    KeySize();
    assert EncArray(f, elems) == EncVarint(10) + (EncVarint(10 * n) + EncPacked(f, elems));
  }

  lemma LengthSize(n: nat)
    requires 0x1000_0000 <= n < TWO_32
    ensures |EncVarint(n)| == 5
  {
    hide EncVarint;
    PowersOfTwo();
    VarintSize(n, 4);
    Pow2Seven(28);
    EncVarintLength(n, 4);
  }

  lemma KeySize()
    ensures |EncVarint(10)| == 1
  {
  }

  /** 429496728 bytes of minus one encode to ten bytes short of 2^32. Behind twelve other bytes and the
      length, the room test adds them up to 7 and opens the substream, in however small a buffer. */
  method OverrunExample(buffer: array<byte>) returns (ok: bool, overrun: bool)
    requires SIZE_MAX == 0xFFFF_FFFF == PB_SIZE_MAX && 17 <= buffer.Length <= SIZE_MAX
    modifies buffer
    ensures AddSize(17, 429496728 * 10 + 6) == 7
    ensures !ok && overrun
  {
    hide MinusOnes, EncMsg, WellFormed, Typed, Encodable, EncVarint;
    var n := 429496728;
    MessageSize(n);
    AddSizeWraps(17, n * 10 + 6);
    var s := new OutStream.Writing(buffer, 0, buffer.Length);
    var _ := s.EncodeFixed(0, 8);
    var _ := s.EncodeFixed(0, 4);
    LengthSize(n * 10 + 6);
    ok := EncodeSubmessage(s, [Bytes8(n)], [Many(n, MinusOnes(n))]);
    overrun := s.overrun;
  }
}
