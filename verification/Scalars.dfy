/** Single values in literal terms: which payloads each scalar type accepts, what is sent for a value, and
    when a field without a flag is left out. */
module Scalars {
  import opened Bits
  import opened Wire
  import opened Descriptors
  import opened Encoding
  import opened Decoding
  import opened Canonical
  import opened Arrays

  // --------------------------------------------------------------- decoding

  /** Any number below 2^32 is read as a boolean, and all but zero as 1. */
  lemma BoolExactly(f: Field, u: nat, t: seq<byte>)
    requires WellFormedField(f) && f.ltype.Bool? && u < TWO_32
    ensures DecScalar(f, EncVarint(u) + t) == Done(Int(if u == 0 then 0 else 1), t)
  {
    hide Varint32, EncVarint;
    Varint32RoundTrip(u, t);
  }

  /** The header of a bytes array is as wide as a pb_size_t. */
  lemma HeaderWidth()
    ensures Pow2(8 * BYTES_HEADER) == PB_SIZE_MAX + 1
  {
    PowersOfTwo();
    Pow2Seven(9);
    Pow2Sum(8, 8);
  }

  /** Of the byte strings, a bytes field takes those that fit behind its header, a string field those that
      leave room for a terminator, and a fixed-length field those of its length, and the empty one as zeros. */
  lemma BlobExactly(f: Field, b: seq<byte>, t: seq<byte>)
    requires WellFormedField(f) && |b| < TWO_32
    ensures f.ltype.Bytes? ==>
              DecScalar(f, Delimited(b) + t) == if BYTES_HEADER + |b| <= f.dataSize then Done(Blob(b), t) else Fail
    ensures f.ltype.String? ==>
              DecScalar(f, Delimited(b) + t) == if |b| < f.dataSize then Done(Blob(b), t) else Fail
    ensures f.ltype.FixedLengthBytes? && b != [] ==>
              DecScalar(f, Delimited(b) + t) == if |b| == f.dataSize then Done(Blob(b), t) else Fail
    ensures f.ltype.FixedLengthBytes? && b == [] ==>
              DecScalar(f, Delimited(b) + t) == Done(Blob(seq(f.dataSize, _ => 0)), t)
  {
    hide ReadDelimited, Delimited;
    DelimitedRoundTrip(b, t);
    if f.ltype.FixedLengthBytes? { assert Zeros(f.dataSize) == seq(f.dataSize, _ => 0); }
  }

  /** Words of four and eight bytes are taken as they are. */
  lemma FixedExactly(f: Field, s: seq<byte>)
    requires WellFormedField(f) && (f.ltype.Fixed32? || f.ltype.Fixed64?)
    ensures var n := if f.ltype.Fixed32? then 4 else 8;
            DecScalar(f, s) == if |s| < n then Fail else Done(Int(FromLittleEndian(s[..n])), s[n..])
  {
  }

  // --------------------------------------------------------------- encoding

  /** A string without a zero that leaves room for the terminator is sent as it is and read back. */
  lemma StringExactly(f: Field, b: seq<byte>, t: seq<byte>)
    requires WellFormedField(f) && f.ltype.String? && 0 !in b && |b| < f.dataSize
    ensures TypedValue(f, Blob(b)) && EncValue(f, Blob(b)) == Delimited(b)
    ensures DecScalar(f, EncValue(f, Blob(b)) + t) == Done(Blob(b), t)
  {
    hide Delimited, DecScalar;
    assert b[..|b|] == b;
    OnlyCStr(b, |b|);
    BlobExactly(f, b, t);
  }

  /** A string ends at its first zero. */
  lemma StringCut(f: Field, b: seq<byte>, n: nat)
    requires WellFormedField(f) && f.ltype.String? && |b| <= f.dataSize && n < |b|
    requires 0 !in b[..n] && b[n] == 0
    ensures TypedValue(f, Blob(b)) && EncValue(f, Blob(b)) == EncVarint(n) + b[..n]
  {
    forall k | 0 <= k < n ensures b[k] != 0 { assert b[k] == b[..n][k]; }
    OnlyCStr(b, n);
  }

  /** Any nonzero byte of a bool is sent as 1. */
  lemma BoolSent(f: Field, n: nat)
    requires WellFormedField(f) && f.ltype.Bool? && n < 256
    ensures TypedValue(f, Int(n)) && EncValue(f, Int(n)) == [if n == 0 then 0 else 1]
  {
  }

  /** A boolean is 0 or 1, and a string holds no zero. */
  predicate Normal(f: Field, v: Value)
    requires WellFormedField(f) && !f.ltype.Submessage? && TypedValue(f, v)
  {
    (f.ltype.Bool? ==> v.n <= 1) && (f.ltype.String? ==> 0 !in v.b)
  }

  lemma NormalIsCanon(f: Field, v: Value, prior: Value)
    requires WellFormedField(f) && !f.ltype.Submessage? && TypedValue(f, v) && TypedValue(f, prior)
    ensures CanonValue(f, v, prior) == v <==> Normal(f, v)
  {
    if f.ltype.String? && 0 !in v.b {
      OnlyCStr(v.b, |v.b|);
      assert v.b[..|v.b|] == v.b;
    }
  }

  /** Of the normal scalars, those that the encoder takes, and whose strings have room for their
      terminator, are exactly those that the decoder reads from some bytes. */
  lemma SentIffRead(f: Field, v: Value)
    requires WellFormedField(f) && !f.ltype.Submessage? && TypedValue(f, v) && Normal(f, v)
    ensures EncodableValue(f, v) && (f.ltype.String? ==> |v.b| < f.dataSize)
            <==> exists s :: DecScalar(f, s) == Done(v, [])
  {
    hide TypedValue, WellFormedField, DecScalar, EncValue, Normal;
    NormalIsCanon(f, v, v);
    RoomIs(f, v);
    if EncodableValue(f, v) && RoomValue(f, v) {
      ScalarRoundTrip(f, v, v, []);
      assert DecScalar(f, EncValue(f, v) + []) == Done(v, []);
    }
    if s :| DecScalar(f, s) == Done(v, []) { ReadIsSendable(f, v, s); }
  }

  lemma RoomIs(f: Field, v: Value)
    requires WellFormedField(f) && !f.ltype.Submessage? && TypedValue(f, v) && Normal(f, v)
    ensures RoomValue(f, v) <==> (f.ltype.String? ==> |v.b| < f.dataSize)
  {
    NormalIsCanon(f, v, v);
  }

  lemma ReadIsSendable(f: Field, v: Value, s: seq<byte>)
    requires WellFormedField(f) && !f.ltype.Submessage? && TypedValue(f, v) && Normal(f, v)
    requires DecScalar(f, s) == Done(v, [])
    ensures EncodableValue(f, v) && RoomValue(f, v)
  {
    hide Varint32, Varint64, ReadDelimited, CStr, FromLittleEndian;
    RoomIs(f, v);
  }

  // ------------------------------------------------------- fields left out

  /** The number zero, an empty string, empty bytes, or a value that has no bytes at all. */
  predicate NothingToSend(f: Field, v: Value)
    requires WellFormedField(f) && !f.ltype.Submessage? && TypedValue(f, v)
  {
    v == Int(0) || v == Blob([]) || (f.ltype.String? && v.b[0] == 0)
  }

  lemma NothingIsDefault(f: Field, v: Value)
    requires WellFormedField(f) && !f.ltype.Submessage? && TypedValue(f, v)
    ensures NothingToSend(f, v) <==> DefaultValueTest(f, v)
  {
  }

  /** A scalar without a flag is left out exactly when there is nothing to send of it. */
  lemma ScalarLeftOut(fields: seq<Field>, slots: seq<Slot>, i: nat)
    requires WellFormed(fields) && Typed(fields, slots) && i < |fields|
    requires fields[i].htype.Optional? && fields[i].sizeOffset == 0 && !fields[i].ltype.Submessage?
    ensures |slots| == |fields| && slots[i].One? && WellFormedField(fields[i]) && TypedValue(fields[i], slots[i].v)
    ensures var f, v := fields[i], slots[i].v;
            EncField(fields, slots, i) == [] <==> NothingToSend(f, v)
  {
    hide WellFormed, Typed, WellFormedField, EncField, EncTag, EncValue, NothingToSend;
    FieldOk(fields, slots, i);
    EncFieldEmpty(fields, slots, i);
    NothingIsDefault(fields[i], slots[i].v);
  }

  /** A submessage without a flag is left out exactly when it encodes to nothing and has no blind spot. */
  lemma SubmessageLeftOut(fields: seq<Field>, slots: seq<Slot>, i: nat)
    requires WellFormed(fields) && Typed(fields, slots) && i < |fields|
    requires fields[i].htype.Optional? && fields[i].sizeOffset == 0 && fields[i].ltype.Submessage?
    ensures |slots| == |fields| && slots[i].One? && slots[i].v.Msg?
    ensures var sub, nested := fields[i].sub, slots[i].v.slots;
            && WellFormed(sub) && Typed(sub, nested)
            && (EncField(fields, slots, i) == [] <==> EncMsg(sub, nested) == [] && NoBlindSpots(sub, nested))
  {
    hide WellFormed, Typed, WellFormedField, EncField, EncTag, EncValue, DefaultTest, NoBlindSpots, EncMsg;
    FieldOk(fields, slots, i);
    FieldParts(fields[i]);
    EncFieldEmpty(fields, slots, i);
    DefaultTestIffEmpty(fields[i].sub, slots[i].v.slots);
  }
}
